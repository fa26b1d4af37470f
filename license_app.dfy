/**
 * The two entry paths of the page: an uploaded CNIC image (after OCR) and a
 * manually typed CNIC. The manual path always records its input in the history; the
 * upload path records only a detected number. Both classify what they recorded.
 * `now` stands for the clock reads of the page.
 */
module LicenseApp {
  import opened Wrappers
  import opened Ascii
  import opened CivilDate
  import opened CnicPattern
  import opened Verifier
  import opened ScanHistory

  /** Upload path: search the OCR text; only a detected number is recorded and looked up. */
  method VerifyUpload(history: History, ocrText: string, db: map<string, Record>, now: DateTime)
    returns (v: Verdict)
    requires IsDateTime(now)
    modifies history
    ensures v == Classify(Extract(ocrText), db, now)
    ensures Extract(ocrText).None? ==> v == NotDetected && history.entries == old(history.entries)
    ensures Extract(ocrText).Some? ==>
      history.entries == old(history.entries) + [Entry(Extract(ocrText).value, FormatStamp(now))]
  {
    var cnic := Search(ocrText);
    if cnic.Some? {
      history.Append(Entry(cnic.value, FormatStamp(now)));
    }
    v := Classify(cnic, db, now);
  }

  /** Manual path: the stripped input is always recorded, then looked up as it is. */
  method VerifyManual(history: History, input: string, db: map<string, Record>, now: DateTime)
    returns (v: Verdict)
    requires IsDateTime(now)
    modifies history
    ensures v == Classify(Some(Strip(input)), db, now)
    ensures history.entries == old(history.entries) + [Entry(Strip(input), FormatStamp(now))]
  {
    var cnic := Strip(input);
    var entry := Entry(cnic, FormatStamp(now));
    history.Append(entry);
    v := Classify(Some(cnic), db, now);
  }
}
