/**
 * The license lookup: `LICENSE_DB`, `grace_expiry()` and the branches that
 * classify a CNIC number as valid, expired with a grace period, or unknown with a
 * grace period.
 */
module Verifier {
  import opened Wrappers
  import opened CivilDate
  import CnicPattern

  /** One row of `LICENSE_DB`. `status` is the string the code compares with "Valid";
      `expiry` is only ever displayed. */
  datatype Record = Record(name: string, status: string, expiry: string)

  /** What one verification reports. */
  datatype Verdict =
    | Verified(record: Record)
    | ExpiredWithGrace(record: Record, graceUntil: string)
    | UnknownWithGrace(graceUntil: string)
      /** The upload path found no CNIC in the OCR text. */
    | NotDetected
      /** `datetime.now() + timedelta(days=7)` left the range of `datetime`
          (Python raises OverflowError). */
    | GraceOverflow

  /** The sample authority store shipped with the application. */
  const LicenseDb: map<string, Record> := map[
    "34501-4814449-1" := Record("Samar Abbas", "Valid", "2027-05-30"),
    "35201-1234567-8" := Record("Ali Raza", "Expired", "2022-12-12"),
    "34602-6997069-9" := Record("Abdul Rehman", "Valid", "2027-06-30"),
    "34501-4814449-2" := Record("Awais Ali", "Valid", "2027-05-30"),
    "34501-4814449-3" := Record("Afsar", "Expired", "2027-05-30")
  ]

  /** The sample store holds exactly the five CNICs of `LICENSE_DB`: three licenses
      marked "Valid" and two marked "Expired", each with its holder and expiry. */
  lemma LicenseDbContents()
    ensures LicenseDb.Keys == {"34501-4814449-1", "35201-1234567-8", "34602-6997069-9",
                               "34501-4814449-2", "34501-4814449-3"}
    ensures LicenseDb["34501-4814449-1"] == Record("Samar Abbas", "Valid", "2027-05-30")
    ensures LicenseDb["35201-1234567-8"] == Record("Ali Raza", "Expired", "2022-12-12")
    ensures LicenseDb["34602-6997069-9"] == Record("Abdul Rehman", "Valid", "2027-06-30")
    ensures LicenseDb["34501-4814449-2"] == Record("Awais Ali", "Valid", "2027-05-30")
    ensures LicenseDb["34501-4814449-3"] == Record("Afsar", "Expired", "2027-05-30")
    ensures forall c :: c in LicenseDb ==> CnicPattern.IsDocumentNumber(c)
  {
  }

  /** Days of grace granted to an expired or unregistered license. */
  const GraceDays: nat := 7

  /** `(datetime.now() + timedelta(days=7)).strftime("%Y-%m-%d")` with `now` passed in;
      `None` where the addition would overflow. */
  function GraceExpiry(now: DateTime): (r: Option<string>)
    requires IsDateTime(now)
    ensures r.None? <==> Ordinal(now.date) + GraceDays > Ordinal(MaxDate)
    ensures r.Some? ==> |r.value| == 10
    ensures r.Some? ==> var e := ParseDate(r.value);
      e.Some? && IsCalendarDate(e.value) && Ordinal(e.value) == Ordinal(now.date) + GraceDays
  {
    var e := AddDays(now.date, GraceDays);
    InRangeIffOrdinal(e);
    if e.year <= 9999 then
      ParseFormatDate(e);
      Some(FormatDate(e))
    else None
  }

  /** The grace deadline is the rendering of the one date exactly seven days after `now`. */
  lemma GraceExpiryIsSevenDaysLater(now: DateTime, e: Date)
    requires IsDateTime(now) && IsCalendarDate(e) && e.year <= 9999
    ensures GraceExpiry(now) == Some(FormatDate(e)) <==> Ordinal(e) == Ordinal(now.date) + GraceDays
  {
    AddDaysUnique(now.date, GraceDays, e);
    if GraceExpiry(now) == Some(FormatDate(e)) {
      ParseFormatDate(e);
    }
  }

  /** The verdict for a non-valid outcome: the grace deadline, or the overflow. */
  function WithGrace(now: DateTime, make: string -> Verdict): (v: Verdict)
    requires IsDateTime(now)
  {
    match GraceExpiry(now)
    case Some(g) => make(g)
    case None => GraceOverflow
  }

  /** The classification branches of both entry paths: exact key lookup, then the
      status string; the expiry field plays no part. */
  function Classify(candidate: Option<string>, db: map<string, Record>, now: DateTime): (v: Verdict)
    requires IsDateTime(now)
    ensures v.NotDetected? <==> candidate.None?
    ensures v.Verified? <==>
      candidate.Some? && candidate.value in db && db[candidate.value].status == "Valid"
    ensures v.Verified? ==> v.record == db[candidate.value]
    ensures v.ExpiredWithGrace? <==> && candidate.Some? && candidate.value in db
                                      && db[candidate.value].status != "Valid"
                                      && GraceExpiry(now).Some?
    ensures v.ExpiredWithGrace? ==>
      v.record == db[candidate.value] && GraceExpiry(now) == Some(v.graceUntil)
    ensures v.UnknownWithGrace? <==>
      candidate.Some? && candidate.value !in db && GraceExpiry(now).Some?
    ensures v.UnknownWithGrace? ==> GraceExpiry(now) == Some(v.graceUntil)
    ensures v.GraceOverflow? <==>
      && candidate.Some?
      && !(candidate.value in db && db[candidate.value].status == "Valid")
      && GraceExpiry(now).None?
  {
    match candidate
    case None => NotDetected
    case Some(c) =>
      if c in db then
        var info := db[c];
        if info.status == "Valid" then Verified(info)
        else WithGrace(now, g => ExpiredWithGrace(info, g))
      else WithGrace(now, g => UnknownWithGrace(g))
  }

  /** A valid license does not depend on the clock at all. */
  lemma ValidIgnoresClock(c: string, db: map<string, Record>, now1: DateTime, now2: DateTime)
    requires IsDateTime(now1) && IsDateTime(now2)
    requires c in db && db[c].status == "Valid"
    ensures Classify(Some(c), db, now1) == Classify(Some(c), db, now2) == Verified(db[c])
  {
  }

  /** Only the status decides: replacing a record with one of the same status changes
      the reported record and nothing else. */
  lemma StatusAloneDecides(c: string, db: map<string, Record>, now: DateTime, rec: Record)
    requires IsDateTime(now)
    requires c in db && rec.status == db[c].status
    ensures var v, w := Classify(Some(c), db, now), Classify(Some(c), db[c := rec], now);
      && v.Verified? == w.Verified?
      && v.ExpiredWithGrace? == w.ExpiredWithGrace?
      && v.GraceOverflow? == w.GraceOverflow?
      && (v.ExpiredWithGrace? ==> v.graceUntil == w.graceUntil)
  {
  }

  /** A CNIC of the sample store with status "Valid". */
  lemma ExampleValidHolder(now: DateTime)
    requires IsDateTime(now)
    ensures Classify(Some("34501-4814449-1"), LicenseDb, now).Verified?
    ensures Classify(Some("34501-4814449-1"), LicenseDb, now).record.name == "Samar Abbas"
  {
  }

  /** An expired license checked on 2025-01-01 is granted grace until 2025-01-08. */
  lemma ExampleExpiredHolder(hour: int, minute: int)
    requires 0 <= hour < 24 && 0 <= minute < 60
    ensures Classify(Some("35201-1234567-8"), LicenseDb, DateTime(Date(2025, 1, 1), hour, minute))
      == ExpiredWithGrace(LicenseDb["35201-1234567-8"], "2025-01-08")
  {
    var now := DateTime(Date(2025, 1, 1), hour, minute);
    ExampleNewYear();
    GraceExpiryIsSevenDaysLater(now, Date(2025, 1, 8));
  }

  /** A CNIC that is not in the store gets the seven-day grace deadline. */
  lemma ExampleUnknownHolder(now: DateTime)
    requires IsDateTime(now)
    ensures GraceExpiry(now).Some? ==>
      Classify(Some("99999-9999999-9"), LicenseDb, now) == UnknownWithGrace(GraceExpiry(now).value)
  {
    assert "99999-9999999-9" !in LicenseDb;
  }
}
