/**
 * The document-number search at the end of `extract_cnic`: the first
 * substring of the OCR text matching `\d{5}-\d{7}-\d`.
 *
 * The pattern has no alternation and no variable repetition, so every match is
 * exactly `Width` characters long and a leftmost match is the window at the
 * smallest start index that satisfies the pattern.
 */
module CnicPattern {
  import opened Wrappers
  import opened Ascii

  /** Length of a match of `\d{5}-\d{7}-\d`. */
  const Width: nat := 15

  /** `count` digits in `s` starting at index `from`. */
  predicate DigitsAt(s: string, from: int, count: nat) {
    0 <= from && from + count <= |s| && forall k :: from <= k < from + count ==> IsDigit(s[k])
  }

  /** The pattern matches the window of `s` starting at index `i`:
      five digits, `-`, seven digits, `-`, one digit. */
  predicate Matches(s: string, i: int)
    ensures Matches(s, i) ==> 0 <= i && i + Width <= |s|
    ensures Matches(s, i) ==>
      forall k :: i <= k < i + Width ==> (IsDigit(s[k]) <==> k != i + 5 && k != i + 13)
  {
    && 0 <= i && i + Width <= |s|
    && DigitsAt(s, i, 5)
    && s[i + 5] == '-'
    && DigitsAt(s, i + 6, 7)
    && s[i + 13] == '-'
    && IsDigit(s[i + 14])
  }

  /** A whole string of the form DDDDD-DDDDDDD-D. */
  predicate IsDocumentNumber(w: string) {
    |w| == Width && Matches(w, 0)
  }

  /** A window matches exactly when the substring it spans is a document number. */
  lemma MatchesWindow(s: string, i: int)
    requires 0 <= i && i + Width <= |s|
    ensures Matches(s, i) <==> IsDocumentNumber(s[i..i + Width])
  {
    var w := s[i..i + Width];
    assert forall k :: 0 <= k < Width ==> w[k] == s[i + k];
    if IsDocumentNumber(w) {
      assert forall k :: i <= k < i + 5 ==> s[k] == w[k - i];
      assert forall k :: i + 6 <= k < i + 13 ==> s[k] == w[k - i];
    }
  }

  /** The leftmost start index at or after `i` at which the pattern matches. */
  function FindFrom(s: string, i: nat): (r: Option<nat>)
    decreases |s| - i
    ensures r.Some? ==> i <= r.value && Matches(s, r.value)
    ensures r.Some? ==> forall j :: i <= j < r.value ==> !Matches(s, j)
    ensures r.None? ==> forall j :: i <= j ==> !Matches(s, j)
  {
    if i + Width > |s| then None
    else if Matches(s, i) then Some(i)
    else FindFrom(s, i + 1)
  }

  /** `re.search(r'\d{5}-\d{7}-\d', text)` followed by `match.group() if match else None`. */
  function Extract(text: string): (r: Option<string>)
    ensures r.Some? ==> IsDocumentNumber(r.value)
  {
    match FindFrom(text, 0)
    case None => None
    case Some(i) =>
      MatchesWindow(text, i);
      Some(text[i..i + Width])
  }

  /** The result is the window at `i` whenever `i` matches and no smaller index does;
      together with `ExtractSound` this determines `Extract` completely. */
  lemma ExtractLeftmost(text: string, i: int)
    requires Matches(text, i)
    requires forall j :: 0 <= j < i ==> !Matches(text, j)
    ensures Extract(text) == Some(text[i..i + Width])
  {
    var r := FindFrom(text, 0);
    assert r.Some? && r.value == i;
  }

  /** A returned candidate is never fabricated: it is the text's window at a matching
      start index, and no earlier index starts a match. */
  lemma ExtractSound(text: string)
    requires Extract(text).Some?
    ensures exists i :: && Matches(text, i)
                        && Extract(text).value == text[i..i + Width]
                        && (forall j :: 0 <= j < i ==> !Matches(text, j))
  {
    var i := FindFrom(text, 0).value;
    assert Matches(text, i) && Extract(text).value == text[i..i + Width];
  }

  /** No candidate exactly when no index of the text starts a match. */
  lemma ExtractNoneIff(text: string)
    ensures Extract(text).None? <==> forall i :: !Matches(text, i)
  {
    if Extract(text).Some? {
      assert Matches(text, FindFrom(text, 0).value);
    }
  }

  /** A document number embedded anywhere in surrounding noise is found, at its own
      position or earlier (an earlier overlapping match wins). */
  lemma ExtractFindsEmbedded(before: string, w: string, after: string)
    requires IsDocumentNumber(w)
    ensures var r := FindFrom(before + w + after, 0); r.Some? && r.value <= |before|
    ensures Extract(before + w + after).Some?
  {
    var s := before + w + after;
    assert s[|before|..|before| + Width] == w;
    MatchesWindow(s, |before|);
  }

  /** The same search written as the scan loop a regular-expression engine performs
      for a fixed-length pattern. */
  method Search(text: string) returns (r: Option<string>)
    ensures r == Extract(text)
  {
    var i := 0;
    while i + Width <= |text|
      invariant 0 <= i
      invariant forall j :: 0 <= j < i ==> !Matches(text, j)
    {
      if Matches(text, i) {
        ExtractLeftmost(text, i);
        return Some(text[i..i + Width]);
      }
      i := i + 1;
    }
    ExtractNoneIff(text);
    return None;
  }

  /** A number preceded by hyphen-free text is exactly what is extracted: no window that
      starts in the prefix can have its first hyphen in place. */
  lemma ExtractAfterHyphenFreePrefix(before: string, w: string, after: string)
    requires '-' !in before
    requires IsDocumentNumber(w)
    ensures Extract(before + w + after) == Some(w)
  {
    var s := before + w + after;
    var n := |before|;
    assert s[n..n + Width] == w;
    MatchesWindow(s, n);
    forall j | 0 <= j < n ensures !Matches(s, j) {
      if j + 5 < n {
        assert s[j + 5] == before[j + 5];
      } else {
        assert s[j + 5] == w[j + 5 - n];
      }
    }
    ExtractLeftmost(s, n);
  }

  /** OCR text with words around the number: the number itself is extracted. */
  lemma ExampleNoisyCard()
    ensures Extract("Name: John D0E CNIC 34501-4814449-1 Punjab") == Some("34501-4814449-1")
  {
    var w := "34501-4814449-1";
    assert "Name: John D0E CNIC 34501-4814449-1 Punjab" == "Name: John D0E CNIC " + w + " Punjab";
    ExtractAfterHyphenFreePrefix("Name: John D0E CNIC ", w, " Punjab");
  }

  /** Inside a longer digit run the leftmost window wins, so a leading digit is skipped. */
  lemma ExampleLongDigitRun()
    ensures Extract("123456-1234567-1") == Some("23456-1234567-1")
  {
    var s, w := "123456-1234567-1", "23456-1234567-1";
    assert s == "1" + w;
    assert s[1..16] == w;
    assert FindFrom(s, 0) == FindFrom(s, 1) by { assert s[5] == '6'; }
    assert FindFrom(s, 1) == Some(1);
  }
}
