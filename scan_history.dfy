/**
 * The session's scan history: a list of `(cnic, timestamp)` pairs, one appended by
 * each manual check and by each upload in which a number was detected, shown newest
 * first, at most five at a time.
 */
module ScanHistory {

  /** One `(cnic, "%Y-%m-%d %H:%M")` pair of the history list. */
  datatype Entry = Entry(number: string, stamp: string)

  /** How many entries the history panel shows. */
  const DisplayCount: nat := 5

  function Reverse<T>(s: seq<T>): (r: seq<T>)
    ensures |r| == |s|
    ensures forall k :: 0 <= k < |s| ==> r[k] == s[|s| - 1 - k]
  {
    if s == [] then [] else Reverse(s[1..]) + [s[0]]
  }

  /** `reversed(h[-n:])` for a positive `n`: the last `n` entries (all of them when there
      are fewer), newest first. */
  function Recent<T>(h: seq<T>, n: nat): (r: seq<T>)
    requires 1 <= n
    ensures |r| == if |h| < n then |h| else n
    ensures forall k :: 0 <= k < |r| ==> r[k] == h[|h| - 1 - k]
  {
    Reverse(h[if |h| < n then 0 else |h| - n..])
  }

  /** Appending puts the new entry at the head of the display and pushes the oldest
      shown entry out once the display is full. */
  lemma RecentAfterAppend<T>(h: seq<T>, e: T, n: nat)
    requires 1 <= n
    ensures Recent(h + [e], n) == [e] + Recent(h, n)[..if |h| < n then |h| else n - 1]
  {
    var a := Recent(h + [e], n);
    var b := [e] + Recent(h, n)[..if |h| < n then |h| else n - 1];
    assert |a| == |b|;
    forall k | 0 <= k < |a| ensures a[k] == b[k] {
      if k > 0 {
        assert b[k] == Recent(h, n)[k - 1];
      }
    }
  }

  /** After ten scans E1..E10 the panel shows E10, E9, E8, E7, E6. */
  lemma RecentOfTen<T>(h: seq<T>)
    requires |h| == 10
    ensures Recent(h, DisplayCount) == [h[9], h[8], h[7], h[6], h[5]]
  {
    var r := Recent(h, DisplayCount);
    assert r[0] == h[9] && r[1] == h[8] && r[2] == h[7] && r[3] == h[6] && r[4] == h[5];
  }

  /** The history list held in session state. It only grows: the application never
      removes or edits an entry, and the list has no size cap. */
  class History {
    var entries: seq<Entry>

    constructor ()
      ensures entries == []
    {
      entries := [];
    }

    /** `scan_history.append((cnic, stamp))` */
    method Append(e: Entry)
      modifies this
      ensures entries == old(entries) + [e]
    {
      entries := entries + [e];
    }

    /** The loop `for val, dt in reversed(scan_history[-n:])`: the entries in the order
        the panel visits them. */
    method RecentEntries(n: nat) returns (r: seq<Entry>)
      requires 1 <= n
      ensures r == Recent(entries, n)
    {
      var start := if |entries| < n then 0 else |entries| - n;
      var i := |entries|;
      r := [];
      while i > start
        invariant start <= i <= |entries|
        invariant |r| == |entries| - i
        invariant forall k :: 0 <= k < |r| ==> r[k] == entries[|entries| - 1 - k]
      {
        i := i - 1;
        r := r + [entries[i]];
      }
      assert |r| == |Recent(entries, n)|;
    }
  }
}
