/** The four feed patterns of the handler all have the shape
      <open>(.*?)<close>
    used with the global flag and `matchAll`. This module models that scan:
    matches are tried left to right, the first position where a match exists
    wins, the lazy capture ends at the first occurrence of `close` and cannot
    cross a line terminator, and the scan resumes where the match ended. */
module Scanner {
  import opened Wrappers
  import opened Text

  /** One result of `matchAll`: where it starts, where it ends (exclusive) and
      its capture group 1. */
  datatype Match = Match(start: nat, end: nat, capture: string)

  /** `q` is where a lazy `.*?` started at `j` stops: `close` occurs at `q`, and
      no earlier position from `j` on holds a line terminator or an
      occurrence of `close`. */
  ghost predicate IsLazyEnd(close: string, text: string, j: nat, q: nat)
  {
    j <= q && OccursAt(close, text, q) &&
    (forall k :: j <= k < q ==> !IsLineTerminator(text[k])) &&
    (forall k :: j <= k < q ==> !OccursAt(close, text, k))
  }

  /** `m` is a match of <open>(.*?)<close> in `text` at `m.start`. */
  ghost predicate IsMatch(open: string, close: string, text: string, m: Match)
  {
    var j := m.start + |open|;
    var q := j + |m.capture|;
    OccursAt(open, text, m.start) && IsLazyEnd(close, text, j, q) &&
    text[j..q] == m.capture && m.end == q + |close|
  }

  /** No match of the pattern starts at a position in [lo, hi). */
  ghost predicate NoMatchBetween(open: string, close: string, text: string, lo: int, hi: int)
  {
    forall m: Match {:trigger IsMatch(open, close, text, m)} :: lo <= m.start < hi ==> !IsMatch(open, close, text, m)
  }

  /** Where the search for match `i` of `ms` begins: `from` for the first
      one, the end of match `i - 1` for the others. */
  function PrevEnd(from: nat, ms: seq<Match>, i: nat): nat
    requires i <= |ms|
  {
    if i == 0 then from else ms[i - 1].end
  }

  /** Each match is the leftmost one at or after the end of the previous one
      (or `from`), and no match starts after the last one. */
  ghost predicate Leftmost(open: string, close: string, text: string, from: nat, ms: seq<Match>)
  {
    (forall i :: 0 <= i < |ms| ==> NoMatchBetween(open, close, text, PrevEnd(from, ms, i), ms[i].start)) &&
    NoMatchBetween(open, close, text, PrevEnd(from, ms, |ms|), |text| + 1)
  }

  /** The matches lie at or after `from`, inside the text, in increasing and
      non-overlapping order. */
  ghost predicate InOrder(text: string, from: nat, ms: seq<Match>)
  {
    (forall i :: 0 <= i < |ms| ==> from <= ms[i].start < ms[i].end <= |text|) &&
    (forall i, j :: 0 <= i < j < |ms| ==> ms[i].end <= ms[j].start)
  }

  /** What a global scan from `from` must return, one match at a time: the
      first element is a match, no match starts between `from` and it, and the
      rest is the scan from where it ends; an empty scan means no match starts
      at or after `from`. */
  ghost predicate IsScanOf(open: string, close: string, text: string, from: nat, ms: seq<Match>)
    decreases |ms|
  {
    if ms == [] then NoMatchBetween(open, close, text, from, |text| + 1)
    else
      IsMatch(open, close, text, ms[0]) && from <= ms[0].start &&
      NoMatchBetween(open, close, text, from, ms[0].start) &&
      IsScanOf(open, close, text, ms[0].end, ms[1..])
  }

  /** The end of the lazy capture started at `j`, if the pattern can close. */
  function LazyEnd(close: string, text: string, j: nat): (r: Option<nat>)
    requires j <= |text|
    ensures r.Some? ==> IsLazyEnd(close, text, j, r.value)
    ensures r.None? ==> forall q: nat :: !IsLazyEnd(close, text, j, q)
    decreases |text| - j
  {
    if OccursAt(close, text, j) then Some(j)
    else if j == |text| || IsLineTerminator(text[j]) then None
    else
      LazyEndStep(close, text, j);
      LazyEnd(close, text, j + 1)
  }

  /** Stepping over a character that neither closes the capture nor ends the
      line keeps every lazy end. */
  lemma LazyEndStep(close: string, text: string, j: nat)
    requires j < |text| && !OccursAt(close, text, j) && !IsLineTerminator(text[j])
    ensures forall q: nat :: IsLazyEnd(close, text, j, q) ==> IsLazyEnd(close, text, j + 1, q)
  {
  }

  lemma LazyEndUnique(close: string, text: string, j: nat, q1: nat, q2: nat)
    requires IsLazyEnd(close, text, j, q1) && IsLazyEnd(close, text, j, q2)
    ensures q1 == q2
  {
  }

  /** The match attempt at position `p`. A match found there is a match of
      the pattern that starts at `p`, takes in at least the opening delimiter
      and ends inside the text; when the attempt fails, no match starts at `p`. */
  function MatchAt(open: string, close: string, text: string, p: nat): (r: Option<Match>)
    requires p <= |text|
    ensures r.Some? ==> r.value.start == p && p + |open| <= r.value.end <= |text|
    ensures r.Some? ==> IsMatch(open, close, text, r.value)
    ensures r.None? ==> NoMatchBetween(open, close, text, p, p + 1)
  {
    if !OccursAt(open, text, p) then None
    else
      match LazyEnd(close, text, p + |open|)
      case None => None
      case Some(q) => Some(Match(p, q + |close|, text[p + |open|..q]))
  }

  /** A match attempt succeeds exactly on the one match that starts there. */
  lemma MatchAtExact(open: string, close: string, text: string, m: Match)
    requires m.start <= |text|
    ensures MatchAt(open, close, text, m.start) == Some(m) <==> IsMatch(open, close, text, m)
  {
    if IsMatch(open, close, text, m) {
      var r := MatchAt(open, close, text, m.start);
      var j := m.start + |open|;
      LazyEndUnique(close, text, j, j + |r.value.capture|, j + |m.capture|);
    }
  }

  /** The `matchAll` scan from position `from`. Every match it returns lies
      at or after `from` and inside the text. */
  function Scan(open: string, close: string, text: string, from: nat): (ms: seq<Match>)
    requires open != [] && from <= |text|
    ensures forall m :: m in ms ==> from <= m.start < m.end <= |text|
    decreases |text| - from
  {
    if from == |text| then []
    else
      match MatchAt(open, close, text, from)
      case None => Scan(open, close, text, from + 1)
      case Some(m) => [m] + Scan(open, close, text, m.end)
  }

  /** Capture group 1 of every match, in order. */
  function Captures(ms: seq<Match>): (cs: seq<string>)
    ensures |cs| == |ms| && forall i :: 0 <= i < |ms| ==> cs[i] == ms[i].capture
  {
    seq(|ms|, i requires 0 <= i < |ms| => ms[i].capture)
  }

  /** `[...text.matchAll(/<open>(.*?)<close>/g)]`, each match read as its
      group 1. No capture holds a line terminator or the closing delimiter. */
  function FindAll(open: string, close: string, text: string): (cs: seq<string>)
    requires open != []
    ensures close != [] ==> forall c :: c in cs ==> NoLineTerminator(c) && !Contains(c, close)
  {
    var ms := Scan(open, close, text, 0);
    ScanMatches(open, close, text, 0);
    if close != [] then CapturesClean(open, close, text, ms); Captures(ms) else Captures(ms)
  }

  /** A match in front of matches that start after it keeps the order. */
  lemma InOrderCons(text: string, from: nat, m: Match, rest: seq<Match>)
    requires from <= m.start < m.end <= |text| && InOrder(text, m.end, rest)
    ensures InOrder(text, from, [m] + rest)
  {
    var ms := [m] + rest;
    forall i | 0 <= i < |ms|
      ensures from <= ms[i].start < ms[i].end <= |text|
    {
      if i > 0 {
        assert ms[i] == rest[i - 1];
      }
    }
    forall i, j | 0 <= i < j < |ms|
      ensures ms[i].end <= ms[j].start
    {
      assert ms[j] == rest[j - 1];
      if i > 0 {
        assert ms[i] == rest[i - 1];
      }
    }
  }

  /** Order is kept when the scan starts earlier. */
  lemma InOrderWeaken(text: string, from: nat, ms: seq<Match>)
    requires InOrder(text, from + 1, ms)
    ensures InOrder(text, from, ms)
  {
  }

  /** The scan's matches lie at or after `from`, inside the text, in
      increasing and non-overlapping order. */
  lemma {:induction false} ScanOrdered(open: string, close: string, text: string, from: nat)
    requires open != [] && from <= |text|
    ensures InOrder(text, from, Scan(open, close, text, from))
    decreases |text| - from
  {
    if from < |text| {
      var r := MatchAt(open, close, text, from);
      if r.None? {
        ScanOrdered(open, close, text, from + 1);
        InOrderWeaken(text, from, Scan(open, close, text, from + 1));
      } else {
        var m := r.value;
        ScanOrdered(open, close, text, m.end);
        InOrderCons(text, from, m, Scan(open, close, text, m.end));
      }
    }
  }

  /** Every element of the scan is a match of the pattern. */
  lemma {:induction false} ScanMatches(open: string, close: string, text: string, from: nat)
    requires open != [] && from <= |text|
    ensures forall m :: m in Scan(open, close, text, from) ==> IsMatch(open, close, text, m)
    decreases |text| - from
  {
    if from < |text| {
      var r := MatchAt(open, close, text, from);
      if r.None? {
        ScanMatches(open, close, text, from + 1);
      } else {
            ScanMatches(open, close, text, r.value.end);
      }
    }
  }

  /** Two adjacent match-free ranges make one. */
  lemma NoMatchJoin(open: string, close: string, text: string, lo: int, mid: int, hi: int)
    requires lo <= mid <= hi
    requires NoMatchBetween(open, close, text, lo, mid) && NoMatchBetween(open, close, text, mid, hi)
    ensures NoMatchBetween(open, close, text, lo, hi)
  {
    forall m: Match | lo <= m.start < hi
      ensures !IsMatch(open, close, text, m)
    {
    }
  }

  /** No match starts at the end of the text or beyond it. */
  lemma NoMatchPastEnd(open: string, close: string, text: string)
    requires open != []
    ensures NoMatchBetween(open, close, text, |text|, |text| + 1)
  {
  }

  /** A position where no match starts can be put in front of a leftmost scan. */
  lemma LeftmostSkip(open: string, close: string, text: string, from: nat, ms: seq<Match>)
    requires from <= |text| && MatchAt(open, close, text, from).None?
    requires InOrder(text, from + 1, ms) && Leftmost(open, close, text, from + 1, ms)
    ensures Leftmost(open, close, text, from, ms)
  {
    if ms == [] {
      NoMatchJoin(open, close, text, from, from + 1, |text| + 1);
    } else {
      assert PrevEnd(from + 1, ms, 0) == from + 1;
      NoMatchJoin(open, close, text, from, from + 1, ms[0].start);
      forall i | 0 < i <= |ms|
        ensures PrevEnd(from, ms, i) == PrevEnd(from + 1, ms, i)
      {
      }
    }
  }

  /** A match at `from` in front of a leftmost scan from its end. */
  lemma LeftmostCons(open: string, close: string, text: string, from: nat, m: Match, rest: seq<Match>)
    requires m.start == from && Leftmost(open, close, text, m.end, rest)
    ensures Leftmost(open, close, text, from, [m] + rest)
  {
    var ms := [m] + rest;
    forall i | 0 < i <= |ms|
      ensures PrevEnd(from, ms, i) == PrevEnd(m.end, rest, i - 1)
    {
      if i > 1 {
        assert ms[i - 1] == rest[i - 2];
      }
    }
    forall i | 0 < i < |ms|
      ensures NoMatchBetween(open, close, text, PrevEnd(from, ms, i), ms[i].start)
    {
      assert ms[i] == rest[i - 1];
    }
  }

  /** The scan skips no match: each match is the leftmost one from where the
      previous one ended, and none is left after the last one. */
  lemma {:induction false} ScanLeftmost(open: string, close: string, text: string, from: nat)
    requires open != [] && from <= |text|
    ensures Leftmost(open, close, text, from, Scan(open, close, text, from))
    decreases |text| - from
  {
    if from == |text| {
      NoMatchPastEnd(open, close, text);
      assert Scan(open, close, text, from) == [];
    } else {
      var r := MatchAt(open, close, text, from);
      if r.None? {
        var rest := Scan(open, close, text, from + 1);
        assert Scan(open, close, text, from) == rest;
        ScanLeftmost(open, close, text, from + 1);
        ScanOrdered(open, close, text, from + 1);
        LeftmostSkip(open, close, text, from, rest);
      } else {
        var rest := Scan(open, close, text, r.value.end);
        assert Scan(open, close, text, from) == [r.value] + rest;
        ScanLeftmost(open, close, text, r.value.end);
        LeftmostCons(open, close, text, from, r.value, rest);
      }
    }
  }

  /** A position where no match starts can be put in front of a scan. */
  lemma ScanOfSkip(open: string, close: string, text: string, from: nat, ms: seq<Match>)
    requires from <= |text| && MatchAt(open, close, text, from).None?
    requires IsScanOf(open, close, text, from + 1, ms)
    ensures IsScanOf(open, close, text, from, ms)
  {
    if ms == [] {
      NoMatchJoin(open, close, text, from, from + 1, |text| + 1);
    } else {
      NoMatchJoin(open, close, text, from, from + 1, ms[0].start);
    }
  }

  /** The scan meets its one-match-at-a-time description. */
  lemma {:induction false} ScanIsScan(open: string, close: string, text: string, from: nat)
    requires open != [] && from <= |text|
    ensures IsScanOf(open, close, text, from, Scan(open, close, text, from))
    decreases |text| - from
  {
    if from == |text| {
      NoMatchPastEnd(open, close, text);
      assert Scan(open, close, text, from) == [];
    } else {
      var r := MatchAt(open, close, text, from);
      if r.None? {
        var rest := Scan(open, close, text, from + 1);
        assert Scan(open, close, text, from) == rest;
        ScanIsScan(open, close, text, from + 1);
        ScanOfSkip(open, close, text, from, rest);
      } else {
        var m := r.value;
        var ms := Scan(open, close, text, from);
        assert ms == [m] + Scan(open, close, text, m.end);
        assert ms[1..] == Scan(open, close, text, m.end);
            ScanIsScan(open, close, text, m.end);
      }
    }
  }

  /** Two matches that are each the first one at or after `from` coincide. */
  lemma FirstMatchesAgree(open: string, close: string, text: string, from: nat, m1: Match, m2: Match)
    requires from <= m1.start && from <= m2.start
    requires IsMatch(open, close, text, m1) && NoMatchBetween(open, close, text, from, m1.start)
    requires IsMatch(open, close, text, m2) && NoMatchBetween(open, close, text, from, m2.start)
    ensures m1 == m2
  {
    assert m1.start == m2.start;
    MatchAtExact(open, close, text, m1);
    MatchAtExact(open, close, text, m2);
  }

  /** A second sequence meeting the same description is the same sequence:
      `IsScanOf` pins down the scan completely. */
  lemma {:induction false} ScanOfUnique(open: string, close: string, text: string, from: nat,
                                        ms1: seq<Match>, ms2: seq<Match>)
    requires IsScanOf(open, close, text, from, ms1) && IsScanOf(open, close, text, from, ms2)
    ensures ms1 == ms2
    decreases |ms1|
  {
    if ms1 != [] && ms2 != [] {
      FirstMatchesAgree(open, close, text, from, ms1[0], ms2[0]);
      ScanOfUnique(open, close, text, ms1[0].end, ms1[1..], ms2[1..]);
      assert ms1 == [ms1[0]] + ms1[1..];
      assert ms2 == [ms2[0]] + ms2[1..];
    } else if ms1 != [] || ms2 != [] {
      // One scan is empty, so no match starts at or after `from`, yet the
      // other one begins with such a match.
      assert false;
    }
  }

  /** `FindAll` is the capture list of the one sequence of matches that
      `IsScanOf` describes from the start of the text. */
  lemma FindAllIsLeftmostScan(open: string, close: string, text: string, ms: seq<Match>)
    requires open != [] && IsScanOf(open, close, text, 0, ms)
    ensures FindAll(open, close, text) == Captures(ms)
  {
    ScanIsScan(open, close, text, 0);
    ScanOfUnique(open, close, text, 0, ms, Scan(open, close, text, 0));
  }

  /** A capture lies inside its lazy span, so it contains no line terminator
      and no occurrence of the closing delimiter. */
  lemma CaptureIsClean(open: string, close: string, text: string, m: Match)
    requires close != [] && IsMatch(open, close, text, m)
    ensures NoLineTerminator(m.capture)
    ensures !Contains(m.capture, close)
  {
    var j := m.start + |open|;
    var q := j + |m.capture|;
    forall k | 0 <= k <= |m.capture|
      ensures !OccursAt(close, m.capture, k)
    {
      if OccursAt(close, m.capture, k) {
        var e := k + |close|;
        assert m.capture == text[j..q];
        forall t | 0 <= t < |close|
          ensures text[j + k + t] == close[t]
        {
          assert close[t] == m.capture[k + t] == text[j + k + t];
        }
        assert text[j + k..j + e] == close;
        assert OccursAt(close, text, j + k) && j <= j + k < q;
      }
    }
    forall i | 0 <= i < |m.capture|
      ensures !IsLineTerminator(m.capture[i])
    {
      assert m.capture == text[j..q];
      assert m.capture[i] == text[j + i];
    }
  }

  /** The captures of a sequence of matches are all clean in the sense of
      `CaptureIsClean`. */
  lemma CapturesClean(open: string, close: string, text: string, ms: seq<Match>)
    requires close != [] && forall m :: m in ms ==> IsMatch(open, close, text, m)
    ensures forall c :: c in Captures(ms) ==> NoLineTerminator(c) && !Contains(c, close)
  {
    forall c | c in Captures(ms)
      ensures NoLineTerminator(c) && !Contains(c, close)
    {
      var i :| 0 <= i < |ms| && c == ms[i].capture;
      assert ms[i] in ms;
      CaptureIsClean(open, close, text, ms[i]);
    }
  }
}
