/** Multi-addresses: the scanner that splits an address into segments, and the printer. */
module MultiAddr {
  import opened Common

  const SLASH: byte := 47
  const COLON: byte := 58
  const SCHEME_END: seq<byte> := [COLON, SLASH, SLASH]

  /** The bytes an address may contain: printable ASCII without the space, `<` and `>`. */
  predicate IsAddrToken(b: byte) {
    33 <= b <= 126 && b != 60 && b != 62
  }

  datatype AddrError = Partial | InvalidToken

  /** A segment of an address. */
  datatype Indicator = Indicator(begin: nat, end: nat)

  // ---------- the grammar ----------

  predicate AllTokens(a: seq<byte>, n: nat)
    requires n <= |a|
  {
    forall i | 0 <= i < n :: IsAddrToken(a[i])
  }

  /** The first `/` from `from` on; the end if there is none. */
  function FirstSlash(a: seq<byte>, from: nat): (n: nat)
    requires from <= |a|
    ensures from <= n <= |a| && forall i | from <= i < n :: a[i] != SLASH
    ensures n < |a| ==> a[n] == SLASH
    decreases |a| - from
  {
    if from == |a| || a[from] == SLASH then from else FirstSlash(a, from + 1)
  }

  /** The first `:` from `from` on that comes before any `/`. */
  function FirstColon(a: seq<byte>, from: nat): (p: Option<nat>)
    requires from <= |a|
    ensures p.Some? ==> from <= p.value < |a| && a[p.value] == COLON
                        && forall i | from <= i < p.value :: a[i] != COLON && a[i] != SLASH
    ensures p.None? ==> forall i | from <= i < FirstSlash(a, from) :: a[i] != COLON
    decreases |a| - from
  {
    if from == |a| || a[from] == SLASH then None
    else if a[from] == COLON then Some(from)
    else FirstColon(a, from + 1)
  }

  /** The colon after the scheme: the first one behind the first byte of the first segment. */
  function SchemeColon(a: seq<byte>): Option<nat> {
    if a == [] || a[0] == SLASH then None else FirstColon(a, 1)
  }

  predicate SchemeEndsAt(a: seq<byte>, p: nat) {
    p + 3 <= |a| && a[p + 1] == SLASH && a[p + 2] == SLASH
  }

  /** The addresses that parse: token bytes only, no leading `/`, and `//` behind the scheme's colon. */
  predicate WellFormed(a: seq<byte>) {
    && AllTokens(a, |a|)
    && (a != [] ==> a[0] != SLASH)
    && (SchemeColon(a).Some? ==> SchemeEndsAt(a, SchemeColon(a).value))
  }

  /** The maximal non-empty runs without `/`, from `from` on. */
  function Runs(a: seq<byte>, from: nat): seq<Indicator>
    requires from <= |a|
    decreases |a| - from
  {
    if from == |a| then []
    else if a[from] == SLASH then Runs(a, from + 1)
    else [Indicator(from, FirstSlash(a, from))] + Runs(a, FirstSlash(a, from))
  }

  /** The segments of an address: the scheme, if there is one, and the runs behind it. */
  function Segments(a: seq<byte>): seq<Indicator> {
    var p := SchemeColon(a);
    if p.Some? && SchemeEndsAt(a, p.value) then [Indicator(0, p.value)] + Runs(a, p.value + 3)
    else Runs(a, 0)
  }

  function Parsed(a: seq<byte>): Result<seq<Indicator>, AddrError> {
    if WellFormed(a) then Ok(Segments(a)) else Err(InvalidToken)
  }

  // ---------- the scanner ----------

  /** The segments still to come when the scanner is at `pos`, possibly within a segment. */
  function Remaining(a: seq<byte>, pos: nat, token: Option<nat>): seq<Indicator>
    requires pos <= |a|
  {
    match token
    case None => Runs(a, pos)
    case Some(begin) => [Indicator(begin, FirstSlash(a, pos))] + Runs(a, FirstSlash(a, pos))
  }

  /** The scanner is in the first segment, and met neither the scheme's colon nor a `/`. */
  ghost predicate InFirstSegment(a: seq<byte>, pos: nat, token: Option<nat>) {
    && pos <= |a|
    && (token.None? ==> pos == 0)
    && (token.Some? ==> token.value == 0 && 0 < pos && a[0] != SLASH
                        && SchemeColon(a) == FirstColon(a, pos) && FirstSlash(a, 0) == FirstSlash(a, pos))
  }

  /** The scanner is behind the first segment: the scheme is settled, and only tokens matter. */
  ghost predicate BehindFirstSegment(a: seq<byte>, pos: nat, token: Option<nat>, paths: seq<Indicator>) {
    && pos <= |a| && a != [] && a[0] != SLASH
    && (SchemeColon(a).Some? ==> SchemeEndsAt(a, SchemeColon(a).value))
    && Segments(a) == paths + Remaining(a, pos, token)
  }

  lemma EndOfFirstSegment(a: seq<byte>, pos: nat)
    requires InFirstSegment(a, pos, Some(0)) && pos < |a| && a[pos] == SLASH
    ensures BehindFirstSegment(a, pos + 1, None, [Indicator(0, pos)])
  {
    assert Runs(a, 0) == [Indicator(0, pos)] + Runs(a, pos);
  }

  lemma EndOfScheme(a: seq<byte>, pos: nat)
    requires InFirstSegment(a, pos, Some(0)) && pos < |a| && a[pos] == COLON && SchemeEndsAt(a, pos)
    ensures BehindFirstSegment(a, pos + 3, None, [Indicator(0, pos)])
  {
  }

  lemma EndOfRun(a: seq<byte>, pos: nat, begin: nat, paths: seq<Indicator>)
    requires BehindFirstSegment(a, pos, Some(begin), paths) && pos < |a| && a[pos] == SLASH
    ensures BehindFirstSegment(a, pos + 1, None, paths + [Indicator(begin, pos)])
  {
    assert Runs(a, pos) == Runs(a, pos + 1);
    Associate(paths, [Indicator(begin, pos)], Runs(a, pos));
  }

  /** Where the scanner stands after the tokens it has passed. */
  ghost predicate Scanning(a: seq<byte>, pos: nat, token: Option<nat>, paths: seq<Indicator>) {
    && pos <= |a| && AllTokens(a, pos)
    && (if paths == [] then InFirstSegment(a, pos, token) else BehindFirstSegment(a, pos, token, paths))
  }

  /** A byte that neither ends nor breaks a segment: it starts one, stays in one, or is a further `/`. */
  lemma ScanOn(a: seq<byte>, pos: nat, token: Option<nat>, paths: seq<Indicator>)
    requires Scanning(a, pos, token, paths) && pos < |a| && IsAddrToken(a[pos])
    requires token.None? && a[pos] == SLASH ==> paths != []
    requires token.Some? ==> a[pos] != SLASH && (a[pos] == COLON ==> paths != [])
    ensures Scanning(a, pos + 1, if token.None? && a[pos] != SLASH then Some(pos) else token, paths)
  {
    if token.None? && a[pos] != SLASH && paths != [] {
      assert Runs(a, pos) == [Indicator(pos, FirstSlash(a, pos + 1))] + Runs(a, FirstSlash(a, pos + 1));
    }
  }

  /** A segment ends: at a `/`, or at the colon of the scheme, which the scanner jumps over. */
  lemma ScanSegment(a: seq<byte>, pos: nat, begin: nat, paths: seq<Indicator>)
    requires Scanning(a, pos, Some(begin), paths) && pos < |a| && IsAddrToken(a[pos])
    ensures a[pos] == SLASH ==> Scanning(a, pos + 1, None, paths + [Indicator(begin, pos)])
    ensures a[pos] == COLON && paths == [] && SchemeEndsAt(a, pos) ==>
              Scanning(a, pos + 3, None, paths + [Indicator(begin, pos)])
  {
    if a[pos] == SLASH {
      if paths == [] {
        EndOfFirstSegment(a, pos);
      } else {
        EndOfRun(a, pos, begin, paths);
      }
    } else if a[pos] == COLON && paths == [] && SchemeEndsAt(a, pos) {
      EndOfScheme(a, pos);
    }
  }

  lemma ScanEnd(a: seq<byte>, token: Option<nat>, paths: seq<Indicator>)
    requires Scanning(a, |a|, token, paths)
    ensures Parsed(a) == Ok(if token.Some? then paths + [Indicator(token.value, |a|)] else paths)
  {
    assert Runs(a, |a|) == [];
    if paths == [] {
      assert token.Some? ==> Runs(a, 0) == [Indicator(0, |a|)] + Runs(a, |a|);
      assert Segments(a) == Runs(a, 0);
      assert token.Some? ==> Segments(a) == paths + [Indicator(0, |a|)];
    } else {
      assert Segments(a) == paths + Remaining(a, |a|, token);
      assert token.Some? ==> Remaining(a, |a|, token) == [Indicator(token.value, |a|)];
      assert paths + [] == paths;
    }
  }

  /** The bytes that make the scanner give up. */
  lemma ScanError(a: seq<byte>, pos: nat, token: Option<nat>, paths: seq<Indicator>)
    requires Scanning(a, pos, token, paths) && pos < |a|
    requires || !IsAddrToken(a[pos])
             || (token.None? && a[pos] == SLASH && paths == [])
             || (token.Some? && a[pos] == COLON && paths == [] && !SchemeEndsAt(a, pos))
    ensures Parsed(a) == Err(InvalidToken)
  {
  }

  /** The scanner: one pass over the bytes, rewound behind the scheme. */
  method Parse(address: seq<byte>) returns (r: Result<seq<Indicator>, AddrError>)
    ensures r == Parsed(address)
  {
    var token: Option<nat> := None;
    var paths: seq<Indicator> := [];
    var pos := 0;
    while pos < |address|
      invariant pos <= |address| && Scanning(address, pos, token, paths)
    {
      var c := address[pos];
      if !IsAddrToken(c) {
        ScanError(address, pos, token, paths);
        return Err(InvalidToken);
      }
      match token {
        case None =>
          if c == SLASH {
            if paths == [] {
              ScanError(address, pos, token, paths);
              return Err(InvalidToken);
            }
            ScanOn(address, pos, token, paths);
          } else {
            ScanOn(address, pos, token, paths);
            token := Some(pos);
          }
          pos := pos + 1;
        case Some(begin) =>
          if c == COLON && paths == [] {
            if |address| - pos < 3 || address[pos + 1] != SLASH || address[pos + 2] != SLASH {
              ScanError(address, pos, token, paths);
              return Err(InvalidToken);
            }
            ScanSegment(address, pos, begin, paths);
            paths := paths + [Indicator(begin, pos)];
            pos := pos + 3;
            token := None;
          } else if c == SLASH {
            ScanSegment(address, pos, begin, paths);
            paths := paths + [Indicator(begin, pos)];
            pos := pos + 1;
            token := None;
          } else {
            ScanOn(address, pos, token, paths);
            pos := pos + 1;
          }
      }
    }
    ScanEnd(address, token, paths);
    if token.Some? {
      paths := paths + [Indicator(token.value, |address|)];
    }
    return Ok(paths);
  }

  // ---------- what the segments are ----------

  /** The colon after the scheme: the first one behind the first byte, with no `/` in front of it. */
  lemma SchemeColonIff(a: seq<byte>, p: nat)
    ensures SchemeColon(a) == Some(p) <==>
              && 1 <= p < |a| && a[p] == 58 && (forall i | 0 <= i < p :: a[i] != 47)
              && forall i | 1 <= i < p :: a[i] != 58
  {
    if a != [] && a[0] != SLASH {
      assert FirstColon(a, 1).None? ==> forall i | 1 <= i < FirstSlash(a, 1) :: a[i] != COLON;
      if 1 <= p < |a| && a[p] == 58 && (forall i | 0 <= i < p :: a[i] != 47) {
        assert FirstSlash(a, 1) > p;
      }
    }
  }

  /** A maximal run without `/` behind `from`. */
  ghost predicate IsRun(a: seq<byte>, from: nat, run: Indicator) {
    && from <= run.begin < run.end <= |a|
    && (forall i | run.begin <= i < run.end :: a[i] != SLASH)
    && (run.begin == from || a[run.begin - 1] == SLASH)
    && (run.end == |a| || a[run.end] == SLASH)
  }

  ghost predicate InOrder(runs: seq<Indicator>, from: nat) {
    && (forall i | 0 <= i < |runs| :: from <= runs[i].begin < runs[i].end)
    && (forall i, j | 0 <= i < j < |runs| :: runs[i].end < runs[j].begin)
  }

  /** Where a scan for runs may stand: at the start, behind a `/`, or at the end of a run. */
  ghost predicate AtSeam(a: seq<byte>, start: nat, from: nat) {
    start <= from <= |a| && (from == start || from == |a| || a[from] == SLASH || a[from - 1] == SLASH)
  }

  lemma {:induction false} RunsSound(a: seq<byte>, start: nat, from: nat, i: nat)
    requires AtSeam(a, start, from) && i < |Runs(a, from)|
    ensures IsRun(a, start, Runs(a, from)[i])
    decreases |a| - from
  {
    if a[from] == SLASH {
      RunsSound(a, start, from + 1, i);
    } else if i > 0 {
      RunsSound(a, start, FirstSlash(a, from), i - 1);
    }
  }

  lemma {:induction false} RunsComplete(a: seq<byte>, start: nat, from: nat, run: Indicator)
    requires AtSeam(a, start, from) && run.begin >= from && IsRun(a, start, run)
    ensures run in Runs(a, from)
    decreases |a| - from
  {
    if a[from] == SLASH {
      RunsComplete(a, start, from + 1, run);
    } else {
      var end := FirstSlash(a, from);
      if run.begin == from {
        assert run.end == end;
      } else {
        assert run.begin - 1 >= end;
        RunsComplete(a, start, end, run);
      }
    }
  }

  lemma {:induction false} RunsBound(a: seq<byte>, from: nat)
    requires from <= |a|
    ensures InOrder(Runs(a, from), from)
    ensures from < |a| && a[from] == SLASH ==> InOrder(Runs(a, from), from + 1)
    ensures forall run <- Runs(a, from) :: from <= run.begin && run.end <= |a|
    decreases |a| - from
  {
    if from < |a| {
      if a[from] == SLASH {
        RunsBound(a, from + 1);
      } else {
        RunsBound(a, FirstSlash(a, from));
      }
    }
  }

  lemma RunsExact(a: seq<byte>, start: nat, run: Indicator)
    requires start <= |a|
    ensures run in Runs(a, start) <==> IsRun(a, start, run)
  {
    if run in Runs(a, start) {
      var i :| 0 <= i < |Runs(a, start)| && Runs(a, start)[i] == run;
      RunsSound(a, start, start, i);
    }
    if IsRun(a, start, run) {
      RunsComplete(a, start, start, run);
    }
  }

  lemma OrderAfter(first: Indicator, rest: seq<Indicator>, from: nat)
    requires first.begin < first.end < from && InOrder(rest, from)
    ensures InOrder([first] + rest, 0)
  {
  }

  /** The segments lie in increasing and disjoint ranges. */
  lemma SegmentsInOrder(a: seq<byte>)
    ensures InOrder(Segments(a), 0)
  {
    var p := SchemeColon(a);
    if p.Some? && SchemeEndsAt(a, p.value) {
      RunsBound(a, p.value + 3);
      OrderAfter(Indicator(0, p.value), Runs(a, p.value + 3), p.value + 3);
    } else {
      RunsBound(a, 0);
    }
  }

  /**
   * What a successful parse gives: the scheme, if the first segment has a colon behind its first
   * byte, and besides it exactly the maximal non-empty runs without `/` of the rest.
   */
  lemma SegmentsAreMaximalRuns(a: seq<byte>, run: Indicator)
    requires WellFormed(a)
    ensures match SchemeColon(a)
            case None => run in Segments(a) <==> IsRun(a, 0, run)
            case Some(p) => run in Segments(a) <==> run == Indicator(0, p) || IsRun(a, p + 3, run)
  {
    var p := SchemeColon(a);
    RunsExact(a, if p.Some? then p.value + 3 else 0, run);
  }

  /** When an address is rejected, in terms of its bytes. */
  lemma RejectedIff(a: seq<byte>)
    ensures Parsed(a).Err? <==>
              || (exists i :: 0 <= i < |a| && (a[i] <= 32 || a[i] == 60 || a[i] == 62 || a[i] >= 127))
              || (a != [] && a[0] == 47)
              || (exists p :: 1 <= p < |a| && a[p] == 58 && (forall i | 0 <= i < p :: a[i] != 47)
                              && (forall i | 1 <= i < p :: a[i] != 58) && !([58, 47, 47] <= a[p..]))
  {
    if a != [] && a[0] != SLASH {
      var q := SchemeColon(a);
      if q.Some? {
        SchemeColonIff(a, q.value);
        assert SchemeEndsAt(a, q.value) <==> [58, 47, 47] <= a[q.value..];
      }
      forall p | 1 <= p < |a| && a[p] == COLON && (forall i | 0 <= i < p :: a[i] != SLASH)
          && (forall i | 1 <= i < p :: a[i] != COLON)
        ensures q == Some(p)
      {
        SchemeColonIff(a, p);
      }
    }
  }
}
