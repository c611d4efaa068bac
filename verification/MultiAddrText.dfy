/** Printing a multi-address, and how printing and parsing undo each other. */
module MultiAddrText {
  import opened Common
  import opened MultiAddr

  type Text = seq<byte>

  ghost predicate InBounds(a: Text, segments: seq<Indicator>) {
    forall i | 0 <= i < |segments| :: segments[i].begin <= segments[i].end <= |a|
  }

  /** The bytes of each segment. */
  ghost function Values(a: Text, segments: seq<Indicator>): (r: seq<Text>)
    requires InBounds(a, segments)
    ensures |r| == |segments|
  {
    seq(|segments|, i requires 0 <= i < |segments| => a[segments[i].begin..segments[i].end])
  }

  // ---------- the printer ----------

  /** The segments from the `i`-th on, with a `/` between them. */
  function JoinFrom(values: seq<Text>, i: nat): Text
    requires i <= |values|
    decreases |values| - i
  {
    if i == |values| then []
    else if i == |values| - 1 then values[i]
    else values[i] + ([SLASH] + JoinFrom(values, i + 1))
  }

  /** The first segment as the scheme, and the others as the path. */
  function UrlOf(values: seq<Text>): Text
    requires |values| > 0
  {
    values[0] + (SCHEME_END + JoinFrom(values, 1))
  }

  /** `to_url_string`, which needs at least one segment. */
  method ToUrlString(values: seq<Text>) returns (rs: Text)
    requires |values| > 0
    ensures rs == UrlOf(values)
  {
    rs := [];
    var last := |values| - 1;
    for i := 0 to |values|
      invariant i == 0 ==> rs == []
      invariant i > 0 ==> UrlOf(values) == rs + JoinFrom(values, i)
    {
      ghost var before := rs;
      rs := rs + values[i];
      if i == 0 {
        rs := rs + SCHEME_END;
        assert [] + values[0] == values[0];
        Associate(values[0], SCHEME_END, JoinFrom(values, 1));
      } else if i != last {
        Associate(before, values[i], [SLASH] + JoinFrom(values, i + 1));
        Associate(before + values[i], [SLASH], JoinFrom(values, i + 1));
        rs := rs + [SLASH];
      } else {
        assert JoinFrom(values, i + 1) == [] && rs + [] == rs;
      }
    }
    assert rs + [] == rs;
  }

  // ---------- segments of a text ----------

  /** The maximal non-empty parts of a text without `/`. */
  function Split(s: Text): seq<Text>
    decreases |s|
  {
    if s == [] then []
    else if s[0] == SLASH then Split(s[1..])
    else [s[..FirstSlash(s, 0)]] + Split(s[FirstSlash(s, 0)..])
  }

  lemma {:induction false} FirstSlashShift(a: Text, from: nat, i: nat)
    requires from <= |a| && i <= |a| - from
    ensures FirstSlash(a[from..], i) + from == FirstSlash(a, from + i)
    decreases |a| - i
  {
    if i < |a| - from && a[from + i] != SLASH {
      FirstSlashShift(a, from, i + 1);
    }
  }

  /** The runs of an address hold the parts of its text. */
  lemma OneMoreValue(a: Text, first: Indicator, rest: seq<Indicator>)
    requires first.begin <= first.end <= |a| && InBounds(a, rest)
    ensures InBounds(a, [first] + rest)
    ensures Values(a, [first] + rest) == [a[first.begin..first.end]] + Values(a, rest)
  {
  }

  lemma SplitAt(a: Text, from: nat)
    requires from < |a|
    ensures a[from] == SLASH ==> Split(a[from..]) == Split(a[from + 1..])
    ensures a[from] != SLASH ==>
              var end := FirstSlash(a, from);
              Split(a[from..]) == [a[from..end]] + Split(a[end..])
  {
    var s := a[from..];
    assert s[1..] == a[from + 1..];
    if a[from] != SLASH {
      var end := FirstSlash(a, from);
      FirstSlashShift(a, from, 0);
      assert s[end - from..] == a[end..] && s[..end - from] == a[from..end];
    }
  }

  lemma {:induction false} ValuesOfRuns(a: Text, from: nat)
    requires from <= |a|
    ensures InBounds(a, Runs(a, from)) && Values(a, Runs(a, from)) == Split(a[from..])
    decreases |a| - from
  {
    if from < |a| {
      SplitAt(a, from);
      if a[from] == SLASH {
        ValuesOfRuns(a, from + 1);
      } else {
        var end := FirstSlash(a, from);
        ValuesOfRuns(a, end);
        OneMoreValue(a, Indicator(from, end), Runs(a, end));
      }
    }
  }

  /** A segment that can stand anywhere: not empty, token bytes only, no `/`. */
  ghost predicate IsSegment(v: Text) {
    v != [] && AllTokens(v, |v|) && forall i | 0 <= i < |v| :: v[i] != SLASH
  }

  ghost predicate AreSegments(values: seq<Text>) {
    forall i | 0 <= i < |values| :: IsSegment(values[i])
  }

  /** A segment that can come first: no colon behind its first byte. */
  ghost predicate CanComeFirst(v: Text) {
    IsSegment(v) && forall i | 1 <= i < |v| :: v[i] != COLON
  }

  lemma {:induction false} SplitSegments(s: Text)
    requires AllTokens(s, |s|)
    ensures AreSegments(Split(s))
    decreases |s|
  {
    if s != [] {
      if s[0] == SLASH {
        SplitSegments(s[1..]);
      } else {
        SplitSegments(s[FirstSlash(s, 0)..]);
        assert IsSegment(s[..FirstSlash(s, 0)]);
      }
    }
  }

  lemma FirstSlashAt(s: Text, n: nat)
    requires n <= |s| && (forall i | 0 <= i < n :: s[i] != SLASH) && (n == |s| || s[n] == SLASH)
    ensures FirstSlash(s, 0) == n
  {
  }

  lemma SplitOne(v: Text)
    requires v != [] && FirstSlash(v, 0) == |v|
    ensures Split(v) == [v]
  {
    assert v[..|v|] == v && v[|v|..] == [];
  }

  lemma SplitFirst(v: Text, rest: Text)
    requires IsSegment(v)
    ensures Split(v + ([SLASH] + rest)) == [v] + Split(rest)
  {
    var s := v + ([SLASH] + rest);
    FirstSlashAt(s, |v|);
    assert s[..|v|] == v && s[|v|..] == [SLASH] + rest;
    assert ([SLASH] + rest)[1..] == rest;
  }

  lemma SliceMore<T>(a: seq<T>, i: nat)
    requires i < |a|
    ensures a[i..] == [a[i]] + a[i + 1..]
  {
  }

  lemma SplitSegment(v: Text)
    requires IsSegment(v)
    ensures Split(v) == [v]
  {
    FirstSlashAt(v, |v|);
    SplitOne(v);
  }

  /** The text `s` starts with the segment `first`, and what comes behind it splits into the others. */
  lemma SplitStep(first: Text, others: seq<Text>, s: Text, rest: Text)
    requires IsSegment(first) && Split(rest) == others
    requires s == if others == [] then first else first + ([SLASH] + rest)
    ensures Split(s) == [first] + others
  {
    if others == [] {
      SplitSegment(first);
      assert [first] + [] == [first];
    } else {
      SplitFirst(first, rest);
    }
  }

  lemma JoinUnfold(values: seq<Text>, i: nat)
    requires i < |values|
    ensures JoinFrom(values, i) ==
              if i + 1 == |values| then values[i] else values[i] + ([SLASH] + JoinFrom(values, i + 1))
  {
  }

  /** The same as being segments, element by element. */
  ghost predicate SegmentsFrom(values: seq<Text>, i: nat)
    requires i <= |values|
    decreases |values| - i
  {
    i < |values| ==> IsSegment(values[i]) && SegmentsFrom(values, i + 1)
  }

  lemma {:induction false} AllSegmentsFrom(values: seq<Text>, i: nat)
    requires i <= |values| && AreSegments(values)
    ensures SegmentsFrom(values, i)
    decreases |values| - i
  {
    if i < |values| {
      AllSegmentsFrom(values, i + 1);
    }
  }

  lemma {:induction false} SplitJoinFrom(values: seq<Text>, i: nat)
    requires i <= |values| && SegmentsFrom(values, i)
    ensures Split(JoinFrom(values, i)) == values[i..]
    decreases |values| - i
  {
    if i < |values| {
      SplitJoinFrom(values, i + 1);
      JoinUnfold(values, i);
      SliceMore(values, i);
      SplitStep(values[i], values[i + 1..], JoinFrom(values, i), JoinFrom(values, i + 1));
    }
  }

  lemma SplitJoin(values: seq<Text>, i: nat)
    requires i <= |values| && AreSegments(values)
    ensures Split(JoinFrom(values, i)) == values[i..]
  {
    AllSegmentsFrom(values, i);
    SplitJoinFrom(values, i);
  }

  // ---------- normal form ----------

  /** No `/` at either end, and no two in a row. */
  predicate Tidy(s: Text) {
    s == [] || (s[0] != SLASH && s[|s| - 1] != SLASH
        && forall i, j | 0 <= i < |s| && 0 <= j < |s| && j == i + 1 :: s[i] != SLASH || s[j] != SLASH)
  }

  /** An address as the printer writes it: with a scheme, and a tidy path. */
  predicate Normal(a: Text) {
    SchemeColon(a).Some? && SchemeEndsAt(a, SchemeColon(a).value) && Tidy(a[SchemeColon(a).value + 3..])
  }

  /** A text the printer may write behind the scheme. */
  ghost predicate IsPath(s: Text) {
    Tidy(s) && AllTokens(s, |s|)
  }

  lemma PathMore(v: Text, rest: Text)
    requires IsSegment(v) && IsPath(rest) && rest != []
    ensures IsPath(v) && IsPath(v + ([SLASH] + rest))
  {
  }

  lemma {:induction false} JoinTidy(values: seq<Text>, i: nat)
    requires i <= |values| && AreSegments(values)
    ensures IsPath(JoinFrom(values, i))
    ensures i < |values| ==> JoinFrom(values, i) != []
    decreases |values| - i
  {
    if i < |values| {
      assert IsSegment(values[i]);
      if i < |values| - 1 {
        JoinTidy(values, i + 1);
        PathMore(values[i], JoinFrom(values, i + 1));
      }
    }
  }

  /** Joining looks only at the segments from its start on. */
  lemma {:induction false} JoinShift(first: Text, values: seq<Text>, i: nat)
    requires i <= |values|
    ensures JoinFrom([first] + values, i + 1) == JoinFrom(values, i)
    decreases |values| - i
  {
    if i < |values| {
      assert ([first] + values)[i + 1] == values[i];
      JoinShift(first, values, i + 1);
    }
  }

  lemma CutAtSlash(s: Text, n: nat)
    requires n < |s| && s[n] == SLASH
    ensures s == s[..n] + ([SLASH] + s[n + 1..])
  {
    assert s == s[..n] + s[n..] && s[n..] == [s[n]] + s[n + 1..];
  }

  lemma TidyAround(s: Text, n: nat)
    requires Tidy(s) && n < |s| && s[n] == SLASH
    ensures n > 0 && n + 1 < |s| && s[n + 1] != SLASH
  {
  }

  lemma TidyRest(s: Text, n: nat)
    requires Tidy(s) && n < |s| && s[n] != SLASH
    ensures Tidy(s[n..])
  {
    var rest := s[n..];
    forall i, j | 0 <= i < j < |rest| && j == i + 1 ensures rest[i] != SLASH || rest[j] != SLASH {
      assert rest[i] == s[n + i] && rest[j] == s[n + j];
    }
  }

  lemma SplitSlash(s: Text)
    requires s != [] && s[0] == SLASH
    ensures Split(s) == Split(s[1..])
  {
  }

  lemma SplitHead(s: Text)
    requires s != [] && s[0] != SLASH
    ensures Split(s) == [s[..FirstSlash(s, 0)]] + Split(s[FirstSlash(s, 0)..])
  {
  }

  /** A tidy text with a `/` is a segment, a `/`, and a tidy text that is not empty. */
  lemma TidyParts(s: Text, n: nat)
    requires Tidy(s) && n == FirstSlash(s, 0) < |s|
    ensures n > 0 && s == s[..n] + ([SLASH] + s[n + 1..])
    ensures Tidy(s[n + 1..]) && s[n + 1..] != [] && s[n + 1] != SLASH
    ensures Split(s) == [s[..n]] + Split(s[n + 1..]) && Split(s[n + 1..]) != []
  {
    TidyAround(s, n);
    CutAtSlash(s, n);
    TidyRest(s, n + 1);
    SplitHead(s);
    SplitSlash(s[n..]);
    assert s[n..][1..] == s[n + 1..];
    SplitHead(s[n + 1..]);
  }

  lemma JoinMore(first: Text, values: seq<Text>)
    requires values != []
    ensures JoinFrom([first] + values, 0) == first + ([SLASH] + JoinFrom(values, 0))
  {
    JoinShift(first, values, 0);
  }

  lemma {:induction false} JoinSplit(s: Text)
    requires Tidy(s)
    ensures JoinFrom(Split(s), 0) == s
    decreases |s|
  {
    if s != [] {
      var n := FirstSlash(s, 0);
      if n == |s| {
        SplitOne(s);
      } else {
        TidyParts(s, n);
        JoinSplit(s[n + 1..]);
        JoinMore(s[..n], Split(s[n + 1..]));
      }
    }
  }

  // ---------- parsing and printing undo each other ----------

  /** The values of a parsed address: the scheme, if there is one, and the parts of the rest. */
  lemma ParsedValues(a: Text)
    requires WellFormed(a)
    ensures InBounds(a, Segments(a))
    ensures match SchemeColon(a)
            case Some(p) => Values(a, Segments(a)) == [a[..p]] + Split(a[p + 3..])
            case None => Values(a, Segments(a)) == Split(a)
  {
    var p := SchemeColon(a);
    if p.Some? {
      ValuesOfRuns(a, p.value + 3);
      assert Values(a, Segments(a)) == [a[0..p.value]] + Values(a, Runs(a, p.value + 3));
    } else {
      ValuesOfRuns(a, 0);
      assert a[0..] == a;
    }
  }

  /** The segments of a parsed address can be printed: each is one, and the first can come first. */
  lemma ParsedSegments(a: Text)
    requires WellFormed(a)
    ensures InBounds(a, Segments(a))
    ensures AreSegments(Values(a, Segments(a)))
    ensures Segments(a) != [] ==> CanComeFirst(Values(a, Segments(a))[0])
  {
    ParsedValues(a);
    var p := SchemeColon(a);
    if p.Some? {
      SplitSegments(a[p.value + 3..]);
      assert IsSegment(a[..p.value]);
    } else {
      SplitSegments(a);
      if a != [] {
        var first := a[..FirstSlash(a, 0)];
        assert Split(a)[0] == first;
        assert forall i | 1 <= i < |first| :: a[i] != COLON;
      }
    }
  }

  /** The text a printer writes starts with its scheme. */
  lemma PrintedScheme(values: seq<Text>)
    requires |values| > 0 && AreSegments(values) && CanComeFirst(values[0])
    ensures var u := UrlOf(values);
            var n := |values[0]|;
            && SchemeColon(u) == Some(n) && SchemeEndsAt(u, n)
            && u[..n] == values[0] && u[n + 3..] == JoinFrom(values, 1)
  {
    var u := UrlOf(values);
    var n := |values[0]|;
    assert forall k | 0 <= k < n :: u[k] == values[0][k];
    assert u[n] == COLON && u[n + 1] == SLASH && u[n + 2] == SLASH;
    assert n > 0;
    var p := FirstColon(u, 1);
    assert FirstSlash(u, 1) > n;
    assert p == Some(n);
  }

  lemma PrintedTokens(first: Text, path: Text)
    requires IsSegment(first) && AllTokens(path, |path|)
    ensures var u := first + (SCHEME_END + path);
            AllTokens(u, |u|) && u[0] != SLASH
  {
  }

  /** Printing any list of segments and parsing the result gives the list back. */
  lemma PrintThenParse(values: seq<Text>)
    requires |values| > 0 && AreSegments(values) && CanComeFirst(values[0])
    ensures var u := UrlOf(values);
            && Parsed(u) == Ok(Segments(u)) && InBounds(u, Segments(u))
            && Values(u, Segments(u)) == values && Normal(u)
  {
    var u := UrlOf(values);
    PrintedScheme(values);
    JoinTidy(values, 1);
    PrintedTokens(values[0], JoinFrom(values, 1));
    ParsedValues(u);
    SplitJoin(values, 1);
    assert [values[0]] + values[1..] == values;
  }

  /** A parsed address has no segments, which the printer needs, exactly when it is empty. */
  lemma NoSegmentsIff(a: Text)
    requires WellFormed(a)
    ensures Segments(a) == [] <==> a == []
  {
  }

  /** Parsing, printing and parsing again gives the same segments. */
  lemma ParseThenPrint(a: Text)
    requires WellFormed(a) && a != []
    ensures InBounds(a, Segments(a))
    ensures var values := Values(a, Segments(a));
            var u := UrlOf(values);
            && Parsed(u) == Ok(Segments(u)) && InBounds(u, Segments(u))
            && Values(u, Segments(u)) == values
            && UrlOf(Values(u, Segments(u))) == u
  {
    NoSegmentsIff(a);
    ParsedSegments(a);
    PrintThenParse(Values(a, Segments(a)));
  }

  lemma SchemeParts(a: Text, p: nat)
    requires p < |a| && a[p] == COLON && SchemeEndsAt(a, p)
    ensures a == a[..p] + (SCHEME_END + a[p + 3..])
  {
  }

  lemma NormalText(a: Text, p: nat)
    requires p < |a| && a[p] == COLON && SchemeEndsAt(a, p) && Tidy(a[p + 3..])
    ensures UrlOf([a[..p]] + Split(a[p + 3..])) == a
  {
    JoinSplit(a[p + 3..]);
    JoinShift(a[..p], Split(a[p + 3..]), 0);
    SchemeParts(a, p);
  }

  lemma NormalIsPrinted(a: Text)
    requires WellFormed(a) && Normal(a)
    ensures InBounds(a, Segments(a)) && Segments(a) != [] && UrlOf(Values(a, Segments(a))) == a
  {
    ParsedValues(a);
    NormalText(a, SchemeColon(a).value);
  }

  /** The printer gives an address back unchanged exactly when it has a scheme and a tidy path. */
  lemma PrintIsIdentityIff(a: Text)
    requires WellFormed(a) && a != []
    ensures InBounds(a, Segments(a))
    ensures UrlOf(Values(a, Segments(a))) == a <==> Normal(a)
  {
    NoSegmentsIff(a);
    ParsedSegments(a);
    if Normal(a) {
      NormalIsPrinted(a);
    }
    if UrlOf(Values(a, Segments(a))) == a {
      PrintThenParse(Values(a, Segments(a)));
    }
  }
}
