/** Merging the variables of an environment file with the explicit ones. */
module EnvVars {
  import opened Common

  datatype Env = Env(key: string, value: string)

  // ---------- the order of keys ----------

  predicate Less(a: string, b: string) {
    if b == [] then false
    else if a == [] then true
    else if a[0] != b[0] then a[0] < b[0]
    else Less(a[1..], b[1..])
  }

  /**
   * The order is the lexicographic one: behind a common beginning, the shorter key ends, or has the
   * smaller character.
   */
  lemma {:induction false} LessIff(a: string, b: string)
    ensures Less(a, b) <==> exists n: nat :: n <= |a| && EndsOrIsSmallerAt(a, b, n)
  {
    if a != [] && b != [] && a[0] == b[0] {
      LessIff(a[1..], b[1..]);
      if Less(a, b) {
        var n: nat :| n <= |a[1..]| && EndsOrIsSmallerAt(a[1..], b[1..], n);
        assert a[..n + 1] == [a[0]] + a[1..][..n] && b[..n + 1] == [b[0]] + b[1..][..n];
        assert EndsOrIsSmallerAt(a, b, n + 1);
      }
      if n: nat :| n <= |a| && EndsOrIsSmallerAt(a, b, n) {
        assert n > 0;
        assert a[1..][..n - 1] == a[..n][1..] && b[1..][..n - 1] == b[..n][1..];
        assert EndsOrIsSmallerAt(a[1..], b[1..], n - 1);
      }
    } else if b != [] {
      assert Less(a, b) ==> EndsOrIsSmallerAt(a, b, 0);
      if n: nat :| n <= |a| && EndsOrIsSmallerAt(a, b, n) && n > 0 {
        assert a[..n][0] == b[..n][0];
      }
    }
  }

  ghost predicate EndsOrIsSmallerAt(a: string, b: string, n: nat)
    requires n <= |a|
  {
    n < |b| && a[..n] == b[..n] && (n == |a| || a[n] < b[n])
  }

  lemma {:induction false} LessIsStrict(a: string, b: string)
    ensures Less(a, b) ==> a != b && !Less(b, a)
    ensures a != b ==> Less(a, b) || Less(b, a)
  {
    if a != [] && b != [] && a[0] == b[0] {
      LessIsStrict(a[1..], b[1..]);
      assert a == [a[0]] + a[1..] && b == [b[0]] + b[1..];
    }
  }

  lemma {:induction false} LessIsTransitive(a: string, b: string, c: string)
    requires Less(a, b) && Less(b, c)
    ensures Less(a, c)
  {
    if a != [] && a[0] == b[0] && b[0] == c[0] {
      LessIsTransitive(a[1..], b[1..], c[1..]);
    }
  }

  ghost predicate Sorted(s: seq<Env>) {
    forall i, j | 0 <= i < j < |s| :: !Less(s[j].key, s[i].key)
  }

  ghost predicate StrictlySorted(s: seq<Env>) {
    forall i, j | 0 <= i < j < |s| :: Less(s[i].key, s[j].key)
  }

  // ---------- counting and looking up ----------

  function Count(s: seq<Env>, k: string): nat {
    if s == [] then 0 else Count(s[..|s| - 1], k) + (if s[|s| - 1].key == k then 1 else 0)
  }

  /** The value of the last entry with a key. */
  function Last(s: seq<Env>, k: string): Option<string> {
    if s == [] then None
    else if s[|s| - 1].key == k then Some(s[|s| - 1].value)
    else Last(s[..|s| - 1], k)
  }

  lemma Append(s: seq<Env>, e: Env, k: string)
    ensures Count(s + [e], k) == Count(s, k) + (if e.key == k then 1 else 0)
    ensures Last(s + [e], k) == if e.key == k then Some(e.value) else Last(s, k)
  {
    assert (s + [e])[..|s|] == s;
  }

  lemma {:induction false} CountPositive(s: seq<Env>, k: string)
    ensures Count(s, k) > 0 <==> exists i :: 0 <= i < |s| && s[i].key == k
  {
    if s != [] {
      CountPositive(s[..|s| - 1], k);
      if Count(s[..|s| - 1], k) > 0 {
        var i :| 0 <= i < |s| - 1 && s[..|s| - 1][i].key == k;
        assert s[i].key == k;
      }
    }
  }

  ghost predicate DistinctKeys(s: seq<Env>) {
    forall i, j | 0 <= i < j < |s| :: s[i].key != s[j].key
  }

  ghost predicate OnceEach(s: seq<Env>) {
    forall k :: Count(s, k) <= 1
  }

  lemma {:induction false} DistinctIff(s: seq<Env>)
    ensures DistinctKeys(s) <==> OnceEach(s)
  {
    if s != [] {
      var init, last := s[..|s| - 1], s[|s| - 1];
      DistinctIff(init);
      CountPositive(init, last.key);
      if DistinctKeys(s) {
        assert DistinctKeys(init);
        forall k ensures Count(s, k) <= 1 {
          assert Count(init, k) <= 1;
        }
      }
      if OnceEach(s) {
        forall k ensures Count(init, k) <= 1 {
          assert Count(s, k) <= 1;
        }
        assert Count(s, last.key) == Count(init, last.key) + 1 <= 1;
        assert forall i | 0 <= i < |init| :: init[i] == s[i];
      }
    }
  }

  // ---------- the stable sort of the standard library ----------

  function Insert(s: seq<Env>, e: Env): seq<Env> {
    if s == [] || !Less(e.key, s[|s| - 1].key) then s + [e]
    else Insert(s[..|s| - 1], e) + [s[|s| - 1]]
  }

  function SortByKey(s: seq<Env>): seq<Env> {
    if s == [] then [] else Insert(SortByKey(s[..|s| - 1]), s[|s| - 1])
  }

  lemma {:induction false} InsertKeeps(s: seq<Env>, e: Env, k: string)
    ensures Count(Insert(s, e), k) == Count(s, k) + (if e.key == k then 1 else 0)
    ensures Sorted(s) ==> Last(Insert(s, e), k) == if e.key == k then Some(e.value) else Last(s, k)
  {
    if s == [] || !Less(e.key, s[|s| - 1].key) {
      Append(s, e, k);
    } else {
      var init, last := s[..|s| - 1], s[|s| - 1];
      InsertKeeps(init, e, k);
      Append(Insert(init, e), last, k);
      LessIsStrict(e.key, last.key);
    }
  }

  lemma {:induction false} InsertMembers(s: seq<Env>, e: Env, x: Env)
    ensures x in Insert(s, e) <==> x in s || x == e
  {
    if s != [] && Less(e.key, s[|s| - 1].key) {
      InsertMembers(s[..|s| - 1], e, x);
      assert s == s[..|s| - 1] + [s[|s| - 1]];
    }
  }

  lemma {:induction false} InsertSorts(s: seq<Env>, e: Env)
    requires Sorted(s)
    ensures Sorted(Insert(s, e))
  {
    if s == [] {
    } else if !Less(e.key, s[|s| - 1].key) {
      forall i | 0 <= i < |s| ensures !Less(e.key, s[i].key) {
        if Less(e.key, s[i].key) {
          if i < |s| - 1 && s[i].key != s[|s| - 1].key {
            LessIsStrict(s[i].key, s[|s| - 1].key);
            LessIsTransitive(e.key, s[i].key, s[|s| - 1].key);
          }
        }
      }
    } else {
      var init, last := s[..|s| - 1], s[|s| - 1];
      InsertSorts(init, e);
      var r := Insert(init, e);
      forall i | 0 <= i < |r| ensures !Less(last.key, r[i].key) {
        InsertMembers(init, e, r[i]);
        LessIsStrict(e.key, last.key);
      }
    }
  }

  lemma {:induction false} SortSorts(s: seq<Env>)
    ensures Sorted(SortByKey(s))
  {
    if s != [] {
      SortSorts(s[..|s| - 1]);
      InsertSorts(SortByKey(s[..|s| - 1]), s[|s| - 1]);
    }
  }

  /** Sorting keeps how often each key occurs, and which entry of it comes last. */
  lemma {:induction false} SortKeeps(s: seq<Env>, k: string)
    ensures Count(SortByKey(s), k) == Count(s, k) && Last(SortByKey(s), k) == Last(s, k)
  {
    if s != [] {
      SortKeeps(s[..|s| - 1], k);
      SortSorts(s[..|s| - 1]);
      InsertKeeps(SortByKey(s[..|s| - 1]), s[|s| - 1], k);
    }
  }

  /** The values of the entries with a key, in order. */
  function WithKey(s: seq<Env>, k: string): seq<string> {
    if s == [] then []
    else WithKey(s[..|s| - 1], k) + (if s[|s| - 1].key == k then [s[|s| - 1].value] else [])
  }

  lemma WithKeyAppend(s: seq<Env>, e: Env, k: string)
    ensures WithKey(s + [e], k) == WithKey(s, k) + (if e.key == k then [e.value] else [])
  {
    assert (s + [e])[..|s|] == s;
  }

  lemma {:induction false} InsertIsStable(s: seq<Env>, e: Env, k: string)
    requires Sorted(s)
    ensures WithKey(Insert(s, e), k) == WithKey(s, k) + (if e.key == k then [e.value] else [])
  {
    if s == [] || !Less(e.key, s[|s| - 1].key) {
      WithKeyAppend(s, e, k);
    } else {
      var init, last := s[..|s| - 1], s[|s| - 1];
      InsertIsStable(init, e, k);
      WithKeyAppend(Insert(init, e), last, k);
      LessIsStrict(e.key, last.key);
    }
  }

  lemma {:induction false} InsertPermutes(s: seq<Env>, e: Env)
    ensures multiset(Insert(s, e)) == multiset(s) + multiset{e}
  {
    if s != [] && Less(e.key, s[|s| - 1].key) {
      InsertPermutes(s[..|s| - 1], e);
      assert s == s[..|s| - 1] + [s[|s| - 1]];
    }
  }

  /** The sort is a stable one: a permutation that keeps the order of entries with the same key. */
  lemma {:induction false} SortIsStable(s: seq<Env>, k: string)
    ensures WithKey(SortByKey(s), k) == WithKey(s, k) && multiset(SortByKey(s)) == multiset(s)
  {
    if s != [] {
      var init, last := s[..|s| - 1], s[|s| - 1];
      SortIsStable(init, k);
      SortSorts(init);
      InsertIsStable(SortByKey(init), last, k);
      InsertPermutes(SortByKey(init), last);
      assert s == init + [last];
    }
  }

  // ---------- merging ----------

  /** The position of the first entry with a key. */
  function Position(s: seq<Env>, k: string, from: nat): (i: Option<nat>)
    requires from <= |s|
    ensures i.Some? ==> from <= i.value < |s| && s[i.value].key == k
    ensures i.None? ==> forall j | from <= j < |s| :: s[j].key != k
    decreases |s| - from
  {
    if from == |s| then None else if s[from].key == k then Some(from) else Position(s, k, from + 1)
  }

  function Override(s: seq<Env>, e: Env): seq<Env> {
    var i := Position(s, e.key, 0);
    (if i.Some? then s[..i.value] + s[i.value + 1..] else s) + [e]
  }

  function Merged(file: seq<Env>, explicit: seq<Env>, n: nat): seq<Env>
    requires n <= |explicit|
  {
    if n == 0 then file else Override(Merged(file, explicit, n - 1), explicit[n - 1])
  }

  lemma {:induction false} RemoveAt(s: seq<Env>, i: nat, k: string)
    requires i < |s|
    ensures Count(s[..i] + s[i + 1..], k) == Count(s, k) - (if s[i].key == k then 1 else 0)
    ensures s[i].key != k ==> Last(s[..i] + s[i + 1..], k) == Last(s, k)
  {
    var last := s[|s| - 1];
    if i == |s| - 1 {
      assert s[..i] + s[i + 1..] == s[..i];
    } else {
      var init := s[..|s| - 1];
      RemoveAt(init, i, k);
      assert s[..i] + s[i + 1..] == (init[..i] + init[i + 1..]) + [last];
      Append(init[..i] + init[i + 1..], last, k);
    }
  }

  /** Overriding leaves a key with as many entries as it had, but at least one, of which the last is the new one. */
  lemma OverrideKeeps(s: seq<Env>, e: Env, k: string)
    ensures Count(Override(s, e), k) == if e.key == k && Count(s, k) == 0 then 1 else Count(s, k)
    ensures Last(Override(s, e), k) == if e.key == k then Some(e.value) else Last(s, k)
  {
    var i := Position(s, e.key, 0);
    CountPositive(s, e.key);
    if i.Some? {
      RemoveAt(s, i.value, k);
      Append(s[..i.value] + s[i.value + 1..], e, k);
    } else {
      Append(s, e, k);
    }
  }

  /** What the explicit variables say about a key, falling back to the file. */
  function Expected(file: seq<Env>, explicit: seq<Env>, k: string): Option<string> {
    if Last(explicit, k).Some? then Last(explicit, k) else Last(file, k)
  }

  /** What overriding by the first variables does to a key: `c` entries and the last value `v`. */
  ghost predicate Keeps(file: seq<Env>, first: seq<Env>, k: string, c: nat, v: Option<string>) {
    && c == (if Count(first, k) > 0 && Count(file, k) == 0 then 1 else Count(file, k))
    && v == Expected(file, first, k)
  }

  lemma KeepsOneMore(file: seq<Env>, first: seq<Env>, m: seq<Env>, e: Env, k: string)
    requires Keeps(file, first, k, Count(m, k), Last(m, k))
    ensures Keeps(file, first + [e], k, Count(Override(m, e), k), Last(Override(m, e), k))
  {
    OverrideKeeps(m, e, k);
    Append(first, e, k);
  }

  lemma {:induction false} MergedKeeps(file: seq<Env>, explicit: seq<Env>, n: nat, k: string)
    requires n <= |explicit|
    ensures var m := Merged(file, explicit, n);
            Keeps(file, explicit[..n], k, Count(m, k), Last(m, k))
  {
    if n > 0 {
      MergedKeeps(file, explicit, n - 1, k);
      KeepsOneMore(file, explicit[..n - 1], Merged(file, explicit, n - 1), explicit[n - 1], k);
      assert explicit[..n] == explicit[..n - 1] + [explicit[n - 1]];
    }
  }

  /** `load_environment_vars`; without a file there are no variables from it. */
  method LoadEnvironmentVars(envFile: Option<seq<Env>>, envs: seq<Env>) returns (finalEnvs: seq<Env>)
    ensures finalEnvs == SortByKey(Merged(if envFile.Some? then envFile.value else [], envs, |envs|))
  {
    finalEnvs := [];
    if envFile.Some? {
      finalEnvs := finalEnvs + envFile.value;
      assert [] + envFile.value == envFile.value;
    }
    for n := 0 to |envs|
      invariant finalEnvs == Merged(if envFile.Some? then envFile.value else [], envs, n)
    {
      ghost var before := finalEnvs;
      var index := Position(finalEnvs, envs[n].key, 0);
      if index.Some? {
        finalEnvs := finalEnvs[..index.value] + finalEnvs[index.value + 1..];
      }
      finalEnvs := finalEnvs + [envs[n]];
      assert finalEnvs == Override(before, envs[n]);
    }
    finalEnvs := SortByKey(finalEnvs);
  }

  lemma StrictIffDistinct(s: seq<Env>)
    requires Sorted(s)
    ensures StrictlySorted(s) <==> DistinctKeys(s)
  {
    forall i, j | 0 <= i < j < |s| ensures Less(s[i].key, s[j].key) <==> s[i].key != s[j].key {
      LessIsStrict(s[i].key, s[j].key);
    }
  }

  /** For each key the last entry is the last explicit one, or else the file's last one. */
  lemma LastWins(file: seq<Env>, envs: seq<Env>, k: string)
    ensures Last(SortByKey(Merged(file, envs, |envs|)), k) == Expected(file, envs, k)
  {
    MergedKeeps(file, envs, |envs|, k);
    assert envs[..|envs|] == envs;
    SortKeeps(Merged(file, envs, |envs|), k);
  }

  lemma CountInResult(file: seq<Env>, envs: seq<Env>, k: string)
    ensures Count(SortByKey(Merged(file, envs, |envs|)), k) <= 1 <==> Count(file, k) <= 1
  {
    MergedKeeps(file, envs, |envs|, k);
    SortKeeps(Merged(file, envs, |envs|), k);
  }

  /** The result is sorted, and it has each key once exactly when the file does. */
  lemma StrictlySortedIff(file: seq<Env>, envs: seq<Env>)
    ensures var r := SortByKey(Merged(file, envs, |envs|));
            Sorted(r) && (StrictlySorted(r) <==> DistinctKeys(file))
  {
    var r := SortByKey(Merged(file, envs, |envs|));
    SortSorts(Merged(file, envs, |envs|));
    StrictIffDistinct(r);
    DistinctIff(r);
    DistinctIff(file);
    forall k ensures Count(r, k) <= 1 <==> Count(file, k) <= 1 {
      CountInResult(file, envs, k);
    }
    assert OnceEach(r) <==> OnceEach(file);
  }

  /** A file that has a key twice, and an explicit variable for it: the key is there twice in the result. */
  lemma RepeatedKeySurvives()
    ensures var file := [Env("K", "a"), Env("K", "b")];
            SortByKey(Merged(file, [Env("K", "c")], 1)) == [Env("K", "b"), Env("K", "c")]
  {
    var a, b, c := Env("K", "a"), Env("K", "b"), Env("K", "c");
    assert Position([a, b], "K", 0) == Some(0);
    assert Merged([a, b], [c], 0) == [a, b] && Override([a, b], c) == [b, c];
    assert Merged([a, b], [c], 1) == [b, c];
    assert !Less("K", "K") by {
      LessIsStrict("K", "K");
    }
    assert SortByKey([]) == [] && Insert([], b) == [b];
    assert [b][..0] == [] && SortByKey([b]) == [b];
    assert [b, c][..1] == [b] && Insert([b], c) == [b, c];
  }
}
