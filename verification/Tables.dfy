/** The table of resources behind guest descriptors, with its wrapping key counter. */
module Tables {
  import opened Common

  /** The observable state of a table. */
  datatype State<T> = State(entries: map<u32, T>, nextKey: u32)

  // ---------- probing for a free key ----------

  /** The `j`-th key tried by a push that starts at `start`; the counter wraps around. */
  function Probe(start: u32, j: nat): u32 {
    (start + j) % U32
  }

  /** The first free key is met after exactly `n` live ones. */
  ghost predicate IsFirstFree(keys: set<u32>, start: u32, n: nat) {
    Probe(start, n) !in keys && forall j | 0 <= j < n :: Probe(start, j) in keys
  }

  ghost function Probed(start: u32, n: nat): set<u32> {
    set j | 0 <= j < n :: Probe(start, j)
  }

  lemma ProbesDiffer(start: u32, i: nat, j: nat)
    requires i < j < i + U32
    ensures Probe(start, i) != Probe(start, j)
  {
    var qi, qj := (start + i) / U32, (start + j) / U32;
    assert start + i == U32 * qi + Probe(start, i);
    assert start + j == U32 * qj + Probe(start, j);
  }

  lemma {:induction false} ProbedSize(start: u32, n: nat)
    requires n <= U32
    ensures |Probed(start, n)| == n
  {
    if n > 0 {
      ProbedSize(start, n - 1);
      forall j | 0 <= j < n - 1 ensures Probe(start, j) != Probe(start, n - 1) {
        ProbesDiffer(start, j, n - 1);
      }
      assert Probed(start, n) == Probed(start, n - 1) + {Probe(start, n - 1)};
    }
  }

  lemma SubsetSize<T>(a: set<T>, b: set<T>)
    requires a <= b
    ensures |a| <= |b|
  {
    assert b == a + (b - a);
  }

  /** Pigeonhole: probes that all hit live keys are no more than the live keys. */
  lemma LiveProbes(keys: set<u32>, start: u32, n: nat)
    requires n <= U32 && forall j | 0 <= j < n :: Probe(start, j) in keys
    ensures n <= |keys|
  {
    ProbedSize(start, n);
    SubsetSize(Probed(start, n), keys);
  }

  lemma {:induction false} BoundedSize(keys: set<u32>, n: nat)
    requires forall k <- keys :: k < n
    ensures |keys| <= n
  {
    if n == 0 {
      assert keys == {};
    } else {
      BoundedSize(keys - {n - 1}, n - 1);
      if n - 1 in keys {
        assert keys == (keys - {n - 1}) + {n - 1};
      } else {
        assert keys - {n - 1} == keys;
      }
    }
  }

  /** Probing finds a free key exactly when there is one, and that is so unless all 2^32 keys are live. */
  lemma ProbingEndsIff(keys: set<u32>, start: u32)
    ensures (exists n: nat :: Probe(start, n) !in keys) <==> |keys| < U32
  {
    if forall n: nat :: Probe(start, n) in keys {
      LiveProbes(keys, start, U32);
    } else {
      var n: nat :| Probe(start, n) !in keys;
      var k := Probe(start, n);
      assert |keys + {k}| == |keys| + 1;
      BoundedSize(keys + {k}, U32);
    }
  }

  /** How many live keys a push passes over, when `tried` of them are known to be live. */
  function FreeDistance(keys: set<u32>, start: u32, tried: nat): (n: nat)
    requires |keys| < U32 && tried <= |keys| && forall j | 0 <= j < tried :: Probe(start, j) in keys
    ensures IsFirstFree(keys, start, n) && n <= |keys|
    decreases |keys| - tried
  {
    if Probe(start, tried) !in keys then tried
    else
      LiveProbes(keys, start, tried + 1);
      FreeDistance(keys, start, tried + 1)
  }

  // ---------- the operations as state changes ----------

  function PushKey<T>(s: State<T>): (key: u32)
    requires |s.entries| < U32
    ensures key !in s.entries
  {
    Probe(s.nextKey, FreeDistance(s.entries.Keys, s.nextKey, 0))
  }

  function AfterPush<T>(s: State<T>, a: T): (State<T>, Result<u32, Error>)
    requires |s.entries| < U32
  {
    if |s.entries| == U32 - 1 then (s, Err(NoFreeKeys))
    else (State(s.entries[PushKey(s) := a], Probe(PushKey(s), 1)), Ok(PushKey(s)))
  }

  /**
   * A push is refused exactly when 2^32 - 1 keys are live. Otherwise it takes a key that was not
   * live, the first one from the counter on, and leaves every other binding untouched.
   */
  lemma PushTakesFreeKey<T>(s: State<T>, a: T)
    requires |s.entries| < U32
    ensures var (t, r) := AfterPush(s, a);
            && (r.Ok? <==> |s.entries| < U32 - 1)
            && (r.Err? ==> t == s)
            && (r.Ok? ==>
                  && r.value !in s.entries && r.value in t.entries && t.entries[r.value] == a
                  && t.entries - {r.value} == s.entries
                  && exists n :: 0 <= n <= |s.entries| && IsFirstFree(s.entries.Keys, s.nextKey, n)
                                 && r.value == Probe(s.nextKey, n) && t.nextKey == Probe(s.nextKey, n + 1))
  {
    var n := FreeDistance(s.entries.Keys, s.nextKey, 0);
    assert PushKey(s) == Probe(s.nextKey, n) && PushKey(s) !in s.entries;
    NextProbe(s.nextKey, n);
  }

  lemma NextProbe(start: u32, n: nat)
    ensures Probe(Probe(start, n), 1) == Probe(start, n + 1)
  {
  }

  function AfterInsertAt<T>(s: State<T>, key: u32, a: T): State<T> {
    s.(entries := s.entries[key := a])
  }

  function AfterDelete<T>(s: State<T>, key: u32): State<T> {
    s.(entries := s.entries - {key})
  }

  /** Taking the entry out first and binding it afterwards. */
  function AfterRenumber<T>(s: State<T>, from: u32, target: u32): (State<T>, Result<(), Error>) {
    if from !in s.entries then (s, Err(Badf))
    else (State((s.entries - {from})[target := s.entries[from]], s.nextKey), Ok(()))
  }

  /**
   * Renumbering a descriptor to itself changes nothing; otherwise the source is gone and the
   * target holds its entry. A missing source is refused. The counter stays where it is.
   */
  lemma RenumberMoves<T>(s: State<T>, from: u32, target: u32)
    ensures from !in s.entries ==> AfterRenumber(s, from, target) == (s, Err(Badf))
    ensures from in s.entries ==>
              var (t, r) := AfterRenumber(s, from, target);
              && r == Ok(()) && t.nextKey == s.nextKey
              && (from == target ==> t == s)
              && (from != target ==>
                    && from !in t.entries && target in t.entries && t.entries[target] == s.entries[from]
                    && t.entries - {target} == s.entries - {from, target})
  {
  }

  /** Binding a key, or deleting one, touches no other key and not the counter. */
  lemma InsertThenDelete<T>(s: State<T>, key: u32, a: T, other: u32)
    ensures var t := AfterInsertAt(s, key, a);
            && key in t.entries && t.entries[key] == a && t.nextKey == s.nextKey
            && (other != key ==> (other in t.entries <==> other in s.entries))
            && (other != key && other in s.entries ==> t.entries[other] == s.entries[other])
            && (key !in s.entries ==> AfterDelete(t, key) == s)
    ensures var t := AfterDelete(s, key);
            && key !in t.entries && t.nextKey == s.nextKey
            && (other != key ==> (other in t.entries <==> other in s.entries))
            && (other != key && other in s.entries ==> t.entries[other] == s.entries[other])
            && (key in s.entries ==> AfterInsertAt(t, key, s.entries[key]) == s)
  {
    if key !in s.entries {
      assert s.entries[key := a] - {key} == s.entries;
    } else {
      assert (s.entries - {key})[key := s.entries[key]] == s.entries;
    }
  }

  lemma RenumberSize<T>(m: map<u32, T>, from: u32, target: u32, e: T)
    requires from in m
    ensures |(m - {from})[target := e]| <= |m|
  {
    var rest := m.Keys - {from};
    assert m.Keys == rest + {from};
    assert (m - {from})[target := e].Keys == rest + {target};
  }

  // ---------- the table itself ----------

  class Table<T> {
    var entries: map<u32, T>
    var nextKey: u32

    ghost function Abs(): State<T>
      reads this
    {
      State(entries, nextKey)
    }

    /** Descriptors 0, 1 and 2 are kept for stdio. */
    constructor ()
      ensures Abs() == State(map[], 3)
    {
      entries, nextKey := map[], 3;
    }

    method InsertAt(key: u32, a: T)
      modifies this
      ensures Abs() == AfterInsertAt(old(Abs()), key, a)
    {
      entries := entries[key := a];
    }

    /** A push never ends when all 2^32 keys are live, so that state is excluded. */
    method Push(a: T) returns (r: Result<u32, Error>, ghost probes: nat)
      requires |entries| < U32
      modifies this
      ensures (Abs(), r) == AfterPush(old(Abs()), a)
      ensures probes <= |old(entries)| + 1
      ensures r.Ok? ==> probes > 0 && r.value == Probe(old(nextKey), probes - 1)
      ensures r.Ok? ==> IsFirstFree(old(entries).Keys, old(nextKey), probes - 1)
    {
      probes := 0;
      if |entries| == U32 - 1 {
        return Err(NoFreeKeys), probes;
      }
      ghost var start := nextKey;
      while true
        invariant entries == old(entries) && nextKey == Probe(start, probes)
        invariant probes <= |entries|
        invariant forall j | 0 <= j < probes :: Probe(start, j) in entries
        decreases |entries| - probes
      {
        var key := nextKey;
        nextKey := (nextKey + 1) % U32;
        probes := probes + 1;
        if key in entries {
          LiveProbes(entries.Keys, start, probes);
          continue;
        }
        FirstFreeIsUnique(entries.Keys, start, probes - 1, FreeDistance(entries.Keys, start, 0));
        entries := entries[key := a];
        return Ok(key), probes;
      }
    }

    method ContainsKey(key: u32) returns (r: bool)
      ensures r <==> key in entries
    {
      r := key in entries;
    }

    method Get(key: u32) returns (r: Option<T>)
      ensures r == if key in entries then Some(entries[key]) else None
    {
      r := if key in entries then Some(entries[key]) else None;
    }

    method Delete(key: u32) returns (r: Option<T>)
      modifies this
      ensures r == if key in old(entries) then Some(old(entries)[key]) else None
      ensures Abs() == AfterDelete(old(Abs()), key)
    {
      r := if key in entries then Some(entries[key]) else None;
      entries := entries - {key};
    }

    method Renumber(from: u32, target: u32) returns (r: Result<(), Error>)
      modifies this
      ensures (Abs(), r) == AfterRenumber(old(Abs()), from, target)
    {
      if from !in entries {
        return Err(Badf);
      }
      var fromEntry := entries[from];
      entries := entries - {from};
      entries := entries[target := fromEntry];
      return Ok(());
    }
  }

  lemma FirstFreeIsUnique(keys: set<u32>, start: u32, m: nat, n: nat)
    requires IsFirstFree(keys, start, m) && IsFirstFree(keys, start, n)
    ensures m == n
  {
  }
}
