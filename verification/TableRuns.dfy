/** Whole runs of a table that grows on its live count only. The runtime promises that "an empty slot
    always remains"; here is exactly how many deletions that promise survives. */
module TableRuns {
  import opened Probing

  type Table<V> = seq<Cell<int, V>>

  /** The next put grows the table. */
  ghost predicate Growing<V>(t: Table<V>) {
    4 * (Lives(t) + 1) > 3 * |t|
  }

  ghost predicate ProbeStops<V>(t: Table<V>, k: int) {
    exists i :: 0 <= i < |t| && Stops(t, k, i)
  }

  /** `get`, `has` and `del` of `k` return: they do not probe a table without live entries. */
  ghost predicate LookupReturns<V>(t: Table<V>, k: int) {
    Lives(t) == 0 || ProbeStops(t, k)
  }

  /** A put of `k` returns: it builds a new table, or its probe stops. */
  ghost predicate PutReturns<V>(t: Table<V>, k: int) {
    Growing(t) || ProbeStops(t, k)
  }

  // ------------------------------------------------------------------ steps and runs

  /** A put of `k` that does not grow the table. */
  ghost predicate PutStep<V(!new)>(t: Table<V>, hash: int -> nat, k: int, u: Table<V>) {
    && !Growing(t) && ProbeStops(t, k) && Unique(t)
    && exists i: nat, v :: Lands(t, hash, k, i) && u == t[i := Live(k, v)]
  }

  ghost predicate DelStep<V>(t: Table<V>, hash: int -> nat, k: int, u: Table<V>) {
    && LookupReturns(t, k)
    && if k in Dict(t) then exists i: nat :: i < |t| && t[i].Live? && t[i].key == k && u == t[i := Tomb]
       else u == t
  }

  /** One call that returns; `d` and `e` count the deletions. */
  ghost predicate Step<V(!new)>(t: Table<V>, d: nat, hash: int -> nat, u: Table<V>, e: nat) {
    || (e == d && exists k :: PutStep(t, hash, k, u))
    || (e == d + 1 && exists k :: DelStep(t, hash, k, u))
  }

  /** A table just built, by the first use, by growth or by compaction: no tombstone, and at most half full.
      A new table is empty; doubling leaves at most 3/8 live, so even with the put that caused it at most
      half; compaction takes a power of two of at least twice the entries. */
  ghost predicate Rebuilt<V>(t: Table<V>, hash: int -> nat, cap: nat) {
    |t| == cap > 0 && Wf(t, hash) && Settled(t)
  }

  /** A run on one table of `cap` slots; `dels[i]` deletions have led to `run[i]`. */
  ghost predicate Run<V(!new)>(run: seq<Table<V>>, dels: seq<nat>, hash: int -> nat, cap: nat) {
    && |run| == |dels| > 0 && Rebuilt(run[0], hash, cap) && dels[0] == 0
    && forall i :: 0 <= i < |run| - 1 ==> Step(run[i], dels[i], hash, run[i + 1], dels[i + 1])
  }

  ghost predicate Sound<V>(t: Table<V>, d: nat, hash: int -> nat, cap: nat) {
    |t| == cap > 0 && Wf(t, hash) && Tombs(t) <= d && 4 * Lives(t) <= 3 * cap
  }

  lemma PutKeeps<V(!new)>(t: Table<V>, d: nat, hash: int -> nat, cap: nat, k: int, u: Table<V>)
    requires Sound(t, d, hash, cap) && PutStep(t, hash, k, u)
    ensures Sound(u, d, hash, cap)
  {
    var i: nat, v :| Lands(t, hash, k, i) && u == t[i := Live(k, v)];
    StoreLands(t, hash, k, v, i);
    Recount(t, i, Live(k, v));
  }

  lemma DelKeeps<V>(t: Table<V>, d: nat, hash: int -> nat, cap: nat, k: int, u: Table<V>)
    requires Sound(t, d, hash, cap) && DelStep(t, hash, k, u)
    ensures Sound(u, d + 1, hash, cap)
  {
    if k in Dict(t) {
      var i: nat :| i < |t| && t[i].Live? && t[i].key == k && u == t[i := Tomb];
      Bury(t, hash, k, i);
      Recount(t, i, Tomb);
    }
  }

  /** In every run there are at most as many tombstones as deletions, and 3/4 live entries. */
  lemma {:induction false} RunKeeps<V(!new)>(run: seq<Table<V>>, dels: seq<nat>, hash: int -> nat, cap: nat, n: nat)
    requires Run(run, dels, hash, cap) && n < |run|
    ensures Sound(run[n], dels[n], hash, cap)
  {
    if n > 0 {
      var m := n - 1;
      RunKeeps(run, dels, hash, cap, m);
      assert Step(run[m], dels[m], hash, run[m + 1], dels[m + 1]);
      if dels[n] == dels[m] {
        var k :| PutStep(run[m], hash, k, run[n]);
        PutKeeps(run[m], dels[m], hash, cap, k, run[n]);
      } else {
        var k :| DelStep(run[m], hash, k, run[n]);
        DelKeeps(run[m], dels[m], hash, cap, k, run[n]);
      }
    }
  }

  // ------------------------------------------------------------------ the two bounds

  /** No run from `t0` with at most `d` deletions leads to a lookup that hangs. */
  ghost predicate LookupsSafe<V(!new)>(t0: Table<V>, hash: int -> nat, d: nat) {
    forall run: seq<Table<V>>, dels, n, k ::
      Run(run, dels, hash, |t0|) && run[0] == t0 && 0 <= n < |run| && dels[n] <= d ==> LookupReturns(run[n], k)
  }

  /** Nor to a put that hangs. */
  ghost predicate PutsSafe<V(!new)>(t0: Table<V>, hash: int -> nat, d: nat) {
    forall run: seq<Table<V>>, dels, n, k ::
      Run(run, dels, hash, |t0|) && run[0] == t0 && 0 <= n < |run| && dels[n] <= d ==> PutReturns(run[n], k)
  }

  lemma StopsAt<V>(t: Table<V>, k: int)
    requires HasEmpty(t)
    ensures ProbeStops(t, k)
  {
    var g :| 0 <= g < |t| && t[g] == Empty;
    assert Stops(t, k, g);
  }

  /** Whatever the table and the hash: fewer than a quarter as many deletions as slots keep every lookup safe. */
  lemma FewDeletionsLookup<V(!new)>(t0: Table<V>, hash: int -> nat, d: nat)
    requires 4 * d < |t0|
    ensures LookupsSafe(t0, hash, d)
  {
    forall run: seq<Table<V>>, dels, n, k
      | Run(run, dels, hash, |t0|) && run[0] == t0 && 0 <= n < |run| && dels[n] <= d
      ensures LookupReturns(run[n], k)
    {
      RunKeeps(run, dels, hash, |t0|, n);
      EmptyIff(run[n]);
      StopsAt(run[n], k);
    }
  }

  /** For puts a quarter as many are still safe: there must be room for one more entry anyway. */
  lemma FewDeletionsPut<V(!new)>(t0: Table<V>, hash: int -> nat, d: nat)
    requires 4 * d <= |t0|
    ensures PutsSafe(t0, hash, d)
  {
    forall run: seq<Table<V>>, dels, n, k
      | Run(run, dels, hash, |t0|) && run[0] == t0 && 0 <= n < |run| && dels[n] <= d
      ensures PutReturns(run[n], k)
    {
      RunKeeps(run, dels, hash, |t0|, n);
      EmptyIff(run[n]);
      if !Growing(run[n]) {
        StopsAt(run[n], k);
      }
    }
  }

  // ------------------------------------------------------------------ runs that hang

  /** Some key outside `ks` is at home in slot `s`. */
  ghost predicate HasKeyFor(hash: int -> nat, cap: nat, s: nat, ks: set<int>)
    requires cap > 0
  {
    exists k :: k !in ks && Home(hash, k, cap) == s
  }

  /** For every slot there are keys without end that are at home in it. */
  ghost predicate Covers(hash: int -> nat, cap: nat) {
    cap > 0 && forall s, ks :: 0 <= s < cap ==> HasKeyFor(hash, cap, s, ks)
  }

  /** A table that is not full has an empty slot at which a new key is at home, */
  lemma NewKey<V>(t: Table<V>, hash: int -> nat) returns (k: int, s: nat)
    requires Covers(hash, |t|) && Lives(t) + Tombs(t) < |t|
    ensures s < |t| && t[s] == Empty && k !in Dict(t) && Home(hash, k, |t|) == s
  {
    EmptyIff(t);
    s :| s < |t| && t[s] == Empty;
    assert HasKeyFor(hash, |t|, s, Dict(t).Keys);
    k :| k !in Dict(t).Keys && Home(hash, k, |t|) == s;
  }

  /** where it is stored, */
  lemma StoredNew<V(!new)>(t: Table<V>, hash: int -> nat, k: int, s: nat, v: V)
    requires Wf(t, hash) && s < |t| && t[s] == Empty && k !in Dict(t) && Home(hash, k, |t|) == s && !Growing(t)
    ensures var u := t[s := Live(k, v)];
      PutStep(t, hash, k, u) && Wf(u, hash) && k in Dict(u) && Lives(u) == Lives(t) + 1 && Tombs(u) == Tombs(t)
  {
    assert Stops(t, k, s);
    assert Lands(t, hash, k, s);
    StoreLands(t, hash, k, v, s);
    Recount(t, s, Live(k, v));
  }

  /** and from where it can be deleted again. */
  lemma DeletedNew<V>(u: Table<V>, hash: int -> nat, k: int, s: nat)
    requires Wf(u, hash) && s < |u| && u[s].Live? && u[s].key == k && k in Dict(u)
    ensures var w := u[s := Tomb];
      DelStep(u, hash, k, w) && Wf(w, hash) && Lives(w) == Lives(u) - 1 && Tombs(w) == Tombs(u) + 1
  {
    assert Stops(u, k, s);
    Bury(u, hash, k, s);
    Recount(u, s, Tomb);
  }

  /** From any table just built: `p` set/del pairs and then `q` sets. */
  lemma {:induction false} FillingRun<V(!new)>(t0: Table<V>, hash: int -> nat, p: nat, q: nat, v: V)
    returns (run: seq<Table<V>>, dels: seq<nat>)
    requires Rebuilt(t0, hash, |t0|) && Covers(hash, |t0|)
    requires Lives(t0) + p + q <= |t0| && 4 * (Lives(t0) + q) <= 3 * |t0| && 4 * (Lives(t0) + 1) <= 3 * |t0|
    ensures |run| == |dels| > 0 && Run(run, dels, hash, |t0|) && run[0] == t0 && dels[|run| - 1] == p
    ensures var t := run[|run| - 1]; |t| == |t0| && Wf(t, hash) && Tombs(t) == p && Lives(t) == Lives(t0) + q
    decreases p + q
  {
    hide PutStep, DelStep, Wf, Lands, Dict, Stops, Covers, Tombs, Lives;
    if p + q == 0 {
      run, dels := [t0], [0];
    } else {
      run, dels := FillingRun(t0, hash, if q > 0 then p else p - 1, if q > 0 then q - 1 else 0, v);
      var t := run[|run| - 1];
      var k, s := NewKey(t, hash);
      StoredNew(t, hash, k, s, v);
      var u := t[s := Live(k, v)];
      run, dels := AppendPut(run, dels, hash, |t0|, k, u);
      if q == 0 {
        DeletedNew(u, hash, k, s);
        run, dels := AppendDel(run, dels, hash, |t0|, k, u[s := Tomb]);
      }
    }
  }

  lemma AppendPut<V(!new)>(run: seq<Table<V>>, dels: seq<nat>, hash: int -> nat, cap: nat, k: int, u: Table<V>)
    returns (run': seq<Table<V>>, dels': seq<nat>)
    requires Run(run, dels, hash, cap) && PutStep(run[|run| - 1], hash, k, u)
    ensures run' == run + [u] && dels' == dels + [dels[|dels| - 1]] && Run(run', dels', hash, cap)
  {
    hide PutStep, DelStep, Rebuilt;
    run', dels' := run + [u], dels + [dels[|dels| - 1]];
    forall i | 0 <= i < |run'| - 1 ensures Step(run'[i], dels'[i], hash, run'[i + 1], dels'[i + 1]) {
      assert i < |run| - 1 ==> Step(run[i], dels[i], hash, run[i + 1], dels[i + 1]);
    }
  }

  lemma AppendDel<V(!new)>(run: seq<Table<V>>, dels: seq<nat>, hash: int -> nat, cap: nat, k: int, u: Table<V>)
    returns (run': seq<Table<V>>, dels': seq<nat>)
    requires Run(run, dels, hash, cap) && DelStep(run[|run| - 1], hash, k, u)
    ensures run' == run + [u] && dels' == dels + [dels[|dels| - 1] + 1] && Run(run', dels', hash, cap)
  {
    hide PutStep, DelStep, Rebuilt;
    run', dels' := run + [u], dels + [dels[|dels| - 1] + 1];
    forall i | 0 <= i < |run'| - 1 ensures Step(run'[i], dels'[i], hash, run'[i + 1], dels'[i + 1]) {
      assert i < |run| - 1 ==> Step(run[i], dels[i], hash, run[i + 1], dels[i + 1]);
    }
  }

  /** A full table hangs: a probe for a missing key never stops. */
  lemma FullHangs<V>(t: Table<V>, hash: int -> nat) returns (k: int)
    requires Wf(t, hash) && Covers(hash, |t|) && Lives(t) + Tombs(t) == |t|
    ensures k !in Dict(t) && !ProbeStops(t, k)
  {
    EmptyIff(t);
    assert HasKeyFor(hash, |t|, 0, Dict(t).Keys);
    k :| k !in Dict(t).Keys;
    StopsIff(t, hash, k);
  }

  // ------------------------------------------------------------------ the bounds are exact

  /** From every table just built, for every hash under which no slot runs out of keys. */
  lemma LookupBound<V(!new)>(t0: Table<V>, hash: int -> nat, d: nat, v: V)
    requires IsPow2(|t0|) && |t0| >= 16 && Rebuilt(t0, hash, |t0|) && Covers(hash, |t0|)
    ensures LookupsSafe(t0, hash, d) <==> 4 * d < |t0|
  {
    hide Covers, Run, IsPow2;
    if 4 * d < |t0| {
      FewDeletionsLookup(t0, hash, d);
    } else {
      var cap := |t0|;
      Quarters(cap);
      var run, dels := FillingRun(t0, hash, cap / 4, cap - cap / 4 - Lives(t0), v);
      var k := FullHangs(run[|run| - 1], hash);
      Counterexample(run, dels, hash, d, k);
    }
  }

  /** And so is the bound for puts. */
  lemma PutBound<V(!new)>(t0: Table<V>, hash: int -> nat, d: nat, v: V)
    requires IsPow2(|t0|) && |t0| >= 16 && Rebuilt(t0, hash, |t0|) && Covers(hash, |t0|)
    ensures PutsSafe(t0, hash, d) <==> 4 * d <= |t0|
  {
    hide Covers, Run, IsPow2;
    if 4 * d <= |t0| {
      FewDeletionsPut(t0, hash, d);
    } else {
      var cap := |t0|;
      Quarters(cap);
      var run, dels := FillingRun(t0, hash, cap / 4 + 1, cap - cap / 4 - 1 - Lives(t0), v);
      var k := FullHangs(run[|run| - 1], hash);
      Counterexample(run, dels, hash, d, k);
    }
  }

  lemma Counterexample<V(!new)>(run: seq<Table<V>>, dels: seq<nat>, hash: int -> nat, d: nat, k: int)
    requires |run| == |dels| > 0 && Run(run, dels, hash, |run[0]|) && dels[|run| - 1] <= d
    ensures !LookupReturns(run[|run| - 1], k) ==> !LookupsSafe(run[0], hash, d)
    ensures !PutReturns(run[|run| - 1], k) ==> !PutsSafe(run[0], hash, d)
  {
    hide LookupReturns, PutReturns;
  }

  lemma Quarters(cap: nat)
    requires IsPow2(cap) && cap >= 16
    ensures cap % 4 == 0
  {
    assert IsPow2(cap / 2) && IsPow2(cap / 4);
  }

  // ------------------------------------------------------------------ over all hashes

  lemma Above(ks: set<int>) returns (b: nat)
    ensures forall k :: k in ks ==> k < b
  {
    b := 0;
    if x :| x in ks {
      var c := Above(ks - {x});
      b := if x < c then c else x + 1;
      assert forall k :: k in ks ==> k == x || k in ks - {x};
    }
  }

  /** The condition on the hash can be met: for instance when it is the key itself. */
  lemma IdentityCovers(cap: nat) returns (hash: int -> nat)
    requires cap > 0
    ensures Covers(hash, cap)
  {
    hash := (k: int) => if k < 0 then 0 else k;
    forall s, ks: set<int> | 0 <= s < cap ensures HasKeyFor(hash, cap, s, ks) {
      var b := Above(ks);
      ModUnique(cap * b + s, cap, b, s);
      AtLeast(cap, b);
      assert cap * b + s !in ks && Home(hash, cap * b + s, cap) == s;
    }
  }

  lemma AtLeast(cap: nat, b: nat)
    requires cap > 0
    ensures cap * b >= b
  {
  }

  /** Over all hashes, and for any number of entries with which a table can be built: a quarter as many deletions
      as slots is where the promise ends. */
  lemma PromiseEnds<V(!new)>(cap: nat, n: nat, d: nat, v: V)
    requires IsPow2(cap) && cap >= 16 && 2 * n <= cap
    ensures (forall hash, t0: Table<V> :: Rebuilt(t0, hash, cap) && Lives(t0) == n ==> LookupsSafe(t0, hash, d))
      <==> 4 * d < cap
    ensures (forall hash, t0: Table<V> :: Rebuilt(t0, hash, cap) && Lives(t0) == n ==> PutsSafe(t0, hash, d))
      <==> 4 * d <= cap
  {
    hide IsPow2, Covers, LookupsSafe, PutsSafe;
    var hash := IdentityCovers(cap);
    var built := BuiltWith(hash, cap, n, v);
    LookupBound(built, hash, d, v);
    PutBound(built, hash, d, v);
    if 4 * d < cap {
      forall hash, t0: Table<V> | |t0| == cap ensures LookupsSafe(t0, hash, d) {
        FewDeletionsLookup(t0, hash, d);
      }
    }
    if 4 * d <= cap {
      forall hash, t0: Table<V> | |t0| == cap ensures PutsSafe(t0, hash, d) {
        FewDeletionsPut(t0, hash, d);
      }
    }
  }

  lemma BuiltWith<V(!new)>(hash: int -> nat, cap: nat, n: nat, v: V) returns (t: Table<V>)
    requires Covers(hash, cap) && cap >= 16 && 2 * n <= cap
    ensures Rebuilt(t, hash, cap) && Lives(t) == n
  {
    hide Covers, Run;
    var blank: Table<V> := seq(cap, _ => Empty);
    BlankRebuilt(blank, hash);
    var run, dels := FillingRun(blank, hash, 0, n, v);
    t := run[|run| - 1];
  }

  lemma BlankRebuilt<V>(t: Table<V>, hash: int -> nat)
    requires |t| > 0 && forall i :: 0 <= i < |t| ==> t[i] == Empty
    ensures Rebuilt(t, hash, |t|) && Lives(t) == 0
  {
    Blank(t);
  }

  // ------------------------------------------------------------------ filling a table home by home

  /** For every slot there is a key at home in it, and there is one more key. */
  ghost predicate Spread(hash: int -> nat, cap: nat, keys: seq<int>, other: int) {
    && |keys| == cap > 0 && other !in keys
    && forall s :: 0 <= s < cap ==> Home(hash, keys[s], cap) == s
  }

  /** The first `p` slots hold tombstones, the next `q` the keys at home there. */
  ghost predicate Filled<V>(t: Table<V>, keys: seq<int>, p: nat, q: nat)
    requires p + q <= |keys|
  {
    && |t| == |keys| && Lives(t) == q
    && (forall s :: 0 <= s < p ==> t[s] == Tomb)
    && (forall s :: p <= s < p + q ==> t[s].Live? && t[s].key == keys[s])
    && (forall s :: p + q <= s < |t| ==> t[s] == Empty)
  }

  /** A key whose home is still empty is stored there. */
  lemma StoredAtHome<V(!new)>(t: Table<V>, hash: int -> nat, keys: seq<int>, other: int, p: nat, q: nat, v: V)
    requires Spread(hash, |t|, keys, other) && p + q < |t| && Filled(t, keys, p, q) && !Growing(t)
    ensures var k, s := keys[p + q], p + q;
      && Unique(t) && Lands(t, hash, k, s) && k !in Dict(t)
      && PutStep(t, hash, k, t[s := Live(k, v)]) && Filled(t[s := Live(k, v)], keys, p, q + 1)
  {
    var k, s := keys[p + q], p + q;
    DifferentKeys(hash, keys, other);
    if k in Dict(t) {
      var at := DictSlot(t, k);
    }
    assert Stops(t, k, s);
    Recount(t, s, Live(k, v));
  }

  lemma DifferentKeys(hash: int -> nat, keys: seq<int>, other: int)
    requires Spread(hash, |keys|, keys, other)
    ensures forall i, j :: 0 <= i < j < |keys| ==> keys[i] != keys[j]
  {
  }

  /** A table without an empty slot: a probe for a missing key never stops. */
  lemma FilledHangs<V>(t: Table<V>, keys: seq<int>, other: int, p: nat, q: nat)
    requires p + q == |keys| && Filled(t, keys, p, q) && other !in keys
    ensures !HasEmpty(t) && !ProbeStops(t, other)
  {
    forall i | 0 <= i < |t| ensures !Stops(t, other, i) {
      assert keys[i] in keys;
    }
  }
}
