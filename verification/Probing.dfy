/** Open addressing with tombstones, on plain sequences of slots.

  Three tables of the runtime probe this way: the wcache, the wmap inside a world and
  the allocation-log table. Each walks from the home slot of a key, one slot at a time
  and cyclically, until it meets an empty slot or the key itself. This module says what
  such a table means and what one store or one deletion does to that meaning, for an
  arbitrary hash. */
module Probing {

  /** A slot is free (state 0), holds a pair (state 1) or was deleted (state 2). */
  datatype Cell<K, V> = Empty | Live(key: K, val: V) | Tomb

  // ---------------------------------------------------------------- bit masks

  ghost predicate IsPow2(n: int) {
    n == 1 || (n > 1 && n % 2 == 0 && IsPow2(n / 2))
  }

  /** Bitwise `x & m` on non-negative integers. */
  function BitAnd(x: nat, m: nat): (r: nat)
    ensures r <= m
  {
    if m == 0 then 0 else (x % 2) * (m % 2) + 2 * BitAnd(x / 2, m / 2)
  }

  /** Masking with `cap - 1` is reduction modulo `cap` when `cap` is a power of two. */
  lemma {:induction false} MaskIsMod(x: nat, cap: nat)
    requires IsPow2(cap)
    ensures BitAnd(x, cap - 1) == x % cap
  {
    if cap > 1 {
      var half, y := cap / 2, x / 2;
      MaskIsMod(y, half);
      assert (cap - 1) / 2 == half - 1 && (cap - 1) % 2 == 1;
      HalfMod(x, half);
    }
  }

  lemma HalfMod(x: nat, half: nat)
    requires half > 0
    ensures x % (2 * half) == x % 2 + 2 * ((x / 2) % half)
  {
    var y := x / 2;
    var q, r := y / half, y % half;
    assert y == half * q + r;
    assert 2 * (half * q) == (2 * half) * q;
    ModUnique(x, 2 * half, q, x % 2 + 2 * r);
  }

  lemma ModUnique(x: nat, m: nat, q: nat, r: nat)
    requires m > 0 && r < m && x == m * q + r
    ensures x % m == r
  {
    var p, s := x / m, x % m;
    Quotients(m, p, s, q, r);
  }

  lemma Quotients(m: nat, p: int, s: nat, q: int, r: nat)
    requires r < m && s < m && m * p + s == m * q + r
    ensures r == s
  {
    assert m * (p - q) == r - s;
    MulAtLeast(m, p - q);
    MulAtLeast(m, q - p);
    assert m * (q - p) == -(m * (p - q));
  }

  lemma MulAtLeast(m: nat, d: int)
    ensures d >= 1 ==> m * d >= m
  {
    if d >= 1 {
      assert m * d == m * (d - 1) + m;
    }
  }

  lemma Pow2Doubles(cap: nat)
    requires IsPow2(cap)
    ensures IsPow2(2 * cap)
  {
    assert (2 * cap) / 2 == cap;
  }

  // ------------------------------------------------------- cyclic positions

  function Next(cap: nat, i: nat): (j: nat)
    requires i < cap
    ensures j < cap
  {
    if i + 1 == cap then 0 else i + 1
  }

  /** Number of steps from slot `i` to slot `j`. */
  function Dist(cap: nat, i: nat, j: nat): (d: nat)
    requires i < cap && j < cap
    ensures d < cap
  {
    if i <= j then j - i else j + cap - i
  }

  function Home<K>(hash: K -> nat, k: K, cap: nat): (i: nat)
    requires cap > 0
    ensures i < cap
  {
    hash(k) % cap
  }

  /** `(i + 1) & (cap - 1)` is the next slot, cyclically. */
  method StepFrom(i: nat, cap: nat) returns (j: nat)
    requires IsPow2(cap) && i < cap
    ensures j == Next(cap, i)
  {
    j := BitAnd(i + 1, cap - 1);
    MaskIsMod(i + 1, cap);
    ModUnique(i + 1, cap, if i + 1 == cap then 1 else 0, Next(cap, i));
  }

  /** `hash(k) & (cap - 1)` is the home slot. */
  method HomeOf<K>(hash: K -> nat, k: K, cap: nat) returns (i: nat)
    requires IsPow2(cap)
    ensures i == Home(hash, k, cap)
  {
    i := BitAnd(hash(k), cap - 1);
    MaskIsMod(hash(k), cap);
  }

  // ------------------------------------------------------------ what a table means

  /** Slot `x` lies strictly before slot `i` on the path from the home of `k`. */
  ghost predicate Before<K, V>(t: seq<Cell<K, V>>, hash: K -> nat, k: K, x: nat, i: nat)
    requires x < |t| && i < |t|
  {
    Dist(|t|, Home(hash, k, |t|), x) < Dist(|t|, Home(hash, k, |t|), i)
  }

  ghost predicate Unique<K, V>(t: seq<Cell<K, V>>) {
    forall i, j :: 0 <= i < |t| && 0 <= j < |t| && t[i].Live? && t[j].Live? && t[i].key == t[j].key ==> i == j
  }

  /** Every pair can be reached from its home without crossing an empty slot. */
  ghost predicate Chained<K, V>(t: seq<Cell<K, V>>, hash: K -> nat) {
    forall j, x :: 0 <= j < |t| && 0 <= x < |t| && t[j].Live? && Before(t, hash, t[j].key, x, j) ==> t[x] != Empty
  }

  ghost predicate Wf<K, V>(t: seq<Cell<K, V>>, hash: K -> nat) {
    |t| > 0 && Unique(t) && Chained(t, hash)
  }

  ghost function Dict<K, V>(t: seq<Cell<K, V>>): (m: map<K, V>) {
    if |t| == 0 then map[]
    else
      var m, c := Dict(t[..|t| - 1]), t[|t| - 1];
      if c.Live? then m[c.key := c.val] else m
  }

  lemma {:induction false} DictAt<K, V>(t: seq<Cell<K, V>>, i: nat)
    requires Unique(t) && i < |t| && t[i].Live?
    ensures t[i].key in Dict(t) && Dict(t)[t[i].key] == t[i].val
  {
    var n := |t| - 1;
    if i < n {
      assert t[..n][i] == t[i];
      DictAt(t[..n], i);
    }
  }

  lemma {:induction false} DictSlot<K, V>(t: seq<Cell<K, V>>, k: K) returns (i: nat)
    requires k in Dict(t)
    ensures i < |t| && t[i] == Live(k, Dict(t)[k])
  {
    var n := |t| - 1;
    if t[n].Live? && t[n].key == k {
      i := n;
    } else {
      i := DictSlot(t[..n], k);
    }
  }

  ghost predicate HasEmpty<K, V>(t: seq<Cell<K, V>>) {
    exists g :: 0 <= g < |t| && t[g] == Empty
  }

  /** A probe for `k` stops at a slot that is empty or holds `k`. */
  ghost predicate Stops<K, V>(t: seq<Cell<K, V>>, k: K, i: nat)
    requires i < |t|
  {
    t[i] == Empty || (t[i].Live? && t[i].key == k)
  }

  /** Slots from the home of `k` up to, not including, `i` do not stop a probe for `k`. */
  ghost predicate Passed<K, V>(t: seq<Cell<K, V>>, hash: K -> nat, k: K, i: nat)
    requires i < |t|
  {
    forall x :: 0 <= x < |t| && Before(t, hash, k, x, i) ==> !Stops(t, k, x)
  }

  /** The slot a store of `k` writes: the slot of `k` when there is one, otherwise the
      first slot on its path that holds no pair (a tombstone is reused). */
  ghost predicate Lands<K, V>(t: seq<Cell<K, V>>, hash: K -> nat, k: K, i: nat)
    requires Unique(t)
  {
    && i < |t|
    && if k in Dict(t) then t[i].Live? && t[i].key == k
       else !t[i].Live? && forall x :: 0 <= x < |t| && Before(t, hash, k, x, i) ==> t[x].Live?
  }

  lemma LandsOnce<K, V>(t: seq<Cell<K, V>>, hash: K -> nat, k: K, i: nat, j: nat)
    requires Unique(t) && Lands(t, hash, k, i) && Lands(t, hash, k, j)
    ensures i == j
  {
    if k !in Dict(t) {
      assert !Before(t, hash, k, i, j) && !Before(t, hash, k, j, i);
    }
  }

  // --------------------------------------------------------------- one probe

  /** Advancing a probe by one slot. The goal `g` stops the probe, so the walk is finite. */
  lemma Advance<K, V>(t: seq<Cell<K, V>>, hash: K -> nat, k: K, i: nat, g: nat)
    requires i < |t| && g < |t| && Stops(t, k, g) && !Stops(t, k, i)
    requires Passed(t, hash, k, i) && !Before(t, hash, k, g, i)
    ensures Passed(t, hash, k, Next(|t|, i)) && !Before(t, hash, k, g, Next(|t|, i))
    ensures Dist(|t|, Next(|t|, i), g) < Dist(|t|, i, g)
    ensures Dist(|t|, Home(hash, k, |t|), Next(|t|, i)) == Dist(|t|, Home(hash, k, |t|), i) + 1
  {
    var cap, h := |t|, Home(hash, k, |t|);
    assert Dist(cap, h, i) < Dist(cap, h, g);
    forall x | 0 <= x < cap && Before(t, hash, k, x, Next(cap, i)) ensures !Stops(t, k, x) {
      assert x == i || Before(t, hash, k, x, i);
    }
  }

  /** What a store remembers on its way: the first tombstone met before slot `i`, or -1. */
  ghost predicate FirstHole<K, V>(t: seq<Cell<K, V>>, hash: K -> nat, k: K, i: nat, hole: int)
    requires i < |t|
  {
    && -1 <= hole < |t|
    && (hole >= 0 ==> t[hole] == Tomb && Before(t, hash, k, hole, i))
    && forall x :: 0 <= x < |t| && Before(t, hash, k, x, if hole >= 0 then hole else i) ==> t[x].Live?
  }

  /** A store on its way: nothing before slot `i` stops it, the goal `g` is still ahead. */
  ghost predicate Walking<K, V>(t: seq<Cell<K, V>>, hash: K -> nat, k: K, i: nat, g: nat, hole: int)
    requires i < |t| && g < |t|
  {
    Passed(t, hash, k, i) && !Before(t, hash, k, g, i) && FirstHole(t, hash, k, i, hole)
  }

  lemma WalkOn<K, V>(t: seq<Cell<K, V>>, hash: K -> nat, k: K, i: nat, g: nat, hole: int)
    requires i < |t| && g < |t| && Stops(t, k, g) && !Stops(t, k, i)
    requires Walking(t, hash, k, i, g, hole)
    ensures Walking(t, hash, k, Next(|t|, i), g, if t[i] == Tomb && hole < 0 then i else hole)
    ensures Dist(|t|, Next(|t|, i), g) < Dist(|t|, i, g)
  {
    var cap, h := |t|, Home(hash, k, |t|);
    Advance(t, hash, k, i, g);
    if hole < 0 {
      forall x | 0 <= x < cap && Before(t, hash, k, x, if t[i] == Tomb then i else Next(cap, i)) ensures t[x].Live? {
        assert x == i || Before(t, hash, k, x, i);
      }
    }
  }

  /** An empty slot met by a probe proves that the key is absent. */
  lemma Absent<K, V>(t: seq<Cell<K, V>>, hash: K -> nat, k: K, i: nat)
    requires Wf(t, hash) && i < |t| && t[i] == Empty && Passed(t, hash, k, i)
    ensures k !in Dict(t)
  {
    if k in Dict(t) {
      var j := DictSlot(t, k);
      assert Stops(t, k, j);
    }
  }

  /** The slot that stops every probe for `k`, when there is one. */
  lemma Goal<K, V>(t: seq<Cell<K, V>>, hash: K -> nat, k: K) returns (g: nat)
    requires Unique(t) && (HasEmpty(t) || k in Dict(t))
    ensures g < |t| && Stops(t, k, g)
  {
    if k in Dict(t) {
      g := DictSlot(t, k);
    } else {
      g :| g < |t| && t[g] == Empty;
    }
  }

  /** Exactly when a probe can stop: some slot is empty or the key is present. */
  lemma StopsIff<K, V>(t: seq<Cell<K, V>>, hash: K -> nat, k: K)
    requires Unique(t)
    ensures (exists i :: 0 <= i < |t| && Stops(t, k, i)) <==> (HasEmpty(t) || k in Dict(t))
  {
    if HasEmpty(t) || k in Dict(t) {
      var g := Goal(t, hash, k);
    }
    if i :| 0 <= i < |t| && Stops(t, k, i) && t[i] != Empty {
      DictAt(t, i);
    }
  }

  // ------------------------------------------------------- store and delete

  lemma NotHeld<K, V>(t: seq<Cell<K, V>>, k: K, a: nat)
    requires Unique(t) && k !in Dict(t) && a < |t|
    ensures t[a].Live? ==> t[a].key != k
  {
    if t[a].Live? { DictAt(t, a); }
  }

  lemma StoreNew<K, V>(t: seq<Cell<K, V>>, hash: K -> nat, k: K, v: V, i: nat)
    requires Wf(t, hash) && k !in Dict(t) && Lands(t, hash, k, i)
    ensures Wf(t[i := Live(k, v)], hash)
    ensures Dict(t[i := Live(k, v)]) == Dict(t)[k := v]
  {
    var u := t[i := Live(k, v)];
    forall a, b | 0 <= a < |u| && 0 <= b < |u| && u[a].Live? && u[b].Live? && u[a].key == u[b].key ensures a == b {
      NotHeld(t, k, a);
      NotHeld(t, k, b);
    }
    forall j, x | 0 <= j < |u| && 0 <= x < |u| && u[j].Live? && Before(u, hash, u[j].key, x, j) ensures u[x] != Empty {
      if j == i {
        assert Before(t, hash, k, x, i);
      } else {
        assert Before(t, hash, t[j].key, x, j);
      }
    }
    DictUpdated(t, u, i, k, v);
  }

  lemma DictUpdated<K, V>(t: seq<Cell<K, V>>, u: seq<Cell<K, V>>, i: nat, k: K, v: V)
    requires Unique(t) && i < |t| && u == t[i := Live(k, v)] && Unique(u)
    requires t[i].Live? ==> t[i].key == k
    ensures Dict(u) == Dict(t)[k := v]
  {
    forall q | q in Dict(u) ensures q in Dict(t)[k := v] && Dict(u)[q] == Dict(t)[k := v][q] {
      var j := DictSlot(u, q);
      if j != i {
        assert t[j] == u[j];
        DictAt(t, j);
        assert u[i].key != u[j].key;
      }
    }
    forall q | q in Dict(t)[k := v] ensures q in Dict(u) {
      if q == k {
        DictAt(u, i);
      } else {
        var j := DictSlot(t, q);
        assert j != i;
        DictAt(u, j);
      }
    }
  }

  lemma StoreOver<K, V>(t: seq<Cell<K, V>>, hash: K -> nat, k: K, v: V, i: nat)
    requires Wf(t, hash) && i < |t| && t[i].Live? && t[i].key == k
    ensures Wf(t[i := Live(k, v)], hash)
    ensures Dict(t[i := Live(k, v)]) == Dict(t)[k := v]
  {
    var u := t[i := Live(k, v)];
    forall j, x | 0 <= j < |u| && 0 <= x < |u| && u[j].Live? && Before(u, hash, u[j].key, x, j) ensures u[x] != Empty {
      assert Before(t, hash, t[j].key, x, j);
    }
    DictUpdated(t, u, i, k, v);
  }

  /** A store at the landing slot updates the finite map at exactly that key. */
  lemma StoreLands<K, V>(t: seq<Cell<K, V>>, hash: K -> nat, k: K, v: V, i: nat)
    requires Wf(t, hash) && Lands(t, hash, k, i)
    ensures Wf(t[i := Live(k, v)], hash)
    ensures Dict(t[i := Live(k, v)]) == Dict(t)[k := v]
  {
    if k in Dict(t) {
      StoreOver(t, hash, k, v, i);
    } else {
      StoreNew(t, hash, k, v, i);
    }
  }

  /** The store that ends a probe at the empty slot `i`. */
  lemma StoreEnds<K, V>(t: seq<Cell<K, V>>, hash: K -> nat, k: K, v: V, i: nat, hole: int) returns (at: nat)
    requires Wf(t, hash) && i < |t| && t[i] == Empty && Passed(t, hash, k, i) && FirstHole(t, hash, k, i, hole)
    ensures at == (if hole >= 0 then hole else i) && at < |t| && k !in Dict(t) && Lands(t, hash, k, at)
    ensures Wf(t[at := Live(k, v)], hash) && Dict(t[at := Live(k, v)]) == Dict(t)[k := v]
    ensures Lives(t[at := Live(k, v)]) == Lives(t) + 1 && Tombs(t[at := Live(k, v)]) <= Tombs(t)
  {
    at := if hole >= 0 then hole else i;
    Absent(t, hash, k, i);
    StoreNew(t, hash, k, v, at);
    Recount(t, at, Live(k, v));
  }

  /** The store that ends a probe at the slot of `k`. */
  lemma StoreHits<K, V>(t: seq<Cell<K, V>>, hash: K -> nat, k: K, v: V, i: nat)
    requires Wf(t, hash) && i < |t| && t[i].Live? && t[i].key == k
    ensures k in Dict(t) && Dict(t)[k] == t[i].val && Lands(t, hash, k, i)
    ensures Wf(t[i := Live(k, v)], hash) && Dict(t[i := Live(k, v)]) == Dict(t)[k := v]
    ensures Lives(t[i := Live(k, v)]) == Lives(t) && Tombs(t[i := Live(k, v)]) == Tombs(t)
  {
    DictAt(t, i);
    StoreOver(t, hash, k, v, i);
    Recount(t, i, Live(k, v));
  }

  /** Turning the slot of `k` into a tombstone removes exactly `k`. */
  lemma Bury<K, V>(t: seq<Cell<K, V>>, hash: K -> nat, k: K, i: nat)
    requires Wf(t, hash) && i < |t| && t[i].Live? && t[i].key == k
    ensures Wf(t[i := Tomb], hash)
    ensures k in Dict(t) && Dict(t[i := Tomb]) == Dict(t) - {k}
  {
    var u := t[i := Tomb];
    DictAt(t, i);
    forall j, x | 0 <= j < |u| && 0 <= x < |u| && u[j].Live? && Before(u, hash, u[j].key, x, j) ensures u[x] != Empty {
      assert Before(t, hash, t[j].key, x, j);
    }
    forall q | q in Dict(u) ensures q in Dict(t) - {k} && Dict(u)[q] == Dict(t)[q] {
      var j := DictSlot(u, q);
      assert t[j] == u[j];
      DictAt(t, j);
    }
    forall q | q in Dict(t) - {k} ensures q in Dict(u) {
      var j := DictSlot(t, q);
      DictAt(u, j);
    }
  }

  /** A table of empty slots is the empty map. */
  lemma {:induction false} Blank<K, V>(t: seq<Cell<K, V>>)
    requires forall i :: 0 <= i < |t| ==> t[i] == Empty
    ensures Dict(t) == map[] && Lives(t) == 0 && Tombs(t) == 0
    ensures |t| > 0 ==> HasEmpty(t)
  {
    if |t| > 0 {
      assert t[0] == Empty;
      Blank(t[..|t| - 1]);
    }
  }

  // ------------------------------------------------------------------ counting

  ghost function Lives<K, V>(t: seq<Cell<K, V>>): (n: nat)
    ensures n <= |t|
  {
    if |t| == 0 then 0 else Lives(t[..|t| - 1]) + if t[|t| - 1].Live? then 1 else 0
  }

  ghost function Tombs<K, V>(t: seq<Cell<K, V>>): (n: nat)
    ensures n <= |t|
  {
    if |t| == 0 then 0 else Tombs(t[..|t| - 1]) + if t[|t| - 1] == Tomb then 1 else 0
  }

  lemma {:induction false} Recount<K, V>(t: seq<Cell<K, V>>, i: nat, c: Cell<K, V>)
    requires i < |t|
    ensures Lives(t[i := c]) == Lives(t) - (if t[i].Live? then 1 else 0) + (if c.Live? then 1 else 0)
    ensures Tombs(t[i := c]) == Tombs(t) - (if t[i] == Tomb then 1 else 0) + (if c == Tomb then 1 else 0)
  {
    var n := |t| - 1;
    if i == n {
      assert t[i := c][..n] == t[..n];
    } else {
      Recount(t[..n], i, c);
      assert t[i := c][..n] == t[..n][i := c];
    }
  }

  /** A table just built has no tombstones and is at most half full. */
  ghost predicate Settled<K, V>(t: seq<Cell<K, V>>) {
    Tombs(t) == 0 && 2 * Lives(t) <= |t|
  }

  /** Fewer used slots than slots: some slot is empty; and conversely. */
  lemma {:induction false} EmptyIff<K, V>(t: seq<Cell<K, V>>)
    ensures Lives(t) + Tombs(t) <= |t|
    ensures HasEmpty(t) <==> Lives(t) + Tombs(t) < |t|
  {
    if |t| > 0 {
      var n := |t| - 1;
      EmptyIff(t[..n]);
      if HasEmpty(t) {
        var g :| 0 <= g < |t| && t[g] == Empty;
        assert g < n ==> t[..n][g] == Empty;
      }
      if HasEmpty(t[..n]) {
        var g :| 0 <= g < n && t[..n][g] == Empty;
        assert t[g] == Empty;
      } else if t[n] == Empty {
        assert HasEmpty(t);
      }
    }
  }

  /** The live count is the size of the finite map. */
  lemma {:induction false} LivesAreKeys<K, V>(t: seq<Cell<K, V>>)
    requires Unique(t)
    ensures |Dict(t)| == Lives(t)
  {
    if |t| > 0 {
      var n := |t| - 1;
      LivesAreKeys(t[..n]);
      DictPrefix(t, n);
    }
  }

  /** Reading one more slot adds at most that slot's pair. */
  lemma DictPrefix<K, V>(t: seq<Cell<K, V>>, n: nat)
    requires Unique(t) && n < |t|
    ensures Unique(t[..n]) && Unique(t[..n + 1])
    ensures t[n].Live? ==> t[n].key !in Dict(t[..n])
    ensures Dict(t[..n + 1]) == if t[n].Live? then Dict(t[..n])[t[n].key := t[n].val] else Dict(t[..n])
  {
    assert t[..n + 1][..n] == t[..n];
    if t[n].Live? {
      var k := t[n].key;
      if k in Dict(t[..n]) {
        var j := DictSlot(t[..n], k);
      }
    }
  }

  lemma PrefixKeys<K, V>(t: seq<Cell<K, V>>, n: nat)
    requires Unique(t) && n <= |t|
    ensures Unique(t[..n]) && forall k :: k in Dict(t[..n]) ==> k in Dict(t) && Dict(t[..n])[k] == Dict(t)[k]
  {
    forall k | k in Dict(t[..n]) ensures k in Dict(t) && Dict(t[..n])[k] == Dict(t)[k] {
      var j := DictSlot(t[..n], k);
      DictAt(t, j);
    }
  }

  /** Reading one more slot of a table. */
  lemma OneMore<K, V>(t: seq<Cell<K, V>>, i: nat)
    requires Unique(t) && i < |t|
    ensures Lives(t[..i]) <= Lives(t[..i + 1]) <= Lives(t)
    ensures Lives(t[..i + 1]) == Lives(t[..i]) + if t[i].Live? then 1 else 0
    ensures t[i].Live? ==> t[i].key !in Dict(t[..i])
    ensures Dict(t[..i + 1]) == if t[i].Live? then Dict(t[..i])[t[i].key := t[i].val] else Dict(t[..i])
  {
    hide Unique;
    DictPrefix(t, i);
    LivesPrefix(t, i + 1);
    assert t[..i + 1][..i] == t[..i];
  }

  /** Deletion bound: live pairs fill at most 3/4 of the slots and at most `dels` slots are
      tombstones, so fewer than a quarter as many deletions leave an empty slot. */
  lemma DeletionBound<K, V>(t: seq<Cell<K, V>>, dels: nat)
    requires 4 * Lives(t) <= 3 * |t| && Tombs(t) <= dels && 4 * dels < |t|
    ensures HasEmpty(t)
  {
    EmptyIff(t);
  }

  lemma {:induction false} LivesPrefix<K, V>(t: seq<Cell<K, V>>, n: nat)
    requires n <= |t|
    ensures Lives(t[..n]) <= Lives(t)
  {
    if n < |t| {
      LivesPrefix(t[..|t| - 1], n);
      assert t[..|t| - 1][..n] == t[..n];
    } else {
      assert t[..n] == t;
    }
  }
}
