/** The per-thread allocation log of the parallel runtime: an open-addressing table from
  pointers to block sizes, whose growth test counts tombstones too, and a list of pointers
  in allocation order that mark and rewind cut. */
module AllocLog {
  import opened Common
  import opened Probing

  /** A pointer is its address; NULL is 0 and 1 marks a tombstone. */
  type Ptr = p: int | p > 1 witness 2

  datatype Info = Info(n: nat, persist: bool)

  type Table = seq<Cell<Ptr, Info>>

  /** Total size of the logged blocks of one kind. */
  ghost function Total(t: Table, persist: bool): nat {
    if |t| == 0 then 0
    else Total(t[..|t| - 1], persist) + Weight(t[|t| - 1], persist)
  }

  ghost function Weight(c: Cell<Ptr, Info>, persist: bool): nat {
    if c.Live? && c.val.persist == persist then c.val.n else 0
  }

  lemma {:induction false} Retotal(t: Table, i: nat, c: Cell<Ptr, Info>, persist: bool)
    requires i < |t|
    ensures Total(t[i := c], persist) == Total(t, persist) - Weight(t[i], persist) + Weight(c, persist)
  {
    var n := |t| - 1;
    if i == n {
      assert t[i := c][..n] == t[..n];
    } else {
      Retotal(t[..n], i, c, persist);
      assert t[i := c][..n] == t[..n][i := c];
    }
  }

  lemma {:induction false} BlankTotal(t: Table, persist: bool)
    requires forall i :: 0 <= i < |t| ==> t[i] == Empty
    ensures Total(t, persist) == 0
  {
    if |t| > 0 { BlankTotal(t[..|t| - 1], persist); }
  }

  /** A table with no entry of one kind holds no bytes of that kind. */
  lemma {:induction false} NoneTotal(t: Table, persist: bool)
    requires Unique(t) && forall p :: p in Dict(t) ==> Dict(t)[p].persist != persist
    ensures Total(t, persist) == 0
  {
    if |t| > 0 {
      var n := |t| - 1;
      DictPrefix(t, n);
      assert t[..n + 1] == t;
      if t[n].Live? { DictAt(t, n); }
      forall p | p in Dict(t[..n]) ensures Dict(t[..n])[p].persist != persist {
        assert p in Dict(t);
      }
      NoneTotal(t[..n], persist);
    }
  }

  // -------------------------------------------------------- what a rewind leaves

  /** The entries of a log suffix that survive a rewind: persistent and still logged. */
  ghost function Kept(s: seq<Ptr>, m: map<Ptr, Info>): seq<Ptr> {
    if |s| == 0 then []
    else
      var p := s[|s| - 1];
      Kept(s[..|s| - 1], m) + if p in m && m[p].persist then [p] else []
  }

  /** The calls of `free`, in order: a pointer logged twice is released once. */
  ghost function Freed(s: seq<Ptr>, m: map<Ptr, Info>): seq<Ptr> {
    if |s| == 0 then []
    else
      var f, p := Freed(s[..|s| - 1], m), s[|s| - 1];
      f + if p in m && !m[p].persist && p !in f then [p] else []
  }

  ghost function Sizes(f: seq<Ptr>, m: map<Ptr, Info>): nat {
    if |f| == 0 then 0
    else
      var p := f[|f| - 1];
      Sizes(f[..|f| - 1], m) + if p in m then m[p].n else 0
  }

  ghost function Without(m: map<Ptr, Info>, f: seq<Ptr>): map<Ptr, Info> {
    m - (set p | p in f)
  }

  /** Each non-persistent logged pointer of the suffix is freed exactly once, and nothing else. */
  lemma {:induction false} FreedExactly(s: seq<Ptr>, m: map<Ptr, Info>)
    ensures Distinct(Freed(s, m))
    ensures forall p :: p in Freed(s, m) <==> p in s && p in m && !m[p].persist
  {
    if |s| > 0 {
      FreedExactly(s[..|s| - 1], m);
      assert s == s[..|s| - 1] + [s[|s| - 1]];
    }
  }

  /** The survivors are the persistent logged pointers of the suffix, in their order. */
  lemma {:induction false} KeptExactly(s: seq<Ptr>, m: map<Ptr, Info>)
    ensures forall p :: p in Kept(s, m) <==> p in s && p in m && m[p].persist
    ensures |Kept(s, m)| <= |s|
  {
    if |s| > 0 {
      KeptExactly(s[..|s| - 1], m);
      assert s == s[..|s| - 1] + [s[|s| - 1]];
    }
  }

  /** Their order is that of the list, and a survivor listed twice stays so: the survivors of two parts are
      those of the one followed by those of the other, and of one entry the entry or nothing. */
  lemma {:induction false} KeptInOrder(s: seq<Ptr>, t: seq<Ptr>, p: Ptr, m: map<Ptr, Info>)
    ensures Kept(s + t, m) == Kept(s, m) + Kept(t, m)
    ensures Kept([p], m) == if p in m && m[p].persist then [p] else []
  {
    assert [p][..0] == [];
    if t == [] {
      assert s + t == s;
    } else {
      assert (s + t)[..|s + t| - 1] == s + t[..|t| - 1];
      KeptInOrder(s, t[..|t| - 1], p, m);
    }
  }

  lemma OneMoreTotal(t: Table, i: nat)
    requires i < |t|
    ensures Total(t[..i + 1], true) == Total(t[..i], true) + Weight(t[i], true)
    ensures Total(t[..i + 1], false) == Total(t[..i], false) + Weight(t[i], false)
  {
    assert t[..i + 1][..i] == t[..i];
  }

  /** Effect of storing an entry for an unlogged pointer. */
  lemma Placed(t: Table, hash: Ptr -> nat, p: Ptr, e: Info, i: nat)
    requires Wf(t, hash) && p !in Dict(t) && Lands(t, hash, p, i)
    ensures var u := t[i := Live(p, e)];
      && Wf(u, hash) && Dict(u) == Dict(t)[p := e]
      && Lives(u) == Lives(t) + 1 && Tombs(u) == Tombs(t) - (if t[i] == Tomb then 1 else 0)
      && Total(u, e.persist) == Total(t, e.persist) + e.n && Total(u, !e.persist) == Total(t, !e.persist)
  {
    StoreNew(t, hash, p, e, i);
    Recount(t, i, Live(p, e));
    Retotal(t, i, Live(p, e), true);
    Retotal(t, i, Live(p, e), false);
  }

  /** Effect of turning the slot of a logged pointer into a tombstone. */
  lemma Removed(t: Table, hash: Ptr -> nat, p: Ptr, i: nat)
    requires Wf(t, hash) && i < |t| && t[i].Live? && t[i].key == p
    ensures var u, e := t[i := Tomb], t[i].val;
      && Wf(u, hash) && p in Dict(t) && Dict(u) == Dict(t) - {p}
      && Lives(u) == Lives(t) - 1 && Tombs(u) == Tombs(t) + 1
      && Total(u, e.persist) == Total(t, e.persist) - e.n && Total(u, !e.persist) == Total(t, !e.persist)
  {
    Bury(t, hash, p, i);
    Recount(t, i, Tomb);
    Retotal(t, i, Tomb, true);
    Retotal(t, i, Tomb, false);
  }

  /** A rewind in progress: `i` entries read, `k` kept, the blocks of `freed` released, `now`
      still logged and `bytes` taken off the counter. */
  ghost predicate Cut(v0: seq<Ptr>, mark: nat, m: map<Ptr, Info>,
      v: seq<Ptr>, k: nat, i: nat, freed: seq<Ptr>, now: map<Ptr, Info>, bytes: int) {
    && mark <= k <= i <= |v| == |v0|
    && v[..k] == v0[..mark] + Kept(v0[mark..i], m)
    && v[i..] == v0[i..]
    && freed == Freed(v0[mark..i], m)
    && now == Without(m, freed) && bytes == Sizes(freed, m)
  }

  /** The list with the latest occurrence of `p` replaced. */
  ghost function Replaced(v: seq<Ptr>, p: Ptr, np: Ptr): seq<Ptr> {
    if |v| == 0 then []
    else
      var last := v[|v| - 1];
      if last == p then v[..|v| - 1] + [np] else Replaced(v[..|v| - 1], p, np) + [last]
  }

  /** `i` is where `p` occurs last. */
  ghost predicate Latest(v: seq<Ptr>, p: Ptr, i: nat) {
    i < |v| && v[i] == p && p !in v[i + 1..]
  }

  lemma {:induction false} ReplacedLatest(v: seq<Ptr>, p: Ptr, np: Ptr)
    ensures p !in v ==> Replaced(v, p, np) == v
    ensures p in v ==> exists i: nat :: Latest(v, p, i) && Replaced(v, p, np) == v[i := np]
  {
    if |v| > 0 {
      var init, last := v[..|v| - 1], v[|v| - 1];
      assert v == init + [last];
      ReplacedLatest(init, p, np);
      if last == p {
        assert Latest(v, p, |v| - 1);
      } else if p in init {
        var i: nat :| Latest(init, p, i) && Replaced(init, p, np) == init[i := np];
        LatestStays(init, last, p, np, i);
      }
    }
  }

  lemma LatestStays(init: seq<Ptr>, last: Ptr, p: Ptr, np: Ptr, i: nat)
    requires Latest(init, p, i) && last != p
    ensures Latest(init + [last], p, i) && init[i := np] + [last] == (init + [last])[i := np]
  {
    assert (init + [last])[i + 1..] == init[i + 1..] + [last];
  }

  lemma StillListed(m: map<Ptr, Info>, v: seq<Ptr>, p: Ptr, np: Ptr)
    requires p in m && forall q :: q in m ==> q in v
    ensures var w := Replaced(v, p, np); np in w && forall q :: q in m && q != p ==> q in w
  {
    ReplacedLatest(v, p, np);
    var i: nat :| Latest(v, p, i) && Replaced(v, p, np) == v[i := np];
    var w := v[i := np];
    assert w[i] == np;
    forall q | q in m && q != p ensures q in w {
      var j :| 0 <= j < |v| && v[j] == q;
      assert w[j] == q;
    }
  }

  // -------------------------------------------------------- what a call does to one log

  /** What a log stands for: the blocks it knows, the pointers in order of allocation, and the counters. */
  datatype View = View(logged: map<Ptr, Info>, v: seq<Ptr>, live: int, liveP: int, peak: int)

  /** `p` is forgotten, if it was known. */
  ghost function Forgotten(w: View, p: Ptr): View {
    if p !in w.logged then w
    else
      var e := w.logged[p];
      w.(logged := w.logged - {p}, live := w.live - (if e.persist then 0 else e.n),
         liveP := w.liveP - (if e.persist then e.n else 0))
  }

  /** The entry of `p`, if it was known, is now one for `np` and `sz` bytes, of the same kind. */
  ghost function Moved(w: View, p: Ptr, np: Ptr, sz: nat): View {
    if p !in w.logged then w
    else
      var e := w.logged[p];
      var live := w.live + if e.persist then 0 else sz - e.n;
      View((w.logged - {p})[np := Info(sz, e.persist)], Replaced(w.v, p, np), live,
           w.liveP + (if e.persist then sz - e.n else 0), if live > w.peak then live else w.peak)
  }

  /** Block `p` of a log is now block `np` of `sz` bytes: it has the place that `p` had last in the list, keeps
      its kind, and the counter of that kind changes by the difference. Nothing else changes. */
  ghost predicate Renamed(w: View, g: View, p: Ptr, np: Ptr, sz: nat)
    requires p in w.logged
  {
    var persist, more := w.logged[p].persist, sz - w.logged[p].n;
    && |g.v| == |w.v| && (exists i: nat :: Latest(w.v, p, i) && g.v == w.v[i := np])
    && np in g.logged && g.logged[np] == Info(sz, persist)
    && (forall q :: q != np ==> (q in g.logged <==> q in w.logged && q != p))
    && (forall q :: q in g.logged && q != np ==> q in w.logged && g.logged[q] == w.logged[q])
    && (persist ==> g.live == w.live && g.liveP == w.liveP + more)
    && (!persist ==> g.live == w.live + more && g.liveP == w.liveP)
    && g.peak >= w.peak && g.peak >= g.live && (g.peak == w.peak || g.peak == g.live)
  }

  ghost predicate Sound(w: View) {
    w.peak >= w.live && forall p :: p in w.logged ==> p in w.v
  }

  lemma MovedRenames(w: View, p: Ptr, np: Ptr, sz: nat)
    requires p in w.logged && p in w.v && w.peak >= w.live
    ensures Renamed(w, Moved(w, p, np, sz), p, np, sz)
    ensures var v := Moved(w, p, np, sz).v; |v| == |w.v| && exists i: nat :: Latest(w.v, p, i) && v == w.v[i := np]
  {
    ReplacedLatest(w.v, p, np);
  }

  /** A block that was moved by a realloc is freed by a later rewind exactly when it is not persistent and
      its old or its new address stands in the list after the mark. So a block older than the mark is left
      alone, unless the new address is one that was logged and freed since: its entry is still there. */
  lemma MovedThenRewound(w: View, g: View, p: Ptr, np: Ptr, sz: nat, mark: nat)
    requires p in w.logged && Renamed(w, g, p, np, sz) && mark <= |w.v|
    ensures var freed := Freed(g.v[mark..], g.logged);
      && (np in freed <==> !w.logged[p].persist && (p in w.v[mark..] || np in w.v[mark..]))
      && (np !in freed ==> np in Without(g.logged, freed) && Without(g.logged, freed)[np].n == sz)
  {
    var i: nat :| Latest(w.v, p, i) && g.v == w.v[i := np];
    var s, t := w.v[mark..], g.v[mark..];
    FreedExactly(t, g.logged);
    if i < mark {
      assert t == s;
      assert s == w.v[i + 1..][mark - i - 1..];
    } else {
      assert s[i - mark] == p && t[i - mark] == np;
    }
  }

  lemma OneFreed(s: seq<Ptr>, m: map<Ptr, Info>, p: Ptr)
    requires |s| == 1 && p in Freed(s, m)
    ensures Freed(s, m) == [p]
  {
    assert Freed(s[..0], m) == [];
  }

  lemma ListedAfterCut(v: seq<Ptr>, mark: nat, m: map<Ptr, Info>)
    requires mark <= |v| && forall q :: q in m ==> q in v
    ensures forall q :: q in Without(m, Freed(v[mark..], m)) ==> q in v[..mark] + Kept(v[mark..], m)
  {
    var s := v[mark..];
    FreedExactly(s, m);
    KeptExactly(s, m);
    assert v == v[..mark] + s;
  }

  /** Reading one entry: skip it, keep it at the write index, or release its block. The write
      index never overtakes the read index, so compacting in place loses nothing. */
  lemma CutStep(v0: seq<Ptr>, mark: nat, m: map<Ptr, Info>,
      v: seq<Ptr>, k: nat, i: nat, freed: seq<Ptr>, now: map<Ptr, Info>, bytes: int)
    requires Cut(v0, mark, m, v, k, i, freed, now, bytes) && i < |v|
    ensures var p := v[i];
      if p !in now then Cut(v0, mark, m, v, k, i + 1, freed, now, bytes)
      else if now[p].persist then Cut(v0, mark, m, v[k := p], k + 1, i + 1, freed, now, bytes)
      else Cut(v0, mark, m, v, k, i + 1, freed + [p], now - {p}, bytes + now[p].n)
  {
    hide Kept, Freed, Sizes, Distinct;
    var p := v[i];
    assert v[i..][0] == v0[i..][0];
    assert v[i + 1..] == v[i..][1..] && v0[i + 1..] == v0[i..][1..];
    SuffixNext(v0, mark, m, i);
    FreedExactly(v0[mark..i], m);
    if p in now && now[p].persist {
      assert v[k := p][..k + 1] == v[..k] + [p];
      assert v[k := p][i + 1..] == v[i + 1..];
    } else if p in now {
      SizesNext(freed, m, p);
      assert Without(m, freed + [p]) == now - {p};
    }
  }

  /** One more entry of the suffix. */
  lemma SuffixNext(v: seq<Ptr>, mark: nat, m: map<Ptr, Info>, i: nat)
    requires mark <= i < |v|
    ensures var s, t, p := v[mark..i], v[mark..i + 1], v[i];
      && Kept(t, m) == Kept(s, m) + (if p in m && m[p].persist then [p] else [])
      && Freed(t, m) == Freed(s, m) + (if p in m && !m[p].persist && p !in Freed(s, m) then [p] else [])
  {
    var t := v[mark..i + 1];
    assert t[..|t| - 1] == v[mark..i] && t[|t| - 1] == v[i];
  }

  lemma SizesNext(f: seq<Ptr>, m: map<Ptr, Info>, p: Ptr)
    ensures Sizes(f + [p], m) == Sizes(f, m) + if p in m then m[p].n else 0
  {
    assert (f + [p])[..|f|] == f;
  }

  lemma CutStart(v: seq<Ptr>, mark: nat, m: map<Ptr, Info>)
    requires mark <= |v|
    ensures Cut(v, mark, m, v, mark, mark, [], m, 0)
  {
    assert v[mark..mark] == [];
  }

  class Log {
    const hash: Ptr -> nat
    var tab: array<Cell<Ptr, Info>>
    var used: nat
    var fill: nat
    var v: seq<Ptr>
    var live: int
    var peak: int
    var liveP: int

    ghost predicate TableOk()
      reads `tab, `used, `fill, tab
    {
      && (tab.Length == 0 || (tab.Length >= 1024 && IsPow2(tab.Length) && Wf(tab[..], hash)))
      && used == Lives(tab[..]) && fill == Lives(tab[..]) + Tombs(tab[..])
      && 10 * fill <= 7 * tab.Length
    }

    ghost predicate Counted()
      reads `tab, `live, `liveP, `peak, tab
    {
      && live == Total(tab[..], false) && liveP == Total(tab[..], true)
      && peak >= live
    }

    ghost function Logged(): map<Ptr, Info>
      reads `tab, tab
    {
      Dict(tab[..])
    }

    ghost function Shown(): View
      reads `tab, `v, `live, `liveP, `peak, tab
    {
      View(Logged(), v, live, liveP, peak)
    }

    /** Every logged block can be found again from the pointer list. */
    ghost predicate Listed()
      reads this, tab
    {
      forall p :: p in Logged() ==> p in v
    }

    ghost predicate Valid()
      reads this, tab
    {
      TableOk() && Counted() && Listed()
    }

    constructor (hash: Ptr -> nat)
      ensures Valid() && fresh(tab) && Logged() == map[] && v == [] && peak == 0
    {
      this.hash := hash;
      tab := new Cell<Ptr, Info>[0];
      used, fill, live, peak, liveP := 0, 0, 0, 0, 0;
      v := [];
    }

    /** The growth test counts tombstones, so an empty slot always remains: no condition on
        the number of deletions is needed here. */
    lemma AlwaysRoom()
      requires TableOk() && tab.Length > 0
      ensures HasEmpty(tab[..])
    {
      EmptyIff(tab[..]);
    }

    /** `baga_lm_slot`: the slot of `p`; for an insertion the first free slot on its path. */
    method Slot(p: Ptr, forInsert: bool) returns (i: nat)
      requires TableOk() && tab.Length > 0
      ensures i < tab.Length
      ensures p in Logged() ==> tab[i] == Live(p, Logged()[p])
      ensures p !in Logged() && !forInsert ==> tab[i] == Empty
      ensures p !in Logged() && forInsert ==> Lands(tab[..], hash, p, i)
    {
      AlwaysRoom();
      ghost var t := tab[..];
      ghost var g := Goal(t, hash, p);
      i := HomeOf(hash, p, tab.Length);
      var tomb := -1;
      while true
        invariant i < tab.Length
        invariant Walking(t, hash, p, i, g, tomb)
        decreases Dist(tab.Length, i, g)
      {
        ghost var before := tomb;
        if tab[i].Empty? {
          Absent(t, hash, p, i);
          return if forInsert && tomb != -1 then tomb else i;
        }
        if tab[i] == Tomb {
          if tomb == -1 { tomb := i; }
        } else if tab[i].key == p {
          DictAt(t, i);
          return i;
        }
        WalkOn(t, hash, p, i, g, before);
        i := StepFrom(i, tab.Length);
      }
    }

    /** `baga_lm_find`; -1 when the pointer is not logged. */
    method Find(p: Ptr) returns (i: int)
      requires TableOk()
      ensures -1 <= i < tab.Length
      ensures i >= 0 <==> p in Logged()
      ensures i >= 0 ==> tab[i] == Live(p, Logged()[p])
    {
      if tab.Length == 0 { return -1; }
      i := Slot(p, false);
      if !(tab[i].Live? && tab[i].key == p) { i := -1; }
    }

    method PutRaw(p: Ptr, n: nat, persist: bool)
      requires TableOk() && tab.Length > 0 && p !in Logged()
      requires 10 * (fill + 1) <= 7 * tab.Length
      modifies `used, `fill, tab
      ensures TableOk() && Logged() == old(Logged())[p := Info(n, persist)]
      ensures used == old(used) + 1 && old(fill) <= fill <= old(fill) + 1
      ensures old(fill) == old(used) ==> fill == used
      ensures Total(tab[..], persist) == old(Total(tab[..], persist)) + n
      ensures Total(tab[..], !persist) == old(Total(tab[..], !persist))
    {
      ghost var t := tab[..];
      var i := Slot(p, true);
      Placed(t, hash, p, Info(n, persist), i);
      if tab[i].Empty? { fill := fill + 1; }
      tab[i] := Live(p, Info(n, persist));
      assert tab[..] == t[i := Live(p, Info(n, persist))];
      used := used + 1;
    }

    /** `calloc` of a table of empty slots. */
    method BlankTable(ncap: nat)
      requires ncap >= 1024 && IsPow2(ncap)
      modifies `tab, `used, `fill
      ensures TableOk() && fresh(tab) && tab.Length == ncap && fill == used == 0 && Logged() == map[]
      ensures Total(tab[..], true) == Total(tab[..], false) == 0
    {
      tab := new Cell<Ptr, Info>[ncap](_ => Empty);
      used, fill := 0, 0;
      Blank(tab[..]);
      BlankTotal(tab[..], true);
      BlankTotal(tab[..], false);
    }

    /** Doubles the table; every entry is stored again and the tombstones vanish. */
    method Rehash(ncap: nat)
      requires TableOk() && tab.Length > 0 && ncap == 2 * tab.Length
      modifies `tab, `used, `fill
      ensures TableOk() && fresh(tab) && tab.Length == ncap && fill == used
      ensures used == old(used) && Logged() == old(Logged())
      ensures Total(tab[..], true) == old(Total(tab[..], true))
      ensures Total(tab[..], false) == old(Total(tab[..], false))
    {
      var o := tab;
      ghost var t := o[..];
      Pow2Doubles(o.Length);
      BlankTable(ncap);
      var i := 0;
      while i < o.Length
        invariant 0 <= i <= o.Length && o[..] == t && fresh(tab) && tab != o && tab.Length == ncap
        invariant TableOk() && fill == used == Lives(t[..i]) && Logged() == Dict(t[..i])
        invariant Total(tab[..], true) == Total(t[..i], true) && Total(tab[..], false) == Total(t[..i], false)
      {
        OneMore(t, i);
        OneMoreTotal(t, i);
        if o[i].Live? {
          PutRaw(o[i].key, o[i].val.n, o[i].val.persist);
        }
        i := i + 1;
      }
      assert t[..i] == t;
    }

    method Put(p: Ptr, n: nat, persist: bool)
      requires TableOk() && p !in Logged()
      modifies `tab, `used, `fill, tab
      ensures TableOk() && tab.Length > 0 && (tab == old(tab) || fresh(tab))
      ensures Logged() == old(Logged())[p := Info(n, persist)] && used == old(used) + 1
      ensures Total(tab[..], persist) == old(Total(tab[..], persist)) + n
      ensures Total(tab[..], !persist) == old(Total(tab[..], !persist))
    {
      if tab.Length == 0 {
        KiloIsPow2();
        BlankTable(1024);
      }
      if (fill + 1) * 10 > tab.Length * 7 {
        Rehash(tab.Length * 2);
      }
      PutRaw(p, n, persist);
    }

    /** `baga_lm_malloc`; `p` is the block the allocator hands out and `persist` tells whether
        the call is inside a persist section. */
    method Malloc(p: Ptr, n: int, persist: bool)
      requires Valid() && p !in Logged()
      modifies this, tab
      ensures Valid() && (tab == old(tab) || fresh(tab))
      ensures Logged() == old(Logged())[p := Info(if n > 0 then n else 1, persist)]
      ensures v == old(v) + [p] && peak >= old(peak)
      ensures live == old(live) + if persist then 0 else if n > 0 then n else 1
      ensures liveP == old(liveP) + if !persist then 0 else if n > 0 then n else 1
    {
      var sz := if n > 0 then n else 1;
      Put(p, sz, persist);
      if !persist {
        live := live + sz;
        if live > peak { peak := live; }
      } else {
        liveP := liveP + sz;
      }
      v := v + [p];
    }

    /** Marks the slot of a logged pointer as deleted and takes its size off the counters. */
    method Unlog(p: Ptr, i: nat)
      requires TableOk() && Counted() && i < tab.Length && tab[i].Live? && tab[i].key == p
      modifies `live, `liveP, `used, tab
      ensures TableOk() && Counted()
      ensures p in old(Logged()) && Logged() == old(Logged()) - {p}
      ensures var e := old(Logged())[p];
        && live == old(live) - (if e.persist then 0 else e.n)
        && liveP == old(liveP) - (if e.persist then e.n else 0)
    {
      ghost var t := tab[..];
      DictAt(t, i);
      Removed(t, hash, p, i);
      if !tab[i].val.persist { live := live - tab[i].val.n; } else { liveP := liveP - tab[i].val.n; }
      tab[i] := Tomb;
      assert tab[..] == t[i := Tomb];
      used := used - 1;
    }

    /** `baga_lm_free` on the log of the calling thread; false when it does not know `p`. */
    method Free(p: Ptr) returns (found: bool)
      requires Valid()
      modifies this, tab
      ensures Valid() && tab == old(tab) && v == old(v) && peak == old(peak)
      ensures found <==> p in old(Logged())
      ensures Logged() == old(Logged()) - {p}
      ensures !found ==> live == old(live) && liveP == old(liveP)
      ensures found ==> var e := old(Logged())[p];
        && live == old(live) - (if e.persist then 0 else e.n)
        && liveP == old(liveP) - (if e.persist then e.n else 0)
      ensures Shown() == Forgotten(old(Shown()), p)
    {
      var i := Find(p);
      found := i >= 0;
      if found { Unlog(p, i); }
    }

    /** `baga_lm_log_replace`: rewrites the latest occurrence. */
    method LogReplace(p: Ptr, np: Ptr)
      modifies `v
      ensures v == Replaced(old(v), p, np)
    {
      var i := |v|;
      assert v[..i] == v && v[i..] == [];
      while i > 0
        invariant 0 <= i <= |v| && v == old(v) && Replaced(v, p, np) == Replaced(v[..i], p, np) + v[i..]
      {
        i := i - 1;
        assert v[..i + 1][..i] == v[..i] && v[i..] == [v[i]] + v[i + 1..];
        if v[i] == p {
          assert v[i := np] == v[..i] + [np] + v[i + 1..];
          v := v[i := np];
          return;
        }
      }
    }

    /** Replaces the entry of `p` by one for `np` and adjusts the counters by the difference. */
    method Relog(p: Ptr, i: nat, np: Ptr, sz: nat)
      requires TableOk() && Counted() && i < tab.Length && tab[i].Live? && tab[i].key == p
      requires np == p || np !in Logged()
      modifies `live, `liveP, `peak, `used, `fill, `tab, tab
      ensures TableOk() && Counted() && (tab == old(tab) || fresh(tab)) && peak >= old(peak)
      ensures p in old(Logged())
      ensures Logged() == (old(Logged()) - {p})[np := Info(sz, old(Logged())[p].persist)]
      ensures var e := old(Logged())[p];
        && live == old(live) + (if e.persist then 0 else sz - e.n)
        && liveP == old(liveP) + (if e.persist then sz - e.n else 0)
        && peak == if live > old(peak) then live else old(peak)
    {
      DictAt(tab[..], i);
      var persist := tab[i].val.persist;
      Unlog(p, i);
      Put(np, sz, persist);
      if !persist {
        live := live + sz;
        if live > peak { peak := live; }
      } else {
        liveP := liveP + sz;
      }
    }

    /** `baga_lm_realloc` on the log of the calling thread; `np` is the block `realloc` returns. */
    method Realloc(p: Ptr, np: Ptr, n: int) returns (found: bool)
      requires Valid() && (np == p || np !in Logged())
      modifies this, tab
      ensures Valid() && (tab == old(tab) || fresh(tab))
      ensures found <==> p in old(Logged())
      ensures !found ==> Shown() == old(Shown())
      ensures found ==> |v| == |old(v)| && exists i: nat :: Latest(old(v), p, i) && v == old(v)[i := np]
      ensures found ==> Renamed(old(Shown()), Shown(), p, np, if n > 0 then n else 1)
      ensures Shown() == Moved(old(Shown()), p, np, if n > 0 then n else 1)
    {
      hide TableOk, Counted, Listed, Moved, Renamed, Latest;
      var sz := if n > 0 then n else 1;
      ghost var was := Shown();
      ShownSound();
      var i := Find(p);
      found := i >= 0;
      if found {
        MoveEntry(p, i, np, sz);
        MovedRenames(was, p, np, sz);
      } else {
        Unmoved(was, p, np, sz);
      }
    }

    lemma ShownSound()
      requires Valid()
      ensures Sound(Shown())
    {
    }

    /** The entry found in slot `i` is moved in the table and in the list. */
    method MoveEntry(p: Ptr, i: nat, np: Ptr, sz: nat)
      requires Valid() && (np == p || np !in Logged()) && i < tab.Length && tab[i].Live? && tab[i].key == p
      modifies this, tab
      ensures Valid() && (tab == old(tab) || fresh(tab)) && Shown() == Moved(old(Shown()), p, np, sz)
    {
      hide TableOk, Counted, Replaced;
      ghost var m := Logged();
      Relog(p, i, np, sz);
      LogReplace(p, np);
      StillListed(m, old(v), p, np);
    }

    /** `baga_lm_rewind`. Out-of-range marks are ignored. `freed` lists the calls of `free`. */
    method Rewind(mark: int) returns (freed: seq<Ptr>)
      requires Valid()
      modifies this, tab
      ensures Valid() && tab == old(tab) && peak == old(peak) && liveP == old(liveP)
      ensures !(0 <= mark <= |old(v)|) ==> v == old(v) && Logged() == old(Logged()) && freed == [] && live == old(live)
      ensures 0 <= mark <= |old(v)| ==>
        && v == old(v)[..mark] + Kept(old(v)[mark..], old(Logged()))
        && freed == Freed(old(v)[mark..], old(Logged()))
        && Logged() == Without(old(Logged()), freed)
      ensures live == old(live) - Sizes(freed, old(Logged()))
    {
      freed := [];
      if mark < 0 || mark > |v| { return; }
      ghost var v0, m := v, Logged();
      freed := CutSuffix(mark);
      ListedAfterCut(v0, mark, m);
    }

    /** Looks up one entry of the suffix; a non-persistent one loses its slot and its block. */
    method Sift(p: Ptr) returns (keep: bool, drop: bool)
      requires TableOk() && Counted()
      modifies `live, `liveP, `used, tab
      ensures TableOk() && Counted() && liveP == old(liveP)
      ensures var m := old(Logged());
        && (keep <==> p in m && m[p].persist) && (drop <==> p in m && !m[p].persist)
        && Logged() == (if drop then m - {p} else m)
        && live == old(live) - if drop then m[p].n else 0
    {
      keep, drop := false, false;
      var j := Find(p);
      if j != -1 {
        if tab[j].val.persist {
          keep := true;
        } else {
          drop := true;
          Unlog(p, j);
        }
      }
    }

    /** The loop of a rewind: compacts the suffix in place and frees what does not survive. */
    method CutSuffix(mark: nat) returns (freed: seq<Ptr>)
      requires TableOk() && Counted() && mark <= |v|
      modifies `v, `live, `liveP, `used, tab
      ensures TableOk() && Counted() && liveP == old(liveP)
      ensures v == old(v)[..mark] + Kept(old(v)[mark..], old(Logged()))
      ensures freed == Freed(old(v)[mark..], old(Logged()))
      ensures Logged() == Without(old(Logged()), freed)
      ensures live == old(live) - Sizes(freed, old(Logged()))
    {
      hide Kept, Freed, Sizes, TableOk, Counted;
      ghost var v0, m, live0 := v, Logged(), live;
      var k: nat, i: nat := mark, mark;
      freed := [];
      CutStart(v0, mark, m);
      while i < |v|
        invariant Cut(v0, mark, m, v, k, i, freed, Logged(), live0 - live)
        invariant TableOk() && Counted() && liveP == old(liveP)
      {
        k, freed := CutOne(v0, mark, m, live0, k, i, freed);
        i := i + 1;
      }
      v := v[..k];
      assert v0[mark..i] == v0[mark..];
    }

    /** One entry of the suffix is read; a survivor is copied down. */
    method CutOne(ghost v0: seq<Ptr>, ghost mark: nat, ghost m: map<Ptr, Info>, ghost live0: int, k: nat, i: nat,
                  freed: seq<Ptr>) returns (k': nat, freed': seq<Ptr>)
      requires i < |v| && Cut(v0, mark, m, v, k, i, freed, Logged(), live0 - live) && TableOk() && Counted()
      modifies `v, `live, `liveP, `used, tab
      ensures Cut(v0, mark, m, v, k', i + 1, freed', Logged(), live0 - live)
      ensures TableOk() && Counted() && liveP == old(liveP)
    {
      hide Kept, Freed, Sizes, TableOk, Counted;
      CutStep(v0, mark, m, v, k, i, freed, Logged(), live0 - live);
      var p := v[i];
      var keep, drop := Sift(p);
      k', freed' := k, freed;
      if keep {
        v := v[k := p];
        k' := k + 1;
      } else if drop {
        freed' := freed + [p];
      }
    }
  }

  /** The input that shows what a rewind may do to a block older than the mark: block 2 is allocated before
      it, block 3 comes and goes after it, and `realloc` moves block 2 to address 3. The rewind frees it. */
  method OldBlockFreed(hash: Ptr -> nat) returns (freed: seq<Ptr>)
    ensures freed == [3]
  {
    hide Log.TableOk, Log.Counted, Log.Listed, Renamed, Latest;
    var log := new Log(hash);
    log.Malloc(2, 8, false);
    var mark := |log.v|;
    log.Malloc(3, 8, false);
    var known := log.Free(3);
    ghost var w := log.Shown();
    var moved := log.Realloc(2, 3, 8);
    ghost var g := log.Shown();
    assert w.v == [2, 3] && 3 in w.v[1..];
    MovedThenRewound(w, g, 2, 3, 8, mark);
    assert |g.v[1..]| == 1 by { SameLength(w, g, 2, 3, 8); }
    OneFreed(g.v[1..], g.logged, 3);
    freed := log.Rewind(mark);
  }

  lemma SameLength(w: View, g: View, p: Ptr, np: Ptr, sz: nat)
    requires p in w.logged && Renamed(w, g, p, np, sz)
    ensures |g.v| == |w.v|
  {
  }

  lemma Unmoved(w: View, p: Ptr, np: Ptr, sz: nat)
    requires p !in w.logged
    ensures Moved(w, p, np, sz) == w
  {
  }

  /** The logs of all threads. Each call works on the log of the calling thread first; only when that does not
      know the block does it search the others. */
  class Registry {
    const hash: Ptr -> nat
    var logs: seq<Log>

    ghost function Tables(): set<array<Cell<Ptr, Info>>>
      reads `logs, logs`tab
    {
      set l | l in logs :: l.tab
    }

    /** Every log is valid and has a table of its own. */
    ghost predicate Separate()
      reads `logs, logs, Tables()
    {
      && (forall i :: 0 <= i < |logs| ==> logs[i].Valid())
      && Distinct(logs)
      && forall i, j :: 0 <= i < j < |logs| ==> logs[i].tab != logs[j].tab
    }

    /** No block is logged by two threads. */
    ghost predicate Once()
      reads `logs, logs, Tables()
    {
      forall i, j, p :: 0 <= i < |logs| && 0 <= j < |logs| && p in logs[i].Logged() && p in logs[j].Logged() ==> i == j
    }

    ghost predicate Valid()
      reads `logs, logs, Tables()
    {
      Separate() && Once()
    }

    constructor (hash: Ptr -> nat)
      ensures Valid() && logs == [] && this.hash == hash
    {
      this.hash, logs := hash, [];
    }

    /** `baga_lm_get`: the log of a thread is registered on its first use. */
    method Get() returns (l: Log)
      requires Valid()
      modifies `logs
      ensures Valid() && fresh(l) && fresh(l.tab) && logs == [l] + old(logs) && l.Logged() == map[] && l.v == []
    {
      hide Log.TableOk, Log.Counted;
      l := new Log(hash);
      logs := [l] + logs;
    }

    method Malloc(l: Log, p: Ptr, n: int, persist: bool)
      requires Valid() && l in logs && forall o :: o in logs ==> p !in o.Logged()
      modifies l, l.tab
      ensures Valid()
      ensures l.Logged() == old(l.Logged())[p := Info(if n > 0 then n else 1, persist)]
      ensures l.v == old(l.v) + [p] && l.peak >= old(l.peak)
      ensures l.live == old(l.live) + if persist then 0 else if n > 0 then n else 1
      ensures l.liveP == old(l.liveP) + if !persist then 0 else if n > 0 then n else 1
      ensures forall o :: o in logs && o != l ==> o.Shown() == old(o.Shown())
    {
      hide Log.TableOk, Log.Counted, Log.Listed;
      l.Malloc(p, n, persist);
    }

    /** One log is searched; the others do not notice. */
    method FreeIn(l: Log, p: Ptr) returns (found: bool)
      requires Valid() && l in logs
      modifies l, l.tab
      ensures Valid() && l.tab == old(l.tab) && (found <==> p in old(l.Shown()).logged)
      ensures forall o :: o in logs ==> o.Shown() == if found then Forgotten(old(o.Shown()), p) else old(o.Shown())
    {
      hide Log.TableOk, Log.Counted, Log.Listed;
      found := l.Free(p);
    }

    /** `baga_lm_free`: the calling thread's log is asked first, then all others. Whichever knows the block
        forgets it, and no other log changes. */
    method Free(l: Log, p: Ptr)
      requires Valid() && l in logs
      modifies logs, Tables()
      ensures Valid()
      ensures forall o :: o in logs ==> o.tab == old(o.tab) && o.Shown() == Forgotten(old(o.Shown()), p)
    {
      hide Valid, Log.Shown;
      var found := FreeIn(l, p);
      var i := 0;
      while !found && i < |logs|
        invariant 0 <= i <= |logs| && Valid()
        invariant forall o :: o in logs ==> o.tab == old(o.tab)
        invariant forall o :: o in logs ==> o.Shown() == if found then Forgotten(old(o.Shown()), p) else old(o.Shown())
        invariant !found ==> p !in l.Shown().logged && forall k :: 0 <= k < i ==> p !in logs[k].Shown().logged
      {
        if logs[i] != l {
          found := FreeIn(logs[i], p);
        }
        i := i + 1;
      }
    }

    /** One log is searched; the others do not notice. */
    method ReallocIn(l: Log, p: Ptr, np: Ptr, n: int) returns (found: bool)
      requires Valid() && l in logs && forall o :: o in logs && np in o.Shown().logged ==> np == p
      modifies l, l.tab
      ensures Valid() && (l.tab == old(l.tab) || fresh(l.tab)) && (found <==> p in old(l.Shown()).logged)
      ensures var sz := if n > 0 then n else 1;
        forall o :: o in logs ==> o.Shown() == if found then Moved(old(o.Shown()), p, np, sz) else old(o.Shown())
    {
      hide Log.TableOk, Log.Counted, Log.Listed;
      assert forall o :: o in logs ==> o.Shown().logged == o.Logged();
      found := l.Realloc(p, np, n);
    }

    /** `baga_lm_realloc`, likewise: the block stays in the log that knows it, whichever thread asks. */
    method Realloc(l: Log, p: Ptr, np: Ptr, n: int)
      requires Valid() && l in logs && forall o :: o in logs && np in o.Shown().logged ==> np == p
      modifies logs, Tables()
      ensures Valid()
      ensures var sz := if n > 0 then n else 1;
        forall o :: o in logs ==> o.Shown() == Moved(old(o.Shown()), p, np, sz)
      ensures var sz := if n > 0 then n else 1;
        forall o :: o in logs ==>
          if p in old(o.Shown()).logged then Renamed(old(o.Shown()), o.Shown(), p, np, sz)
          else o.Shown() == old(o.Shown())
    {
      hide Valid, Replaced, Moved, Renamed, Log.Shown;
      AllSound();
      var found := ReallocIn(l, p, np, n);
      var i := 0;
      ghost var sz := if n > 0 then n else 1;
      while !found && i < |logs|
        invariant 0 <= i <= |logs| && Valid()
        invariant forall o :: o in logs ==> o.tab == old(o.tab) || fresh(o.tab)
        invariant forall o :: o in logs ==>
          o.Shown() == if found then Moved(old(o.Shown()), p, np, sz) else old(o.Shown())
        invariant !found ==> p !in l.Shown().logged && forall k :: 0 <= k < i ==> p !in logs[k].Shown().logged
      {
        if logs[i] != l {
          found := ReallocIn(logs[i], p, np, n);
        }
        i := i + 1;
      }
      forall o | !found && o in logs ensures Moved(o.Shown(), p, np, sz) == o.Shown() {
        Unmoved(o.Shown(), p, np, sz);
      }
      forall o | o in logs && p in old(o.Shown()).logged ensures Renamed(old(o.Shown()), o.Shown(), p, np, sz) {
        MovedRenames(old(o.Shown()), p, np, sz);
      }
      forall o | o in logs && p !in old(o.Shown()).logged ensures o.Shown() == old(o.Shown()) {
        Unmoved(old(o.Shown()), p, np, sz);
      }
    }

    /** What every log of the registry keeps. */
    lemma AllSound()
      requires Valid()
      ensures forall o :: o in logs ==> Sound(o.Shown())
    {
    }

    method Rewind(l: Log, mark: int) returns (freed: seq<Ptr>)
      requires Valid() && l in logs
      modifies l, l.tab
      ensures Valid() && l.tab == old(l.tab)
      ensures freed == if 0 <= mark <= |old(l.v)| then Freed(old(l.v)[mark..], old(l.Logged())) else []
      ensures l.v == if 0 <= mark <= |old(l.v)| then old(l.v)[..mark] + Kept(old(l.v)[mark..], old(l.Logged()))
                     else old(l.v)
      ensures l.live == old(l.live) - Sizes(freed, old(l.Logged())) && l.liveP == old(l.liveP) && l.peak == old(l.peak)
      ensures l.Logged() == Without(old(l.Logged()), freed)
      ensures forall o :: o in logs && o != l ==> o.Shown() == old(o.Shown())
    {
      hide Log.TableOk, Log.Counted, Log.Listed, Freed, Kept, Sizes;
      freed := l.Rewind(mark);
    }
  }

  lemma KiloIsPow2()
    ensures IsPow2(1024)
  {
    Pow2Doubles(1);
    Pow2Doubles(2);
    Pow2Doubles(4);
    Pow2Doubles(8);
    Pow2Doubles(16);
    Pow2Doubles(32);
    Pow2Doubles(64);
    Pow2Doubles(128);
    Pow2Doubles(256);
    Pow2Doubles(512);
  }
}
