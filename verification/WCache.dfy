/** The cache attached to a frozen world: an open-addressing table outside the region that
  grows on its number of live entries only. */
module WCache {
  import opened Probing
  import opened TableRuns

  /** A cached value and its kind: 1 is an integer, 2 a string, 3 raw bytes. */
  datatype CVal = I64(v: int) | Str(s: seq<int>) | Bytes(b: seq<int>)

  type Slots = seq<Cell<int, CVal>>

  lemma SameSize(t: Slots, u: Slots)
    requires Unique(t) && Unique(u) && Dict(t) == Dict(u)
    ensures Lives(t) == Lives(u)
  {
    LivesAreKeys(t);
    LivesAreKeys(u);
  }

  class Cache {
    const hash: int -> nat
    var slots: array<Cell<int, CVal>>
    var n: nat
    /** Deletions since the table was built or last grew. */
    ghost var dels: nat

    ghost predicate Valid()
      reads this, slots
    {
      && slots.Length >= 16 && IsPow2(slots.Length)
      && Wf(slots[..], hash)
      && n == Lives(slots[..]) && 4 * n <= 3 * slots.Length
      && Tombs(slots[..]) <= dels
    }

    ghost function Entries(): map<int, CVal>
      reads this, slots
    {
      Dict(slots[..])
    }

    ghost predicate MustGrow()
      reads this, slots
    {
      4 * (n + 1) > 3 * slots.Length
    }

    /** A probe for `k` comes to a stop: exactly this, by StopsIff. */
    ghost predicate CanProbe(k: int)
      reads this, slots
    {
      HasEmpty(slots[..]) || k in Entries()
    }

    constructor (hash: int -> nat)
      ensures Valid() && fresh(slots) && this.hash == hash
      ensures Entries() == map[] && dels == 0 && slots.Length == 16
      ensures forall i :: 0 <= i < slots.Length ==> slots[i] == Empty
      ensures Rebuilt(slots[..], hash, 16)
    {
      this.hash := hash;
      slots := new Cell<int, CVal>[16](_ => Empty);
      n, dels := 0, 0;
      new;
      Blank(slots[..]);
      assert IsPow2(2) && IsPow2(4) && IsPow2(8);
    }

    /** Fewer than a quarter as many deletions as slots since the last growth: every lookup stops. For a
        put that does not grow the table, a quarter as many is still enough room. */
    lemma DeletionsLeaveRoom(k: int)
      requires Valid()
      ensures 4 * dels < slots.Length ==> CanProbe(k)
      ensures 4 * dels <= slots.Length ==> MustGrow() || CanProbe(k)
    {
      EmptyIff(slots[..]);
    }

    method Put(k: int, val: CVal)
      requires Valid()
      requires MustGrow() || CanProbe(k)
      modifies this, slots
      ensures Valid() && Entries() == old(Entries())[k := val]
      ensures !old(MustGrow()) ==> slots == old(slots) && dels == old(dels)
      ensures !old(MustGrow()) ==>
        exists i: nat :: Lands(old(slots[..]), hash, k, i) && slots[..] == old(slots[..])[i := Live(k, val)]
      ensures !old(MustGrow()) ==> PutStep(old(slots[..]), hash, k, slots[..])
      ensures old(MustGrow()) ==> fresh(slots) && dels == 0 && Rebuilt(slots[..], hash, 2 * old(slots.Length))
      ensures n <= old(n) + 1
      decreases if MustGrow() then 1 else 0
    {
      if 4 * (n + 1) > 3 * slots.Length {
        Grow();
        DeletionBound(slots[..], dels);
      }
      StopsIff(slots[..], hash, k);
      ghost var at := Store(k, val);
    }

    /** The probing half of a put: overwrite the key's slot or take the first free one. */
    method Store(k: int, val: CVal) returns (ghost at: nat)
      requires Valid() && !MustGrow() && CanProbe(k)
      modifies `n, slots
      ensures Valid() && Entries() == old(Entries())[k := val] && n <= old(n) + 1
      ensures Lands(old(slots[..]), hash, k, at) && slots[..] == old(slots[..])[at := Live(k, val)]
    {
      ghost var t := slots[..];
      ghost var g := Goal(t, hash, k);
      var hole := -1;
      var i := HomeOf(hash, k, slots.Length);
      while !slots[i].Empty?
        invariant 0 <= i < slots.Length && slots[..] == t && n == old(n)
        invariant Walking(t, hash, k, i, g, hole)
        decreases Dist(slots.Length, i, g)
      {
        ghost var before := hole;
        if slots[i].Live? {
          if slots[i].key == k {
            StoreHits(t, hash, k, val, i);
            slots[i] := Live(k, val);
            assert slots[..] == t[i := Live(k, val)];
            return i;
          }
        } else if hole < 0 {
          hole := i;
        }
        WalkOn(t, hash, k, i, g, before);
        i := StepFrom(i, slots.Length);
      }
      at := StoreEnds(t, hash, k, val, i, hole);
      if hole >= 0 { i := hole; }
      slots[i] := Live(k, val);
      assert slots[..] == t[i := Live(k, val)];
      n := n + 1;
    }

    method Reset(cap: nat)
      requires cap >= 32 && IsPow2(cap / 2) && cap % 2 == 0
      modifies this
      ensures Valid() && fresh(slots) && slots.Length == cap && Entries() == map[] && n == 0 && dels == 0
    {
      Pow2Doubles(cap / 2);
      slots := new Cell<int, CVal>[cap](_ => Empty);
      n, dels := 0, 0;
      Blank(slots[..]);
    }

    /** Doubles the table and stores every live entry again; tombstones are dropped. */
    method Grow()
      requires Valid() && MustGrow()
      modifies this
      ensures Valid() && fresh(slots) && Entries() == old(Entries())
      ensures slots.Length == 2 * old(slots.Length) && dels == 0 && n == old(n)
      ensures Rebuilt(slots[..], hash, 2 * old(slots.Length)) && !MustGrow()
      decreases 1, 0
    {
      var os := slots;
      ghost var o := os[..];
      Reset(os.Length * 2);
      var i := 0;
      while i < os.Length
        invariant 0 <= i <= os.Length && os[..] == o && fresh(slots) && slots != os
        invariant Valid() && slots.Length == 2 * os.Length && dels == 0
        invariant Entries() == Dict(o[..i]) && n == Lives(o[..i])
      {
        OneMore(o, i);
        if os[i].Live? {
          DeletionBound(slots[..], dels);
          Put(os[i].key, os[i].val);
          SameSize(slots[..], o[..i + 1]);
        }
        i := i + 1;
      }
      assert o[..i] == o;
    }

    method Slot(k: int) returns (s: int)
      requires Valid()
      requires n == 0 || CanProbe(k)
      ensures -1 <= s < slots.Length
      ensures s == -1 <==> k !in Entries()
      ensures s >= 0 ==> slots[s] == Live(k, Entries()[k])
    {
      ghost var t := slots[..];
      LivesAreKeys(t);
      if n == 0 { return -1; }
      ghost var g := Goal(t, hash, k);
      var i := HomeOf(hash, k, slots.Length);
      while !slots[i].Empty?
        invariant 0 <= i < slots.Length
        invariant Passed(t, hash, k, i) && !Before(t, hash, k, g, i)
        decreases Dist(slots.Length, i, g)
      {
        if slots[i].Live? && slots[i].key == k {
          DictAt(t, i);
          return i;
        }
        Advance(t, hash, k, i, g);
        i := StepFrom(i, slots.Length);
      }
      Absent(t, hash, k, i);
      return -1;
    }

    method Del(k: int)
      requires Valid()
      requires n == 0 || CanProbe(k)
      modifies this, slots
      ensures Valid() && slots == old(slots) && Entries() == old(Entries()) - {k}
      ensures dels == old(dels) + if k in old(Entries()) then 1 else 0
      ensures if k in old(Entries())
        then exists i :: 0 <= i < slots.Length && old(slots[i].Live? && slots[i].key == k)
                         && slots[..] == old(slots[..])[i := Tomb]
        else slots[..] == old(slots[..])
      ensures DelStep(old(slots[..]), hash, k, slots[..])
    {
      StopsIff(slots[..], hash, k);
      var s := Slot(k);
      if s < 0 { return; }
      ghost var t := slots[..];
      Bury(t, hash, k, s);
      Recount(t, s, Tomb);
      slots[s] := Tomb;
      assert slots[..] == t[s := Tomb];
      n, dels := n - 1, dels + 1;
    }

    /** `wcache_get`: 0 stands for a missing key; a value of another kind is a fatal error. */
    method Get(k: int) returns (out: int)
      requires Valid()
      requires n == 0 || CanProbe(k)
      requires k in Entries() ==> Entries()[k].I64?
      ensures out == if k in Entries() then Entries()[k].v else 0
    {
      var s := Slot(k);
      out := 0;
      if s >= 0 { out := slots[s].val.v; }
    }

    method Has(k: int) returns (hit: bool)
      requires Valid()
      requires n == 0 || CanProbe(k)
      ensures hit <==> k in Entries()
    {
      var s := Slot(k);
      hit := s >= 0;
    }

    /** `wcache_add`: read, add and write back under one lock. */
    method Add(k: int, d: int) returns (out: int)
      requires Valid()
      requires MustGrow() || CanProbe(k)
      requires n == 0 || CanProbe(k)
      requires k in Entries() ==> Entries()[k].I64?
      modifies this, slots
      ensures Valid()
      ensures out == (if k in old(Entries()) then old(Entries())[k].v else 0) + d
      ensures Entries() == old(Entries())[k := I64(out)]
    {
      var s := Slot(k);
      if s < 0 {
        Put(k, I64(d));
        out := d;
      } else {
        out := slots[s].val.v + d;
        ghost var t := slots[..];
        StoreOver(t, hash, k, I64(out), s);
        Recount(t, s, Live(k, I64(out)));
        slots[s] := Live(k, I64(out));
        assert slots[..] == t[s := Live(k, I64(out))];
      }
    }
  }

  /** The first `p` slots are tombstones, the next `q` hold the keys at home there. */
  ghost predicate Stuffed(c: Cache, keys: seq<int>, p: nat, q: nat)
    requires p + q <= |keys|
    reads c, c.slots
  {
    c.Valid() && Filled(c.slots[..], keys, p, q)
  }

  /** A set and a delete of the next key: one more tombstone. */
  method Pair(c: Cache, keys: seq<int>, other: int, p: nat, val: CVal)
    requires Spread(c.hash, |keys|, keys, other) && |keys| >= 2 && p < |keys| && Stuffed(c, keys, p, 0)
    modifies c, c.slots
    ensures c.slots == old(c.slots) && Stuffed(c, keys, p + 1, 0) && c.dels == old(c.dels) + 1
  {
    Store(c, keys, other, p, 0, val);
    ghost var t := c.slots[..];
    DictAt(t, p);
    c.Del(keys[p]);
    Recount(t, p, Tomb);
  }

  /** A set of the next key, which goes to its home. */
  method Store(c: Cache, keys: seq<int>, other: int, p: nat, q: nat, val: CVal)
    requires Spread(c.hash, |keys|, keys, other) && p + q < |keys| && Stuffed(c, keys, p, q) && !c.MustGrow()
    modifies c, c.slots
    ensures c.slots == old(c.slots) && Stuffed(c, keys, p, q + 1) && c.dels == old(c.dels)
  {
    ghost var t := c.slots[..];
    StoredAtHome(t, c.hash, keys, other, p, q, val);
    assert t[p + q] == Empty;
    c.Put(keys[p + q], val);
    ghost var i: nat :| Lands(t, c.hash, keys[p + q], i) && c.slots[..] == t[i := Live(keys[p + q], val)];
    LandsOnce(t, c.hash, keys[p + q], i, p + q);
  }

  /** A cache that has never grown, a quarter as many deletions as slots, and no lookup of a missing key
      would ever return. */
  method Stuff(hash: int -> nat, keys: seq<int>, other: int, val: CVal) returns (c: Cache)
    requires Spread(hash, 16, keys, other)
    ensures fresh(c) && c.Valid() && c.hash == hash && c.slots.Length == 16 && c.dels == 4
    ensures other !in c.Entries() && c.n == 12 && !LookupReturns(c.slots[..], other)
  {
    c := new Cache(hash);
    Blank(c.slots[..]);
    for p := 0 to 4
      invariant fresh(c) && fresh(c.slots) && c.hash == hash && c.slots.Length == 16
      invariant Stuffed(c, keys, p, 0) && c.dels == p
    {
      Pair(c, keys, other, p, val);
    }
    for q := 0 to 12
      invariant fresh(c) && fresh(c.slots) && c.hash == hash && c.slots.Length == 16
      invariant Stuffed(c, keys, 4, q) && c.dels == 4
    {
      Store(c, keys, other, 4, q, val);
    }
    FilledHangs(c.slots[..], keys, other, 4, 12);
    StopsIff(c.slots[..], hash, other);
  }
}
