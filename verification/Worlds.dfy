/** Worlds: the region operations themselves, each proved against the store the region
  stands for. A fatal check of the runtime is a precondition here. */
module Worlds {
  import opened Probing
  import opened Region
  import opened RegionSize
  import opened RegionUse
  import opened TableRuns

  class World {
    const hash: int -> nat
    var mem: Mem
    var cap: nat
    var frozen: bool
    ghost var own: Owners
    ghost var store: Store

    ghost predicate Valid()
      reads this
    {
      Rep(mem, own, hash, store) && |mem| <= cap
    }

    /** `id` names a container of the given kind: 1 vector, 2 map, 3 record. */
    ghost predicate Is(id: int, kind: int)
      reads this
    {
      1 <= id <= |store| && ObjKind(store[id - 1]) == kind
    }

    ghost function At(id: nat): int
      reads this
      requires Valid() && 1 <= id <= |store|
    {
      OffOf(mem, own, |store|, id - 1)
    }

    /** `world_new`: a region with a header only. */
    constructor (hash: int -> nat)
      ensures Valid() && store == [] && !frozen && this.hash == hash && |mem| == 40 && mem[32] == 0
    {
      this.hash := hash;
      cap, frozen := 65536, false;
      mem := [MAGIC, 0, 0, 0, 0, 0, 0, 0, VERSION, 0, 0, 0, 0, 0, 0, 0]
        + [0, 0, 0, 0, 0, 0, 0, 0] + [0, 0, 0, 0, 0, 0, 0, 0] + [0, 0, 0, 0, 0, 0, 0, 0];
      own := seq(40, _ => Header);
      store := [];
    }

    // ------------------------------------------------------- bytes and words

    /** `arena_alloc`: appends `size` bytes of unknown contents, growing the block if needed. */
    method Alloc(size: nat, ghost tag: Owner) returns (p: nat)
      requires |mem| == |own| && |mem| <= cap
      modifies `mem, `cap, `own
      ensures p == |old(mem)| && Grown(old(mem), old(own), mem, own, size, tag) && |mem| <= cap
    {
      p := |mem|;
      if |mem| + size > cap {
        var need := |mem| + size;
        cap := if need > cap * 2 then need else cap * 2;
      }
      var junk := seq(size, _ => 0);
      if * {
        assert |junk| == size;
        junk :| |junk| == size;
      }
      mem := mem + junk;
      own := own + seq(size, _ => tag);
    }

    method Blit(off: int, bytes: seq<int>)
      requires 0 <= off && off + |bytes| <= |mem|
      modifies `mem
      ensures Within(old(mem), mem, off, off + |bytes|)
      ensures forall c :: off <= c < off + |bytes| ==> mem[c] == bytes[c - off]
    {
      mem := mem[..off] + bytes + mem[off + |bytes|..];
    }

    /** Stores a word; all eight cells of its footprint are overwritten. */
    method Poke(off: int, v: int)
      requires 0 <= off && off + 8 <= |mem|
      modifies `mem
      ensures Within(old(mem), mem, off, off + 8) && mem[off] == v
    {
      Blit(off, [v, 0, 0, 0, 0, 0, 0, 0]);
    }

    method Move(dst: int, src: int, n: nat)
      requires 0 <= src && src + n <= |mem| && 0 <= dst && dst + n <= |mem|
      modifies `mem
      ensures Within(old(mem), mem, dst, dst + n)
      ensures forall c :: dst <= c < dst + n ==> mem[c] == old(mem)[c - dst + src]
    {
      Blit(dst, mem[src..src + n]);
    }

    method Zero(off: int, n: nat)
      requires 0 <= off && off + n <= |mem|
      modifies `mem
      ensures Within(old(mem), mem, off, off + n)
      ensures forall c :: off <= c < off + n ==> mem[c] == 0
    {
      Blit(off, seq(n, _ => 0));
    }

    // ------------------------------------------------- the container table

    /** `baga_wres`: the offset of a container. */
    method Res(id: nat, kind: int) returns (off: int)
      requires Valid() && Is(id, kind)
      ensures off == At(id) && 0 <= off
    {
      off := mem[mem[16] + 16 * (id - 1)];
      EntryOf(mem, own, hash, store, id);
    }

    /** Makes room for one more entry; the old table is left behind. */
    method GrowTable()
      requires Valid() && mem[24] == mem[32]
      modifies `mem, `cap, `own
      ensures Valid() && mem[32] == (if old(mem)[32] > 0 then 2 * old(mem)[32] else 16)
      ensures |mem| == |old(mem)| + 16 * mem[32]
      ensures Touch(old(mem), old(own), mem, own, TableBytes)
      ensures forall c :: |old(mem)| <= c < |mem| ==> own[c] == Table
      ensures OffsKept(old(mem), old(own), |store|, mem, own, |store|)
    {
      ghost var m0, o0 := mem, own;
      var toff, tcap := mem[16], mem[32];
      var ncap := if tcap > 0 then tcap * 2 else 16;
      var noff := Alloc(ncap * 16, Table);
      if tcap > 0 { Move(noff, toff, tcap * 16); }
      ghost var m1 := mem;
      Poke(16, noff);
      Poke(32, ncap);
      TableMoved(m0, o0, m1, mem, own, hash, store, noff, ncap);
    }

    /** `baga_wtbl_add`: gives a finished container the next id. */
    method TblAdd(off: int, kind: int, ghost o: Obj) returns (id: nat)
      requires Valid() && RepObj(mem, own, hash, |store| + 1, off, o) && kind == ObjKind(o)
      modifies `mem, `cap, `own, `store
      ensures Valid() && store == old(store) + [o] && id == |store|
      ensures Touch(old(mem), old(own), mem, own, TableBytes)
      ensures OffsKept(old(mem), old(own), |old(store)|, mem, own, |store|) && At(id) == off
      ensures old(mem[24] < mem[32]) ==> |mem| == |old(mem)| && mem[32] == old(mem[32])
      ensures !old(mem[24] < mem[32]) ==> mem[32] == if old(mem)[32] > 0 then 2 * old(mem)[32] else 16
      ensures !old(mem[24] < mem[32]) ==> |mem| == |old(mem)| + 16 * mem[32]
      ensures forall c :: |old(mem)| <= c < |mem| ==> own[c] == Table
    {
      hide RepObj, RepEntry, Touch, OffsKept;
      ghost var m0, o0, n := mem, own, |store|;
      if mem[24] == mem[32] {
        GrowTable();
        ObjKept(m0, o0, mem, own, TableBytes, hash, n + 1, off, o);
        ghost var m1, o1 := mem, own;
        id := PutEntry(off, kind, o);
        TouchTrans(m0, o0, m1, o1, mem, own, TableBytes);
        OffsTrans(m0, o0, n, m1, o1, n, mem, own, n + 1);
      } else {
        id := PutEntry(off, kind, o);
      }
    }

    method PutEntry(off: int, kind: int, ghost o: Obj) returns (id: nat)
      requires Valid() && RepObj(mem, own, hash, |store| + 1, off, o) && kind == ObjKind(o) && mem[24] < mem[32]
      modifies `mem, `store
      ensures Valid() && store == old(store) + [o] && id == |store|
      ensures Touch(old(mem), own, mem, own, TableBytes) && mem[32] == old(mem)[32] && |mem| == |old(mem)|
      ensures OffsKept(old(mem), own, |old(store)|, mem, own, |store|) && At(id) == off
    {
      ghost var m0 := mem;
      var len, e := mem[24], mem[16] + 16 * mem[24];
      assert own[e] == Table && own[24] == Header;
      Poke(e, off);
      Poke(e + 8, kind);
      Poke(24, len + 1);
      EntryAdded(m0, own, mem, hash, store, off, o);
      store := store + [o];
      id := mem[24];
    }

    // ---------------------------------------------------------------- payloads

    /** `baga_wreg_put_str`: copies a string and its terminator into the region. */
    method PutStr(s: seq<int>) returns (raw: int)
      requires |mem| == |own| && |mem| <= cap && IsCString(s)
      modifies `mem, `cap, `own
      ensures |mem| == |own| && |mem| <= cap
      ensures RepVal(mem, own, raw, Str(s)) && |mem| == |old(mem)| + |s| + 1 && raw == |old(mem)|
      ensures Touch(old(mem), old(own), mem, own, {})
      ensures old(Valid()) ==> Valid()
    {
      hide RepTable, RepEntry;
      ghost var m0, o0 := mem, own;
      raw := Alloc(|s| + 1, Payload(|mem|));
      Blit(raw, s + [0]);
      if Rep(m0, o0, hash, store) { Appended(m0, o0, mem, own, hash, store); }
    }

    /** `baga_wreg_put_bytes`: a length word and the bytes. */
    method PutBytes(b: seq<int>) returns (raw: int)
      requires |mem| == |own| && |mem| <= cap
      modifies `mem, `cap, `own
      ensures |mem| == |own| && |mem| <= cap
      ensures RepVal(mem, own, raw, Bytes(b)) && |mem| == |old(mem)| + 8 + |b| && raw == |old(mem)|
      ensures Touch(old(mem), old(own), mem, own, {})
      ensures old(Valid()) ==> Valid()
    {
      hide RepTable, RepEntry;
      ghost var m0, o0 := mem, own;
      raw := Alloc(8 + |b|, Payload(|mem|));
      Poke(raw, |b|);
      Blit(raw + 8, b);
      forall i | 0 <= i < |b| ensures mem[raw + 8 + i] == b[i] {
        assert mem[raw + 8 + i] == b[raw + 8 + i - (raw + 8)];
      }
      if Rep(m0, o0, hash, store) { Appended(m0, o0, mem, own, hash, store); }
    }

    /** The string at `raw`, up to its terminator (`strlen`). */
    method ReadStr(raw: int, ghost s: seq<int>) returns (r: seq<int>)
      requires |mem| == |own| && RepVal(mem, own, raw, Str(s))
      ensures r == s
    {
      r := [];
      assert forall i :: 0 <= i < |s| ==> s[i] != 0;
      while mem[raw + |r|] != 0
        invariant |r| <= |s| && r == s[..|r|]
        invariant mem[raw + |r|] == if |r| < |s| then s[|r|] else 0
        decreases |s| - |r|
      {
        r := r + [mem[raw + |r|]];
      }
    }

    method ReadBytes(raw: int, ghost b: seq<int>) returns (r: seq<int>)
      requires |mem| == |own| && RepVal(mem, own, raw, Bytes(b))
      ensures r == b
    {
      r := mem[raw + 8..raw + 8 + mem[raw]];
      assert forall i :: 0 <= i < |b| ==> r[i] == mem[raw + 8 + i] == b[i];
    }

    // ------------------------------------------------------------------ wvec

    method WVecNew() returns (id: nat)
      requires Valid() && !frozen
      modifies `mem, `cap, `own, `store
      ensures Valid() && store == old(store) + [VecObj(0, [])] && id == |store|
      ensures Touch(old(mem), old(own), mem, own, TableBytes)
    {
      var hoff := VecBlock(8, 0, 0);
      id := TblAdd(hoff, 1, VecObj(0, []));
    }

    /** The four header words of a vector or a map. */
    method HeadWords(hoff: int, len: int, ncap: int, doff: int, kind: int)
      requires 0 <= hoff && hoff + 32 <= |mem|
      modifies `mem
      ensures Within(old(mem), mem, hoff, hoff + 32)
      ensures mem[hoff] == len && mem[hoff + 8] == ncap && mem[hoff + 16] == doff && mem[hoff + 24] == kind
    {
      Poke(hoff, len);
      Poke(hoff + 8, ncap);
      Poke(hoff + 16, doff);
      Poke(hoff + 24, kind);
    }

    /** Header and element block of a vector that has no table entry yet. */
    method VecBlock(ncap: nat, len: nat, kind: int) returns (hoff: nat)
      requires Valid() && len <= ncap && 8 <= ncap && 0 <= kind <= 3
      modifies `mem, `cap, `own
      ensures Valid() && |mem| == |old(mem)| + 32 + 8 * ncap
      ensures RepVec(mem, own, |store| + 1, hoff, kind, [], len) && mem[hoff + 8] == ncap
      ensures hoff == |old(mem)| && mem[hoff + 16] == hoff + 32
      ensures Touch(old(mem), old(own), mem, own, {})
    {
      hide RepEntry;
      ghost var m0, o0, nid := mem, own, |store| + 1;
      hoff := Alloc(32, Head(nid));
      var doff := Alloc(ncap * 8, Data(nid));
      HeadWords(hoff, len, ncap, doff, kind);
      Undisturbed(m0, o0, mem, own, hash, store, nid);
    }

    /** `baga_kind_set` on a vector: the first element fixes the kind. */
    method VecKind(id: nat, off: int, want: int)
      requires Valid() && Is(id, 1) && off == At(id) && 1 <= want <= 3 && store[id - 1].ekind in {0, want}
      modifies `mem, `store
      ensures Valid() && |mem| == |old(mem)|
      ensures store == old(store)[id - 1 := VecObj(want, old(store)[id - 1].items)] && off == At(id)
      ensures Touch(old(mem), own, mem, own, Mine(id))
    {
      ghost var m0, o := mem, store[id - 1];
      EntryOf(mem, own, hash, store, id);
      if mem[off + 24] == 0 {
        assert |o.items| > 0 ==> KindOf(o.items[0]) == 0;
        Poke(off + 24, want);
        WithinTouch(m0, own, mem, off + 24, off + 32, off, 32, Head(id), Mine(id));
        assert forall c :: m0[off + 16] <= c < m0[off + 16] + 8 * m0[off + 8] ==> own[c] == Data(id);
        VecRebuilt(m0, own, mem, own, id, off, o.ekind, o.items, |o.items|, want, |o.items|);
      }
      VecUpdated(m0, own, mem, own, hash, store, id, off, want, o.items);
      store := store[id - 1 := VecObj(want, o.items)];
    }

    /** `baga_wvec_grow`: doubles the element block; the old one is left behind. */
    /** The elements go to a block of twice the size; the old one is left behind. */
    method MoveVec(off: int, ghost id: nat, ghost kind: int, ghost items: seq<Val>)
      requires |mem| == |own| && |mem| <= cap && RepVec(mem, own, id, off, kind, items, |items|)
      requires |items| == mem[off + 8]
      modifies `mem, `cap, `own
      ensures |mem| == |own| && |mem| <= cap && RepVec(mem, own, id, off, kind, items, |items|)
      ensures mem[off + 8] == 2 * old(mem)[off + 8]
      ensures Touch(old(mem), old(own), mem, own, Mine(id))
    {
      hide RepVal;
      ghost var m0, o0 := mem, own;
      var oldOff, oldLen, nc := mem[off + 16], mem[off], mem[off + 8] * 2;
      var nd := Alloc(nc * 8, Data(id));
      Move(nd, oldOff, oldLen * 8);
      ghost var m1 := mem;
      Poke(off + 16, nd);
      Poke(off + 8, nc);
      VecMoved(m0, o0, m1, mem, own, id, off, kind, items, nd);
    }

    method VecGrow(id: nat, off: int)
      requires Valid() && Is(id, 1) && off == At(id) && |store[id - 1].items| == mem[off + 8]
      modifies `mem, `cap, `own
      ensures Valid() && off == At(id) && mem[off + 8] == 2 * old(mem)[off + 8]
      ensures Touch(old(mem), old(own), mem, own, Mine(id))
    {
      hide RepVal, RepEntry, RepVec, RepMap, RepRec, Touch;
      ghost var m0, o0, o := mem, own, store[id - 1];
      EntryOf(mem, own, hash, store, id);
      MoveVec(off, id, o.ekind, o.items);
      VecUpdated(m0, o0, mem, own, hash, store, id, off, o.ekind, o.items);
      assert store[id - 1 := o] == store;
    }

    /** `baga_wvec_push_raw`: appends the word that stands for `v`. */
    method PushRaw(id: nat, off: int, raw: int, ghost v: Val)
      requires Valid() && Is(id, 1) && off == At(id)
      requires RepVal(mem, own, raw, v) && KindOf(v) == store[id - 1].ekind
      modifies `mem, `cap, `own, `store
      ensures Valid()
      ensures store == old(store)[id - 1 := VecObj(KindOf(v), old(store)[id - 1].items + [v])]
      ensures Touch(old(mem), old(own), mem, own, Mine(id))
    {
      hide RepVal, RepEntry;
      ghost var m0, o0 := mem, own;
      EntryOf(mem, own, hash, store, id);
      if mem[off] == mem[off + 8] { VecGrow(id, off); }
      EntryOf(mem, own, hash, store, id);
      ValKept(m0, o0, mem, own, Mine(id), raw, v);
      AppendWord(id, off, raw, v);
    }

    method PutLast(off: int, raw: int, ghost id: nat, ghost kind: int, ghost items: seq<Val>, ghost v: Val)
      requires |mem| == |own| && RepVec(mem, own, id, off, kind, items, |items|) && |items| < mem[off + 8]
      requires RepVal(mem, own, raw, v) && KindOf(v) == kind
      modifies `mem
      ensures |mem| == |own| && |mem| == |old(mem)| && RepVec(mem, own, id, off, kind, items + [v], |items| + 1)
      ensures Touch(old(mem), own, mem, own, Mine(id))
    {
      hide RepVal;
      ghost var m0 := mem;
      var len := mem[off];
      Poke(mem[off + 16] + 8 * len, raw);
      ghost var m1 := mem;
      VecStored(m0, own, mem, id, off, kind, items, len, raw, v);
      Poke(off, len + 1);
      VecLengthened(m1, own, mem, id, off, kind, items + [v], len);
    }

    method AppendWord(id: nat, off: int, raw: int, ghost v: Val)
      requires Valid() && Is(id, 1) && off == At(id) && |store[id - 1].items| < mem[off + 8]
      requires RepVal(mem, own, raw, v) && KindOf(v) == store[id - 1].ekind
      modifies `mem, `store
      ensures Valid()
      ensures store == old(store)[id - 1 := VecObj(KindOf(v), old(store)[id - 1].items + [v])]
      ensures Touch(old(mem), own, mem, own, Mine(id))
    {
      hide RepVal, RepEntry, RepVec, RepMap, RepRec, Touch;
      ghost var m0, o := mem, store[id - 1];
      EntryOf(mem, own, hash, store, id);
      PutLast(off, raw, id, o.ekind, o.items, v);
      VecUpdated(m0, own, mem, own, hash, store, id, off, o.ekind, o.items + [v]);
      store := store[id - 1 := VecObj(KindOf(v), o.items + [v])];
    }

    method WVecPush(id: nat, x: int)
      requires Valid() && !frozen && Is(id, 1) && store[id - 1].ekind in {0, 1}
      modifies `mem, `cap, `own, `store
      ensures Valid() && store == old(store)[id - 1 := VecObj(1, old(store)[id - 1].items + [I64(x)])]
      ensures Touch(old(mem), old(own), mem, own, Mine(id))
    {
      hide RepObj, RepEntry;
      var voff := Res(id, 1);
      VecKind(id, voff, 1);
      PushRaw(id, voff, x, I64(x));
    }

    method WVecPushStr(id: nat, s: seq<int>)
      requires Valid() && !frozen && Is(id, 1) && store[id - 1].ekind in {0, 2} && IsCString(s)
      modifies `mem, `cap, `own, `store
      ensures Valid() && store == old(store)[id - 1 := VecObj(2, old(store)[id - 1].items + [Str(s)])]
      ensures Touch(old(mem), old(own), mem, own, Mine(id))
    {
      hide RepVal, RepObj, RepEntry;
      var voff := Res(id, 1);
      VecKind(id, voff, 2);
      ghost var m1, o1 := mem, own;
      var raw := PutStr(s);
      TableKept(m1, o1, mem, own, {}, |store|);
      PushRaw(id, voff, raw, Str(s));
    }

    method WVecPushBytes(id: nat, b: seq<int>)
      requires Valid() && !frozen && Is(id, 1) && store[id - 1].ekind in {0, 3}
      modifies `mem, `cap, `own, `store
      ensures Valid() && store == old(store)[id - 1 := VecObj(3, old(store)[id - 1].items + [Bytes(b)])]
      ensures Touch(old(mem), old(own), mem, own, Mine(id))
    {
      hide RepVal, RepObj, RepEntry;
      var voff := Res(id, 1);
      VecKind(id, voff, 3);
      ghost var m1, o1 := mem, own;
      var raw := PutBytes(b);
      TableKept(m1, o1, mem, own, {}, |store|);
      PushRaw(id, voff, raw, Bytes(b));
    }

    method WVecLen(id: nat) returns (n: int)
      requires Valid() && Is(id, 1)
      ensures n == |store[id - 1].items|
    {
      var voff := Res(id, 1);
      EntryOf(mem, own, hash, store, id);
      n := mem[voff];
    }

    /** The element word at index `i`. */
    method VecWord(id: nat, i: nat) returns (raw: int)
      requires Valid() && Is(id, 1) && i < |store[id - 1].items|
      ensures RepVal(mem, own, raw, store[id - 1].items[i]) && KindOf(store[id - 1].items[i]) == store[id - 1].ekind
    {
      var voff := Res(id, 1);
      EntryOf(mem, own, hash, store, id);
      raw := mem[mem[voff + 16] + 8 * i];
      assert KindOf(store[id - 1].items[i]) == store[id - 1].ekind;
    }

    method WVecGet(id: nat, i: nat) returns (x: int)
      requires Valid() && Is(id, 1) && i < |store[id - 1].items| && store[id - 1].ekind == 1
      ensures store[id - 1].items[i] == I64(x)
    {
      x := VecWord(id, i);
    }

    method WVecGetStr(id: nat, i: nat) returns (s: seq<int>)
      requires Valid() && Is(id, 1) && i < |store[id - 1].items| && store[id - 1].ekind == 2
      ensures store[id - 1].items[i] == Str(s)
    {
      var raw := VecWord(id, i);
      s := ReadStr(raw, store[id - 1].items[i].s);
    }

    method WVecGetBytes(id: nat, i: nat) returns (b: seq<int>)
      requires Valid() && Is(id, 1) && i < |store[id - 1].items| && store[id - 1].ekind == 3
      ensures store[id - 1].items[i] == Bytes(b)
    {
      var raw := VecWord(id, i);
      b := ReadBytes(raw, store[id - 1].items[i].b);
    }

    // ------------------------------------------------------------------ wmap

    /** `baga_wslot`: the slot at index `i` of the map at `off`. */
    method SlotAt(off: int, i: nat) returns (s: Cell<int, int>)
      requires 0 <= off && off + 32 <= |mem| && 0 <= mem[off + 16] && i < mem[off + 8]
      requires mem[off + 16] + 24 * mem[off + 8] <= |mem|
      ensures s == Slots(mem, off)[i]
    {
      s := CellAt(mem, mem[off + 16] + 24 * i);
    }

    /** `baga_wm_insert`, at a map of any id: the key's slot or the first free one is written. */
    method WmInsert(off: int, k: int, raw: int, ghost id: nat, ghost kind: int, ghost m: map<int, Val>, ghost v: Val)
        returns (ghost at: nat)
      requires |mem| == |own| && RepMap(mem, own, hash, id, off, kind, m)
      requires RepVal(mem, own, raw, v) && KindOf(v) == kind
      requires 4 * (mem[off] + 1) <= 3 * mem[off + 8]
      requires HasEmpty(Slots(mem, off)) || k in m
      modifies `mem
      ensures |mem| == |old(mem)| && RepMap(mem, own, hash, id, off, kind, m[k := v])
      ensures mem[off + 8] == old(mem)[off + 8] && mem[off + 16] == old(mem)[off + 16]
      ensures Lands(Slots(old(mem), off), hash, k, at) && Slots(mem, off) == Slots(old(mem), off)[at := Live(k, raw)]
      ensures OnlyMap(old(mem), mem, off)
    {
      hide RepVal;
      ghost var t := Slots(mem, off);
      ghost var g := Goal(t, hash, k);
      var hole := -1;
      var i := HomeOf(hash, k, mem[off + 8]);
      while true
        invariant 0 <= i < |t| && mem == old(mem)
        invariant Walking(t, hash, k, i, g, hole)
        decreases Dist(|t|, i, g)
      {
        ghost var before := hole;
        var s := SlotAt(off, i);
        if s.Empty? { break; }
        if s.Live? {
          if s.key == k {
            StoreHits(t, hash, k, raw, i);
            SetSlotValue(off, i, k, raw, id, kind, m, v);
            return i;
          }
        } else if hole < 0 {
          hole := i;
        }
        WalkOn(t, hash, k, i, g, before);
        i := StepFrom(i, mem[off + 8]);
      }
      at := StoreEnds(t, hash, k, raw, i, hole);
      if hole >= 0 { i := hole; }
      FillSlot(off, i, k, raw, id, kind, m, v);
    }

    /** Overwrites the value word of the key's slot. */
    method SetSlotValue(off: int, i: nat, k: int, raw: int, ghost id: nat, ghost kind: int, ghost m: map<int, Val>,
        ghost v: Val)
      requires |mem| == |own| && RepMap(mem, own, hash, id, off, kind, m)
      requires RepVal(mem, own, raw, v) && KindOf(v) == kind
      requires i < mem[off + 8] && Slots(mem, off)[i].Live? && Slots(mem, off)[i].key == k
      modifies `mem
      ensures |mem| == |old(mem)| && RepMap(mem, own, hash, id, off, kind, m[k := v])
      ensures mem[off + 8] == old(mem)[off + 8] && mem[off + 16] == old(mem)[off + 16]
      ensures Slots(mem, off) == Slots(old(mem), off)[i := Live(k, raw)]
      ensures OnlyMap(old(mem), mem, off)
    {
      hide RepVal;
      ghost var m0, t := mem, Slots(mem, off);
      var at := mem[off + 16] + 24 * i;
      StoreHits(t, hash, k, raw, i);
      Poke(at + 8, raw);
      SlotWritten(m0, own, mem, id, off, i);
      assert CellAt(m0, at) == t[i];
      MapStored(m0, own, mem, hash, id, off, kind, m, i, k, raw, v);
    }

    /** Writes a pair into a slot that held none and counts it. */
    method FillSlot(off: int, i: nat, k: int, raw: int, ghost id: nat, ghost kind: int, ghost m: map<int, Val>,
        ghost v: Val)
      requires |mem| == |own| && RepMap(mem, own, hash, id, off, kind, m)
      requires RepVal(mem, own, raw, v) && KindOf(v) == kind
      requires k !in m && Lands(Slots(mem, off), hash, k, i) && 4 * (mem[off] + 1) <= 3 * mem[off + 8]
      modifies `mem
      ensures |mem| == |old(mem)| && RepMap(mem, own, hash, id, off, kind, m[k := v])
      ensures mem[off + 8] == old(mem)[off + 8] && mem[off + 16] == old(mem)[off + 16]
      ensures Slots(mem, off) == Slots(old(mem), off)[i := Live(k, raw)]
      ensures OnlyMap(old(mem), mem, off)
    {
      hide RepVal, RepDict, Wf;
      ghost var m0 := mem;
      var at := mem[off + 16] + 24 * i;
      Poke(at, k);
      Poke(at + 8, raw);
      Poke(at + 16, 1);
      ghost var m1 := mem;
      SlotWritten(m0, own, m1, id, off, i);
      Poke(off, mem[off] + 1);
      CountWritten(m0, own, m1, mem, id, off);
      MapStored(m0, own, mem, hash, id, off, kind, m, i, k, raw, v);
    }

    /** `baga_wm_find`: the index of the slot of `k`, or -1. */
    method WmFind(off: int, k: int, ghost id: nat, ghost kind: int, ghost m: map<int, Val>) returns (s: int)
      requires |mem| == |own| && RepMap(mem, own, hash, id, off, kind, m)
      requires m == map[] || HasEmpty(Slots(mem, off)) || k in m
      ensures -1 <= s < mem[off + 8]
      ensures s >= 0 <==> k in m
      ensures s >= 0 ==> Slots(mem, off)[s].Live? && Slots(mem, off)[s].key == k
      ensures s >= 0 ==> RepVal(mem, own, Slots(mem, off)[s].val, m[k]) && KindOf(m[k]) == kind
    {
      hide RepVal;
      ghost var t := Slots(mem, off);
      LivesAreKeys(t);
      if mem[off] == 0 { return -1; }
      ghost var g := Goal(t, hash, k);
      var i := HomeOf(hash, k, mem[off + 8]);
      while true
        invariant 0 <= i < |t|
        invariant Passed(t, hash, k, i) && !Before(t, hash, k, g, i)
        decreases Dist(|t|, i, g)
      {
        var s := SlotAt(off, i);
        if s.Empty? { break; }
        if s.Live? && s.key == k {
          DictAt(t, i);
          return i;
        }
        Advance(t, hash, k, i, g);
        i := StepFrom(i, mem[off + 8]);
      }
      Absent(t, hash, k, i);
      return -1;
    }

    method WMapNew() returns (id: nat)
      requires Valid() && !frozen
      modifies `mem, `cap, `own, `store
      ensures Valid() && store == old(store) + [MapObj(0, map[])] && id == |store|
      ensures Touch(old(mem), old(own), mem, own, TableBytes)
    {
      hide RepVal, RepDict, RepEntry, Wf, Touch, OffsKept, Added, Tombs, Slots, IsPow2, Rep;
      SixteenIsPow2();
      ghost var m0, o0 := mem, own;
      var hoff := MapBlock(16, 0);
      ghost var m1, o1 := mem, own;
      id := TblAdd(hoff, 2, MapObj(0, map[]));
      TouchWiden(m0, o0, m1, o1, {}, TableBytes);
      TouchTrans(m0, o0, m1, o1, mem, own, TableBytes);
    }

    /** Header and blank slots of a map that has no table entry yet. */
    method MapBlock(ncap: nat, kind: int) returns (hoff: nat)
      requires Valid() && 16 <= ncap && IsPow2(ncap) && 0 <= kind <= 2
      modifies `mem, `cap, `own
      ensures Valid() && |mem| == |old(mem)| + 32 + 24 * ncap
      ensures RepMap(mem, own, hash, |store| + 1, hoff, kind, map[])
      ensures mem[hoff + 8] == ncap && Tombs(Slots(mem, hoff)) == 0
      ensures hoff == |old(mem)| && mem[hoff + 16] == hoff + 32
      ensures Touch(old(mem), old(own), mem, own, {})
    {
      hide RepEntry, RepTable, Wf;
      ghost var m0, o0, nid := mem, own, |store| + 1;
      hoff := Alloc(32, Head(nid));
      var soff := Alloc(ncap * 24, Data(nid));
      Zero(soff, ncap * 24);
      HeadWords(hoff, 0, ncap, soff, kind);
      Undisturbed(m0, o0, mem, own, hash, store, nid);
      MapBlank(mem, own, hash, nid, hoff, kind);
    }

    /** The slots of map `id`. */
    ghost function SlotsOf(id: nat): seq<Cell<int, int>>
      reads this
      requires Valid() && Is(id, 2)
    {
      EntryOf(mem, own, hash, store, id);
      Slots(mem, At(id))
    }

    ghost predicate MustGrow(id: nat)
      reads this
      requires Valid() && Is(id, 2)
    {
      4 * (|store[id - 1].m| + 1) > 3 * |SlotsOf(id)|
    }

    /** A probe for `k` in map `id` comes to a stop. */
    ghost predicate CanProbe(id: nat, k: int)
      reads this
      requires Valid() && Is(id, 2)
    {
      HasEmpty(SlotsOf(id)) || k in store[id - 1].m
    }

    method MapKind(id: nat, off: int, want: int)
      requires Valid() && Is(id, 2) && off == At(id) && 1 <= want <= 2 && store[id - 1].vkind in {0, want}
      modifies `mem, `store
      ensures Valid() && |mem| == |old(mem)|
      ensures store == old(store)[id - 1 := MapObj(want, old(store)[id - 1].m)] && off == At(id)
      ensures SlotsOf(id) == old(SlotsOf(id))
      ensures Touch(old(mem), own, mem, own, Mine(id))
    {
      hide RepVal;
      ghost var m0, o := mem, store[id - 1];
      EntryOf(mem, own, hash, store, id);
      if mem[off + 24] == 0 {
        Poke(off + 24, want);
        MapKindSet(m0, own, mem, hash, id, off, o.vkind, o.m, want);
      }
      MapUpdated(m0, own, mem, own, hash, store, id, off, want, o.m);
      store := store[id - 1 := MapObj(want, o.m)];
    }

    /** The growth half of `baga_wmap_set_raw`: twice the slots, live pairs stored again. */
    method MapGrow(id: nat, off: int)
      requires Valid() && Is(id, 2) && off == At(id)
      requires RepMap(mem, own, hash, id, off, store[id - 1].vkind, store[id - 1].m)
      modifies `mem, `cap, `own
      ensures Valid() && off == At(id)
      ensures RepMap(mem, own, hash, id, off, store[id - 1].vkind, store[id - 1].m)
      ensures |Slots(mem, off)| == 2 * |Slots(old(mem), off)| && Tombs(Slots(mem, off)) == 0
      ensures Touch(old(mem), old(own), mem, own, Mine(id))
    {
      hide Restoring, RepVal, RepDict, Wf, RepEntry, RepVec, RepRec, Tombs, Touch;
      ghost var m0, o0, kind, m := mem, own, store[id - 1].vkind, store[id - 1].m;
      var ocap, ooff := mem[off + 8], mem[off + 16];
      FreshSlots(off, id, kind, m);
      RestoreSlots(m0, o0, id, off, kind, m, ooff, ocap);
      MapSame(m0, o0, mem, own, hash, store, id, off);
    }

    /** Points the header to twice as many blank slots. */
    method FreshSlots(off: int, ghost id: nat, ghost kind: int, ghost m: map<int, Val>)
      requires |mem| == |own| && |mem| <= cap && RepMap(mem, own, hash, id, off, kind, m)
      modifies `mem, `cap, `own
      ensures |mem| == |own| && |mem| <= cap
      ensures Restoring(old(mem), old(own), mem, own, hash, id, off, kind, m, 0)
    {
      ghost var m0, o0 := mem, own;
      var ocap := mem[off + 8];
      var noff := Alloc(ocap * 48, Data(id));
      Zero(noff, ocap * 48);
      HeadWords(off, 0, 2 * ocap, noff, mem[off + 24]);
      MapEmptied(m0, o0, mem, own, hash, id, off, kind, m);
    }

    /** Stores the live pairs of the old slots at `ooff` into the current, blank ones. */
    method RestoreSlots(ghost m0: Mem, ghost o0: Owners, ghost id: nat, off: int, ghost kind: int, ghost m: map<int,
        Val>,
        ooff: int, ocap: nat)
      requires Restoring(m0, o0, mem, own, hash, id, off, kind, m, 0) && ocap == m0[off + 8] && ooff == m0[off + 16]
      modifies `mem
      ensures |mem| == |old(mem)| && Touch(m0, o0, mem, own, Mine(id)) && RepMap(mem, own, hash, id, off, kind, m)
      ensures Tombs(Slots(mem, off)) == 0 && |Slots(mem, off)| == 2 * ocap
    {
      hide RepMap, RepVal;
      var i: nat := 0;
      while i < ocap
        invariant i <= ocap && Restoring(m0, o0, mem, own, hash, id, off, kind, m, i) && |mem| == |old(mem)|
      {
        RestoreReady(m0, o0, mem, own, hash, id, off, kind, m, i);
        var s := CellAt(mem, ooff + 24 * i);
        if s.Live? {
          ghost var m1 := mem;
          ghost var at := WmInsert(off, s.key, s.val, id, kind, Part(m, Dict(Slots(m0, off)[..i])), m[s.key]);
          RestoreStep(m0, o0, m1, mem, own, hash, id, off, kind, m, i, at);
        } else {
          RestoreSkip(m0, o0, mem, own, hash, id, off, kind, m, i);
        }
        i := i + 1;
      }
      RestoreDone(m0, o0, mem, own, hash, id, off, kind, m, i);
    }

    /** `baga_wmap_set_raw`: stores the word that stands for `v` under `k`. */
    method SetRaw(id: nat, off: int, k: int, raw: int, ghost v: Val)
      requires Valid() && Is(id, 2) && off == At(id)
      requires RepMap(mem, own, hash, id, off, store[id - 1].vkind, store[id - 1].m)
      requires RepVal(mem, own, raw, v) && KindOf(v) == store[id - 1].vkind
      requires 4 * (mem[off] + 1) > 3 * mem[off + 8] || HasEmpty(Slots(mem, off)) || k in store[id - 1].m
      modifies `mem, `cap, `own, `store
      ensures Valid()
      ensures store == old(store)[id - 1 := MapObj(KindOf(v), old(store)[id - 1].m[k := v])]
      ensures off == At(id) && RepMap(mem, own, hash, id, off, store[id - 1].vkind, store[id - 1].m)
      ensures var t, grown := Slots(old(mem), off), old(4 * (mem[off] + 1) > 3 * mem[off + 8]);
        && |Slots(mem, off)| == (if grown then 2 * |t| else |t|)
        && Tombs(Slots(mem, off)) <= (if grown then 0 else Tombs(t))
        && (!grown ==> PutStep(t, hash, k, Slots(mem, off)))
      ensures Touch(old(mem), old(own), mem, own, Mine(id))
    {
      hide RepVal, RepEntry, RepMap, Touch, PutStep, RepVec, RepRec, Tombs, HasEmpty;
      ghost var m0, o0, kind, m := mem, own, store[id - 1].vkind, store[id - 1].m;
      MapSize(mem, own, hash, id, off, kind, m);
      MapHead(mem, own, hash, id, off, kind, m);
      if (mem[off] + 1) * 4 > mem[off + 8] * 3 {
        MapGrow(id, off);
        ValKept(m0, o0, mem, own, Mine(id), raw, v);
        GrownRoom(mem, own, hash, id, off, kind, m, |Slots(m0, off)|);
      } else {
        TouchSame(mem, own, Mine(id));
      }
      ghost var m1, o1 := mem, own;
      InsertRaw(id, off, k, raw, v);
      TouchTrans(m0, o0, m1, o1, mem, own, Mine(id));
    }

    method InsertRaw(id: nat, off: int, k: int, raw: int, ghost v: Val)
      requires Valid() && Is(id, 2) && off == At(id)
      requires RepMap(mem, own, hash, id, off, store[id - 1].vkind, store[id - 1].m)
      requires RepVal(mem, own, raw, v) && KindOf(v) == store[id - 1].vkind
      requires 4 * (mem[off] + 1) <= 3 * mem[off + 8] && (HasEmpty(Slots(mem, off)) || k in store[id - 1].m)
      modifies `mem, `store
      ensures Valid() && |mem| == |old(mem)|
      ensures store == old(store)[id - 1 := MapObj(KindOf(v), old(store)[id - 1].m[k := v])]
      ensures off == At(id) && RepMap(mem, own, hash, id, off, store[id - 1].vkind, store[id - 1].m)
      ensures |Slots(mem, off)| == |Slots(old(mem), off)| && Tombs(Slots(mem, off)) <= Tombs(Slots(old(mem), off))
      ensures PutStep(Slots(old(mem), off), hash, k, Slots(mem, off))
      ensures Touch(old(mem), own, mem, own, Mine(id))
    {
      hide RepVal, RepEntry, RepDict, Wf, Touch, PutStep;
      ghost var m0, kind, m := mem, store[id - 1].vkind, store[id - 1].m;
      PutPair(off, k, raw, id, kind, m, v);
      MapUpdated(m0, own, mem, own, hash, store, id, off, kind, m[k := v]);
      store := store[id - 1 := MapObj(kind, m[k := v])];
    }

    /** An insertion adds no tombstone and touches only this map. */
    method PutPair(off: int, k: int, raw: int, ghost id: nat, ghost kind: int, ghost m: map<int, Val>, ghost v: Val)
      requires |mem| == |own| && RepMap(mem, own, hash, id, off, kind, m)
      requires RepVal(mem, own, raw, v) && KindOf(v) == kind
      requires 4 * (mem[off] + 1) <= 3 * mem[off + 8] && (HasEmpty(Slots(mem, off)) || k in m)
      modifies `mem
      ensures |mem| == |old(mem)| && RepMap(mem, own, hash, id, off, kind, m[k := v])
      ensures |Slots(mem, off)| == |Slots(old(mem), off)| && Tombs(Slots(mem, off)) <= Tombs(Slots(old(mem), off))
      ensures PutStep(Slots(old(mem), off), hash, k, Slots(mem, off))
      ensures mem[off + 16] == old(mem)[off + 16] && Dict(Slots(mem, off)) == Dict(Slots(old(mem), off))[k := raw]
      ensures Touch(old(mem), own, mem, own, Mine(id))
    {
      hide RepVal, RepDict, Chained, Unique, Touch, OnlyMap, PutStep, Dict;
      ghost var m0 := mem;
      ghost var at := WmInsert(off, k, raw, id, kind, m, v);
      OnlyMapTouch(m0, own, mem, hash, id, off, kind, m);
      Recount(Slots(m0, off), at, Live(k, raw));
      MapPut(m0, own, hash, id, off, kind, m, k, at, raw);
      StoreLands(Slots(m0, off), hash, k, raw, at);
    }

    method WMapSet(id: nat, k: int, x: int)
      requires Valid() && !frozen && Is(id, 2) && store[id - 1].vkind in {0, 1}
      requires MustGrow(id) || CanProbe(id, k)
      modifies `mem, `cap, `own, `store
      ensures Valid() && store == old(store)[id - 1 := MapObj(1, old(store)[id - 1].m[k := I64(x)])]
      ensures |SlotsOf(id)| == (if old(MustGrow(id)) then 2 else 1) * |old(SlotsOf(id))|
      ensures Tombs(SlotsOf(id)) <= if old(MustGrow(id)) then 0 else old(Tombs(SlotsOf(id)))
      ensures if old(MustGrow(id)) then Rebuilt(SlotsOf(id), hash, 2 * |old(SlotsOf(id))|)
              else PutStep(old(SlotsOf(id)), hash, k, SlotsOf(id))
      ensures Touch(old(mem), old(own), mem, own, Mine(id))
    {
      hide RepEntry, RepMap, SlotsOf, Touch, PutStep, Rebuilt, Tombs, MustGrow, CanProbe, HasEmpty;
      ghost var m0, o0, st := mem, own, store;
      EntriesFit(id, k, I64(x));
      OpenMap(id);
      var moff := Res(id, 2);
      MapKind(id, moff, 1);
      OpenMap(id);
      ghost var m1, o1 := mem, own;
      SetRaw(id, moff, k, x, I64(x));
      OpenMap(id);
      FreshTable(id);
      TouchTrans(m0, o0, m1, o1, mem, own, Mine(id));
      SetTwice(st, id - 1, MapObj(1, st[id - 1].m), MapObj(1, st[id - 1].m[k := I64(x)]));
    }

    method WMapSetStr(id: nat, k: int, s: seq<int>)
      requires Valid() && !frozen && Is(id, 2) && store[id - 1].vkind in {0, 2} && IsCString(s)
      requires MustGrow(id) || CanProbe(id, k)
      modifies `mem, `cap, `own, `store
      ensures Valid() && store == old(store)[id - 1 := MapObj(2, old(store)[id - 1].m[k := Str(s)])]
      ensures |SlotsOf(id)| == (if old(MustGrow(id)) then 2 else 1) * |old(SlotsOf(id))|
      ensures Tombs(SlotsOf(id)) <= if old(MustGrow(id)) then 0 else old(Tombs(SlotsOf(id)))
      ensures if old(MustGrow(id)) then Rebuilt(SlotsOf(id), hash, 2 * |old(SlotsOf(id))|)
              else PutStep(old(SlotsOf(id)), hash, k, SlotsOf(id))
      ensures Touch(old(mem), old(own), mem, own, Mine(id))
    {
      hide RepVal, RepEntry, RepMap, SlotsOf, MustGrow, CanProbe, Touch, PutStep, Rebuilt, Tombs, HasEmpty;
      ghost var m0, o0, st := mem, own, store;
      EntriesFit(id, k, Str(s));
      OpenMap(id);
      var moff, raw := PutMapStr(id, s);
      ghost var m1, o1 := mem, own;
      OpenMap(id);
      SetRaw(id, moff, k, raw, Str(s));
      OpenMap(id);
      FreshTable(id);
      TouchTrans(m0, o0, m1, o1, mem, own, Mine(id));
      SetTwice(st, id - 1, MapObj(2, st[id - 1].m), MapObj(2, st[id - 1].m[k := Str(s)]));
    }

    /** Fixes the kind of a map to strings and copies the string, in this order. */
    method PutMapStr(id: nat, s: seq<int>) returns (off: int, raw: int)
      requires Valid() && Is(id, 2) && store[id - 1].vkind in {0, 2} && IsCString(s)
      modifies `mem, `cap, `own, `store
      ensures Valid() && store == old(store)[id - 1 := MapObj(2, old(store)[id - 1].m)] && off == At(id)
      ensures SlotsOf(id) == old(SlotsOf(id)) && RepVal(mem, own, raw, Str(s))
      ensures Touch(old(mem), old(own), mem, own, Mine(id))
    {
      hide RepVal, RepEntry, RepDict, SlotsOf, Touch;
      ghost var m0, o0 := mem, own;
      OpenMap(id);
      off := Res(id, 2);
      MapKind(id, off, 2);
      OpenMap(id);
      ghost var m1, o1 := mem, own;
      raw := PutStrBeside(id, off, s);
      OpenMap(id);
      TouchWiden(m1, o1, mem, own, {}, Mine(id));
      TouchTrans(m0, o0, m1, o1, mem, own, Mine(id));
    }

    /** A string put in the region leaves map `id` as it was. */
    method PutStrBeside(id: nat, off: int, s: seq<int>) returns (raw: int)
      requires Valid() && Is(id, 2) && off == At(id) && IsCString(s)
      requires RepMap(mem, own, hash, id, off, store[id - 1].vkind, store[id - 1].m)
      modifies `mem, `cap, `own
      ensures Valid() && RepVal(mem, own, raw, Str(s)) && off == At(id)
      ensures RepMap(mem, own, hash, id, off, store[id - 1].vkind, store[id - 1].m)
      ensures Slots(mem, off) == Slots(old(mem), off)
      ensures Touch(old(mem), old(own), mem, own, {})
    {
      hide RepVal, RepEntry, RepDict;
      ghost var m0, o0 := mem, own;
      raw := PutStr(s);
      TableKept(m0, o0, mem, own, {}, |store|);
      MapKept(m0, o0, mem, own, {}, hash, id, off, store[id - 1].vkind, store[id - 1].m);
      SlotsKept(m0, o0, mem, own, {}, hash, id, off, store[id - 1].vkind, store[id - 1].m);
    }

    /** The value word of `k`, or nothing. */
    method MapWord(id: nat, k: int) returns (hit: bool, raw: int)
      requires Valid() && Is(id, 2)
      requires store[id - 1].m == map[] || CanProbe(id, k)
      ensures hit <==> k in store[id - 1].m
      ensures hit ==> RepVal(mem, own, raw, store[id - 1].m[k]) && KindOf(store[id - 1].m[k]) == store[id - 1].vkind
    {
      hide RepVal, RepEntry;
      var moff := Res(id, 2);
      EntryOf(mem, own, hash, store, id);
      var s := WmFind(moff, k, id, store[id - 1].vkind, store[id - 1].m);
      hit, raw := s >= 0, 0;
      if hit {
        var c := SlotAt(moff, s);
        raw := c.val;
      }
    }

    /** `wmap_get`: 0 stands for a missing key. */
    method WMapGet(id: nat, k: int) returns (x: int)
      requires Valid() && Is(id, 2) && store[id - 1].vkind in {0, 1}
      requires store[id - 1].m == map[] || CanProbe(id, k)
      ensures if k in store[id - 1].m then store[id - 1].m[k] == I64(x) else x == 0
    {
      var hit;
      hit, x := MapWord(id, k);
      if !hit { x := 0; }
    }

    method WMapGetStr(id: nat, k: int) returns (s: seq<int>)
      requires Valid() && Is(id, 2) && store[id - 1].vkind == 2 && k in store[id - 1].m
      ensures store[id - 1].m[k] == Str(s)
    {
      var hit, raw := MapWord(id, k);
      s := ReadStr(raw, store[id - 1].m[k].s);
    }

    method WMapHas(id: nat, k: int) returns (hit: bool)
      requires Valid() && Is(id, 2)
      requires store[id - 1].m == map[] || CanProbe(id, k)
      ensures hit <==> k in store[id - 1].m
    {
      var raw;
      hit, raw := MapWord(id, k);
    }

    /** Marks a slot as deleted and takes it off the count. */
    method BurySlot(off: int, i: nat, k: int, ghost id: nat, ghost kind: int, ghost m: map<int, Val>)
      requires |mem| == |own| && RepMap(mem, own, hash, id, off, kind, m)
      requires i < mem[off + 8] && Slots(mem, off)[i].Live? && Slots(mem, off)[i].key == k
      modifies `mem
      ensures |mem| == |old(mem)| && Touch(old(mem), own, mem, own, Mine(id))
      ensures RepMap(mem, own, hash, id, off, kind, m - {k})
      ensures Slots(mem, off) == Slots(old(mem), off)[i := Tomb]
      ensures |Slots(mem, off)| == |Slots(old(mem), off)| && Tombs(Slots(mem, off)) == Tombs(Slots(old(mem), off)) + 1
    {
      hide RepVal;
      ghost var m0 := mem;
      Poke(mem[off + 16] + 24 * i + 16, 2);
      ghost var m1 := mem;
      SlotWritten(m0, own, m1, id, off, i);
      Poke(off, mem[off] - 1);
      CountWritten(m0, own, m1, mem, id, off);
      MapBuried(m0, own, mem, hash, id, off, kind, m, i, k);
      Recount(Slots(m0, off), i, Tomb);
    }

    /** The pair of a key is removed, if there is one. */
    method DelPair(id: nat, off: int, k: int)
      requires Valid() && Is(id, 2) && off == At(id)
      requires RepMap(mem, own, hash, id, off, store[id - 1].vkind, store[id - 1].m)
      requires store[id - 1].m == map[] || HasEmpty(Slots(mem, off)) || k in store[id - 1].m
      modifies `mem, `store
      ensures Valid() && store == old(store)[id - 1 := MapObj(old(store)[id - 1].vkind, old(store)[id - 1].m - {k})]
      ensures off == At(id) && RepMap(mem, own, hash, id, off, store[id - 1].vkind, store[id - 1].m)
      ensures |Slots(mem, off)| == |Slots(old(mem), off)|
      ensures Tombs(Slots(mem, off)) == Tombs(Slots(old(mem), off)) + if k in old(store)[id - 1].m then 1 else 0
      ensures DelStep(Slots(old(mem), off), hash, k, Slots(mem, off))
      ensures Touch(old(mem), own, mem, own, Mine(id))
    {
      hide RepVal, RepEntry, DelStep, RepDict, Touch, Tombs, Wf, Lives;
      ghost var m0, kind, m := mem, store[id - 1].vkind, store[id - 1].m;
      var s := WmFind(off, k, id, kind, m);
      if s >= 0 {
        BurySlot(off, s, k, id, kind, m);
        MapUpdated(m0, own, mem, own, hash, store, id, off, kind, m - {k});
      } else {
        TouchSame(mem, own, Mine(id));
        assert m - {k} == m && store[id - 1 := MapObj(kind, m)] == store;
      }
      store := store[id - 1 := MapObj(kind, m - {k})];
      MapDel(m0, own, mem, hash, id, off, kind, m, k, s);
    }

    method WMapDel(id: nat, k: int)
      requires Valid() && !frozen && Is(id, 2)
      requires store[id - 1].m == map[] || CanProbe(id, k)
      modifies `mem, `store
      ensures Valid() && store == old(store)[id - 1 := MapObj(old(store)[id - 1].vkind, old(store)[id - 1].m - {k})]
      ensures |SlotsOf(id)| == |old(SlotsOf(id))|
      ensures Tombs(SlotsOf(id)) == old(Tombs(SlotsOf(id))) + if k in old(store)[id - 1].m then 1 else 0
      ensures DelStep(old(SlotsOf(id)), hash, k, SlotsOf(id))
      ensures Touch(old(mem), own, mem, own, Mine(id))
    {
      hide RepVal, RepEntry, DelStep, RepMap, Touch, Tombs, SlotsOf, CanProbe;
      ghost var m0, m := mem, store[id - 1].m;
      OpenMap(id);
      var moff := Res(id, 2);
      DelPair(id, moff, k);
      OpenMap(id);
    }

    method WMapLen(id: nat) returns (n: int)
      requires Valid() && Is(id, 2)
      ensures n == |store[id - 1].m|
    {
      var moff := Res(id, 2);
      EntryOf(mem, own, hash, store, id);
      MapSize(mem, own, hash, id, moff, store[id - 1].vkind, store[id - 1].m);
      n := mem[moff];
    }

    /** The abstract view of map `id` and the words behind it. */
    lemma OpenMap(id: nat)
      requires Valid() && Is(id, 2)
      ensures RepMap(mem, own, hash, id, At(id), store[id - 1].vkind, store[id - 1].m)
      ensures var off := At(id);
        && SlotsOf(id) == Slots(mem, off) && mem[off] == |store[id - 1].m| && mem[off + 8] == |SlotsOf(id)|
        && (MustGrow(id) <==> 4 * (mem[off] + 1) > 3 * mem[off + 8])
        && forall k :: CanProbe(id, k) <==> HasEmpty(Slots(mem, off)) || k in store[id - 1].m
    {
      EntryOf(mem, own, hash, store, id);
      MapSize(mem, own, hash, id, At(id), store[id - 1].vkind, store[id - 1].m);
    }

    /** Fewer than a quarter as many tombstones as slots: every lookup stops. For a put that does not
        grow the map, a quarter as many is still enough room. */
    lemma TombsLeaveRoom(id: nat, k: int)
      requires Valid() && Is(id, 2)
      ensures 4 * Tombs(SlotsOf(id)) < |SlotsOf(id)| ==> CanProbe(id, k)
      ensures 4 * Tombs(SlotsOf(id)) <= |SlotsOf(id)| ==> MustGrow(id) || CanProbe(id, k)
    {
      hide RepVal, RepDict;
      OpenMap(id);
      EmptyIff(SlotsOf(id));
    }

    lemma FreshTable(id: nat)
      requires Valid() && Is(id, 2)
      ensures Tombs(SlotsOf(id)) == 0 && 2 * |store[id - 1].m| <= |SlotsOf(id)| ==>
        Rebuilt(SlotsOf(id), hash, |SlotsOf(id)|)
    {
      hide RepVal, RepDict, Wf, Lives, Tombs, Slots;
      EntryOf(mem, own, hash, store, id);
      MapSize(mem, own, hash, id, At(id), store[id - 1].vkind, store[id - 1].m);
    }

    /** Doubling makes the table at least twice as large as the map, one more entry included. */
    lemma EntriesFit(id: nat, k: int, v: Val)
      requires Valid() && Is(id, 2)
      ensures |store[id - 1].m[k := v]| <= |SlotsOf(id)|
    {
      hide RepVal, RepDict, Wf, Lives, Tombs, Slots;
      EntryOf(mem, own, hash, store, id);
      var m := store[id - 1].m;
      MapSize(mem, own, hash, id, At(id), store[id - 1].vkind, m);
      assert m[k := v].Keys == m.Keys + {k};
    }

    /** Compaction leaves no tombstone, so counting deletions starts again from there. */
    lemma CompactedLeavesRoom(id: nat)
      requires Valid() && Is(id, 2) && Clean(mem, own, hash, store)
      ensures Rebuilt(SlotsOf(id), hash, |SlotsOf(id)|) && forall k :: CanProbe(id, k)
    {
      hide RepVal, RepDict, Wf, Tombs, Lives;
      SettledSlots(id);
      OpenMap(id);
      TombsLeaveRoom(id, 0);
      HasRoom(id);
    }

    lemma SettledSlots(id: nat)
      requires Valid() && Is(id, 2) && Clean(mem, own, hash, store)
      ensures Rebuilt(SlotsOf(id), hash, |SlotsOf(id)|)
    {
      hide RepVal, RepDict, Lives, Tombs;
      EntryOf(mem, own, hash, store, id);
      SameTable(id);
    }

    lemma SameTable(id: nat)
      requires Valid() && Is(id, 2)
      ensures SlotsOf(id) == MapSlots(mem, own, hash, store, id)
    {
      hide RepVal, RepDict, Slots;
      EntryOf(mem, own, hash, store, id);
    }

    lemma HasRoom(id: nat)
      requires Valid() && Is(id, 2) && 4 * Tombs(SlotsOf(id)) < |SlotsOf(id)|
      ensures HasEmpty(SlotsOf(id))
    {
      EntryOf(mem, own, hash, store, id);
      DeletionBound(SlotsOf(id), Tombs(SlotsOf(id)));
    }

    // ------------------------------------------------------------------ wrec

    method WRecNew(n: nat) returns (id: nat)
      requires Valid() && !frozen && n >= 1
      modifies `mem, `cap, `own, `store
      ensures Valid() && store == old(store) + [RecObj(seq(n, _ => Unset))] && id == |store|
      ensures Touch(old(mem), old(own), mem, own, TableBytes)
    {
      var hoff := RecBlock(n);
      id := TblAdd(hoff, 3, RecObj(seq(n, _ => Unset)));
    }

    /** Header, values and kinds of a record that has no table entry yet. */
    method RecBlock(n: nat) returns (hoff: nat)
      requires Valid() && n >= 1
      modifies `mem, `cap, `own
      ensures Valid() && |mem| == |old(mem)| + 24 + 16 * n
      ensures RepRec(mem, own, |store| + 1, hoff, seq(n, _ => Unset), n)
      ensures Touch(old(mem), old(own), mem, own, {})
    {
      hide RepRec;
      hide RepEntry;
      ghost var m0, o0, nid := mem, own, |store| + 1;
      hoff := Alloc(24, Head(nid));
      var doff := Alloc(n * 8, Data(nid));
      var koff := Alloc(n * 8, Kinds(nid));
      RecHeader(hoff, n, doff, koff);
      Zero(doff, n * 8);
      Zero(koff, n * 8);
      Appended(m0, o0, mem, own, hash, store);
      RecBlank(mem, own, nid, hoff, n);
    }

    method RecHeader(hoff: int, n: int, doff: int, koff: int)
      requires 0 <= hoff && hoff + 24 <= |mem|
      modifies `mem
      ensures Within(old(mem), mem, hoff, hoff + 24)
      ensures mem[hoff] == n && mem[hoff + 8] == doff && mem[hoff + 16] == koff
    {
      Poke(hoff, n);
      Poke(hoff + 8, doff);
      Poke(hoff + 16, koff);
    }

    /** The first half of every `wrec_set*`: the kind of the field. */
    method RecKind(off: int, i: nat, want: int, ghost id: nat, ghost fields: seq<Field>)
      requires |mem| == |own| && RepRec(mem, own, id, off, fields, |fields|) && i < |fields| && want > 0
      requires fields[i].Filled? ==> KindOf(fields[i].v) == want
      modifies `mem
      ensures var ka := old(mem)[off + 16] + 8 * i; Within(old(mem), mem, ka, ka + 8) && mem[ka] == want
    {
      var ka := mem[off + 16] + 8 * i;
      assert RepField(mem, own, mem[ka], mem[mem[off + 8] + 8 * i], fields[i]);
      if mem[ka] == 0 { Poke(ka, want); }
    }

    /** Kind and word of a number field. */
    method PutNumber(off: int, i: nat, x: int, ghost id: nat, ghost fields: seq<Field>)
      requires |mem| == |own| && RepRec(mem, own, id, off, fields, |fields|) && i < |fields|
      requires fields[i].Filled? ==> fields[i].v.I64?
      modifies `mem
      ensures |mem| == |old(mem)| && RepRec(mem, own, id, off, fields[i := Filled(I64(x))], |fields|)
      ensures Touch(old(mem), own, mem, own, Mine(id))
    {
      hide Touch, FieldOnly;
      ghost var m0 := mem;
      RecKind(off, i, 1, id, fields);
      ghost var m1 := mem;
      TouchSame(m1, own, {});
      RecHeadKept(m0, own, m1, m1, own, id, off, fields, i);
      Poke(mem[off + 8] + 8 * i, x);
      FieldWritten(m0, own, m1, m1, own, mem, id, off, fields, |fields|, i);
      RecStored(m0, own, mem, own, id, off, fields, |fields|, i, Filled(I64(x)));
    }

    method WRecSet(id: nat, i: nat, x: int)
      requires Valid() && !frozen && Is(id, 3) && i < |store[id - 1].fields|
      requires store[id - 1].fields[i].Filled? ==> store[id - 1].fields[i].v.I64?
      modifies `mem, `store
      ensures Valid() && store == old(store)[id - 1 := RecObj(old(store)[id - 1].fields[i := Filled(I64(x))])]
      ensures Touch(old(mem), own, mem, own, Mine(id))
    {
      hide RepEntry, RepVec, RepMap, RepRec, Touch;
      ghost var m0, fs := mem, store[id - 1].fields;
      var roff := Res(id, 3);
      EntryOf(mem, own, hash, store, id);
      PutNumber(roff, i, x, id, fs);
      RecUpdated(m0, own, mem, own, hash, store, id, roff, fs[i := Filled(I64(x))]);
      store := store[id - 1 := RecObj(fs[i := Filled(I64(x))])];
    }

    method WRecSetStr(id: nat, i: nat, s: seq<int>)
      requires Valid() && !frozen && Is(id, 3) && i < |store[id - 1].fields| && IsCString(s)
      requires store[id - 1].fields[i].Filled? ==> store[id - 1].fields[i].v.Str?
      modifies `mem, `cap, `own, `store
      ensures Valid() && store == old(store)[id - 1 := RecObj(old(store)[id - 1].fields[i := Filled(Str(s))])]
      ensures Touch(old(mem), old(own), mem, own, Mine(id))
    {
      hide RepVal, RepEntry, RepVec, RepMap, RepRec, Touch;
      ghost var m0, o0, fs := mem, own, store[id - 1].fields;
      var roff := Res(id, 3);
      EntryOf(mem, own, hash, store, id);
      RecKind(roff, i, 2, id, fs);
      ghost var m1 := mem;
      var raw := PutStr(s);
      RecValue(m0, o0, m1, id, roff, i, raw, Str(s), fs);
      RecUpdated(m0, o0, mem, own, hash, store, id, roff, fs[i := Filled(Str(s))]);
      store := store[id - 1 := RecObj(fs[i := Filled(Str(s))])];
    }

    method WRecSetBytes(id: nat, i: nat, b: seq<int>)
      requires Valid() && !frozen && Is(id, 3) && i < |store[id - 1].fields|
      requires store[id - 1].fields[i].Filled? ==> store[id - 1].fields[i].v.Bytes?
      modifies `mem, `cap, `own, `store
      ensures Valid() && store == old(store)[id - 1 := RecObj(old(store)[id - 1].fields[i := Filled(Bytes(b))])]
      ensures Touch(old(mem), old(own), mem, own, Mine(id))
    {
      hide RepVal, RepEntry, RepVec, RepMap, RepRec, Touch;
      ghost var m0, o0, fs := mem, own, store[id - 1].fields;
      var roff := Res(id, 3);
      EntryOf(mem, own, hash, store, id);
      RecKind(roff, i, 3, id, fs);
      ghost var m1 := mem;
      var raw := PutBytes(b);
      RecValue(m0, o0, m1, id, roff, i, raw, Bytes(b), fs);
      RecUpdated(m0, o0, mem, own, hash, store, id, roff, fs[i := Filled(Bytes(b))]);
      store := store[id - 1 := RecObj(fs[i := Filled(Bytes(b))])];
    }

    /** The second half of `wrec_set_str` and `wrec_set_bytes`: the offset of the payload. */
    method RecValue(ghost m0: Mem, ghost o0: Owners, ghost m1: Mem, ghost id: nat, off: int, i: nat, raw: int,
        ghost v: Val,
        ghost fields: seq<Field>)
      requires |m0| == |o0| && |mem| == |own| && RepRec(m0, o0, id, off, fields, |fields|) && i < |fields|
      requires var ka := m0[off + 16] + 8 * i; Within(m0, m1, ka, ka + 8) && m1[ka] == KindOf(v)
      requires Touch(m1, o0, mem, own, {}) && RepVal(mem, own, raw, v) && !v.I64?
      modifies `mem
      ensures |mem| == |old(mem)| && Touch(m0, o0, mem, own, Mine(id))
      ensures RepRec(mem, own, id, off, fields[i := Filled(v)], |fields|)
    {
      ghost var m2 := mem;
      RecHeadKept(m0, o0, m1, mem, own, id, off, fields, i);
      Poke(mem[off + 8] + 8 * i, raw);
      FieldWritten(m0, o0, m1, m2, own, mem, id, off, fields, |fields|, i);
      PayloadApart(m2, own, mem, id, m0[off + 8] + 8 * i, raw, v);
      RecStored(m0, o0, mem, own, id, off, fields, |fields|, i, Filled(v));
    }

    method WRecLen(id: nat) returns (n: int)
      requires Valid() && Is(id, 3)
      ensures n == |store[id - 1].fields|
    {
      var roff := Res(id, 3);
      EntryOf(mem, own, hash, store, id);
      n := mem[roff];
    }

    method WRecHas(id: nat, i: nat) returns (b: bool)
      requires Valid() && Is(id, 3) && i < |store[id - 1].fields|
      ensures b <==> store[id - 1].fields[i].Filled?
    {
      var roff := Res(id, 3);
      EntryOf(mem, own, hash, store, id);
      assert RepField(mem, own, mem[mem[roff + 16] + 8 * i], mem[mem[roff + 8] + 8 * i], store[id - 1].fields[i]);
      b := mem[mem[roff + 16] + 8 * i] != 0;
    }

    /** `baga_wrec_rd`: the word of a field that is set. */
    method RecWord(id: nat, i: nat) returns (raw: int)
      requires Valid() && Is(id, 3) && i < |store[id - 1].fields| && store[id - 1].fields[i].Filled?
      ensures RepVal(mem, own, raw, store[id - 1].fields[i].v)
    {
      var roff := Res(id, 3);
      EntryOf(mem, own, hash, store, id);
      raw := mem[mem[roff + 8] + 8 * i];
      assert RepField(mem, own, mem[mem[roff + 16] + 8 * i], raw, store[id - 1].fields[i]);
    }

    method WRecGet(id: nat, i: nat) returns (x: int)
      requires Valid() && Is(id, 3) && i < |store[id - 1].fields| && store[id - 1].fields[i].Filled?
      requires store[id - 1].fields[i].v.I64?
      ensures store[id - 1].fields[i] == Filled(I64(x))
    {
      x := RecWord(id, i);
    }

    method WRecGetStr(id: nat, i: nat) returns (s: seq<int>)
      requires Valid() && Is(id, 3) && i < |store[id - 1].fields| && store[id - 1].fields[i].Filled?
      requires store[id - 1].fields[i].v.Str?
      ensures store[id - 1].fields[i] == Filled(Str(s))
    {
      var raw := RecWord(id, i);
      s := ReadStr(raw, store[id - 1].fields[i].v.s);
    }

    method WRecGetBytes(id: nat, i: nat) returns (b: seq<int>)
      requires Valid() && Is(id, 3) && i < |store[id - 1].fields| && store[id - 1].fields[i].Filled?
      requires store[id - 1].fields[i].v.Bytes?
      ensures store[id - 1].fields[i] == Filled(Bytes(b))
    {
      var raw := RecWord(id, i);
      b := ReadBytes(raw, store[id - 1].fields[i].v.b);
    }

    // ------------------------------------------------------------ compaction

    /** `baga_wimg_copy_str` and `baga_wimg_copy_bytes`: the word that stands for the same value
        here. Numbers are copied as they are. */
    method CopyVal(src: World, kind: int, raw: int, ghost v: Val) returns (r: int)
      requires Valid() && src != this && src.Valid() && RepVal(src.mem, src.own, raw, v) && KindOf(v) == kind
      modifies `mem, `cap, `own
      ensures Valid() && RepVal(mem, own, r, v) && |mem| == |old(mem)| + ValBytes(v)
      ensures v.I64? || r == |old(mem)|
      ensures Touch(old(mem), old(own), mem, own, {})
    {
      if kind == 2 {
        var s := src.ReadStr(raw, v.s);
        r := PutStr(s);
      } else if kind == 3 {
        var b := src.ReadBytes(raw, v.b);
        r := PutBytes(b);
      } else {
        r := raw;
      }
    }

    /** Writes the next element word of a vector under construction. */
    method PutElem(hoff: int, j: nat, raw: int, ghost kind: int, ghost items: seq<Val>, ghost len: int, ghost v: Val)
      requires Valid() && RepVec(mem, own, |store| + 1, hoff, kind, items, len) && j == |items| < mem[hoff + 8]
      requires RepVal(mem, own, raw, v) && KindOf(v) == kind
      modifies `mem
      ensures Valid() && |mem| == |old(mem)| && RepVec(mem, own, |store| + 1, hoff, kind, items + [v], len)
      ensures mem[hoff + 8] == old(mem)[hoff + 8] && Touch(old(mem), own, mem, own, Mine(|store| + 1))
      ensures mem[hoff + 16] == old(mem)[hoff + 16]
      ensures var at := mem[hoff + 16] + 8 * j; Within(old(mem), mem, at, at + 8) && mem[at] == raw
    {
      hide RepVal;
      ghost var m0 := mem;
      Poke(mem[hoff + 16] + 8 * j, raw);
      VecStored(m0, own, mem, |store| + 1, hoff, kind, items, len, raw, v);
      VecCapKept(m0, own, mem, |store| + 1, hoff, kind, items, len);
      Undisturbed(m0, own, mem, own, hash, store, |store| + 1);
    }

    method CopyVec(src: World, voff: int, ghost sid: nat, ghost kind: int, ghost items: seq<Val>)
      requires Valid() && src != this && src.Valid()
      requires RepVec(src.mem, src.own, sid, voff, kind, items, |items|)
      modifies `mem, `cap, `own, `store
      ensures Valid() && store == old(store) + [VecObj(kind, items)]
      ensures Added(old(mem), old(own), old(store), mem, own, store)
      ensures |mem| == |old(mem)| + ObjBytes(VecObj(kind, items)) + old(TableRise())
      ensures mem[32] == old(TableNext()) && LastUsed(mem, own, hash, store, |old(mem)|)
    {
      hide RepVal, RepVec, Touch, ObjBytes, RepEntry, OffsKept, Added, OffOf, AllUsed, LastUsed;
      ghost var m0, o0, n := mem, own, |store|;
      var hoff := BuildVec(src, voff, sid, kind, items);
      TableKept(m0, o0, mem, own, Mine(n + 1), n);
      ghost var m1, o1 := mem, own;
      var id := TblAdd(hoff, 1, VecObj(kind, items));
      EntryIsAdded(m0, o0, old(store), m1, o1, mem, own, store);
      EntryUsed(m1, o1, mem, own, hash, store, hoff, VecObj(kind, items), |m0|);
    }

    /** Header, elements and payloads of a copied vector, before it gets its table entry. */
    method BuildVec(src: World, voff: int, ghost sid: nat, ghost kind: int, ghost items: seq<Val>) returns (hoff: nat)
      requires Valid() && src != this && src.Valid()
      requires RepVec(src.mem, src.own, sid, voff, kind, items, |items|)
      modifies `mem, `cap, `own
      ensures Valid() && RepVec(mem, own, |store| + 1, hoff, kind, items, |items|)
      ensures |mem| == |old(mem)| + ObjBytes(VecObj(kind, items))
      ensures Touch(old(mem), old(own), mem, own, Mine(|store| + 1))
      ensures AllUsed(mem, own, hash, |store| + 1, hoff, VecObj(kind, items), |old(mem)|)
    {
      hide RepVal, Touch, RepEntry, ItemsPaid, AllUsed;
      ghost var m0, o0 := mem, own;
      var len, k := src.mem[voff], src.mem[voff + 24];
      var ncap := if len > 8 then len else 8;
      hoff := VecBlock(ncap, len, k);
      TouchWiden(m0, o0, mem, own, {}, Mine(|store| + 1));
      ghost var base := |mem|;
      var j: nat := 0;
      assert items[..0] == [];
      NoneYet(mem, mem[hoff + 16], items[..0], map[], map[]);
      while j < len
        invariant j <= len && Valid()
        invariant RepVec(mem, own, |store| + 1, hoff, kind, items[..j], len) && mem[hoff + 8] == ncap
        invariant mem[hoff + 16] == hoff + 32 && ItemsPaid(mem, hoff + 32, items[..j], base)
        invariant |mem| == |m0| + 32 + 8 * ncap + SeqBytes(items[..j])
        invariant Touch(m0, o0, mem, own, Mine(|store| + 1))
      {
        j := CopyElem(src, voff, hoff, j, len, sid, kind, items, m0, o0, base);
      }
      assert items[..j] == items;
      VecAllUsed(mem, own, hash, |store| + 1, hoff, kind, items);
    }

    method CopyElem(src: World, voff: int, hoff: int, j: nat, len: int, ghost sid: nat, ghost kind: int,
        ghost items: seq<Val>,
        ghost m0: Mem, ghost o0: Owners, ghost base: nat) returns (next: nat)
      requires Valid() && src != this && src.Valid() && j < |items| == len
      requires RepVec(src.mem, src.own, sid, voff, kind, items, |items|)
      requires RepVec(mem, own, |store| + 1, hoff, kind, items[..j], len) && mem[hoff + 8] >= len
      requires ItemsPaid(mem, mem[hoff + 16], items[..j], base)
      requires Touch(m0, o0, mem, own, Mine(|store| + 1))
      modifies `mem, `cap, `own
      ensures next == j + 1 && Valid() && RepVec(mem, own, |store| + 1, hoff, kind, items[..next], len)
      ensures mem[hoff + 8] == old(mem)[hoff + 8] && mem[hoff + 16] == old(mem)[hoff + 16]
      ensures ItemsPaid(mem, mem[hoff + 16], items[..next], base)
      ensures |mem| == |old(mem)| + ValBytes(items[j])
      ensures SeqBytes(items[..next]) == SeqBytes(items[..j]) + ValBytes(items[j])
      ensures Touch(m0, o0, mem, own, Mine(|store| + 1))
    {
      hide RepVal, RepVec, RepEntry, Touch, OffOf, ItemsPaid, SeqBytes;
      ghost var m1, o1, nid := mem, own, |store| + 1;
      VecSpan(m1, o1, nid, hoff, kind, items[..j], len);
      VecElem(src.mem, src.own, sid, voff, kind, items, |items|, j);
      var val := CopyVal(src, src.mem[voff + 24], src.mem[src.mem[voff + 16] + 8 * j], items[j]);
      VecKept(m1, o1, mem, own, {}, nid, hoff, kind, items[..j], len);
      VecCapSame(m1, o1, mem, own, nid, hoff, kind, items[..j], len);
      ghost var m2, o2 := mem, own;
      TouchNothing(m1, o1, m2, o2);
      PutElem(hoff, j, val, kind, items[..j], len, items[j]);
      TouchBoth(m0, o0, m1, o1, m2, o2, mem, own, nid);
      NextItem(items, j);
      ItemPaid(m1, mem, mem[hoff + 16], items, j, base);
      next := j + 1;
    }

    method CopyMap(src: World, moff: int, ghost sid: nat, ghost kind: int, ghost m: map<int, Val>)
      requires Valid() && src != this && src.Valid()
      requires RepMap(src.mem, src.own, src.hash, sid, moff, kind, m)
      modifies `mem, `cap, `own, `store
      ensures Valid() && store == old(store) + [MapObj(kind, m)]
      ensures Added(old(mem), old(own), old(store), mem, own, store)
      ensures Settled(MapSlots(mem, own, hash, store, |store|))
      ensures |mem| == |old(mem)| + ObjBytes(MapObj(kind, m)) + old(TableRise())
      ensures mem[32] == old(TableNext()) && LastUsed(mem, own, hash, store, |old(mem)|)
    {
      hide RepVal, RepDict, RepEntry, Wf, Touch, ObjBytes, Lives, Dict, IsPow2, OffsKept, Added, Settled;
      hide AllUsed, LastUsed;
      ghost var m0, o0, n := mem, own, |store|;
      var hoff := BuildMap(src, moff, sid, kind, m);
      TableKept(m0, o0, mem, own, Mine(n + 1), n);
      ghost var m1, o1 := mem, own;
      var id := TblAdd(hoff, 2, MapObj(kind, m));
      SlotsKept(m1, o1, mem, own, TableBytes, hash, n + 1, hoff, kind, m);
      SameTable(n + 1);
      EntryIsAdded(m0, o0, old(store), m1, o1, mem, own, store);
      EntryUsed(m1, o1, mem, own, hash, store, hoff, MapObj(kind, m), |m0|);
    }

    /** Header, slots and payloads of a copied map, before it gets its table entry. */
    method BuildMap(src: World, moff: int, ghost sid: nat, ghost kind: int, ghost m: map<int, Val>) returns (hoff: nat)
      requires Valid() && src != this && src.Valid()
      requires RepMap(src.mem, src.own, src.hash, sid, moff, kind, m)
      modifies `mem, `cap, `own
      ensures Valid() && RepMap(mem, own, hash, |store| + 1, hoff, kind, m) && Settled(Slots(mem, hoff))
      ensures |mem| == |old(mem)| + ObjBytes(MapObj(kind, m))
      ensures Touch(old(mem), old(own), mem, own, Mine(|store| + 1))
      ensures AllUsed(mem, own, hash, |store| + 1, hoff, MapObj(kind, m), |old(mem)|)
    {
      hide RepVal, RepDict, RepEntry, Wf, Touch, Lives, Dict, Tombs, IsPow2, Pow2AtLeast, MapBytes, Settled;
      hide AllUsed, PairsPaid, RepMap;
      MapSpan(src.mem, src.own, src.hash, sid, moff, kind, m);
      ghost var m0, o0 := mem, own;
      var ncap := CompactCap(src, moff, sid, kind, m);
      hoff := MapBlock(ncap, src.mem[moff + 24]);
      ghost var m1, o1 := mem, own;
      MapSpan(m1, o1, hash, |store| + 1, hoff, kind, map[]);
      FillMap(src, moff, hoff, sid, kind, m);
      MapSpan(mem, own, hash, |store| + 1, hoff, kind, m);
      MapSettled(mem, own, hash, |store| + 1, hoff, kind, m);
      MapAllUsed(mem, own, hash, |store| + 1, hoff, kind, m);
      TouchWiden(m0, o0, m1, o1, {}, Mine(|store| + 1));
      TouchTrans(m0, o0, m1, o1, mem, own, Mine(|store| + 1));
    }

    /** `baga_pow2_at_least(m->len * 2)`. */
    method CompactCap(src: World, moff: int, ghost sid: nat, ghost kind: int, ghost m: map<int,
        Val>) returns (ncap: nat)
      requires |src.mem| == |src.own| && RepMap(src.mem, src.own, src.hash, sid, moff, kind, m)
      ensures ncap == Pow2AtLeast(2 * |m|, 16) && IsPow2(ncap) && 16 <= ncap && 2 * |m| <= ncap
    {
      hide RepVal, RepDict, Wf;
      MapSize(src.mem, src.own, src.hash, sid, moff, kind, m);
      ncap := Pow2(src.mem[moff] * 2);
      SixteenIsPow2();
      Pow2AtLeastOk(2 * |m|, 16);
    }

    method FillMap(src: World, moff: int, hoff: nat, ghost sid: nat, ghost kind: int, ghost m: map<int, Val>)
      requires Valid() && src != this && src.Valid()
      requires RepMap(src.mem, src.own, src.hash, sid, moff, kind, m)
      requires RepMap(mem, own, hash, |store| + 1, hoff, kind, map[]) && mem[hoff + 8] >= 2 * |m|
      requires Tombs(Slots(mem, hoff)) == 0
      modifies `mem, `cap, `own
      ensures Valid() && RepMap(mem, own, hash, |store| + 1, hoff, kind, m) && |mem| == |old(mem)| + MapBytes(m)
      ensures Tombs(Slots(mem, hoff)) == 0 && mem[hoff + 8] >= 2 * |m|
      ensures mem[hoff + 8] == old(mem)[hoff + 8] && mem[hoff + 16] == old(mem)[hoff + 16]
      ensures PairsPaid(Dict(Slots(mem, hoff)), m, |old(mem)|, |mem|)
      ensures Touch(old(mem), old(own), mem, own, Mine(|store| + 1))
    {
      hide RepVal, RepDict, RepEntry, Wf, Touch, Lives, Dict, Tombs, IsPow2, RepTable, PairsPaid;
      ghost var m0, o0, t := mem, own, Slots(src.mem, moff);
      TouchSame(m0, o0, Mine(|store| + 1));
      PartAll(src.mem, src.own, src.hash, sid, moff, kind, m);
      NoneYet(mem, 0, [], Dict(Slots(mem, hoff)), Part(m, Dict(t[..0])));
      var j: nat := 0;
      while j < src.mem[moff + 8]
        invariant j <= |t| && Valid() && |mem| == |m0| + MapBytes(Part(m, Dict(t[..j])))
        invariant RepMap(mem, own, hash, |store| + 1, hoff, kind, Part(m, Dict(t[..j])))
        invariant mem[hoff + 8] >= 2 * |m| && Tombs(Slots(mem, hoff)) == 0
        invariant mem[hoff + 8] == m0[hoff + 8] && mem[hoff + 16] == m0[hoff + 16]
        invariant PairsPaid(Dict(Slots(mem, hoff)), Part(m, Dict(t[..j])), |m0|, |mem|)
        invariant Touch(m0, o0, mem, own, Mine(|store| + 1))
      {
        j := CopyPair(src, moff, hoff, j, sid, kind, m, m0, o0, |m0|);
      }
    }

    /** Copies one slot of the source map; slots that hold no pair are skipped. */
    method CopyPair(src: World, moff: int, hoff: int, j: nat, ghost sid: nat, ghost kind: int, ghost m: map<int, Val>,
        ghost m0: Mem, ghost o0: Owners, ghost base: nat) returns (next: nat)
      requires Valid() && src != this && src.Valid()
      requires RepMap(src.mem, src.own, src.hash, sid, moff, kind, m) && j < src.mem[moff + 8]
      requires RepMap(mem, own, hash, |store| + 1, hoff, kind, Part(m, Dict(Slots(src.mem, moff)[..j])))
      requires Tombs(Slots(mem, hoff)) == 0 && mem[hoff + 8] >= 2 * |m|
      requires PairsPaid(Dict(Slots(mem, hoff)), Part(m, Dict(Slots(src.mem, moff)[..j])), base, |mem|)
      requires Touch(m0, o0, mem, own, Mine(|store| + 1))
      modifies `mem, `cap, `own
      ensures next == j + 1 && Valid()
      ensures RepMap(mem, own, hash, |store| + 1, hoff, kind, Part(m, Dict(Slots(src.mem, moff)[..next])))
      ensures mem[hoff + 8] == old(mem)[hoff + 8] && Tombs(Slots(mem, hoff)) == 0
      ensures PairsPaid(Dict(Slots(mem, hoff)), Part(m, Dict(Slots(src.mem, moff)[..next])), base, |mem|)
      ensures mem[hoff + 16] == old(mem)[hoff + 16]
      ensures |mem| - MapBytes(Part(m, Dict(Slots(src.mem, moff)[..next])))
        == |old(mem)| - MapBytes(Part(m, Dict(Slots(src.mem, moff)[..j])))
      ensures Touch(m0, o0, mem, own, Mine(|store| + 1))
    {
      hide RepVal, Touch, RepDict, RepEntry, RepTable, Wf, Lives, Tombs, Dict, IsPow2, MapBytes, PairsPaid;
      ghost var part := Part(m, Dict(Slots(src.mem, moff)[..j]));
      next := j + 1;
      var s := src.SlotAt(moff, j);
      if !s.Live? {
        PairSkipped(src.mem, src.own, src.hash, sid, moff, kind, m, j);
        return;
      }
      PairFits(src.mem, src.own, src.hash, sid, moff, kind, m, j);
      MapBytesAdd(part, s.key, m[s.key]);
      CopyInto(src, src.mem[moff + 24], hoff, s.key, s.val, kind, part, m[s.key], |m|, m0, o0, base);
    }

    /** Copies one pair into the map under construction at `hoff`, which is to have `n` pairs. */
    method CopyInto(src: World, vkind: int, hoff: int, k: int, word: int, ghost kind: int, ghost part: map<int, Val>,
        ghost v: Val, ghost n: nat, ghost m0: Mem, ghost o0: Owners, ghost base: nat)
      requires Valid() && src != this && src.Valid()
      requires RepVal(src.mem, src.own, word, v) && KindOf(v) == kind == vkind && k !in part && |part| + 1 <= n
      requires RepMap(mem, own, hash, |store| + 1, hoff, kind, part)
      requires Tombs(Slots(mem, hoff)) == 0 && mem[hoff + 8] >= 2 * n
      requires PairsPaid(Dict(Slots(mem, hoff)), part, base, |mem|)
      requires Touch(m0, o0, mem, own, Mine(|store| + 1))
      modifies `mem, `cap, `own
      ensures Valid() && RepMap(mem, own, hash, |store| + 1, hoff, kind, part[k := v])
      ensures mem[hoff + 8] == old(mem)[hoff + 8] && mem[hoff + 16] == old(mem)[hoff + 16]
      ensures Tombs(Slots(mem, hoff)) == 0 && |mem| == |old(mem)| + ValBytes(v)
      ensures PairsPaid(Dict(Slots(mem, hoff)), part[k := v], base, |mem|)
      ensures Touch(m0, o0, mem, own, Mine(|store| + 1))
    {
      hide RepVal, RepMap, Touch, RepDict, RepEntry, RepTable, Wf, Lives, Tombs, Dict, IsPow2, PairsPaid;
      ghost var m1, o1, nid := mem, own, |store| + 1;
      MapSpan(m1, o1, hash, nid, hoff, kind, part);
      var val := CopyBeside(src, vkind, word, v, hoff, part);
      ghost var m2, o2 := mem, own;
      MapSpan(m2, o2, hash, nid, hoff, kind, part);
      BuildRoom(mem, own, hash, nid, hoff, kind, part, n);
      PairPaid(Dict(Slots(m1, hoff)), part, k, val, v, base, |m1|);
      AddPair(hoff, k, val, nid, kind, part, v);
      MapSpan(mem, own, hash, nid, hoff, kind, part[k := v]);
      TouchBoth(m0, o0, m1, o1, m2, o2, mem, own, nid);
    }

    /** Copies a payload while a map is under construction at `hoff`. */
    method CopyBeside(src: World, kind: int, raw: int, ghost v: Val, ghost hoff: int, ghost part: map<int,
        Val>) returns (r: int)
      requires Valid() && src != this && src.Valid() && RepVal(src.mem, src.own, raw, v) && KindOf(v) == kind
      requires RepMap(mem, own, hash, |store| + 1, hoff, kind, part)
      modifies `mem, `cap, `own
      ensures Valid() && RepVal(mem, own, r, v) && |mem| == |old(mem)| + ValBytes(v)
      ensures RepMap(mem, own, hash, |store| + 1, hoff, kind, part)
      ensures mem[hoff + 8] == old(mem)[hoff + 8] && Slots(mem, hoff) == Slots(old(mem), hoff)
      ensures mem[hoff + 16] == old(mem)[hoff + 16] && (v.I64? || r == |old(mem)|)
      ensures Touch(old(mem), old(own), mem, own, {})
    {
      hide RepVal, RepDict, RepEntry, Wf, Touch;
      ghost var m1, o1 := mem, own;
      r := CopyVal(src, kind, raw, v);
      MapKept(m1, o1, mem, own, {}, hash, |store| + 1, hoff, kind, part);
      SlotsKept(m1, o1, mem, own, {}, hash, |store| + 1, hoff, kind, part);
    }

    /** Stores a pair in a map under construction. */
    method AddPair(off: int, k: int, raw: int, ghost id: nat, ghost kind: int, ghost m: map<int, Val>, ghost v: Val)
      requires Valid() && id == |store| + 1 && RepMap(mem, own, hash, id, off, kind, m)
      requires RepVal(mem, own, raw, v) && KindOf(v) == kind
      requires 4 * (mem[off] + 1) <= 3 * mem[off + 8] && HasEmpty(Slots(mem, off))
      modifies `mem
      ensures Valid() && |mem| == |old(mem)| && RepMap(mem, own, hash, id, off, kind, m[k := v])
      ensures mem[off + 8] == old(mem)[off + 8] && Tombs(Slots(mem, off)) <= Tombs(Slots(old(mem), off))
      ensures mem[off + 16] == old(mem)[off + 16] && Dict(Slots(mem, off)) == Dict(Slots(old(mem), off))[k := raw]
      ensures Touch(old(mem), own, mem, own, Mine(id))
    {
      hide RepVal, RepDict, Touch, Dict;
      ghost var m0 := mem;
      PutPair(off, k, raw, id, kind, m, v);
      Undisturbed(m0, own, mem, own, hash, store, id);
    }

    method Pow2(n: int) returns (c: nat)
      requires 0 <= n
      ensures c == Pow2AtLeast(n, 16)
    {
      c := 16;
      while c < n
        invariant c >= 1 && Pow2AtLeast(n, c) == Pow2AtLeast(n, 16)
        decreases n - c
      {
        c := c * 2;
      }
    }

    method CopyRec(src: World, roff: int, ghost sid: nat, ghost fields: seq<Field>)
      requires Valid() && src != this && src.Valid()
      requires RepRec(src.mem, src.own, sid, roff, fields, |fields|)
      modifies `mem, `cap, `own, `store
      ensures Valid() && store == old(store) + [RecObj(fields)]
      ensures Added(old(mem), old(own), old(store), mem, own, store)
      ensures |mem| == |old(mem)| + ObjBytes(RecObj(fields)) + old(TableRise())
      ensures mem[32] == old(TableNext()) && LastUsed(mem, own, hash, store, |old(mem)|)
    {
      hide RepRec, ObjBytes, RepEntry, OffsKept, Added, OffOf, Touch, AllUsed, LastUsed;
      ghost var m0, o0, n := mem, own, |store|;
      var hoff := BuildRec(src, roff, sid, fields);
      TableKept(m0, o0, mem, own, Mine(n + 1), n);
      ghost var m1, o1 := mem, own;
      var id := TblAdd(hoff, 3, RecObj(fields));
      EntryIsAdded(m0, o0, old(store), m1, o1, mem, own, store);
      EntryUsed(m1, o1, mem, own, hash, store, hoff, RecObj(fields), |m0|);
    }

    /** Header, blocks and payloads of a copied record, before it gets its table entry. */
    method BuildRec(src: World, roff: int, ghost sid: nat, ghost fields: seq<Field>) returns (hoff: nat)
      requires Valid() && src != this && src.Valid()
      requires RepRec(src.mem, src.own, sid, roff, fields, |fields|)
      modifies `mem, `cap, `own
      ensures Valid() && RepRec(mem, own, |store| + 1, hoff, fields, |fields|)
      ensures |mem| == |old(mem)| + ObjBytes(RecObj(fields))
      ensures Touch(old(mem), old(own), mem, own, Mine(|store| + 1))
      ensures AllUsed(mem, own, hash, |store| + 1, hoff, RecObj(fields), |old(mem)|)
    {
      hide RepField, RepEntry, ItemsPaid, AllUsed, Touch, Held, FieldsBytes;
      ghost var m0, o0 := mem, own;
      var n := src.mem[roff];
      hoff := RecSpace(n);
      ghost var base := |mem|;
      var j: nat := 0;
      AllHeld(fields);
      NoneYet(mem, hoff + 24, Held(fields)[..0], map[], map[]);
      TouchWiden(m0, o0, mem, own, {}, Mine(|store| + 1));
      while j < n
        invariant j <= n && Valid() && |mem| == base + FieldsBytes(fields[..j])
        invariant RepRec(mem, own, |store| + 1, hoff, fields[..j], n)
        invariant mem[hoff + 8] == hoff + 24 && mem[hoff + 16] == hoff + 24 + 8 * n
        invariant ItemsPaid(mem, hoff + 24, Held(fields)[..j], base)
        invariant Touch(m0, o0, mem, own, Mine(|store| + 1))
      {
        j := CopyField(src, roff, hoff, j, n, sid, fields, m0, o0, base);
      }
      RecAllUsed(mem, own, hash, |store| + 1, hoff, fields);
    }

    /** Header and blocks of a record whose contents are not known yet. */
    method RecSpace(n: nat) returns (hoff: nat)
      requires Valid() && n >= 1
      modifies `mem, `cap, `own
      ensures Valid() && |mem| == |old(mem)| + 24 + 16 * n
      ensures RepRec(mem, own, |store| + 1, hoff, [], n)
      ensures hoff == |old(mem)| && mem[hoff + 8] == hoff + 24 && mem[hoff + 16] == hoff + 24 + 8 * n
      ensures Touch(old(mem), old(own), mem, own, {})
    {
      hide RepEntry;
      ghost var m0, o0, nid := mem, own, |store| + 1;
      hoff := Alloc(24, Head(nid));
      var doff := Alloc(n * 8, Data(nid));
      var koff := Alloc(n * 8, Kinds(nid));
      RecHeader(hoff, n, doff, koff);
      Appended(m0, o0, mem, own, hash, store);
    }

    method CopyField(src: World, roff: int, hoff: int, j: nat, n: int, ghost sid: nat, ghost fields: seq<Field>,
        ghost m0: Mem, ghost o0: Owners, ghost base: nat) returns (next: nat)
      requires Valid() && src != this && src.Valid() && j < |fields| == n
      requires RepRec(src.mem, src.own, sid, roff, fields, |fields|)
      requires RepRec(mem, own, |store| + 1, hoff, fields[..j], n)
      requires ItemsPaid(mem, mem[hoff + 8], Held(fields)[..j], base)
      requires Touch(m0, o0, mem, own, Mine(|store| + 1))
      modifies `mem, `cap, `own
      ensures next == j + 1 && Valid() && RepRec(mem, own, |store| + 1, hoff, fields[..next], n)
      ensures mem[hoff + 8] == old(mem)[hoff + 8] && mem[hoff + 16] == old(mem)[hoff + 16]
      ensures ItemsPaid(mem, mem[hoff + 8], Held(fields)[..next], base)
      ensures |mem| == |old(mem)| + FieldBytes(fields[j])
      ensures FieldsBytes(fields[..next]) == FieldsBytes(fields[..j]) + FieldBytes(fields[j])
      ensures Touch(m0, o0, mem, own, Mine(|store| + 1))
    {
      hide Touch, RepEntry, RepField, RepTable, RepVec, RepMap, FieldsBytes, ItemsPaid, Held;
      ghost var m1, o1, nid, f := mem, own, |store| + 1, fields[j];
      RecField(src.mem, src.own, sid, roff, fields, |fields|, j);
      var k, raw := src.mem[src.mem[roff + 16] + 8 * j], src.mem[src.mem[roff + 8] + 8 * j];
      var val := CopyWord(src, k, raw, f);
      ghost var m2, o2 := mem, own;
      TouchNothing(m1, o1, m2, o2);
      RecKept(m1, o1, mem, own, {}, nid, hoff, fields[..j], n);
      PutWords(hoff, j, k, val, nid, fields[..j], n, f);
      TouchBoth(m0, o0, m1, o1, m2, o2, mem, own, nid);
      NextField(fields, j);
      NextHeld(fields, j);
      ItemPaid(m1, mem, mem[hoff + 8], Held(fields), j, base);
      next := j + 1;
    }

    /** The word of a field here; that of a field which is not set means nothing. */
    method CopyWord(src: World, k: int, raw: int, ghost f: Field) returns (val: int)
      requires Valid() && src != this && src.Valid() && RepField(src.mem, src.own, k, raw, f)
      modifies `mem, `cap, `own
      ensures Valid() && RepField(mem, own, k, val, f) && |mem| == |old(mem)| + FieldBytes(f)
      ensures f.Filled? ==> f.v.I64? || val == |old(mem)|
      ensures Touch(old(mem), old(own), mem, own, {})
    {
      hide RepVal, RepEntry, Touch;
      if k != 0 {
        val := CopyVal(src, k, raw, f.v);
      } else {
        val := raw;
        TouchSame(mem, own, {});
      }
    }

    /** Writes kind and value of the next field of a record under construction. */
    method PutWords(hoff: int, j: nat, k: int, val: int, ghost id: nat, ghost fields: seq<Field>, ghost n: int,
        ghost f: Field)
      requires Valid() && id == |store| + 1 && RepRec(mem, own, id, hoff, fields, n) && j == |fields| < n
      requires RepField(mem, own, k, val, f)
      modifies `mem
      ensures Valid() && |mem| == |old(mem)| && RepRec(mem, own, id, hoff, fields + [f], n)
      ensures mem[hoff + 8] == old(mem)[hoff + 8] && mem[hoff + 16] == old(mem)[hoff + 16]
      ensures var data := mem[hoff + 8];
        mem[data + 8 * j] == val && forall c :: data <= c < data + 8 * j ==> mem[c] == old(mem)[c]
      ensures Touch(old(mem), own, mem, own, Mine(id))
    {
      hide RepField;
      ghost var m0 := mem;
      Poke(mem[hoff + 16] + 8 * j, k);
      ghost var m1 := mem;
      TouchSame(m1, own, {});
      RecSpaceKept(m0, own, m1, id, hoff, fields, n, j);
      Poke(mem[hoff + 8] + 8 * j, val);
      FieldWritten(m0, own, m1, m1, own, mem, id, hoff, fields, n, j);
      FieldKept(m0, own, mem, own, Mine(id), k, val, f);
      RecStored(m0, own, mem, own, id, hoff, fields, n, j, f);
      Undisturbed(m0, own, mem, own, hash, store, id);
    }

    /** `baga_world_compact_build`: a new region with the same table order, current blocks and
        payloads only. */
    method CompactBuild() returns (t: World)
      requires Valid()
      ensures fresh(t) && t.Valid() && t.store == store && t.hash == hash && !t.frozen
      ensures |t.mem| == CompactBytes(store) && Clean(t.mem, t.own, hash, store) && NoWaste(t.mem, t.own, hash, store)
    {
      hide Clean, RepEntry, TableCap, NoWaste;
      t := new World(hash);
      var i := 0;
      assert store[..0] == [];
      NothingYet(t.mem, t.own, hash);
      HeaderOnly(t.mem, t.own, hash);
      while i < mem[24]
        invariant 0 <= i <= |store| && fresh(t) && t.Valid() && t.hash == hash && !t.frozen
        invariant Clean(t.mem, t.own, hash, t.store) && NoWaste(t.mem, t.own, hash, t.store)
        invariant t.store == store[..i] && |t.mem| == CompactBytes(store[..i]) && t.mem[32] == TableCap(i)
      {
        CopyEntry(t, i);
        i := i + 1;
      }
      assert store[..i] == store;
    }

    method CopyEntry(t: World, i: nat)
      requires Valid() && t != this && t.Valid() && t.hash == hash && i < |store|
      requires t.store == store[..i] && |t.mem| == CompactBytes(store[..i]) && t.mem[32] == TableCap(i)
      requires Clean(t.mem, t.own, hash, t.store) && NoWaste(t.mem, t.own, hash, t.store)
      modifies t`mem, t`cap, t`own, t`store
      ensures t.Valid() && t.store == store[..i + 1] && Clean(t.mem, t.own, hash, t.store)
      ensures NoWaste(t.mem, t.own, hash, t.store)
      ensures |t.mem| == CompactBytes(store[..i + 1]) && t.mem[32] == TableCap(i + 1)
    {
      hide RepObj, RepEntry, RepVec, RepMap, RepRec, ObjBytes, Clean, Added, Settled, SlotsOf, MapSlots, Slots;
      hide NoWaste, LastUsed;
      ghost var m0, o0, st := t.mem, t.own, t.store;
      EntryOf(mem, own, hash, store, i + 1);
      var off, kind := mem[mem[16] + 16 * i], mem[mem[16] + 16 * i + 8];
      ghost var o := store[i];
      NextEntry(store, i);
      ObjOf(mem, own, hash, i + 1, off, o);
      if kind == 1 {
        t.CopyVec(this, off, i + 1, o.ekind, o.items);
      } else if kind == 2 {
        t.CopyMap(this, off, i + 1, o.vkind, o.m);
      } else {
        t.CopyRec(this, off, i + 1, o.fields);
      }
      CleanMore(m0, o0, t.mem, t.own, hash, st, o);
      NoWasteMore(m0, o0, t.mem, t.own, hash, st, o);
    }

    /** `world_compact`: the region is replaced by its compacted image. */
    method Compact()
      requires Valid() && !frozen
      modifies `mem, `own, `cap
      ensures Valid() && |mem| == CompactBytes(store) && Clean(mem, own, hash, store) && NoWaste(mem, own, hash, store)
    {
      hide Clean, NoWaste;
      var t := CompactBuild();
      mem, cap, own := t.mem, t.cap, t.own;
    }

    /** `world_dump_compact`: the compacted image as bytes; also from a frozen world. */
    method DumpCompact() returns (bytes: seq<int>, ghost owners: Owners)
      requires Valid()
      ensures Rep(bytes, owners, hash, store) && |bytes| == CompactBytes(store) && Clean(bytes, owners, hash, store)
      ensures NoWaste(bytes, owners, hash, store)
    {
      var t := CompactBuild();
      bytes, owners := t.mem, t.own;
    }

    method Dump() returns (bytes: seq<int>, ghost owners: Owners)
      requires Valid()
      ensures bytes == mem && Rep(bytes, owners, hash, store)
    {
      bytes, owners := mem, own;
    }

    /** `world_load`: a blob that is long enough and has the magic number and the version is taken as it is, in a
        new arena, with nothing else looked at. It is a world exactly if the bytes are a region; for those of
        a dump, then, ids are valid at once. */
    constructor Load(hash: int -> nat, bytes: seq<int>, ghost owners: Owners, ghost store: Store)
      requires |bytes| >= 40 && bytes[0] == MAGIC && bytes[8] == VERSION
      ensures Valid() <==> Rep(bytes, owners, hash, store)
      ensures !frozen && this.hash == hash && this.store == store && mem == bytes && own == owners
    {
      this.hash := hash;
      cap := if |bytes| > 65536 then |bytes| else 65536;
      mem, own, frozen := bytes, owners, false;
      this.store := store;
    }

    method Freeze()
      requires Valid() && !frozen
      modifies `frozen
      ensures Valid() && frozen
    {
      frozen := true;
    }

    /** What one more table entry costs, and the table capacity after it. */
    ghost function TableRise(): nat
      reads this
      requires Valid()
    {
      if mem[24] < mem[32] then 0 else 16 * TableNext()
    }

    ghost function TableNext(): nat
      reads this
      requires Valid()
    {
      if mem[24] < mem[32] then mem[32] else if mem[32] > 0 then 2 * mem[32] else 16
    }
  }

  /** Inserting in a region's map is a put on its table. */
  lemma MapPut(mem: Mem, own: Owners, hash: int -> nat, id: nat, off: int, kind: int, m: map<int, Val>, k: int,
               at: nat, raw: int)
    requires |mem| == |own| && RepMap(mem, own, hash, id, off, kind, m)
    requires 4 * (mem[off] + 1) <= 3 * mem[off + 8] && (HasEmpty(Slots(mem, off)) || k in m)
    requires Lands(Slots(mem, off), hash, k, at)
    ensures PutStep(Slots(mem, off), hash, k, Slots(mem, off)[at := Live(k, raw)])
  {
    hide RepVal, Chained;
    var t := Slots(mem, off);
    StopsIff(t, hash, k);
  }

  /** And deleting from it is a deletion there. */
  lemma MapDel(mem: Mem, own: Owners, mem2: Mem, hash: int -> nat, id: nat, off: int, kind: int, m: map<int, Val>,
               k: int, s: int)
    requires |mem| == |own| && RepMap(mem, own, hash, id, off, kind, m)
    requires 0 <= off && off + 32 <= |mem2| && 0 <= mem2[off + 8] && 0 <= mem2[off + 16]
    requires mem2[off + 16] + 24 * mem2[off + 8] <= |mem2|
    requires m == map[] || HasEmpty(Slots(mem, off)) || k in m
    requires s >= 0 <==> k in m
    requires s >= 0 ==> s < |Slots(mem, off)| && Slots(mem, off)[s].Live? && Slots(mem, off)[s].key == k
    requires s >= 0 ==> Slots(mem2, off) == Slots(mem, off)[s := Tomb]
    requires s < 0 ==> Slots(mem2, off) == Slots(mem, off)
    ensures DelStep(Slots(mem, off), hash, k, Slots(mem2, off))
  {
    hide RepVal, Chained;
    var t := Slots(mem, off);
    StopsIff(t, hash, k);
    LivesAreKeys(t);
    if s >= 0 {
      DictAt(t, s);
    }
  }

  lemma NextField(fields: seq<Field>, j: nat)
    requires j < |fields|
    ensures fields[..j + 1] == fields[..j] + [fields[j]]
    ensures FieldsBytes(fields[..j + 1]) == FieldsBytes(fields[..j]) + FieldBytes(fields[j])
  {
    assert fields[..j + 1][..j] == fields[..j];
  }

  lemma NothingYet(mem: Mem, own: Owners, hash: int -> nat)
    requires Rep(mem, own, hash, [])
    ensures Clean(mem, own, hash, []) && TableCap(0) == 0
  {
  }

  lemma SixteenIsPow2()
    ensures IsPow2(16)
  {
    Pow2Doubles(1);
    Pow2Doubles(2);
    Pow2Doubles(4);
    Pow2Doubles(8);
  }

  /** A world dumped in compacted form and loaded again holds the same containers under the
      same ids. */
  method LoadDumpCompact(w: World) returns (u: World)
    requires w.Valid()
    ensures fresh(u) && u.Valid() && u.store == w.store && |u.mem| == CompactBytes(w.store)
    ensures u.hash == w.hash && Clean(u.mem, u.own, u.hash, u.store) && NoWaste(u.mem, u.own, u.hash, u.store)
  {
    hide Clean, NoWaste;
    var bytes, owners := w.DumpCompact();
    u := new World.Load(w.hash, bytes, owners, w.store);
  }
}
