/** Consequences of the representation that no single operation states: the bytes fix the
  contents, live blocks never overlap, and no range check of the runtime can fail. */
module RegionFacts {
  import opened Probing
  import opened Region
  import opened RegionSize
  import opened RegionUse

  // ----------------------------------------------- the bytes fix the contents

  lemma ValDetermined(mem: Mem, own: Owners, own2: Owners, raw: int, v: Val, w: Val)
    requires |mem| == |own| == |own2| && KindOf(v) == KindOf(w)
    requires RepVal(mem, own, raw, v) && RepVal(mem, own2, raw, w)
    ensures v == w
  {
    match v
    case I64(_) =>
    case Str(s) =>
      var t := w.s;
      NoZero(mem, raw, s);
      NoZero(mem, raw, t);
      assert s == t;
    case Bytes(b) => assert b == w.b;
  }

  lemma NoZero(mem: Mem, raw: int, s: seq<int>)
    requires 0 <= raw && raw + |s| <= |mem| && IsCString(s) && forall i :: 0 <= i < |s| ==> mem[raw + i] == s[i]
    ensures forall c :: raw <= c < raw + |s| ==> mem[c] != 0
  {
    forall c | raw <= c < raw + |s| ensures mem[c] != 0 {
      assert mem[raw + (c - raw)] == s[c - raw];
    }
  }

  lemma VecDetermined(mem: Mem, own: Owners, own2: Owners, id: nat, off: int, kind: int, items: seq<Val>, kind2: int,
      items2: seq<Val>)
    requires |mem| == |own| == |own2|
    requires RepVec(mem, own, id, off, kind, items, |items|) && RepVec(mem, own2, id, off, kind2, items2, |items2|)
    ensures kind == kind2 && items == items2
  {
    forall j | 0 <= j < |items| ensures items[j] == items2[j] {
      ValDetermined(mem, own, own2, mem[mem[off + 16] + 8 * j], items[j], items2[j]);
    }
  }

  lemma MapDetermined(mem: Mem, own: Owners, own2: Owners, hash: int -> nat, id: nat, off: int,
      kind: int, m: map<int, Val>, kind2: int, m2: map<int, Val>)
    requires |mem| == |own| == |own2|
    requires RepMap(mem, own, hash, id, off, kind, m) && RepMap(mem, own2, hash, id, off, kind2, m2)
    ensures kind == kind2 && m == m2
  {
    hide RepVal;
    var d := Dict(Slots(mem, off));
    assert m.Keys == d.Keys == m2.Keys;
    forall k | k in m ensures k in m2 && m[k] == m2[k] {
      assert k in m2.Keys;
      ValDetermined(mem, own, own2, d[k], m[k], m2[k]);
    }
  }

  lemma RecDetermined(mem: Mem, own: Owners, own2: Owners, id: nat, off: int, fs: seq<Field>, fs2: seq<Field>)
    requires |mem| == |own| == |own2|
    requires RepRec(mem, own, id, off, fs, |fs|) && RepRec(mem, own2, id, off, fs2, |fs2|)
    ensures fs == fs2
  {
    hide RepVal;
    forall j | 0 <= j < |fs| ensures fs[j] == fs2[j] {
      var k, raw := mem[mem[off + 16] + 8 * j], mem[mem[off + 8] + 8 * j];
      assert RepField(mem, own, k, raw, fs[j]) && RepField(mem, own2, k, raw, fs2[j]);
      if fs[j].Filled? { ValDetermined(mem, own, own2, raw, fs[j].v, fs2[j].v); }
    }
  }

  lemma ObjDetermined(mem: Mem, own: Owners, own2: Owners, hash: int -> nat, id: nat, off: int, o: Obj, o2: Obj)
    requires |mem| == |own| == |own2| && ObjKind(o) == ObjKind(o2)
    requires RepObj(mem, own, hash, id, off, o) && RepObj(mem, own2, hash, id, off, o2)
    ensures o == o2
  {
    hide RepVec, RepMap, RepRec;
    match o
    case VecObj(k, items) => VecDetermined(mem, own, own2, id, off, k, items, o2.ekind, o2.items);
    case MapObj(k, m) => MapDetermined(mem, own, own2, hash, id, off, k, m, o2.vkind, o2.m);
    case RecObj(fields) => RecDetermined(mem, own, own2, id, off, fields, o2.fields);
  }

  /** A region has one meaning: whatever ownership is assumed, its bytes stand for one store. */
  lemma StoreDetermined(mem: Mem, own: Owners, own2: Owners, hash: int -> nat, store: Store, store2: Store)
    requires Rep(mem, own, hash, store) && Rep(mem, own2, hash, store2)
    ensures store == store2
  {
    hide RepObj;
    forall i | 0 <= i < |store| ensures store[i] == store2[i] {
      assert RepEntry(mem, own, hash, |store|, i, store[i]) && RepEntry(mem, own2, hash, |store2|, i, store2[i]);
      ObjDetermined(mem, own, own2, hash, i + 1, OffOf(mem, own, |store|, i), store[i], store2[i]);
    }
  }

  // ------------------------------------------------------ live blocks are apart

  /** `[off, off + n)` is the live block of `tag`: the header, the table, a block of a container
      or a payload. */
  ghost predicate LiveBlock(mem: Mem, own: Owners, hash: int -> nat, store: Store, off: int, n: int, tag: Owner)
    requires Rep(mem, own, hash, store)
  {
    match tag
    case Header => off == 0 && n == 40
    case Table => mem[32] > 0 && off == mem[16] && n == 16 * mem[32]
    case Payload(r) => off == r && exists v: Val :: RepVal(mem, own, off, v) && 0 < n == ValBytes(v)
    case Head(id) => 1 <= id <= |store| && off == OffOf(mem, own, |store|, id - 1)
      && n == if store[id - 1].RecObj? then 24 else 32
    case Data(id) => 1 <= id <= |store| && (off, n) == DataSpan(mem, own, hash, store, id)
    case Kinds(id) =>
      && 1 <= id <= |store| && store[id - 1].RecObj?
      && n == 8 * |store[id - 1].fields| && off == KindsOff(mem, own, hash, store, id)
  }

  ghost function DataSpan(mem: Mem, own: Owners, hash: int -> nat, store: Store, id: nat): (int, int)
    requires Rep(mem, own, hash, store) && 1 <= id <= |store|
  {
    EntryOf(mem, own, hash, store, id);
    var off := OffOf(mem, own, |store|, id - 1);
    match store[id - 1]
    case VecObj(_, _) => (mem[off + 16], 8 * mem[off + 8])
    case MapObj(_, _) => (mem[off + 16], 24 * mem[off + 8])
    case RecObj(fields) => (mem[off + 8], 8 * |fields|)
  }

  ghost function KindsOff(mem: Mem, own: Owners, hash: int -> nat, store: Store, id: nat): int
    requires Rep(mem, own, hash, store) && 1 <= id <= |store| && store[id - 1].RecObj?
  {
    EntryOf(mem, own, hash, store, id);
    mem[OffOf(mem, own, |store|, id - 1) + 16]
  }

  lemma LiveBlockOwned(mem: Mem, own: Owners, hash: int -> nat, store: Store, off: int, n: int, tag: Owner)
    requires Rep(mem, own, hash, store) && LiveBlock(mem, own, hash, store, off, n, tag)
    ensures n > 0 && Ext(own, off, n, tag)
  {
    match tag
    case Header =>
    case Table =>
    case Payload(_) =>
    case Head(id) => EntryOf(mem, own, hash, store, id);
    case Data(id) => EntryOf(mem, own, hash, store, id);
    case Kinds(id) => EntryOf(mem, own, hash, store, id);
  }

  /** Live blocks lie inside the used part of the region and do not overlap. */
  lemma LiveBlocksApart(mem: Mem, own: Owners, hash: int -> nat, store: Store,
      off: int, n: int, tag: Owner, off2: int, n2: int, tag2: Owner)
    requires Rep(mem, own, hash, store) && tag != tag2
    requires LiveBlock(mem, own, hash, store, off, n, tag) && LiveBlock(mem, own, hash, store, off2, n2, tag2)
    ensures 0 <= off && off + n <= |mem| && 0 <= off2 && off2 + n2 <= |mem|
    ensures off + n <= off2 || off2 + n2 <= off
  {
    hide Rep, LiveBlock;
    SizesAgree(mem, own, hash, store);
    LiveBlockOwned(mem, own, hash, store, off, n, tag);
    LiveBlockOwned(mem, own, hash, store, off2, n2, tag2);
    var c := if off < off2 then off2 else off;
    assert own[off] == tag && own[off2] == tag2;
    assert off <= c < off + n ==> own[c] == tag;
    assert off2 <= c < off2 + n2 ==> own[c] == tag2;
  }

  lemma SizesAgree(mem: Mem, own: Owners, hash: int -> nat, store: Store)
    requires Rep(mem, own, hash, store)
    ensures |mem| == |own|
  {
  }

  /** Byte `c` lies in a live block. */
  ghost predicate Alive(mem: Mem, own: Owners, hash: int -> nat, store: Store, c: int)
    requires Rep(mem, own, hash, store)
  {
    exists off, n, tag :: LiveBlock(mem, own, hash, store, off, n, tag) && In(c, off, n)
  }

  lemma ItemAlive(mem: Mem, own: Owners, hash: int -> nat, store: Store, raw: int, v: Val, c: int)
    requires Rep(mem, own, hash, store) && RepVal(mem, own, raw, v) && In(c, raw, ValBytes(v))
    ensures Alive(mem, own, hash, store, c)
  {
    assert LiveBlock(mem, own, hash, store, raw, ValBytes(v), Payload(raw)) by { hide Rep; }
  }

  /** What a container uses is alive: a block of its own or a payload that one of its words refers to. */
  lemma UsedIsAlive(mem: Mem, own: Owners, hash: int -> nat, store: Store, id: nat, c: int)
    requires Rep(mem, own, hash, store) && UsedBy(mem, own, hash, store, id, c)
    ensures Alive(mem, own, hash, store, c)
  {
    EntryOf(mem, own, hash, store, id);
    var off := OffOf(mem, own, |store|, id - 1);
    if Payed(mem, off, store[id - 1], c) {
      PayloadAlive(mem, own, hash, store, id, c);
    } else {
      BlockAlive(mem, own, hash, store, id, c);
    }
  }

  /** Byte `c` is in a payload of the container at `off`. */
  ghost predicate Payed(mem: Mem, off: int, o: Obj, c: int)
    requires 0 <= off && off + 24 <= |mem|
    requires o.MapObj? ==>
      off + 32 <= |mem| && 0 <= mem[off + 8] && 0 <= mem[off + 16] && mem[off + 16] + 24 * mem[off + 8] <= |mem|
  {
    match o
    case VecObj(_, items) => ItemsUse(mem, mem[off + 16], items, c)
    case MapObj(_, m) => PairsUse(Dict(Slots(mem, off)), m, c)
    case RecObj(fields) => ItemsUse(mem, mem[off + 8], Held(fields), c)
  }

  lemma BlockAlive(mem: Mem, own: Owners, hash: int -> nat, store: Store, id: nat, c: int)
    requires Rep(mem, own, hash, store) && UsedBy(mem, own, hash, store, id, c)
    requires RepObj(mem, own, hash, id, OffOf(mem, own, |store|, id - 1), store[id - 1])
    requires !Payed(mem, OffOf(mem, own, |store|, id - 1), store[id - 1], c)
    ensures Alive(mem, own, hash, store, c)
  {
    hide ItemsUse, PairsUse, RepVal, RepDict, RepEntry;
    var off, data := OffOf(mem, own, |store|, id - 1), DataSpan(mem, own, hash, store, id);
    var head := if store[id - 1].RecObj? then 24 else 32;
    assert LiveBlock(mem, own, hash, store, off, head, Head(id));
    assert LiveBlock(mem, own, hash, store, data.0, data.1, Data(id));
    if store[id - 1].RecObj? {
      var kinds := KindsOff(mem, own, hash, store, id);
      assert LiveBlock(mem, own, hash, store, kinds, 8 * |store[id - 1].fields|, Kinds(id));
    }
  }

  lemma PayloadAlive(mem: Mem, own: Owners, hash: int -> nat, store: Store, id: nat, c: int)
    requires Rep(mem, own, hash, store) && 1 <= id <= |store|
    requires RepObj(mem, own, hash, id, OffOf(mem, own, |store|, id - 1), store[id - 1])
    requires Payed(mem, OffOf(mem, own, |store|, id - 1), store[id - 1], c)
    ensures Alive(mem, own, hash, store, c)
  {
    hide RepEntry, RepVal;
    var off := OffOf(mem, own, |store|, id - 1);
    match store[id - 1]
    case VecObj(_, items) =>
      var j :| ItemByte(mem, mem[off + 16], items, j, c);
      ItemAlive(mem, own, hash, store, mem[mem[off + 16] + 8 * j], items[j], c);
    case MapObj(_, m) =>
      var d := Dict(Slots(mem, off));
      var k :| PairByte(d, m, k, c);
      ItemAlive(mem, own, hash, store, d[k], m[k], c);
    case RecObj(fields) =>
      var j :| ItemByte(mem, mem[off + 8], Held(fields), j, c);
      assert RepField(mem, own, mem[mem[off + 16] + 8 * j], mem[mem[off + 8] + 8 * j], fields[j]);
      ItemAlive(mem, own, hash, store, mem[mem[off + 8] + 8 * j], fields[j].v, c);
  }

  /** Compaction leaves no dead bytes: each lies in a live block, but for those of the tables that were given
      up while the table grew. */
  lemma NothingDead(mem: Mem, own: Owners, hash: int -> nat, store: Store, c: int)
    requires Rep(mem, own, hash, store) && NoWaste(mem, own, hash, store) && 0 <= c < |mem|
    ensures Alive(mem, own, hash, store, c) || (own[c] == Table && !In(c, mem[16], 16 * mem[32]))
  {
    hide UsedBy, RepEntry;
    assert Used(mem, own, hash, store, c);
    if c < 40 {
      assert LiveBlock(mem, own, hash, store, 0, 40, Header);
    } else if own[c] == Table {
      if In(c, mem[16], 16 * mem[32]) {
        assert LiveBlock(mem, own, hash, store, mem[16], 16 * mem[32], Table);
      }
    } else {
      var id :| UsedBy(mem, own, hash, store, id, c);
      UsedIsAlive(mem, own, hash, store, id, c);
    }
  }

  // ---------------------------------------- the runtime's own range checks

  /** The checks of `baga_wres`. */
  ghost predicate ResOk(mem: Mem, id: int, kind: int) {
    && 40 <= |mem| && mem[0] == MAGIC && mem[8] == VERSION
    && 0 < id <= mem[24]
    && 0 <= mem[16] <= |mem| && 0 <= mem[32] && mem[32] * 16 <= |mem| - mem[16]
    && mem[16] + 16 * id <= |mem|
    && mem[mem[16] + 16 * (id - 1) + 8] == kind
    && 0 <= mem[mem[16] + 16 * (id - 1)] <= |mem|
  }

  /** The checks of `baga_wvec_at`. */
  ghost predicate VecOk(mem: Mem, off: int) {
    && 0 <= off <= |mem| - 32
    && 0 <= mem[off] <= mem[off + 8] <= |mem| && 0 <= mem[off + 16] <= |mem|
    && mem[off + 8] * 8 <= |mem| - mem[off + 16]
  }

  /** The checks of `baga_wmap_at`; a power of two shares no bit with its predecessor. */
  ghost predicate MapOk(mem: Mem, off: int) {
    && 0 <= off <= |mem| - 32
    && 0 <= mem[off] <= mem[off + 8] <= |mem| && 0 < mem[off + 8] && 0 <= mem[off + 16] <= |mem|
    && BitAnd(mem[off + 8], mem[off + 8] - 1) == 0
    && mem[off + 8] * 24 <= |mem| - mem[off + 16]
  }

  /** The checks of `baga_wrec_at`. */
  ghost predicate RecOk(mem: Mem, off: int) {
    && 0 <= off <= |mem| - 24
    && 0 < mem[off] <= |mem| && 0 <= mem[off + 8] <= |mem| && 0 <= mem[off + 16] <= |mem|
    && mem[off] * 8 <= |mem| - mem[off + 8] && mem[off] * 8 <= |mem| - mem[off + 16]
  }

  /** The checks of `baga_wreg_str_off` and `baga_wreg_bytes_off`. */
  ghost predicate PayloadOk(mem: Mem, raw: int, kind: int) {
    && (kind == 2 ==> 0 <= raw < |mem| && exists c :: raw <= c < |mem| && mem[c] == 0)
    && (kind == 3 ==> 0 <= raw <= |mem| - 8 && 0 <= mem[raw] <= |mem| - (raw + 8))
  }

  lemma PayloadChecksPass(mem: Mem, own: Owners, raw: int, v: Val)
    requires |mem| == |own| && RepVal(mem, own, raw, v)
    ensures PayloadOk(mem, raw, KindOf(v))
  {
    if v.Str? { assert mem[raw + |v.s|] == 0; }
  }

  /** No operation on a valid id of a well-formed region is stopped by a range check. */
  lemma ChecksPass(mem: Mem, own: Owners, hash: int -> nat, store: Store, id: nat)
    requires Rep(mem, own, hash, store) && 1 <= id <= |store|
    ensures ResOk(mem, id, ObjKind(store[id - 1]))
    ensures var off := mem[mem[16] + 16 * (id - 1)];
      match store[id - 1]
      case VecObj(_, _) => VecOk(mem, off)
      case MapObj(_, _) => MapOk(mem, off)
      case RecObj(_) => RecOk(mem, off)
  {
    hide RepVal;
    EntryOf(mem, own, hash, store, id);
    var off := OffOf(mem, own, |store|, id - 1);
    if store[id - 1].MapObj? {
      var cap := mem[off + 8];
      MaskIsMod(cap, cap);
      ModUnique(cap, cap, 1, 0);
      EmptyIff(Slots(mem, off));
    }
  }
}
