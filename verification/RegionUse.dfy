/** Which bytes of a region are in use: those of its header and its table, of the blocks of its containers,
  and of the payloads of the values they hold. */
module RegionUse {
  import opened Probing
  import opened Region
  import opened RegionSize

  predicate In(c: int, off: int, n: int) {
    off <= c < off + n
  }

  // ------------------------------------------------------------- payloads held

  /** Byte `c` is in the payload of value `j`, whose word stands in the block at `data`. */
  ghost predicate ItemByte(mem: Mem, data: int, items: seq<Val>, j: int, c: int) {
    0 <= j < |items| && 0 <= data + 8 * j < |mem| && In(c, mem[data + 8 * j], ValBytes(items[j]))
  }

  ghost predicate ItemsUse(mem: Mem, data: int, items: seq<Val>, c: int) {
    exists j :: ItemByte(mem, data, items, j, c)
  }

  /** Byte `c` is in the payload of the value of key `k`. */
  ghost predicate PairByte(d: map<int, int>, m: map<int, Val>, k: int, c: int) {
    k in d && k in m && In(c, d[k], ValBytes(m[k]))
  }

  ghost predicate PairsUse(d: map<int, int>, m: map<int, Val>, c: int) {
    exists k :: PairByte(d, m, k, c)
  }

  /** The values of a record's fields; one that is not set has no payload. */
  ghost function Held(fields: seq<Field>): seq<Val> {
    seq(|fields|, i requires 0 <= i < |fields| => if fields[i].Filled? then fields[i].v else I64(0))
  }

  /** Every byte from `base` on is in one of the payloads. */
  ghost predicate ItemsPaid(mem: Mem, data: int, items: seq<Val>, base: int) {
    forall c :: base <= c < |mem| ==> ItemsUse(mem, data, items, c)
  }

  ghost predicate PairsPaid(d: map<int, int>, m: map<int, Val>, base: int, end: int) {
    forall c :: base <= c < end ==> PairsUse(d, m, c)
  }

  /** A payload is appended and its word stored. */
  lemma ItemPaid(m1: Mem, mem: Mem, data: int, items: seq<Val>, j: nat, base: int)
    requires 0 <= data && j < |items| && data + 8 * j + 8 <= |m1| && |mem| == |m1| + ValBytes(items[j])
    requires ItemsPaid(m1, data, items[..j], base)
    requires forall c :: data <= c < data + 8 * j ==> mem[c] == m1[c]
    requires items[j].I64? || mem[data + 8 * j] == |m1|
    ensures ItemsPaid(mem, data, items[..j + 1], base)
  {
    var next := items[..j + 1];
    forall c | base <= c < |mem| ensures ItemsUse(mem, data, next, c) {
      if c < |m1| {
        assert ItemsUse(m1, data, items[..j], c);
        var i :| ItemByte(m1, data, items[..j], i, c);
        assert ItemByte(mem, data, next, i, c);
      } else {
        assert ItemByte(mem, data, next, j, c);
      }
    }
  }

  lemma PairPaid(d: map<int, int>, m: map<int, Val>, k: int, raw: int, v: Val, base: int, end: int)
    requires PairsPaid(d, m, base, end) && k !in m && (v.I64? || raw == end)
    ensures PairsPaid(d[k := raw], m[k := v], base, end + ValBytes(v))
  {
    var d2, m2 := d[k := raw], m[k := v];
    forall c | base <= c < end + ValBytes(v) ensures PairsUse(d2, m2, c) {
      if c < end {
        assert PairsUse(d, m, c);
        var q :| PairByte(d, m, q, c);
        assert PairByte(d2, m2, q, c);
      } else {
        assert PairByte(d2, m2, k, c);
      }
    }
  }

  lemma NoneYet(mem: Mem, data: int, items: seq<Val>, d: map<int, int>, m: map<int, Val>)
    ensures ItemsPaid(mem, data, items, |mem|) && PairsPaid(d, m, |mem|, |mem|)
  {
  }

  lemma NextHeld(fields: seq<Field>, j: nat)
    requires j < |fields|
    ensures Held(fields[..j]) == Held(fields)[..j] && Held(fields)[..j + 1] == Held(fields[..j + 1])
    ensures |Held(fields)| == |fields| && ValBytes(Held(fields)[j]) == FieldBytes(fields[j])
    ensures Held(fields)[j].I64? || (fields[j].Filled? && Held(fields)[j] == fields[j].v)
  {
  }

  // ------------------------------------------------------------ one container

  /** Byte `c` belongs to the container at `off`: to one of its blocks, or to a payload it holds. */
  ghost predicate ObjUses(mem: Mem, own: Owners, hash: int -> nat, id: nat, off: int, o: Obj, c: int)
    requires |mem| == |own| && RepObj(mem, own, hash, id, off, o)
  {
    match o
    case VecObj(_, items) =>
      || In(c, off, 32) || In(c, mem[off + 16], 8 * mem[off + 8])
      || ItemsUse(mem, mem[off + 16], items, c)
    case MapObj(_, m) =>
      || In(c, off, 32) || In(c, mem[off + 16], 24 * mem[off + 8])
      || PairsUse(Dict(Slots(mem, off)), m, c)
    case RecObj(fields) =>
      || In(c, off, 24) || In(c, mem[off + 8], 8 * |fields|) || In(c, mem[off + 16], 8 * |fields|)
      || ItemsUse(mem, mem[off + 8], Held(fields), c)
  }

  lemma ItemsUseKept(mem: Mem, mem2: Mem, data: int, items: seq<Val>, c: int)
    requires ItemsUse(mem, data, items, c) && |mem| <= |mem2|
    requires forall b :: data <= b < data + 8 * |items| && 0 <= b < |mem| ==> mem2[b] == mem[b]
    ensures ItemsUse(mem2, data, items, c)
  {
    var j :| ItemByte(mem, data, items, j, c);
    assert ItemByte(mem2, data, items, j, c);
  }

  /** A container none of whose bytes are touched uses the same bytes. */
  lemma ObjUsesKept(mem: Mem, own: Owners, mem2: Mem, own2: Owners, s: set<Owner>, hash: int -> nat, id: nat, off: int,
                    o: Obj, c: int)
    requires Touch(mem, own, mem2, own2, s) && Spares(s, id) && RepObj(mem, own, hash, id, off, o)
    requires ObjUses(mem, own, hash, id, off, o, c)
    ensures RepObj(mem2, own2, hash, id, off, o) && ObjUses(mem2, own2, hash, id, off, o, c)
  {
    ObjKept(mem, own, mem2, own2, s, hash, id, off, o);
    match o
    case VecObj(k, items) => VecUsesKept(mem, own, mem2, own2, s, hash, id, off, k, items, c);
    case MapObj(k, m) => SlotsKept(mem, own, mem2, own2, s, hash, id, off, k, m);
    case RecObj(fields) => RecUsesKept(mem, own, mem2, own2, s, hash, id, off, fields, c);
  }

  lemma VecUsesKept(mem: Mem, own: Owners, mem2: Mem, own2: Owners, s: set<Owner>, hash: int -> nat, id: nat, off: int,
                    kind: int, items: seq<Val>, c: int)
    requires Touch(mem, own, mem2, own2, s) && Spares(s, id) && RepObj(mem, own, hash, id, off, VecObj(kind, items))
    requires RepObj(mem2, own2, hash, id, off, VecObj(kind, items))
    requires ObjUses(mem, own, hash, id, off, VecObj(kind, items), c)
    ensures ObjUses(mem2, own2, hash, id, off, VecObj(kind, items), c)
  {
    hide RepVal, ItemsUse;
    ExtKept(mem, own, mem2, own2, s, off, 32, Head(id));
    ExtKept(mem, own, mem2, own2, s, mem[off + 16], 8 * mem[off + 8], Data(id));
    if ItemsUse(mem, mem[off + 16], items, c) {
      ItemsUseKept(mem, mem2, mem[off + 16], items, c);
    }
  }

  lemma RecUsesKept(mem: Mem, own: Owners, mem2: Mem, own2: Owners, s: set<Owner>, hash: int -> nat, id: nat, off: int,
                    fields: seq<Field>, c: int)
    requires Touch(mem, own, mem2, own2, s) && Spares(s, id) && RepObj(mem, own, hash, id, off, RecObj(fields))
    requires RepObj(mem2, own2, hash, id, off, RecObj(fields))
    requires ObjUses(mem, own, hash, id, off, RecObj(fields), c)
    ensures ObjUses(mem2, own2, hash, id, off, RecObj(fields), c)
  {
    hide RepField, ItemsUse;
    ExtKept(mem, own, mem2, own2, s, off, 24, Head(id));
    ExtKept(mem, own, mem2, own2, s, mem[off + 8], 8 * |fields|, Data(id));
    if ItemsUse(mem, mem[off + 8], Held(fields), c) {
      ItemsUseKept(mem, mem2, mem[off + 8], Held(fields), c);
    }
  }

  /** The bytes from `base` on are all of the container at `off`. */
  ghost predicate AllUsed(mem: Mem, own: Owners, hash: int -> nat, id: nat, off: int, o: Obj, base: int)
    requires |mem| == |own| && RepObj(mem, own, hash, id, off, o)
  {
    forall c :: base <= c < |mem| ==> ObjUses(mem, own, hash, id, off, o, c)
  }

  lemma TouchNothing(mem: Mem, own: Owners, mem2: Mem, own2: Owners)
    requires Touch(mem, own, mem2, own2, {})
    ensures |mem| <= |mem2| && forall c :: 0 <= c < |mem| ==> mem2[c] == mem[c]
  {
  }

  lemma VecSpan(mem: Mem, own: Owners, id: nat, off: int, kind: int, items: seq<Val>, len: int)
    requires |mem| == |own| && RepVec(mem, own, id, off, kind, items, len)
    ensures 0 <= off && off + 32 <= |mem| && |items| <= mem[off + 8]
    ensures 0 <= mem[off + 16] && mem[off + 16] + 8 * mem[off + 8] <= |mem|
  {
    hide RepVal;
  }

  lemma MapSpan(mem: Mem, own: Owners, hash: int -> nat, id: nat, off: int, kind: int, m: map<int, Val>)
    requires |mem| == |own| && RepMap(mem, own, hash, id, off, kind, m)
    ensures 0 <= off && off + 32 <= |mem| && 0 <= mem[off + 8] && mem[off + 24] == kind && 0 <= kind <= 2
    ensures 0 <= mem[off + 16] && mem[off + 16] + 24 * mem[off + 8] <= |mem|
  {
    hide RepVal, RepDict, Wf;
  }

  lemma RecSpan(mem: Mem, own: Owners, id: nat, off: int, fields: seq<Field>, n: int)
    requires |mem| == |own| && RepRec(mem, own, id, off, fields, n)
    ensures 0 <= off && off + 24 <= |mem| && mem[off] == n && 1 <= n && |fields| <= n
    ensures 0 <= mem[off + 8] && mem[off + 8] + 8 * n <= |mem|
    ensures 0 <= mem[off + 16] && mem[off + 16] + 8 * n <= |mem|
  {
    hide RepField;
  }

  lemma RecField(mem: Mem, own: Owners, id: nat, off: int, fields: seq<Field>, n: int, j: nat)
    requires |mem| == |own| && RepRec(mem, own, id, off, fields, n) && j < |fields|
    ensures RepField(mem, own, mem[mem[off + 16] + 8 * j], mem[mem[off + 8] + 8 * j], fields[j])
  {
    hide RepField;
  }

  lemma AllHeld(fields: seq<Field>)
    ensures |Held(fields)| == |fields| && Held(fields)[..|fields|] == Held(fields) && fields[..|fields|] == fields
    ensures FieldsBytes(fields[..0]) == 0 && fields[..0] == []
  {
  }

  lemma NextItem(items: seq<Val>, j: nat)
    requires j < |items|
    ensures items[..j + 1] == items[..j] + [items[j]]
    ensures SeqBytes(items[..j + 1]) == SeqBytes(items[..j]) + ValBytes(items[j])
  {
    assert items[..j + 1][..j] == items[..j];
  }

  /** A payload is appended, then a word of the container under construction is written. */
  lemma TouchBoth(m0: Mem, o0: Owners, m1: Mem, o1: Owners, m2: Mem, o2: Owners, m3: Mem, o3: Owners, id: nat)
    requires Touch(m0, o0, m1, o1, Mine(id)) && Touch(m1, o1, m2, o2, {}) && Touch(m2, o2, m3, o3, Mine(id))
    ensures Touch(m0, o0, m3, o3, Mine(id))
  {
  }

  lemma VecAllUsed(mem: Mem, own: Owners, hash: int -> nat, id: nat, off: int, kind: int, items: seq<Val>)
    requires |mem| == |own| && RepVec(mem, own, id, off, kind, items, |items|) && mem[off + 16] == off + 32
    requires ItemsPaid(mem, off + 32, items, off + 32 + 8 * mem[off + 8])
    ensures AllUsed(mem, own, hash, id, off, VecObj(kind, items), off)
  {
    hide RepVal, ItemsUse;
  }

  lemma MapAllUsed(mem: Mem, own: Owners, hash: int -> nat, id: nat, off: int, kind: int, m: map<int, Val>)
    requires |mem| == |own| && RepMap(mem, own, hash, id, off, kind, m) && mem[off + 16] == off + 32
    requires PairsPaid(Dict(Slots(mem, off)), m, off + 32 + 24 * mem[off + 8], |mem|)
    ensures AllUsed(mem, own, hash, id, off, MapObj(kind, m), off)
  {
    hide RepVal, RepDict, Wf, PairsUse;
  }

  lemma RecAllUsed(mem: Mem, own: Owners, hash: int -> nat, id: nat, off: int, fields: seq<Field>)
    requires |mem| == |own| && RepRec(mem, own, id, off, fields, |fields|)
    requires mem[off + 8] == off + 24 && mem[off + 16] == off + 24 + 8 * |fields|
    requires ItemsPaid(mem, off + 24, Held(fields), off + 24 + 16 * |fields|)
    ensures AllUsed(mem, own, hash, id, off, RecObj(fields), off)
  {
    hide RepField, ItemsUse;
  }

  // ------------------------------------------------------------ the whole region

  /** Byte `c` belongs to container `id`. */
  ghost predicate UsedBy(mem: Mem, own: Owners, hash: int -> nat, store: Store, id: nat, c: int)
    requires Rep(mem, own, hash, store)
  {
    1 <= id <= |store| && (
      EntryOf(mem, own, hash, store, id);
      ObjUses(mem, own, hash, id, OffOf(mem, own, |store|, id - 1), store[id - 1], c))
  }

  /** Byte `c` is in the header, in a table of containers, current or given up, or in a container. */
  ghost predicate Used(mem: Mem, own: Owners, hash: int -> nat, store: Store, c: int)
    requires Rep(mem, own, hash, store) && 0 <= c < |mem|
  {
    c < 40 || own[c] == Table || exists id :: UsedBy(mem, own, hash, store, id, c)
  }

  /** No payload and no block has been given up. */
  ghost predicate NoWaste(mem: Mem, own: Owners, hash: int -> nat, store: Store)
    requires Rep(mem, own, hash, store)
  {
    forall c :: 0 <= c < |mem| ==> Used(mem, own, hash, store, c)
  }

  /** Once it is in the table: apart from what the table took. */
  ghost predicate LastUsed(mem: Mem, own: Owners, hash: int -> nat, store: Store, base: int)
    requires Rep(mem, own, hash, store)
  {
    forall c :: 0 <= base <= c < |mem| && own[c] != Table ==> UsedBy(mem, own, hash, store, |store|, c)
  }

  /** A container just built gets its table entry. */
  lemma EntryUsed(m1: Mem, o1: Owners, mem: Mem, own: Owners, hash: int -> nat, store: Store, off: int, o: Obj,
                  base: nat)
    requires |m1| == |o1| && |store| > 0 && store[|store| - 1] == o && RepObj(m1, o1, hash, |store|, off, o)
    requires AllUsed(m1, o1, hash, |store|, off, o, base) && Touch(m1, o1, mem, own, TableBytes)
    requires Rep(mem, own, hash, store) && OffOf(mem, own, |store|, |store| - 1) == off
    requires forall c :: |m1| <= c < |mem| ==> own[c] == Table
    ensures LastUsed(mem, own, hash, store, base)
  {
    hide RepObj, ObjUses, RepTable;
    forall c | base <= c < |mem| && own[c] != Table ensures UsedBy(mem, own, hash, store, |store|, c) {
      ObjUsesKept(m1, o1, mem, own, TableBytes, hash, |store|, off, o, c);
    }
  }

  /** Nothing is wasted when a container is added whose bytes are all its own. */
  lemma NoWasteMore(mem: Mem, own: Owners, mem2: Mem, own2: Owners, hash: int -> nat, store: Store, o: Obj)
    requires Rep(mem, own, hash, store) && Rep(mem2, own2, hash, store + [o]) && NoWaste(mem, own, hash, store)
    requires Added(mem, own, store, mem2, own2, store + [o])
    requires LastUsed(mem2, own2, hash, store + [o], |mem|)
    ensures NoWaste(mem2, own2, hash, store + [o])
  {
    hide UsedBy, Rep, OffsKept;
    var store2 := store + [o];
    forall c | 0 <= c < |mem2| ensures Used(mem2, own2, hash, store2, c) {
      if c < |mem| {
        assert Used(mem, own, hash, store, c);
        if id :| UsedBy(mem, own, hash, store, id, c) {
          StillUsed(mem, own, mem2, own2, hash, store, o, id, c);
        }
      } else if own2[c] != Table {
        assert UsedBy(mem2, own2, hash, store2, |store2|, c);
      }
    }
  }

  lemma StillUsed(mem: Mem, own: Owners, mem2: Mem, own2: Owners, hash: int -> nat, store: Store, o: Obj, id: nat,
                  c: int)
    requires Rep(mem, own, hash, store) && Rep(mem2, own2, hash, store + [o])
    requires Added(mem, own, store, mem2, own2, store + [o]) && UsedBy(mem, own, hash, store, id, c)
    ensures UsedBy(mem2, own2, hash, store + [o], id, c)
  {
    hide RepObj, ObjUses;
    EntryOf(mem, own, hash, store, id);
    var off := OffOf(mem, own, |store|, id - 1);
    assert OffOf(mem2, own2, |store| + 1, id - 1) == off;
    ObjUsesKept(mem, own, mem2, own2, Mine(|store| + 1) + TableBytes, hash, id, off, store[id - 1], c);
  }

  lemma HeaderOnly(mem: Mem, own: Owners, hash: int -> nat)
    requires Rep(mem, own, hash, []) && |mem| == 40
    ensures NoWaste(mem, own, hash, [])
  {
  }
}
