/** What the bytes of a world mean.

  A world is one growable block of bytes: a header, a table of containers and the
  containers themselves, all addressed by offset. Here the block is a sequence of cells
  indexed by byte offset; a word has an eight-cell footprint and its value sits in the
  first cell. A ghost owner per byte says to which allocation it belongs, so two live
  extents with different owners cannot overlap. */
module Region {
  import opened Probing

  const MAGIC: int := 0x42475700000A01
  const VERSION: int := 1

  type Mem = seq<int>

  /** `Data` is the element block of a vector, the slots of a map or the values of a record;
      blocks given up by growth keep their owner but nothing refers to them any more. */
  datatype Owner = Header | Table | Head(id: nat) | Data(id: nat) | Kinds(id: nat) | Payload(start: int)

  type Owners = seq<Owner>

  datatype Val = I64(n: int) | Str(s: seq<int>) | Bytes(b: seq<int>)

  datatype Field = Unset | Filled(v: Val)

  /** The abstract contents of a container; kind 0 means no element was ever stored. */
  datatype Obj = VecObj(ekind: int, items: seq<Val>) | MapObj(vkind: int, m: map<int, Val>) | RecObj(fields: seq<Field>)

  type Store = seq<Obj>

  function KindOf(v: Val): int {
    match v case I64(_) => 1 case Str(_) => 2 case Bytes(_) => 3
  }

  function ObjKind(o: Obj): int {
    match o case VecObj(_, _) => 1 case MapObj(_, _) => 2 case RecObj(_) => 3
  }

  function Mine(id: nat): set<Owner> {
    {Head(id), Data(id), Kinds(id)}
  }

  // ------------------------------------------------------------ representation

  /** The `n` bytes at `off` belong to `tag`. */
  ghost predicate Ext(own: Owners, off: int, n: int, tag: Owner) {
    0 <= off && 0 <= n && off + n <= |own| && forall c :: off <= c < off + n ==> own[c] == tag
  }

  ghost predicate IsCString(s: seq<int>) {
    forall i :: 0 <= i < |s| ==> s[i] != 0
  }

  /** The word `raw` stands for the value `v`: a number, or the offset of a payload. */
  ghost predicate RepVal(mem: Mem, own: Owners, raw: int, v: Val)
    requires |mem| == |own|
  {
    match v
    case I64(n) => raw == n
    case Str(s) =>
      && Ext(own, raw, |s| + 1, Payload(raw)) && IsCString(s)
      && (forall i :: 0 <= i < |s| ==> mem[raw + i] == s[i]) && mem[raw + |s|] == 0
    case Bytes(b) =>
      && Ext(own, raw, 8 + |b|, Payload(raw))
      && mem[raw] == |b| && forall i :: 0 <= i < |b| ==> mem[raw + 8 + i] == b[i]
  }

  /** A vector whose length word is `len` and whose first elements are `items`. */
  ghost predicate RepVec(mem: Mem, own: Owners, id: nat, off: int, kind: int, items: seq<Val>, len: int)
    requires |mem| == |own|
  {
    && Ext(own, off, 32, Head(id))
    && mem[off] == len && mem[off + 24] == kind && 0 <= kind <= 3
    && |items| <= mem[off + 8] && 0 <= len <= mem[off + 8] && 8 <= mem[off + 8]
    && Ext(own, mem[off + 16], 8 * mem[off + 8], Data(id))
    && forall j :: 0 <= j < |items| ==>
         KindOf(items[j]) == kind && RepVal(mem, own, mem[mem[off + 16] + 8 * j], items[j])
  }

  function CellAt(mem: Mem, off: int): Cell<int, int>
    requires 0 <= off && off + 24 <= |mem|
  {
    if mem[off + 16] == 0 then Empty else if mem[off + 16] == 1 then Live(mem[off], mem[off + 8]) else Tomb
  }

  function Cells(mem: Mem, off: int, cap: nat): (t: seq<Cell<int, int>>)
    requires 0 <= off && off + 24 * cap <= |mem|
    ensures |t| == cap && forall i :: 0 <= i < cap ==> t[i] == CellAt(mem, off + 24 * i)
  {
    seq(cap, i requires 0 <= i < cap => CellAt(mem, off + 24 * i))
  }

  /** The words of the slots stand for the values of `m`. */
  ghost predicate RepDict(mem: Mem, own: Owners, kind: int, d: map<int, int>, m: map<int, Val>)
    requires |mem| == |own|
  {
    && d.Keys == m.Keys
    && forall k :: k in m ==> KindOf(m[k]) == kind && RepVal(mem, own, d[k], m[k])
  }

  ghost predicate RepMap(mem: Mem, own: Owners, hash: int -> nat, id: nat, off: int, kind: int, m: map<int, Val>)
    requires |mem| == |own|
  {
    && Ext(own, off, 32, Head(id))
    && mem[off + 24] == kind && 0 <= kind <= 2
    && 16 <= mem[off + 8] && IsPow2(mem[off + 8])
    && Ext(own, mem[off + 16], 24 * mem[off + 8], Data(id))
    && var t := Slots(mem, off);
    && Wf(t, hash) && mem[off] == Lives(t) && 4 * mem[off] <= 3 * mem[off + 8]
    && RepDict(mem, own, kind, Dict(t), m)
  }

  /** The slots of the map at `off`. */
  ghost function Slots(mem: Mem, off: int): seq<Cell<int, int>>
    requires 0 <= off && off + 32 <= |mem|
    requires 0 <= mem[off + 8] && 0 <= mem[off + 16] && mem[off + 16] + 24 * mem[off + 8] <= |mem|
  {
    Cells(mem, mem[off + 16], mem[off + 8])
  }

  ghost predicate RepField(mem: Mem, own: Owners, kind: int, raw: int, f: Field)
    requires |mem| == |own|
  {
    match f
    case Unset => kind == 0
    case Filled(v) => kind == KindOf(v) && RepVal(mem, own, raw, v)
  }

  /** A record of `n` fields, the first of which are `fields`. */
  ghost predicate RepRec(mem: Mem, own: Owners, id: nat, off: int, fields: seq<Field>, n: int)
    requires |mem| == |own|
  {
    && Ext(own, off, 24, Head(id))
    && mem[off] == n && 1 <= n && |fields| <= n
    && Ext(own, mem[off + 8], 8 * n, Data(id)) && Ext(own, mem[off + 16], 8 * n, Kinds(id))
    && forall j :: 0 <= j < |fields| ==>
      RepField(mem, own, mem[mem[off + 16] + 8 * j], mem[mem[off + 8] + 8 * j], fields[j])
  }

  ghost predicate RepObj(mem: Mem, own: Owners, hash: int -> nat, id: nat, off: int, o: Obj)
    requires |mem| == |own|
  {
    match o
    case VecObj(kind, items) => RepVec(mem, own, id, off, kind, items, |items|)
    case MapObj(kind, m) => RepMap(mem, own, hash, id, off, kind, m)
    case RecObj(fields) => RepRec(mem, own, id, off, fields, |fields|)
  }

  /** Header and container table: `n` ids are in use. */
  ghost predicate RepTable(mem: Mem, own: Owners, n: nat)
    requires |mem| == |own|
  {
    && Ext(own, 0, 40, Header)
    && mem[0] == MAGIC && mem[8] == VERSION
    && mem[24] == n && n <= mem[32]
    && (if mem[32] == 0 then mem[16] == 0 else Ext(own, mem[16], 16 * mem[32], Table))
  }

  /** The offset the table holds for entry `i`, that is for id `i + 1`. */
  function OffOf(mem: Mem, own: Owners, n: nat, i: nat): int
    requires |mem| == |own| && RepTable(mem, own, n) && i < n
  {
    mem[mem[16] + 16 * i]
  }

  ghost predicate RepEntry(mem: Mem, own: Owners, hash: int -> nat, n: nat, i: nat, o: Obj)
    requires |mem| == |own| && RepTable(mem, own, n) && i < n
  {
    mem[mem[16] + 16 * i + 8] == ObjKind(o) && RepObj(mem, own, hash, i + 1, OffOf(mem, own, n, i), o)
  }

  /** The region `mem` is well formed and stands for `store`. */
  ghost predicate Rep(mem: Mem, own: Owners, hash: int -> nat, store: Store) {
    && |mem| == |own| && RepTable(mem, own, |store|)
    && forall i :: 0 <= i < |store| ==> RepEntry(mem, own, hash, |store|, i, store[i])
  }

  // ------------------------------------------------------------------ framing

  /** From `mem` to `mem2` the region only grew and only bytes owned by `s` changed. */
  ghost predicate Touch(mem: Mem, own: Owners, mem2: Mem, own2: Owners, s: set<Owner>) {
    && |mem| == |own| <= |mem2| == |own2|
    && forall c :: 0 <= c < |mem| ==> own2[c] == own[c] && (own[c] !in s ==> mem2[c] == mem[c])
  }

  lemma TouchTrans(m0: Mem, o0: Owners, m1: Mem, o1: Owners, m2: Mem, o2: Owners, s: set<Owner>)
    requires Touch(m0, o0, m1, o1, s) && Touch(m1, o1, m2, o2, s)
    ensures Touch(m0, o0, m2, o2, s)
  {
  }

  lemma TouchWiden(m0: Mem, o0: Owners, m1: Mem, o1: Owners, s: set<Owner>, s2: set<Owner>)
    requires Touch(m0, o0, m1, o1, s) && s <= s2
    ensures Touch(m0, o0, m1, o1, s2)
  {
  }

  lemma SetTwice(s: Store, i: nat, a: Obj, b: Obj)
    requires i < |s|
    ensures s[i := a][i := b] == s[i := b]
  {
  }

  lemma TouchSame(m0: Mem, o0: Owners, s: set<Owner>)
    requires |m0| == |o0|
    ensures Touch(m0, o0, m0, o0, s)
  {
  }

  /** Owners that a container with this id depends on are left alone. */
  ghost predicate Spares(s: set<Owner>, id: nat) {
    s !! Mine(id) && forall t :: t in s ==> !t.Payload?
  }

  lemma ExtKept(mem: Mem, own: Owners, mem2: Mem, own2: Owners, s: set<Owner>, off: int, n: int, tag: Owner)
    requires Touch(mem, own, mem2, own2, s) && Ext(own, off, n, tag)
    ensures Ext(own2, off, n, tag)
    ensures tag !in s ==> forall c :: off <= c < off + n ==> mem2[c] == mem[c]
  {
  }

  lemma ValKept(mem: Mem, own: Owners, mem2: Mem, own2: Owners, s: set<Owner>, raw: int, v: Val)
    requires Touch(mem, own, mem2, own2, s) && (forall t :: t in s ==> !t.Payload?) && RepVal(mem, own, raw, v)
    ensures RepVal(mem2, own2, raw, v)
  {
    match v
    case I64(_) =>
    case Str(t) => ExtKept(mem, own, mem2, own2, s, raw, |t| + 1, Payload(raw));
    case Bytes(b) => ExtKept(mem, own, mem2, own2, s, raw, 8 + |b|, Payload(raw));
  }

  lemma VecKept(mem: Mem, own: Owners, mem2: Mem, own2: Owners, s: set<Owner>,
      id: nat, off: int, kind: int, items: seq<Val>, len: int)
    requires Touch(mem, own, mem2, own2, s) && Spares(s, id) && RepVec(mem, own, id, off, kind, items, len)
    ensures RepVec(mem2, own2, id, off, kind, items, len)
  {
    ExtKept(mem, own, mem2, own2, s, off, 32, Head(id));
    ExtKept(mem, own, mem2, own2, s, mem[off + 16], 8 * mem[off + 8], Data(id));
    forall j | 0 <= j < |items|
      ensures KindOf(items[j]) == kind && RepVal(mem2, own2, mem2[mem2[off + 16] + 8 * j], items[j])
    {
      ValKept(mem, own, mem2, own2, s, mem[mem[off + 16] + 8 * j], items[j]);
    }
  }

  lemma CellsKept(mem: Mem, mem2: Mem, off: int, cap: nat)
    requires 0 <= off && off + 24 * cap <= |mem| <= |mem2|
    requires forall c :: off <= c < off + 24 * cap ==> mem2[c] == mem[c]
    ensures Cells(mem2, off, cap) == Cells(mem, off, cap)
  {
    forall i | 0 <= i < cap ensures CellAt(mem2, off + 24 * i) == CellAt(mem, off + 24 * i) {
    }
  }

  lemma DictKept(mem: Mem, own: Owners, mem2: Mem, own2: Owners, s: set<Owner>, kind: int, d: map<int, int>,
      m: map<int, Val>)
    requires Touch(mem, own, mem2, own2, s) && (forall t :: t in s ==> !t.Payload?) && RepDict(mem, own, kind, d, m)
    ensures RepDict(mem2, own2, kind, d, m)
  {
    forall k | k in m ensures KindOf(m[k]) == kind && RepVal(mem2, own2, d[k], m[k]) {
      ValKept(mem, own, mem2, own2, s, d[k], m[k]);
    }
  }

  lemma MapKept(mem: Mem, own: Owners, mem2: Mem, own2: Owners, s: set<Owner>,
      hash: int -> nat, id: nat, off: int, kind: int, m: map<int, Val>)
    requires Touch(mem, own, mem2, own2, s) && Spares(s, id) && RepMap(mem, own, hash, id, off, kind, m)
    ensures RepMap(mem2, own2, hash, id, off, kind, m)
  {
    ExtKept(mem, own, mem2, own2, s, off, 32, Head(id));
    ExtKept(mem, own, mem2, own2, s, mem[off + 16], 24 * mem[off + 8], Data(id));
    CellsKept(mem, mem2, mem[off + 16], mem[off + 8]);
    DictKept(mem, own, mem2, own2, s, kind, Dict(Slots(mem, off)), m);
  }

  lemma FieldKept(mem: Mem, own: Owners, mem2: Mem, own2: Owners, s: set<Owner>, kind: int, raw: int, f: Field)
    requires Touch(mem, own, mem2, own2, s) && (forall t :: t in s ==> !t.Payload?) && RepField(mem, own, kind, raw, f)
    ensures RepField(mem2, own2, kind, raw, f)
  {
    if f.Filled? { ValKept(mem, own, mem2, own2, s, raw, f.v); }
  }

  lemma RecKept(mem: Mem, own: Owners, mem2: Mem, own2: Owners, s: set<Owner>, id: nat, off: int, fields: seq<Field>,
      n: int)
    requires Touch(mem, own, mem2, own2, s) && Spares(s, id) && RepRec(mem, own, id, off, fields, n)
    ensures RepRec(mem2, own2, id, off, fields, n)
  {
    ExtKept(mem, own, mem2, own2, s, off, 24, Head(id));
    ExtKept(mem, own, mem2, own2, s, mem[off + 8], 8 * n, Data(id));
    ExtKept(mem, own, mem2, own2, s, mem[off + 16], 8 * n, Kinds(id));
    forall j | 0 <= j < |fields|
      ensures RepField(mem2, own2, mem2[mem2[off + 16] + 8 * j], mem2[mem2[off + 8] + 8 * j], fields[j])
    {
      FieldKept(mem, own, mem2, own2, s, mem[mem[off + 16] + 8 * j], mem[mem[off + 8] + 8 * j], fields[j]);
    }
  }

  /** A container none of whose bytes are touched keeps its meaning. */
  lemma ObjKept(mem: Mem, own: Owners, mem2: Mem, own2: Owners, s: set<Owner>, hash: int -> nat, id: nat, off: int,
      o: Obj)
    requires Touch(mem, own, mem2, own2, s) && Spares(s, id) && RepObj(mem, own, hash, id, off, o)
    ensures RepObj(mem2, own2, hash, id, off, o)
  {
    match o
    case VecObj(kind, items) => VecKept(mem, own, mem2, own2, s, id, off, kind, items, |items|);
    case MapObj(kind, m) => MapKept(mem, own, mem2, own2, s, hash, id, off, kind, m);
    case RecObj(fields) => RecKept(mem, own, mem2, own2, s, id, off, fields, |fields|);
  }

  lemma TableKept(mem: Mem, own: Owners, mem2: Mem, own2: Owners, s: set<Owner>, n: nat)
    requires Touch(mem, own, mem2, own2, s) && Header !in s && Table !in s && RepTable(mem, own, n)
    ensures RepTable(mem2, own2, n) && mem2[16] == mem[16] && mem2[32] == mem[32]
    ensures forall i :: 0 <= i < n ==> OffOf(mem2, own2, n, i) == OffOf(mem, own, n, i)
    ensures forall i :: 0 <= i < n ==> mem2[mem[16] + 16 * i + 8] == mem[mem[16] + 16 * i + 8]
  {
    ExtKept(mem, own, mem2, own2, s, 0, 40, Header);
    if mem[32] > 0 { ExtKept(mem, own, mem2, own2, s, mem[16], 16 * mem[32], Table); }
  }

  lemma EntryKept(mem: Mem, own: Owners, mem2: Mem, own2: Owners, s: set<Owner>, hash: int -> nat, n: nat, i: nat,
      o: Obj)
    requires Touch(mem, own, mem2, own2, s) && Header !in s && Table !in s && RepTable(mem, own, n) && i < n
    requires Spares(s, i + 1) && RepEntry(mem, own, hash, n, i, o)
    ensures RepTable(mem2, own2, n) && RepEntry(mem2, own2, hash, n, i, o)
  {
    hide RepObj;
    TableKept(mem, own, mem2, own2, s, n);
    ObjKept(mem, own, mem2, own2, s, hash, i + 1, OffOf(mem, own, n, i), o);
  }

  /** Framing: when only bytes of container `id` change, the region stands for the same store
      except at `id`, whatever was written there. */
  lemma Update(mem: Mem, own: Owners, mem2: Mem, own2: Owners, hash: int -> nat, store: Store, id: nat, o: Obj)
    requires Rep(mem, own, hash, store) && Touch(mem, own, mem2, own2, Mine(id))
    requires 1 <= id <= |store| && ObjKind(o) == ObjKind(store[id - 1])
    requires RepObj(mem2, own2, hash, id, OffOf(mem, own, |store|, id - 1), o)
    ensures Rep(mem2, own2, hash, store[id - 1 := o])
  {
    hide RepObj;
    var n := |store|;
    assert RepEntry(mem, own, hash, n, id - 1, store[id - 1]);
    TableKept(mem, own, mem2, own2, Mine(id), n);
    assert RepEntry(mem2, own2, hash, n, id - 1, o);
    OthersKept(mem, own, mem2, own2, hash, store, id);
  }

  lemma OthersKept(mem: Mem, own: Owners, mem2: Mem, own2: Owners, hash: int -> nat, store: Store, id: nat)
    requires Rep(mem, own, hash, store) && Touch(mem, own, mem2, own2, Mine(id))
    ensures RepTable(mem2, own2, |store|)
    ensures forall i :: 0 <= i < |store| && i + 1 != id ==> RepEntry(mem2, own2, hash, |store|, i, store[i])
  {
    hide RepObj;
    var n := |store|;
    TableKept(mem, own, mem2, own2, Mine(id), n);
    forall i | 0 <= i < n && i + 1 != id ensures RepEntry(mem2, own2, hash, n, i, store[i]) {
      EntryKept(mem, own, mem2, own2, Mine(id), hash, n, i, store[i]);
    }
  }

  /** Building a container that has no id in the table yet disturbs nothing. */
  lemma Undisturbed(mem: Mem, own: Owners, mem2: Mem, own2: Owners, hash: int -> nat, store: Store, id: nat)
    requires Rep(mem, own, hash, store) && Touch(mem, own, mem2, own2, Mine(id)) && id > |store|
    ensures Rep(mem2, own2, hash, store)
  {
    OthersKept(mem, own, mem2, own2, hash, store, id);
  }

  // ------------------------------------------------------------- single steps

  /** Only bytes in `[lo, hi)` differ. */
  ghost predicate Within(mem: Mem, mem2: Mem, lo: int, hi: int) {
    |mem2| == |mem| && forall c :: 0 <= c < |mem| && !(lo <= c < hi) ==> mem2[c] == mem[c]
  }

  /** `n` bytes of unknown contents were appended for `tag`. */
  ghost predicate Grown(mem: Mem, own: Owners, mem2: Mem, own2: Owners, n: nat, tag: Owner) {
    && |mem| == |own| && |mem2| == |own2| == |mem| + n
    && (forall c :: 0 <= c < |mem| ==> mem2[c] == mem[c] && own2[c] == own[c])
    && forall c :: |mem| <= c < |own2| ==> own2[c] == tag
  }

  lemma WithinTouch(mem: Mem, own: Owners, mem2: Mem, lo: int, hi: int, off: int, n: int, tag: Owner, s: set<Owner>)
    requires |mem| == |own| && Within(mem, mem2, lo, hi) && Ext(own, off, n, tag) && tag in s
    requires off <= lo && hi <= off + n
    ensures Touch(mem, own, mem2, own, s)
  {
  }

  /** A vector whose header changed or whose elements moved, with the same element words. */
  lemma VecRebuilt(mem: Mem, own: Owners, mem2: Mem, own2: Owners, id: nat, off: int,
      kind: int, items: seq<Val>, len: int, kind2: int, len2: int)
    requires Touch(mem, own, mem2, own2, Mine(id)) && RepVec(mem, own, id, off, kind, items, len)
    requires mem2[off] == len2 && mem2[off + 24] == kind2 && 0 <= kind2 <= 3 && (kind2 == kind || items == [])
    requires |items| <= mem2[off + 8] && 0 <= len2 <= mem2[off + 8] && 8 <= mem2[off + 8]
    requires Ext(own2, mem2[off + 16], 8 * mem2[off + 8], Data(id))
    requires forall j :: 0 <= j < |items| ==> mem2[mem2[off + 16] + 8 * j] == mem[mem[off + 16] + 8 * j]
    ensures RepVec(mem2, own2, id, off, kind2, items, len2)
  {
    ExtKept(mem, own, mem2, own2, Mine(id), off, 32, Head(id));
    forall j | 0 <= j < |items|
      ensures KindOf(items[j]) == kind2 && RepVal(mem2, own2, mem2[mem2[off + 16] + 8 * j], items[j])
    {
      ValKept(mem, own, mem2, own2, Mine(id), mem[mem[off + 16] + 8 * j], items[j]);
    }
  }

  /** Writing the element word that follows `items`. */
  lemma VecStored(mem: Mem, own: Owners, mem2: Mem, id: nat, off: int, kind: int, items: seq<Val>, len: int, raw: int,
      v: Val)
    requires |mem| == |own| && RepVec(mem, own, id, off, kind, items, len) && |items| < mem[off + 8]
    requires RepVal(mem, own, raw, v) && KindOf(v) == kind
    requires var at := mem[off + 16] + 8 * |items|; Within(mem, mem2, at, at + 8) && mem2[at] == raw
    ensures Touch(mem, own, mem2, own, Mine(id))
    ensures RepVec(mem2, own, id, off, kind, items + [v], len)
  {
    var data, n := mem[off + 16], |items|;
    WithinTouch(mem, own, mem2, data + 8 * n, data + 8 * n + 8, data, 8 * mem[off + 8], Data(id), Mine(id));
    assert forall c :: off <= c < off + 32 ==> own[c] == Head(id) && mem2[c] == mem[c];
    VecRebuilt(mem, own, mem2, own, id, off, kind, items, len, kind, len);
    ValKept(mem, own, mem2, own, Mine(id), raw, v);
    forall j | 0 <= j < n + 1
      ensures KindOf((items + [v])[j]) == kind && RepVal(mem2, own, mem2[mem2[off + 16] + 8 * j], (items + [v])[j])
    {
      if j < n { assert (items + [v])[j] == items[j]; }
    }
  }

  /** A store of `k` in the slots of a map. */
  lemma MapStored(mem: Mem, own: Owners, mem2: Mem, hash: int -> nat, id: nat, off: int, kind: int, m: map<int, Val>,
      i: nat, k: int, raw: int, v: Val)
    requires |mem| == |own| && RepMap(mem, own, hash, id, off, kind, m) && Touch(mem, own, mem2, own, Mine(id))
    requires RepVal(mem, own, raw, v) && KindOf(v) == kind
    requires mem2[off + 8] == mem[off + 8] && mem2[off + 16] == mem[off + 16] && mem2[off + 24] == mem[off + 24]
    requires var t := Slots(mem, off); Lands(t, hash, k, i) && Slots(mem2, off) == t[i := Live(k, raw)]
    requires mem2[off] == mem[off] + (if k in m then 0 else 1) && 4 * mem2[off] <= 3 * mem[off + 8]
    ensures RepMap(mem2, own, hash, id, off, kind, m[k := v])
  {
    var t := Slots(mem, off);
    StoreLands(t, hash, k, raw, i);
    Recount(t, i, Live(k, raw));
    DictKept(mem, own, mem2, own, Mine(id), kind, Dict(t), m);
    ValKept(mem, own, mem2, own, Mine(id), raw, v);
    if k in m { DictAt(t, i); }
    RepDictStore(mem2, own, kind, Dict(t), m, k, raw, v);
  }

  lemma RepDictStore(mem: Mem, own: Owners, kind: int, d: map<int, int>, m: map<int, Val>, k: int, raw: int, v: Val)
    requires |mem| == |own| && RepDict(mem, own, kind, d, m) && RepVal(mem, own, raw, v) && KindOf(v) == kind
    ensures RepDict(mem, own, kind, d[k := raw], m[k := v])
  {
  }

  /** A deletion in the slots of a map. */
  lemma MapBuried(mem: Mem, own: Owners, mem2: Mem, hash: int -> nat, id: nat, off: int, kind: int, m: map<int, Val>,
      i: nat, k: int)
    requires |mem| == |own| && RepMap(mem, own, hash, id, off, kind, m) && Touch(mem, own, mem2, own, Mine(id))
    requires mem2[off + 8] == mem[off + 8] && mem2[off + 16] == mem[off + 16] && mem2[off + 24] == mem[off + 24]
    requires var t := Slots(mem, off); i < |t| && t[i].Live? && t[i].key == k && Slots(mem2, off) == t[i := Tomb]
    requires mem2[off] == mem[off] - 1
    ensures RepMap(mem2, own, hash, id, off, kind, m - {k})
  {
    var t := Slots(mem, off);
    Bury(t, hash, k, i);
    Recount(t, i, Tomb);
    DictKept(mem, own, mem2, own, Mine(id), kind, Dict(t), m);
  }

  lemma MapBlank(mem: Mem, own: Owners, hash: int -> nat, id: nat, off: int, kind: int)
    requires |mem| == |own| && Ext(own, off, 32, Head(id))
    requires mem[off] == 0 && mem[off + 24] == kind && 0 <= kind <= 2
    requires 16 <= mem[off + 8] && IsPow2(mem[off + 8]) && Ext(own, mem[off + 16], 24 * mem[off + 8], Data(id))
    requires forall c :: mem[off + 16] <= c < mem[off + 16] + 24 * mem[off + 8] ==> mem[c] == 0
    ensures RepMap(mem, own, hash, id, off, kind, map[])
    ensures Tombs(Slots(mem, off)) == 0
  {
    Blank(Slots(mem, off));
  }

  ghost function KindWord(mem: Mem, off: int, j: int): int
    requires 0 <= off && off + 24 <= |mem| && 0 <= mem[off + 16] + 8 * j < |mem|
  {
    mem[mem[off + 16] + 8 * j]
  }

  ghost function DataWord(mem: Mem, off: int, j: int): int
    requires 0 <= off && off + 24 <= |mem| && 0 <= mem[off + 8] + 8 * j < |mem|
  {
    mem[mem[off + 8] + 8 * j]
  }

  ghost function PutField(fields: seq<Field>, i: nat, f: Field): seq<Field>
    requires i <= |fields|
  {
    if i < |fields| then fields[i := f] else fields + [f]
  }

  /** A record after a write to the two words of field `i`. */
  lemma RecStored(mem: Mem, own: Owners, mem2: Mem, own2: Owners, id: nat, off: int, fields: seq<Field>, n: int,
      i: nat, f: Field)
    requires |mem| == |own| && RepRec(mem, own, id, off, fields, n) && i <= |fields| && i < n
    requires Touch(mem, own, mem2, own2, Mine(id)) && FieldOnly(mem, mem2, off, n, i)
    requires RepField(mem2, own2, KindWord(mem2, off, i), DataWord(mem2, off, i), f)
    ensures RepRec(mem2, own2, id, off, PutField(fields, i, f), n)
  {
    var fs := PutField(fields, i, f);
    forall j | 0 <= j < |fs| ensures RepField(mem2, own2, KindWord(mem2, off, j), DataWord(mem2, off, j), fs[j]) {
      if j != i {
        FieldKept(mem, own, mem2, own2, Mine(id), KindWord(mem, off, j), DataWord(mem, off, j), fields[j]);
      }
    }
  }

  /** The header and the words of every field but `i` are the same. */
  ghost predicate FieldOnly(mem: Mem, mem2: Mem, off: int, n: int, i: nat)
    requires 0 <= off && off + 24 <= |mem| <= |mem2| && 0 <= n
    requires 0 <= mem[off + 16] && mem[off + 16] + 8 * n <= |mem| && 0 <= mem[off + 8] && mem[off + 8] + 8 * n <= |mem|
  {
    && (forall c :: off <= c < off + 24 ==> mem2[c] == mem[c])
    && forall j :: 0 <= j < n && j != i ==>
      KindWord(mem2, off, j) == KindWord(mem, off, j) && DataWord(mem2, off, j) == DataWord(mem, off, j)
  }

  /** The kind word of field `i` written, then perhaps a payload appended, then the value word. */
  lemma FieldWritten(mem: Mem, own: Owners, m1: Mem, m2: Mem, own2: Owners, mem2: Mem, id: nat, off: int,
      fields: seq<Field>, n: int, i: nat)
    requires |mem| == |own| && RepRec(mem, own, id, off, fields, n) && i < n
    requires var ka := mem[off + 16] + 8 * i; Within(mem, m1, ka, ka + 8)
    requires Touch(m1, own, m2, own2, {})
    requires var da := mem[off + 8] + 8 * i; Within(m2, mem2, da, da + 8)
    ensures Touch(mem, own, mem2, own2, Mine(id)) && FieldOnly(mem, mem2, off, n, i)
    ensures KindWord(mem2, off, i) == m1[mem[off + 16] + 8 * i] && DataWord(mem2, off, i) == mem2[mem[off + 8] + 8 * i]
  {
    hide RepField;
    var ks, ds := mem[off + 16], mem[off + 8];
    WithinTouch(mem, own, m1, ks + 8 * i, ks + 8 * i + 8, ks, 8 * n, Kinds(id), Mine(id));
    ExtKept(m1, own, m2, own2, {}, ds, 8 * n, Data(id));
    WithinTouch(m2, own2, mem2, ds + 8 * i, ds + 8 * i + 8, ds, 8 * n, Data(id), Mine(id));
    FieldWords(mem, own, m1, m2, mem2, id, ks, ds, n, i);
    assert forall c :: off <= c < off + 24 ==> own[c] == Head(id) && mem2[c] == mem[c];
  }

  lemma FieldWords(mem: Mem, own: Owners, m1: Mem, m2: Mem, mem2: Mem, id: nat, ks: int, ds: int, n: int, i: nat)
    requires |mem| == |own| == |m1| <= |m2| && i < n
    requires Ext(own, ks, 8 * n, Kinds(id)) && Ext(own, ds, 8 * n, Data(id))
    requires Within(mem, m1, ks + 8 * i, ks + 8 * i + 8) && Within(m2, mem2, ds + 8 * i, ds + 8 * i + 8)
    requires forall c :: 0 <= c < |mem| ==> m2[c] == m1[c]
    ensures mem2[ks + 8 * i] == m1[ks + 8 * i]
    ensures forall j :: 0 <= j < n && j != i ==>
      mem2[ks + 8 * j] == mem[ks + 8 * j] && mem2[ds + 8 * j] == mem[ds + 8 * j]
  {
    assert forall c :: ks <= c < ks + 8 * n ==> own[c] == Kinds(id) && mem2[c] == m1[c];
    assert forall c :: ds <= c < ds + 8 * n ==> own[c] == Data(id) && m1[c] == mem[c];
  }

  /** Fields not set yet, from blocks of zeros. */
  lemma RecBlank(mem: Mem, own: Owners, id: nat, off: int, n: nat)
    requires |mem| == |own| && Ext(own, off, 24, Head(id)) && mem[off] == n && 1 <= n
    requires Ext(own, mem[off + 8], 8 * n, Data(id)) && Ext(own, mem[off + 16], 8 * n, Kinds(id))
    requires forall c :: mem[off + 16] <= c < mem[off + 16] + 8 * n ==> mem[c] == 0
    ensures RepRec(mem, own, id, off, seq(n, _ => Unset), n)
  {
  }

  // ------------------------------------------------------ the container table

  const TableBytes: set<Owner> := {Header, Table}

  /** A region whose table was rewritten or moved, entry by entry the same. */
  lemma Retabled(mem: Mem, own: Owners, mem2: Mem, own2: Owners, hash: int -> nat, n: nat, n2: nat, i: nat, o: Obj)
    requires Touch(mem, own, mem2, own2, TableBytes)
    requires i < n <= n2 && RepTable(mem, own, n) && RepTable(mem2, own2, n2)
    requires OffOf(mem2, own2, n2, i) == OffOf(mem, own, n, i)
    requires mem2[mem2[16] + 16 * i + 8] == mem[mem[16] + 16 * i + 8]
    requires RepEntry(mem, own, hash, n, i, o)
    ensures RepEntry(mem2, own2, hash, n2, i, o)
  {
    hide RepObj;
    ObjKept(mem, own, mem2, own2, TableBytes, hash, i + 1, OffOf(mem, own, n, i), o);
  }

  /** The offsets of the first `n` entries are the same in both tables. */
  ghost predicate OffsKept(mem: Mem, own: Owners, n: nat, mem2: Mem, own2: Owners, n2: nat) {
    && |mem| == |own| && |mem2| == |own2| && n <= n2
    && RepTable(mem, own, n) && RepTable(mem2, own2, n2)
    && forall i :: 0 <= i < n ==> OffOf(mem2, own2, n2, i) == OffOf(mem, own, n, i)
  }

  lemma OffsTrans(m0: Mem, o0: Owners, n0: nat, m1: Mem, o1: Owners, n1: nat, m2: Mem, o2: Owners, n2: nat)
    requires OffsKept(m0, o0, n0, m1, o1, n1) && OffsKept(m1, o1, n1, m2, o2, n2)
    ensures OffsKept(m0, o0, n0, m2, o2, n2)
  {
    hide RepTable, OffOf;
    forall i | 0 <= i < n0 ensures OffOf(m2, o2, n2, i) == OffOf(m0, o0, n0, i) {
      assert OffOf(m1, o1, n1, i) == OffOf(m0, o0, n0, i);
    }
  }

  /** The table copied to a fresh block at `noff` with room for `ncap` entries. */
  lemma TableMoved(mem: Mem, own: Owners, m1: Mem, mem2: Mem, own2: Owners, hash: int -> nat, store: Store, noff: int,
      ncap: int)
    requires Rep(mem, own, hash, store) && noff == |mem| && ncap >= mem[32] && ncap > 0 && mem[32] >= 0
    requires |m1| == |mem2| == |own2| == |mem| + 16 * ncap
    requires forall c :: 0 <= c < |mem| ==> m1[c] == mem[c] && own2[c] == own[c]
    requires Ext(own2, noff, 16 * ncap, Table)
    requires forall c :: noff <= c < noff + 16 * mem[32] ==> m1[c] == mem[c - noff + mem[16]]
    requires mem2[16] == noff && mem2[32] == ncap
    requires forall c :: 0 <= c < |m1| && !(16 <= c < 24) && !(32 <= c < 40) ==> mem2[c] == m1[c]
    ensures Touch(mem, own, mem2, own2, TableBytes) && Rep(mem2, own2, hash, store)
    ensures OffsKept(mem, own, |store|, mem2, own2, |store|)
  {
    hide RepObj;
    var n := |store|;
    assert Ext(own2, 0, 40, Header);
    forall c | 0 <= c < |mem| && own[c] !in TableBytes ensures mem2[c] == mem[c] {
      assert !(0 <= c < 40);
    }
    assert RepTable(mem2, own2, n);
    forall i | 0 <= i < n ensures RepEntry(mem2, own2, hash, n, i, store[i]) {
      assert m1[noff + 16 * i] == mem[mem[16] + 16 * i];
      assert m1[noff + 16 * i + 8] == mem[mem[16] + 16 * i + 8];
      Retabled(mem, own, mem2, own2, hash, n, n, i, store[i]);
    }
  }

  /** One more entry written behind the last one. */
  lemma EntryAdded(mem: Mem, own: Owners, mem2: Mem, hash: int -> nat, store: Store, off: int, o: Obj)
    requires Rep(mem, own, hash, store) && RepObj(mem, own, hash, |store| + 1, off, o)
    requires |store| < mem[32] && |mem2| == |mem|
    requires var e := mem[16] + 16 * |store|;
      && mem2[e] == off && mem2[e + 8] == ObjKind(o) && mem2[24] == |store| + 1
      && forall c :: 0 <= c < |mem| && !(e <= c < e + 16) && !(24 <= c < 32) ==> mem2[c] == mem[c]
    ensures Touch(mem, own, mem2, own, TableBytes) && Rep(mem2, own, hash, store + [o])
    ensures OffsKept(mem, own, |store|, mem2, own, |store| + 1) && OffOf(mem2, own, |store| + 1, |store|) == off
  {
    hide RepObj;
    var n := |store|;
    EntryRoom(mem, own, mem2, n);
    ObjKept(mem, own, mem2, own, TableBytes, hash, n + 1, off, o);
    assert RepEntry(mem2, own, hash, n + 1, n, o);
    forall i | 0 <= i < n ensures RepEntry(mem2, own, hash, n + 1, i, store[i]) {
      Retabled(mem, own, mem2, own, hash, n, n + 1, i, store[i]);
    }
  }

  lemma EntryRoom(mem: Mem, own: Owners, mem2: Mem, n: nat)
    requires |mem| == |own| == |mem2| && RepTable(mem, own, n) && n < mem[32]
    requires var e := mem[16] + 16 * n;
      && mem2[24] == n + 1
      && forall c :: 0 <= c < |mem| && !(e <= c < e + 16) && !(24 <= c < 32) ==> mem2[c] == mem[c]
    ensures Touch(mem, own, mem2, own, TableBytes) && RepTable(mem2, own, n + 1) && mem2[16] == mem[16]
    ensures mem2[32] == mem[32]
    ensures forall i :: 0 <= i < n ==> OffOf(mem2, own, n + 1, i) == OffOf(mem, own, n, i)
    ensures forall i :: 0 <= i < n ==> mem2[mem[16] + 16 * i + 8] == mem[mem[16] + 16 * i + 8]
  {
    var e := mem[16] + 16 * n;
    assert forall c :: e <= c < e + 16 ==> own[c] == Table;
    assert forall c :: 0 <= c < 40 ==> own[c] == Header;
    assert own[mem[16]] == Table && mem[16] >= 40;
    assert mem2[0] == mem[0] && mem2[8] == mem[8] && mem2[16] == mem[16] && mem2[32] == mem[32];
  }

  // ------------------------------------------------------------ whole regions

  /** Bytes appended at the end of the region disturb nothing. */
  lemma Appended(mem: Mem, own: Owners, mem2: Mem, own2: Owners, hash: int -> nat, store: Store)
    requires Rep(mem, own, hash, store) && Touch(mem, own, mem2, own2, {})
    ensures Rep(mem2, own2, hash, store)
  {
    hide Rep;
    Undisturbed(mem, own, mem2, own2, hash, store, |store| + 1);
  }

  /** What a container's header and blocks look like, for the runtime's own range checks. */
  lemma EntryOf(mem: Mem, own: Owners, hash: int -> nat, store: Store, id: nat)
    requires Rep(mem, own, hash, store) && 1 <= id <= |store|
    ensures RepObj(mem, own, hash, id, OffOf(mem, own, |store|, id - 1), store[id - 1])
    ensures mem[mem[16] + 16 * (id - 1) + 8] == ObjKind(store[id - 1])
  {
    hide RepObj;
    assert RepEntry(mem, own, hash, |store|, id - 1, store[id - 1]);
  }

  /** One element of a vector. */
  lemma VecElem(mem: Mem, own: Owners, id: nat, off: int, kind: int, items: seq<Val>, len: int, j: nat)
    requires |mem| == |own| && RepVec(mem, own, id, off, kind, items, len) && j < |items|
    ensures 0 <= off && off + 32 <= |mem| && mem[off + 24] == kind == KindOf(items[j])
    ensures var at := mem[off + 16] + 8 * j; 0 <= at < |mem| && RepVal(mem, own, mem[at], items[j])
  {
    hide RepVal;
  }

  lemma VecUpdated(mem: Mem, own: Owners, mem2: Mem, own2: Owners, hash: int -> nat, store: Store, id: nat, off: int,
      kind: int, items: seq<Val>)
    requires Rep(mem, own, hash, store) && Touch(mem, own, mem2, own2, Mine(id))
    requires 1 <= id <= |store| && store[id - 1].VecObj? && off == OffOf(mem, own, |store|, id - 1)
    requires RepVec(mem2, own2, id, off, kind, items, |items|)
    ensures Rep(mem2, own2, hash, store[id - 1 := VecObj(kind, items)])
    ensures OffOf(mem2, own2, |store|, id - 1) == off
  {
    hide RepVec;
    Update(mem, own, mem2, own2, hash, store, id, VecObj(kind, items));
    TableKept(mem, own, mem2, own2, Mine(id), |store|);
  }

  /** Element words copied to a block of twice the capacity. */
  lemma VecMoved(mem: Mem, own: Owners, m1: Mem, mem2: Mem, own2: Owners, id: nat, off: int, kind: int,
      items: seq<Val>, nd: int)
    requires |mem| == |own| && RepVec(mem, own, id, off, kind, items, |items|) && nd == |mem|
    requires |m1| == |mem2| == |own2| == |mem| + 16 * mem[off + 8] && Ext(own2, nd, 16 * mem[off + 8], Data(id))
    requires forall c :: 0 <= c < |mem| ==> m1[c] == mem[c] && own2[c] == own[c]
    requires forall c :: nd <= c < nd + 8 * |items| ==> m1[c] == mem[c - nd + mem[off + 16]]
    requires mem2[off + 16] == nd && mem2[off + 8] == 2 * mem[off + 8]
    requires forall c :: 0 <= c < |m1| && !(off + 8 <= c < off + 24) ==> mem2[c] == m1[c]
    ensures Touch(mem, own, mem2, own2, Mine(id)) && RepVec(mem2, own2, id, off, kind, items, |items|)
  {
    assert own[off + 8] == Head(id);
    forall c | 0 <= c < |mem| && own[c] !in Mine(id) ensures mem2[c] == mem[c] {
      assert !(off <= c < off + 32);
    }
    VecRebuilt(mem, own, mem2, own2, id, off, kind, items, |items|, kind, |items|);
  }

  lemma VecLengthened(mem: Mem, own: Owners, mem2: Mem, id: nat, off: int, kind: int, items: seq<Val>, len: int)
    requires |mem| == |own| && RepVec(mem, own, id, off, kind, items, len) && len + 1 == |items|
    requires Within(mem, mem2, off, off + 8) && mem2[off] == len + 1
    ensures Touch(mem, own, mem2, own, Mine(id)) && RepVec(mem2, own, id, off, kind, items, |items|)
  {
    WithinTouch(mem, own, mem2, off, off + 8, off, 32, Head(id), Mine(id));
    assert forall c :: mem[off + 16] <= c < mem[off + 16] + 8 * mem[off + 8] ==> own[c] == Data(id);
    VecRebuilt(mem, own, mem2, own, id, off, kind, items, len, kind, len + 1);
  }

  // -------------------------------------------------------------- map slots

  /** Only the header and the slots of the map at `off` differ. */
  ghost predicate OnlyMap(mem: Mem, mem2: Mem, off: int)
    requires 0 <= off && off + 32 <= |mem|
  {
    && |mem2| == |mem|
    && forall c :: 0 <= c < |mem| && !(off <= c < off + 32)
                   && !(mem[off + 16] <= c < mem[off + 16] + 24 * mem[off + 8]) ==>
      mem2[c] == mem[c]
  }

  /** Bytes of one slot written: the others, and the header, are as before. */
  lemma SlotWritten(mem: Mem, own: Owners, mem2: Mem, id: nat, off: int, i: nat)
    requires |mem| == |own| && Ext(own, off, 32, Head(id)) && 0 <= mem[off + 8] && i < mem[off + 8]
    requires Ext(own, mem[off + 16], 24 * mem[off + 8], Data(id))
    requires var at := mem[off + 16] + 24 * i; Within(mem, mem2, at, at + 24)
    ensures Touch(mem, own, mem2, own, Mine(id)) && OnlyMap(mem, mem2, off)
    ensures mem2[off] == mem[off] && mem2[off + 8] == mem[off + 8] && mem2[off + 16] == mem[off + 16]
    ensures mem2[off + 24] == mem[off + 24]
    ensures Slots(mem2, off) == Slots(mem, off)[i := CellAt(mem2, mem[off + 16] + 24 * i)]
  {
    var cap, base := mem[off + 8], mem[off + 16];
    WithinTouch(mem, own, mem2, base + 24 * i, base + 24 * i + 24, base, 24 * cap, Data(id), Mine(id));
    assert forall c :: off <= c < off + 32 ==> own[c] == Head(id) && mem2[c] == mem[c];
    forall j | 0 <= j < cap && j != i ensures CellAt(mem2, base + 24 * j) == CellAt(mem, base + 24 * j) {
    }
  }

  /** The count word written after a slot. */
  lemma CountWritten(mem: Mem, own: Owners, m1: Mem, mem2: Mem, id: nat, off: int)
    requires |mem| == |own| && Ext(own, off, 32, Head(id)) && 0 <= mem[off + 8]
    requires Ext(own, mem[off + 16], 24 * mem[off + 8], Data(id))
    requires Touch(mem, own, m1, own, Mine(id)) && OnlyMap(mem, m1, off)
    requires m1[off + 8] == mem[off + 8] && m1[off + 16] == mem[off + 16] && m1[off + 24] == mem[off + 24]
    requires Within(m1, mem2, off, off + 8)
    ensures Touch(mem, own, mem2, own, Mine(id)) && OnlyMap(mem, mem2, off)
    ensures mem2[off + 8] == mem[off + 8] && mem2[off + 16] == mem[off + 16] && mem2[off + 24] == mem[off + 24]
    ensures Slots(mem2, off) == Slots(m1, off)
  {
    WithinTouch(m1, own, mem2, off, off + 8, off, 32, Head(id), Mine(id));
    assert forall c :: mem[off + 16] <= c < mem[off + 16] + 24 * mem[off + 8] ==> own[c] == Data(id);
    CellsKept(m1, mem2, mem[off + 16], mem[off + 8]);
  }

  lemma SlotsKept(mem: Mem, own: Owners, mem2: Mem, own2: Owners, s: set<Owner>, hash: int -> nat, id: nat, off: int,
      kind: int, m: map<int, Val>)
    requires Touch(mem, own, mem2, own2, s) && Spares(s, id) && RepMap(mem, own, hash, id, off, kind, m)
    ensures mem2[off + 8] == mem[off + 8] && mem2[off + 16] == mem[off + 16] && Slots(mem2, off) == Slots(mem, off)
  {
    ExtKept(mem, own, mem2, own2, s, off, 32, Head(id));
    ExtKept(mem, own, mem2, own2, s, mem[off + 16], 24 * mem[off + 8], Data(id));
    CellsKept(mem, mem2, mem[off + 16], mem[off + 8]);
  }

  lemma MapUpdated(mem: Mem, own: Owners, mem2: Mem, own2: Owners, hash: int -> nat, store: Store, id: nat, off: int,
      kind: int, m: map<int, Val>)
    requires Rep(mem, own, hash, store) && Touch(mem, own, mem2, own2, Mine(id))
    requires 1 <= id <= |store| && store[id - 1].MapObj? && off == OffOf(mem, own, |store|, id - 1)
    requires RepMap(mem2, own2, hash, id, off, kind, m)
    ensures Rep(mem2, own2, hash, store[id - 1 := MapObj(kind, m)])
    ensures OffOf(mem2, own2, |store|, id - 1) == off
  {
    hide RepMap;
    Update(mem, own, mem2, own2, hash, store, id, MapObj(kind, m));
    TableKept(mem, own, mem2, own2, Mine(id), |store|);
  }

  lemma MapSame(mem: Mem, own: Owners, mem2: Mem, own2: Owners, hash: int -> nat, store: Store, id: nat, off: int)
    requires Rep(mem, own, hash, store) && Touch(mem, own, mem2, own2, Mine(id))
    requires 1 <= id <= |store| && store[id - 1].MapObj? && off == OffOf(mem, own, |store|, id - 1)
    requires RepMap(mem2, own2, hash, id, off, store[id - 1].vkind, store[id - 1].m)
    ensures Rep(mem2, own2, hash, store) && OffOf(mem2, own2, |store|, id - 1) == off
  {
    hide RepMap;
    var o := store[id - 1];
    MapUpdated(mem, own, mem2, own2, hash, store, id, off, o.vkind, o.m);
    assert store[id - 1 := MapObj(o.vkind, o.m)] == store;
  }

  /** The kind word of a map set; a kind can only change while the map is empty. */
  lemma MapKindSet(mem: Mem, own: Owners, mem2: Mem, hash: int -> nat, id: nat, off: int, kind: int, m: map<int, Val>,
      want: int)
    requires |mem| == |own| && RepMap(mem, own, hash, id, off, kind, m) && kind == 0 && 0 <= want <= 2
    requires Within(mem, mem2, off + 24, off + 32) && mem2[off + 24] == want
    ensures Touch(mem, own, mem2, own, Mine(id)) && RepMap(mem2, own, hash, id, off, want, m)
    ensures Slots(mem2, off) == Slots(mem, off)
  {
    WithinTouch(mem, own, mem2, off + 24, off + 32, off, 32, Head(id), Mine(id));
    assert forall c :: mem[off + 16] <= c < mem[off + 16] + 24 * mem[off + 8] ==> own[c] == Data(id);
    CellsKept(mem, mem2, mem[off + 16], mem[off + 8]);
    assert forall k :: k in m ==> KindOf(m[k]) == 0;
    assert forall v :: KindOf(v) != 0;
    assert m.Keys == {};
  }

  /** The values whose keys the first slots hold. */
  ghost function Part(m: map<int, Val>, d: map<int, int>): map<int, Val> {
    map k | k in m && k in d :: m[k]
  }

  lemma PartSize(m: map<int, Val>, t: seq<Cell<int, int>>, i: nat, u: seq<Cell<int, int>>)
    requires Unique(t) && Unique(u) && i <= |t| && Dict(t).Keys == m.Keys
    requires Dict(u).Keys == Part(m, Dict(t[..i])).Keys
    ensures Lives(u) == Lives(t[..i]) <= Lives(t)
  {
    LivesAreKeys(u);
    LivesPrefix(t, i);
    PrefixKeys(t, i);
    LivesAreKeys(t[..i]);
    assert Part(m, Dict(t[..i])).Keys == Dict(t[..i]).Keys;
    SameKeys(Dict(u), Dict(t[..i]));
  }

  lemma SameKeys(d: map<int, int>, e: map<int, int>)
    requires d.Keys == e.Keys
    ensures |d| == |e|
  {
    assert |d.Keys| == |d|;
    assert |e.Keys| == |e|;
  }

  /** The first `i` old slots were stored again; the old slots, in `m0`, are still there. */
  ghost predicate Restoring(m0: Mem, o0: Owners, mem: Mem, own: Owners, hash: int -> nat, id: nat, off: int, kind: int,
      m: map<int, Val>, i: nat)
  {
    && Touch(m0, o0, mem, own, Mine(id)) && RepMap(m0, o0, hash, id, off, kind, m)
    && 0 <= off && off + 32 <= |m0| && i <= m0[off + 8]
    && 0 <= m0[off + 16] && m0[off + 16] + 24 * m0[off + 8] <= |m0|
    && |mem| == |m0| + 48 * m0[off + 8]
    && RepMap(mem, own, hash, id, off, kind, Part(m, Dict(Slots(m0, off)[..i])))
    && Tombs(Slots(mem, off)) == 0
    && mem[off + 8] == 2 * m0[off + 8] && mem[off + 16] == |m0|
    && forall c :: m0[off + 16] <= c < m0[off + 16] + 24 * m0[off + 8] ==> mem[c] == m0[c]
  }

  /** The header pointing to blank slots at the end of the region: an empty map, while the
      old slots can still be read. */
  lemma MapEmptied(mem: Mem, own: Owners, mem2: Mem, own2: Owners, hash: int -> nat, id: nat, off: int, kind: int,
      m: map<int, Val>)
    requires |mem| == |own| && RepMap(mem, own, hash, id, off, kind, m)
    requires |mem2| == |own2| == |mem| + 48 * mem[off + 8] && Ext(own2, |mem|, 48 * mem[off + 8], Data(id))
    requires forall c :: 0 <= c < |mem| ==> own2[c] == own[c]
    requires forall c :: 0 <= c < |mem| && !(off <= c < off + 32) ==> mem2[c] == mem[c]
    requires forall c :: |mem| <= c < |mem2| ==> mem2[c] == 0
    requires mem2[off] == 0 && mem2[off + 8] == 2 * mem[off + 8] && mem2[off + 16] == |mem| && mem2[off + 24] == kind
    ensures Restoring(mem, own, mem2, own2, hash, id, off, kind, m, 0)
  {
    assert Ext(own2, off, 32, Head(id));
    Pow2Doubles(mem[off + 8]);
    MapBlank(mem2, own2, hash, id, off, kind);
    assert Part(m, Dict(Slots(mem, off)[..0])) == map[];
    assert forall c :: mem[off + 16] <= c < mem[off + 16] + 24 * mem[off + 8] ==> own[c] == Data(id);
    assert forall c :: off <= c < off + 32 ==> own[c] == Head(id);
  }

  /** The next live pair may be stored: it has room, and its payload is where it was. */
  lemma RestoreReady(m0: Mem, o0: Owners, mem: Mem, own: Owners, hash: int -> nat, id: nat, off: int, kind: int,
      m: map<int, Val>, i: nat)
    requires Restoring(m0, o0, mem, own, hash, id, off, kind, m, i) && i < m0[off + 8]
    ensures var s := Slots(m0, off)[i];
      && CellAt(mem, m0[off + 16] + 24 * i) == s
      && (s.Live? ==>
        && s.key in m && RepVal(mem, own, s.val, m[s.key]) && KindOf(m[s.key]) == kind
        && 4 * (mem[off] + 1) <= 3 * mem[off + 8] && HasEmpty(Slots(mem, off)))
  {
    hide RepVal;
    var t := Slots(m0, off);
    assert t[i] == CellAt(m0, m0[off + 16] + 24 * i);
    if t[i].Live? {
      DictAt(t, i);
      ValKept(m0, o0, mem, own, Mine(id), t[i].val, m[t[i].key]);
      EmptyIff(Slots(mem, off));
      PartSize(m, t, i, Slots(mem, off));
    }
  }

  lemma RestoreSkip(m0: Mem, o0: Owners, mem: Mem, own: Owners, hash: int -> nat, id: nat, off: int, kind: int,
      m: map<int, Val>, i: nat)
    requires Restoring(m0, o0, mem, own, hash, id, off, kind, m, i) && i < m0[off + 8] && !Slots(m0, off)[i].Live?
    ensures Restoring(m0, o0, mem, own, hash, id, off, kind, m, i + 1)
  {
    hide RepVal, RepDict;
    OneMore(Slots(m0, off), i);
  }

  lemma RestoreStep(m0: Mem, o0: Owners, mem: Mem, mem2: Mem, own: Owners, hash: int -> nat, id: nat, off: int,
      kind: int,
      m: map<int, Val>, i: nat, at: nat)
    requires Restoring(m0, o0, mem, own, hash, id, off, kind, m, i) && i < m0[off + 8] && Slots(m0, off)[i].Live?
    requires var s := Slots(m0, off)[i];
      && s.key in m && |mem2| == |own|
      && RepMap(mem2, own, hash, id, off, kind, Part(m, Dict(Slots(m0, off)[..i]))[s.key := m[s.key]])
      && mem2[off + 8] == mem[off + 8] && mem2[off + 16] == mem[off + 16]
      && Lands(Slots(mem, off), hash, s.key, at) && Slots(mem2, off) == Slots(mem, off)[at := Live(s.key, s.val)]
    requires OnlyMap(mem, mem2, off)
    ensures Restoring(m0, o0, mem2, own, hash, id, off, kind, m, i + 1)
  {
    hide RepVal, RepDict;
    var t := Slots(m0, off);
    OneMore(t, i);
    Recount(Slots(mem, off), at, Live(t[i].key, t[i].val));
    OnlyMapTouch(mem, own, mem2, hash, id, off, kind, Part(m, Dict(t[..i])));
    assert Part(m, Dict(t[..i + 1])) == Part(m, Dict(t[..i]))[t[i].key := m[t[i].key]];
    OldSlotsStay(m0, o0, mem, mem2, own, hash, id, off, kind, m, i);
  }

  lemma OldSlotsStay(m0: Mem, o0: Owners, mem: Mem, mem2: Mem, own: Owners, hash: int -> nat, id: nat, off: int,
      kind: int,
      m: map<int, Val>, i: nat)
    requires Restoring(m0, o0, mem, own, hash, id, off, kind, m, i) && |mem2| == |own| && OnlyMap(mem, mem2, off)
    ensures forall c :: m0[off + 16] <= c < m0[off + 16] + 24 * m0[off + 8] ==> mem2[c] == m0[c]
  {
    hide RepVal, RepDict, Wf, Dict, Part, Lives, Tombs;
    assert forall c :: off <= c < off + 32 ==> own[c] == Head(id);
    assert forall c :: m0[off + 16] <= c < m0[off + 16] + 24 * m0[off + 8] ==> own[c] == Data(id);
  }

  lemma RestoreDone(m0: Mem, o0: Owners, mem: Mem, own: Owners, hash: int -> nat, id: nat, off: int, kind: int,
      m: map<int, Val>, i: nat)
    requires Restoring(m0, o0, mem, own, hash, id, off, kind, m, i) && i == m0[off + 8]
    ensures RepMap(mem, own, hash, id, off, kind, m)
  {
    hide RepVal;
    var t := Slots(m0, off);
    assert t[..i] == t && Part(m, Dict(t)) == m;
  }

  lemma OnlyMapTouch(mem: Mem, own: Owners, mem2: Mem, hash: int -> nat, id: nat, off: int, kind: int, m: map<int, Val>)
    requires |mem| == |own| && RepMap(mem, own, hash, id, off, kind, m) && OnlyMap(mem, mem2, off)
    ensures Touch(mem, own, mem2, own, Mine(id))
  {
  }

  /** The count word of a map is the number of its keys. */
  lemma MapSize(mem: Mem, own: Owners, hash: int -> nat, id: nat, off: int, kind: int, m: map<int, Val>)
    requires |mem| == |own| && RepMap(mem, own, hash, id, off, kind, m)
    ensures mem[off] == |m| && mem[off + 8] == |Slots(mem, off)|
  {
    hide RepVal;
    LivesAreKeys(Slots(mem, off));
    assert |Dict(Slots(mem, off)).Keys| == |Dict(Slots(mem, off))|;
    assert |m.Keys| == |m|;
  }

  /** Where the header of a map lies. */
  lemma MapHead(mem: Mem, own: Owners, hash: int -> nat, id: nat, off: int, kind: int, m: map<int, Val>)
    requires |mem| == |own| && RepMap(mem, own, hash, id, off, kind, m)
    ensures 0 <= off && off + 32 <= |mem| && mem[off + 24] == kind
    ensures 16 <= mem[off + 8] && 4 * mem[off] <= 3 * mem[off + 8]
    ensures 0 <= mem[off + 16] && mem[off + 16] + 24 * mem[off + 8] <= |mem|
  {
  }

  /** A map without tombstones and with twice as many slots as entries. */
  lemma MapSettled(mem: Mem, own: Owners, hash: int -> nat, id: nat, off: int, kind: int, m: map<int, Val>)
    requires |mem| == |own| && RepMap(mem, own, hash, id, off, kind, m)
    requires Tombs(Slots(mem, off)) == 0 && 2 * |m| <= mem[off + 8]
    ensures Settled(Slots(mem, off))
  {
    hide RepVal, RepDict, Wf, Tombs, Slots;
    MapSize(mem, own, hash, id, off, kind, m);
  }

  /** Right after doubling, one more entry fits and an empty slot is left. */
  lemma GrownRoom(mem: Mem, own: Owners, hash: int -> nat, id: nat, off: int, kind: int, m: map<int, Val>, n: nat)
    requires |mem| == |own| && RepMap(mem, own, hash, id, off, kind, m)
    requires |Slots(mem, off)| == 2 * n && n >= 16 && 4 * |m| <= 3 * n && Tombs(Slots(mem, off)) == 0
    ensures 4 * (mem[off] + 1) <= 3 * mem[off + 8] && HasEmpty(Slots(mem, off))
  {
    hide RepVal;
    MapSize(mem, own, hash, id, off, kind, m);
    EmptyIff(Slots(mem, off));
  }

  lemma RecUpdated(mem: Mem, own: Owners, mem2: Mem, own2: Owners, hash: int -> nat, store: Store, id: nat, off: int,
      fields: seq<Field>)
    requires Rep(mem, own, hash, store) && Touch(mem, own, mem2, own2, Mine(id))
    requires 1 <= id <= |store| && store[id - 1].RecObj? && off == OffOf(mem, own, |store|, id - 1)
    requires RepRec(mem2, own2, id, off, fields, |fields|)
    ensures Rep(mem2, own2, hash, store[id - 1 := RecObj(fields)])
  {
    hide RepRec;
    Update(mem, own, mem2, own2, hash, store, id, RecObj(fields));
  }

  /** The header of a record after its kind word was written and bytes were appended. */
  lemma RecHeadKept(mem: Mem, own: Owners, m1: Mem, m2: Mem, own2: Owners, id: nat, off: int, fields: seq<Field>,
      i: nat)
    requires |mem| == |own| && RepRec(mem, own, id, off, fields, |fields|) && i < |fields|
    requires var ka := mem[off + 16] + 8 * i; Within(mem, m1, ka, ka + 8)
    requires Touch(m1, own, m2, own2, {})
    ensures m2[off + 8] == mem[off + 8]
  {
    hide RepField;
    var ks := mem[off + 16];
    assert own[off + 8] == Head(id) && forall c :: ks <= c < ks + 8 * |fields| ==> own[c] == Kinds(id);
  }

  /** A word written outside the payload of `v` leaves it alone. */
  lemma PayloadApart(mem: Mem, own: Owners, mem2: Mem, id: nat, at: int, raw: int, v: Val)
    requires |mem| == |own| && RepVal(mem, own, raw, v) && Within(mem, mem2, at, at + 8)
    requires Ext(own, at, 8, Data(id))
    ensures RepVal(mem2, own, raw, v)
  {
    WithinTouch(mem, own, mem2, at, at + 8, at, 8, Data(id), Mine(id));
    ValKept(mem, own, mem2, own, Mine(id), raw, v);
  }

  lemma VecCapKept(mem: Mem, own: Owners, mem2: Mem, id: nat, off: int, kind: int, items: seq<Val>, len: int)
    requires |mem| == |own| && RepVec(mem, own, id, off, kind, items, len) && |items| < mem[off + 8]
    requires var at := mem[off + 16] + 8 * |items|; Within(mem, mem2, at, at + 8)
    ensures mem2[off + 8] == mem[off + 8]
  {
    hide RepVal;
    assert own[off + 8] == Head(id);
    assert forall c :: mem[off + 16] <= c < mem[off + 16] + 8 * mem[off + 8] ==> own[c] == Data(id);
  }

  lemma VecCapSame(mem: Mem, own: Owners, mem2: Mem, own2: Owners, id: nat, off: int, kind: int, items: seq<Val>,
      len: int)
    requires Touch(mem, own, mem2, own2, {}) && RepVec(mem, own, id, off, kind, items, len)
    ensures mem2[off + 8] == mem[off + 8]
  {
    hide RepVal;
  }

  lemma ObjOf(mem: Mem, own: Owners, hash: int -> nat, id: nat, off: int, o: Obj)
    requires |mem| == |own| && RepObj(mem, own, hash, id, off, o)
    ensures o.VecObj? ==> RepVec(mem, own, id, off, o.ekind, o.items, |o.items|)
    ensures o.MapObj? ==> RepMap(mem, own, hash, id, off, o.vkind, o.m)
    ensures o.RecObj? ==> RepRec(mem, own, id, off, o.fields, |o.fields|)
  {
    hide RepVec, RepMap, RepRec;
  }

  /** The next live pair of a map being copied: its value, and how many came before it. */
  lemma PairFits(mem: Mem, own: Owners, hash: int -> nat, id: nat, off: int, kind: int, m: map<int, Val>, j: nat)
    requires |mem| == |own| && RepMap(mem, own, hash, id, off, kind, m) && j < mem[off + 8] && Slots(mem, off)[j].Live?
    ensures var s, part := Slots(mem, off)[j], Part(m, Dict(Slots(mem, off)[..j]));
      && s.key in m && KindOf(m[s.key]) == kind && RepVal(mem, own, s.val, m[s.key])
      && s.key !in part && |part| + 1 <= |m|
      && Part(m, Dict(Slots(mem, off)[..j + 1])) == part[s.key := m[s.key]]
  {
    hide RepVal;
    var t := Slots(mem, off);
    DictAt(t, j);
    PartNext(m, t, j);
  }

  lemma PartNext(m: map<int, Val>, t: seq<Cell<int, int>>, j: nat)
    requires Unique(t) && j < |t| && t[j].Live? && t[j].key in m && Dict(t).Keys == m.Keys
    ensures var part, k := Part(m, Dict(t[..j])), t[j].key;
      k !in part && |part| + 1 <= |m| && Part(m, Dict(t[..j + 1])) == part[k := m[k]]
  {
    OneMore(t, j);
    var part, k := Part(m, Dict(t[..j])), t[j].key;
    assert Part(m, Dict(t[..j + 1])) == part[k := m[k]];
    SubsetSize(part.Keys, m.Keys - {k});
    assert |part.Keys| == |part|;
    assert |m.Keys| == |m|;
  }

  lemma {:induction false} SubsetSize<T>(a: set<T>, b: set<T>)
    requires a <= b
    ensures |a| <= |b|
  {
    if a != {} {
      var k :| k in a;
      SubsetSize(a - {k}, b - {k});
    }
  }

  lemma RecSpaceKept(mem: Mem, own: Owners, m1: Mem, id: nat, off: int, fields: seq<Field>, n: int, i: nat)
    requires |mem| == |own| && RepRec(mem, own, id, off, fields, n) && i < n
    requires var ka := mem[off + 16] + 8 * i; Within(mem, m1, ka, ka + 8)
    ensures m1[off + 8] == mem[off + 8]
  {
    hide RepField;
    var ks := mem[off + 16];
    assert own[off + 8] == Head(id) && forall c :: ks <= c < ks + 8 * n ==> own[c] == Kinds(id);
  }

  lemma PairSkipped(mem: Mem, own: Owners, hash: int -> nat, id: nat, off: int, kind: int, m: map<int, Val>, j: nat)
    requires |mem| == |own| && RepMap(mem, own, hash, id, off, kind, m) && j < mem[off + 8] && !Slots(mem, off)[j].Live?
    ensures Dict(Slots(mem, off)[..j + 1]) == Dict(Slots(mem, off)[..j])
  {
    hide RepVal, RepDict;
    OneMore(Slots(mem, off), j);
  }

  lemma PartAll(mem: Mem, own: Owners, hash: int -> nat, id: nat, off: int, kind: int, m: map<int, Val>)
    requires |mem| == |own| && RepMap(mem, own, hash, id, off, kind, m)
    ensures Slots(mem, off)[..|Slots(mem, off)|] == Slots(mem, off) && Part(m, Dict(Slots(mem, off))) == m
    ensures Part(m, Dict(Slots(mem, off)[..0])) == map[]
  {
    hide RepVal;
  }

  /** A map under construction with twice as many slots as it will have keys. */
  lemma BuildRoom(mem: Mem, own: Owners, hash: int -> nat, id: nat, off: int, kind: int, m: map<int, Val>, n: nat)
    requires |mem| == |own| && RepMap(mem, own, hash, id, off, kind, m)
    requires |m| + 1 <= n && 2 * n <= mem[off + 8] && Tombs(Slots(mem, off)) == 0
    ensures 4 * (mem[off] + 1) <= 3 * mem[off + 8] && HasEmpty(Slots(mem, off))
  {
    hide RepVal;
    MapSize(mem, own, hash, id, off, kind, m);
    EmptyIff(Slots(mem, off));
  }

  /** A container was built and added: only its own blocks and the table were written, and the others
      are where they were. */
  ghost predicate Added(mem: Mem, own: Owners, store: Store, mem2: Mem, own2: Owners, store2: Store) {
    && |store2| == |store| + 1
    && Touch(mem, own, mem2, own2, Mine(|store2|) + TableBytes)
    && OffsKept(mem, own, |store|, mem2, own2, |store2|)
  }

  lemma EntryIsAdded(m0: Mem, o0: Owners, store: Store, m1: Mem, o1: Owners, m2: Mem, o2: Owners, store2: Store)
    requires |m0| == |o0| && RepTable(m0, o0, |store|) && |store2| == |store| + 1
    requires Touch(m0, o0, m1, o1, Mine(|store2|)) && Touch(m1, o1, m2, o2, TableBytes)
    requires OffsKept(m1, o1, |store|, m2, o2, |store2|)
    ensures Added(m0, o0, store, m2, o2, store2)
  {
    hide RepTable, OffOf;
    var s := Mine(|store2|) + TableBytes;
    TableKept(m0, o0, m1, o1, Mine(|store2|), |store|);
    OffsTrans(m0, o0, |store|, m1, o1, |store|, m2, o2, |store2|);
    TouchWiden(m0, o0, m1, o1, Mine(|store2|), s);
    TouchWiden(m1, o1, m2, o2, TableBytes, s);
    TouchTrans(m0, o0, m1, o1, m2, o2, s);
  }

  // --------------------------------------------------- maps without tombstones

  /** The slots of the map with this id. */
  ghost function MapSlots(mem: Mem, own: Owners, hash: int -> nat, store: Store, id: nat): seq<Cell<int, int>>
    requires Rep(mem, own, hash, store) && 1 <= id <= |store| && store[id - 1].MapObj?
  {
    EntryOf(mem, own, hash, store, id);
    Slots(mem, OffOf(mem, own, |store|, id - 1))
  }

  /** Every map of the region counts as just built: no tombstone, at most half full. */
  ghost predicate Clean(mem: Mem, own: Owners, hash: int -> nat, store: Store)
    requires Rep(mem, own, hash, store)
  {
    forall id :: 1 <= id <= |store| && store[id - 1].MapObj? ==> Settled(MapSlots(mem, own, hash, store, id))
  }

  /** A container is added; the maps before it keep their slots. */
  lemma CleanMore(mem: Mem, own: Owners, mem2: Mem, own2: Owners, hash: int -> nat, store: Store, o: Obj)
    requires Rep(mem, own, hash, store) && Rep(mem2, own2, hash, store + [o]) && Clean(mem, own, hash, store)
    requires Added(mem, own, store, mem2, own2, store + [o])
    requires o.MapObj? ==> Settled(MapSlots(mem2, own2, hash, store + [o], |store| + 1))
    ensures Clean(mem2, own2, hash, store + [o])
  {
    hide RepVal, RepDict, Wf, Settled, Touch, OffsKept, RepObj, Slots, MapSlots;
    var store2 := store + [o];
    forall id | 1 <= id <= |store2| && store2[id - 1].MapObj? ensures Settled(MapSlots(mem2, own2, hash, store2, id)) {
      if id <= |store| {
        SameSlots(mem, own, mem2, own2, hash, store, o, id);
      }
    }
  }

  lemma SameSlots(mem: Mem, own: Owners, mem2: Mem, own2: Owners, hash: int -> nat, store: Store, o: Obj, id: nat)
    requires Rep(mem, own, hash, store) && Rep(mem2, own2, hash, store + [o])
    requires Touch(mem, own, mem2, own2, Mine(|store| + 1) + TableBytes)
    requires OffsKept(mem, own, |store|, mem2, own2, |store| + 1)
    requires 1 <= id <= |store| && store[id - 1].MapObj?
    ensures MapSlots(mem2, own2, hash, store + [o], id) == MapSlots(mem, own, hash, store, id)
  {
    hide RepVal, RepDict, Wf;
    EntryOf(mem, own, hash, store, id);
    var off := OffOf(mem, own, |store|, id - 1);
    assert OffOf(mem2, own2, |store| + 1, id - 1) == off;
    SlotsKept(mem, own, mem2, own2, Mine(|store| + 1) + TableBytes, hash, id, off,
              store[id - 1].vkind, store[id - 1].m);
  }
}
