/** How large a compacted region is: a function of the abstract contents alone. */
module RegionSize {
  import opened Region
  import opened Probing

  function ValBytes(v: Val): nat {
    match v case I64(_) => 0 case Str(s) => |s| + 1 case Bytes(b) => 8 + |b|
  }

  ghost function SeqBytes(items: seq<Val>): nat {
    if |items| == 0 then 0 else SeqBytes(items[..|items| - 1]) + ValBytes(items[|items| - 1])
  }

  ghost function FieldBytes(f: Field): nat {
    match f case Unset => 0 case Filled(v) => ValBytes(v)
  }

  ghost function FieldsBytes(fields: seq<Field>): nat {
    if |fields| == 0 then 0 else FieldsBytes(fields[..|fields| - 1]) + FieldBytes(fields[|fields| - 1])
  }

  ghost function MapBytes<K>(m: map<K, Val>): nat {
    if m == map[] then 0
    else
      var k :| k in m;
      ValBytes(m[k]) + MapBytes(m - {k})
  }

  /** The sum does not depend on the order in which keys are taken. */
  lemma {:induction false} MapBytesAt<K>(m: map<K, Val>, k: K)
    requires k in m
    ensures MapBytes(m) == ValBytes(m[k]) + MapBytes(m - {k})
    decreases m
  {
    var j :| j in m && MapBytes(m) == ValBytes(m[j]) + MapBytes(m - {j});
    if j != k {
      MapBytesAt(m - {j}, k);
      MapBytesAt(m - {k}, j);
      assert m - {j} - {k} == m - {k} - {j};
    }
  }

  lemma MapBytesAdd<K>(m: map<K, Val>, k: K, v: Val)
    requires k !in m
    ensures MapBytes(m[k := v]) == MapBytes(m) + ValBytes(v)
  {
    MapBytesAt(m[k := v], k);
    assert m[k := v] - {k} == m;
  }

  /** `baga_pow2_at_least`: the least power of two that is at least 16 and `n`. */
  ghost function Pow2AtLeast(n: nat, c: nat): nat
    requires c >= 1
    decreases n - c
  {
    if c < n then Pow2AtLeast(n, 2 * c) else c
  }

  lemma {:induction false} Pow2AtLeastOk(n: nat, c: nat)
    requires IsPow2(c)
    ensures IsPow2(Pow2AtLeast(n, c)) && n <= Pow2AtLeast(n, c) && c <= Pow2AtLeast(n, c)
    decreases n - c
  {
    if c < n {
      Pow2Doubles(c);
      Pow2AtLeastOk(n, 2 * c);
    }
  }

  function Max(a: int, b: int): int { if a > b then a else b }

  /** Header, blocks and payloads of one container after compaction. */
  ghost function ObjBytes(o: Obj): nat {
    match o
    case VecObj(_, items) => 32 + 8 * Max(|items|, 8) + SeqBytes(items)
    case MapObj(_, m) => 32 + 24 * Pow2AtLeast(2 * |m|, 16) + MapBytes(m)
    case RecObj(fields) => 24 + 16 * |fields| + FieldsBytes(fields)
  }

  /** Capacity of the container table after `n` additions. */
  ghost function TableCap(n: nat): nat {
    if n == 0 then 0
    else if n - 1 == TableCap(n - 1) then if n == 1 then 16 else 2 * TableCap(n - 1)
    else TableCap(n - 1)
  }

  /** Bytes spent on the table, abandoned copies included. */
  ghost function TableSpace(n: nat): nat {
    if n == 0 then 0 else TableSpace(n - 1) + if n - 1 == TableCap(n - 1) then 16 * TableCap(n) else 0
  }

  ghost function ObjsBytes(store: Store): nat {
    if |store| == 0 then 0 else ObjsBytes(store[..|store| - 1]) + ObjBytes(store[|store| - 1])
  }

  ghost function CompactBytes(store: Store): nat {
    40 + ObjsBytes(store) + TableSpace(|store|)
  }

  lemma {:induction false} TableCapOk(n: nat)
    ensures n <= TableCap(n) && (n > 0 ==> TableCap(n) >= 16)
  {
    if n > 0 { TableCapOk(n - 1); }
  }

  lemma NextEntry(store: Store, i: nat)
    requires i < |store|
    ensures store[..i + 1] == store[..i] + [store[i]]
    ensures CompactBytes(store[..i + 1]) == CompactBytes(store[..i]) + ObjBytes(store[i])
      + (if i < TableCap(i) then 0 else 16 * TableCap(i + 1))
    ensures TableCap(i + 1) == if i < TableCap(i) then TableCap(i) else if TableCap(i) > 0 then 2 * TableCap(i) else 16
  {
    TableCapOk(i);
    assert store[..i + 1][..i] == store[..i];
  }
}
