/** The language's Map: buckets of linked entries, relinked in place when the table doubles. */
module ChainMap {
  import opened Common

  class Entry<K, V> {
    const key: K
    var value: V
    var next: Entry?<K, V>

    constructor (key: K, value: V)
      ensures this.key == key && this.value == value && next == null
    {
      this.key, this.value, next := key, value, null;
    }
  }

  /** The entry at position `k` of a chain; past its end there is none. */
  ghost function At<K, V>(c: seq<Entry<K, V>>, k: nat): Entry?<K, V> {
    if k < |c| then c[k] else null
  }

  /** The entries `c` hang one after another from `head`. */
  ghost predicate Chain<K, V>(head: Entry?<K, V>, c: seq<Entry<K, V>>)
    reads c`next
  {
    head == At(c, 0) && forall k :: 0 <= k < |c| ==> c[k].next == At(c, k + 1)
  }

  ghost predicate DistinctKeys<K, V>(c: seq<Entry<K, V>>) {
    forall j, k :: 0 <= j < k < |c| ==> c[j].key != c[k].key
  }

  ghost predicate HasKey<K, V>(c: seq<Entry<K, V>>, key: K) {
    exists k :: 0 <= k < |c| && c[k].key == key
  }

  class Map<K(==), V> {
    const hash: K -> nat
    var b: array<Entry?<K, V>>
    var len: nat
    ghost var chains: seq<seq<Entry<K, V>>>
    ghost var nodes: set<Entry<K, V>>
    /** The finite map the table stands for. */
    ghost var store: map<K, V>

    function Bucket(key: K, nb: nat): (i: nat)
      requires nb > 0
      ensures i < nb
    {
      hash(key) % nb
    }

    /** Every chain holds entries of its own bucket only, and no key twice. */
    ghost predicate Sorted(chains: seq<seq<Entry<K, V>>>) {
      forall i :: 0 <= i < |chains| ==>
        DistinctKeys(chains[i]) && forall e :: e in chains[i] ==> Bucket(e.key, |chains|) == i
    }

    ghost predicate Within(chains: seq<seq<Entry<K, V>>>, nodes: set<Entry<K, V>>) {
      forall i, e :: 0 <= i < |chains| && e in chains[i] ==> e in nodes
    }

    /** The sorted chains are linked from the buckets. */
    ghost predicate Hung(b: array<Entry?<K, V>>, chains: seq<seq<Entry<K, V>>>, nodes: set<Entry<K, V>>)
      reads b, nodes`next
    {
      && b.Length == |chains| > 0 && Sorted(chains) && Within(chains, nodes)
      && Linked(b, chains, nodes)
    }

    ghost predicate Linked(b: array<Entry?<K, V>>, chains: seq<seq<Entry<K, V>>>, nodes: set<Entry<K, V>>)
      requires b.Length == |chains| && Within(chains, nodes)
      reads b, nodes`next
    {
      forall i :: 0 <= i < |chains| ==> Chain(b[i], chains[i])
    }

    /** The entries hold just the bindings of `store`. */
    ghost predicate Holds(chains: seq<seq<Entry<K, V>>>, nodes: set<Entry<K, V>>, store: map<K, V>)
      reads nodes`value
    {
      && |chains| > 0
      && (forall i, e :: 0 <= i < |chains| && e in chains[i] ==>
            e in nodes && e.key in store && e.value == store[e.key])
      && (forall key {:trigger Found(chains, key)} :: key in store ==> Found(chains, key))
    }

    /** The entry is in the bucket of its key. */
    ghost predicate Sits(chains: seq<seq<Entry<K, V>>>, e: Entry<K, V>) {
      |chains| > 0 && e in chains[Bucket(e.key, |chains|)]
    }

    /** The key's bucket has an entry with it. */
    ghost predicate Found(chains: seq<seq<Entry<K, V>>>, key: K)
      requires |chains| > 0
    {
      HasKey(chains[Bucket(key, |chains|)], key)
    }

    ghost predicate Valid()
      reads this, b, nodes
    {
      && Hung(b, chains, nodes) && Holds(chains, nodes, store)
      && len == |store| && len * 4 <= b.Length * 3
    }

    constructor (hash: K -> nat)
      ensures Valid() && store == map[] && this.hash == hash && fresh(b) && fresh(nodes)
    {
      this.hash := hash;
      b := new Entry?<K, V>[16](_ => null);
      len, chains, nodes, store := 0, seq(16, _ => []), {}, map[];
    }

    /** Whether a key is bound is seen in its bucket alone. */
    lemma KeyInBucket(key: K)
      requires Valid()
      ensures var c := chains[Bucket(key, b.Length)];
        && (key in store <==> HasKey(c, key))
        && forall k :: 0 <= k < |c| && c[k].key == key ==> c[k] in nodes && store[key] == c[k].value
    {
      hide DistinctKeys, Chain;
      var c := chains[Bucket(key, b.Length)];
      assert forall k :: 0 <= k < |c| ==> c[k] in c;
      assert key in store ==> Found(chains, key);
    }

    /** The loop of the lookup, along one chain. */
    static method Walk(head: Entry?<K, V>, key: K, ghost c: seq<Entry<K, V>>)
      returns (prev: Entry?<K, V>, e: Entry?<K, V>, ghost j: nat)
      requires Chain(head, c)
      ensures j <= |c| && e == At(c, j) && prev == (if j == 0 then null else c[j - 1])
      ensures forall m :: 0 <= m < j ==> c[m].key != key
      ensures e != null ==> e.key == key
    {
      prev, e, j := null, head, 0;
      while e != null && e.key != key
        invariant j <= |c| && e == At(c, j) && prev == (if j == 0 then null else c[j - 1])
        invariant forall m :: 0 <= m < j ==> c[m].key != key
        decreases |c| - j
      {
        prev, e, j := e, e.next, j + 1;
      }
    }

    /** The place of a key: the entry with it, or the end of its chain, and in both cases the link that
        leads there (`prev == null` means the bucket itself). */
    method Slot(key: K) returns (i: nat, prev: Entry?<K, V>, e: Entry?<K, V>, ghost j: nat)
      requires Valid()
      ensures i == Bucket(key, b.Length) && j <= |chains[i]|
      ensures e == At(chains[i], j) && prev == (if j == 0 then null else chains[i][j - 1])
      ensures forall m :: 0 <= m < j ==> chains[i][m].key != key
      ensures e == null <==> key !in store
      ensures e != null ==> e.key == key && Sits(chains, e) && e in nodes && e.value == store[key]
    {
      i := Bucket(key, b.Length);
      KeyInBucket(key);
      assert Chain(b[i], chains[i]);
      hide Hung, Holds, Chain;
      prev, e, j := Walk(b[i], key, chains[i]);
    }

    method Has(key: K) returns (r: bool)
      requires Valid()
      ensures r <==> key in store
    {
      var _, _, e, _ := Slot(key);
      return e != null;
    }

    /** A missing key reads as zero. */
    method Get(key: K, zero: V) returns (v: V)
      requires Valid()
      ensures v == if key in store then store[key] else zero
    {
      var _, _, e, _ := Slot(key);
      return if e == null then zero else e.value;
    }

    /** An entry is in no bucket but that of its key. */
    lemma Elsewhere(chains: seq<seq<Entry<K, V>>>, e: Entry<K, V>)
      requires Sorted(chains) && |chains| > 0
      ensures forall m :: 0 <= m < |chains| && m != Bucket(e.key, |chains|) ==> e !in chains[m]
    {
    }

    lemma SortedWith(chains: seq<seq<Entry<K, V>>>, nodes: set<Entry<K, V>>, i: nat, e: Entry<K, V>, front: bool)
      requires Sorted(chains) && Within(chains, nodes) && i < |chains| && i == Bucket(e.key, |chains|)
      requires !HasKey(chains[i], e.key)
      ensures var chains' := chains[i := if front then [e] + chains[i] else chains[i] + [e]];
        Sorted(chains') && Within(chains', nodes + {e})
    {
    }

    /** An entry hung at the end of the chain of its bucket. */
    method Hang(i: nat, prev: Entry?<K, V>, e: Entry<K, V>)
      requires Hung(b, chains, nodes) && i == Bucket(e.key, b.Length)
      requires prev == (if chains[i] == [] then null else chains[i][|chains[i]| - 1])
      requires e !in nodes && e.next == null && !HasKey(chains[i], e.key)
      modifies this`chains, this`nodes, b, nodes`next
      ensures Hung(b, chains, nodes)
      ensures chains == old(chains)[i := old(chains)[i] + [e]] && nodes == old(nodes) + {e}
    {
      SortedWith(chains, nodes, i, e, false);
      hide Sorted, Linked;
      LinkBack(i, prev, e);
      chains := chains[i := chains[i] + [e]];
      nodes := nodes + {e};
    }

    method LinkBack(i: nat, prev: Entry?<K, V>, e: Entry<K, V>)
      requires Hung(b, chains, nodes) && i < |chains| && e !in nodes && e.next == null
      requires prev == (if chains[i] == [] then null else chains[i][|chains[i]| - 1])
      requires Within(chains[i := chains[i] + [e]], nodes + {e})
      modifies b, nodes`next
      ensures Linked(b, chains[i := chains[i] + [e]], nodes + {e})
    {
      ghost var c := chains[i];
      assert forall k :: 0 <= k < |c| ==> c[k] in c;
      if prev == null {
        b[i] := e;
      } else {
        Elsewhere(chains, prev);
        prev.next := e;
      }
      hide Sorted, Within;
      assert Chain(b[i], c + [e]);
      hide Chain;
    }

    lemma HoldsAdded(was: seq<seq<Entry<K, V>>>, i: nat, e: Entry<K, V>, nodes: set<Entry<K, V>>, store: map<K, V>)
      requires Holds(was, nodes, store) && i < |was| && i == Bucket(e.key, |was|) && e.key !in store
      ensures Holds(was[i := was[i] + [e]], nodes + {e}, store[e.key := e.value])
    {
      var now, store' := was[i := was[i] + [e]], store[e.key := e.value];
      forall key {:trigger Found(now, key)} | key in store' ensures Found(now, key) {
        if key == e.key {
          assert now[i][|was[i]|] == e;
        } else {
          assert Found(was, key);
          var m := Bucket(key, |was|);
          var k :| 0 <= k < |was[m]| && was[m][k].key == key;
          assert now[m][k] == was[m][k];
        }
      }
    }

    /** A new entry at the end of its bucket's chain. */
    method Add(i: nat, prev: Entry?<K, V>, key: K, zero: V) returns (e: Entry<K, V>)
      requires Hung(b, chains, nodes) && Holds(chains, nodes, store)
      requires i == Bucket(key, b.Length) && !HasKey(chains[i], key) && key !in store
      requires prev == (if chains[i] == [] then null else chains[i][|chains[i]| - 1])
      modifies this`chains, this`nodes, b, nodes`next
      ensures Hung(b, chains, nodes) && Holds(chains, nodes, store[key := zero])
      ensures fresh(e) && e.key == key && nodes == old(nodes) + {e} && Sits(chains, e)
    {
      hide Sorted, Linked, Holds, Chain, HasKey;
      ghost var was, before := chains, nodes;
      e := new Entry(key, zero);
      Hang(i, prev, e);
      assert e == chains[i][|was[i]|];
      HoldsAdded(was, i, e, before, store);
    }

    /** The entry of a key, a new one at zero if it had none; the caller then writes the value. */
    method Put(key: K, zero: V) returns (e: Entry<K, V>)
      requires Valid()
      modifies this, b, nodes`next
      ensures Valid() && e.key == key && e in nodes && Sits(chains, e)
      ensures fresh(nodes - old(nodes)) && (b == old(b) || fresh(b))
      ensures store == if key in old(store) then old(store) else old(store)[key := zero]
    {
      var i, prev, f, j := Slot(key);
      if f != null {
        return f;
      }
      KeyInBucket(key);
      assert j == |chains[i]|;
      hide Hung, Holds, Chain, HasKey, Sits;
      e := Add(i, prev, key, zero);
      store := store[key := zero];
      len := len + 1;
      Grow();
    }

    method Grow()
      requires Hung(b, chains, nodes) && Holds(chains, nodes, store) && len == |store|
      requires 0 < b.Length && len * 4 <= b.Length * 3 + 4
      modifies this`b, this`chains, nodes`next
      ensures Valid() && (b == old(b) || fresh(b))
      ensures forall e {:trigger Sits(chains, e)} :: Sits(old(chains), e) ==> Sits(chains, e)
    {
      hide Hung, Holds, Sits;
      if len * 4 > b.Length * 3 {
        Rehash();
      }
    }

    /** No key occurs on both sides. */
    ghost predicate Apart(c: seq<Entry<K, V>>, moved: set<Entry<K, V>>) {
      forall x, y :: x in c && y in moved ==> x.key != y.key
    }

    ghost predicate Placed(chains: seq<seq<Entry<K, V>>>, moved: set<Entry<K, V>>) {
      |chains| > 0 && forall x :: x in moved ==> x in chains[Bucket(x.key, |chains|)]
    }

    lemma PlacedAfter(chains: seq<seq<Entry<K, V>>>, moved: set<Entry<K, V>>, e: Entry<K, V>)
      requires Placed(chains, moved)
      ensures var h := Bucket(e.key, |chains|);
        Placed(chains[h := [e] + chains[h]], moved + {e})
    {
    }

    /** An entry relinked at the front of its new bucket. */
    method Prepend(e: Entry<K, V>, ghost moved: set<Entry<K, V>>)
      requires Hung(b, chains, moved) && Apart([e], moved) && Placed(chains, moved)
      modifies this`chains, b, e`next
      ensures Hung(b, chains, moved + {e}) && |chains| == |old(chains)| && Placed(chains, moved + {e})
    {
      var h := Bucket(e.key, b.Length);
      ghost var c := chains[h];
      assert e in [e];
      forall k | 0 <= k < |c| ensures c[k].key != e.key {
        assert c[k] in c;
      }
      SortedWith(chains, moved, h, e, true);
      PlacedAfter(chains, moved, e);
      hide Placed, Apart, Sorted, Linked;
      LinkFront(h, e, moved);
      chains := chains[h := [e] + c];
    }

    lemma Strange(chains: seq<seq<Entry<K, V>>>, nodes: set<Entry<K, V>>, e: Entry<K, V>)
      requires Within(chains, nodes) && e !in nodes
      ensures forall m :: 0 <= m < |chains| ==> e !in chains[m]
      ensures forall m, k :: 0 <= m < |chains| && 0 <= k < |chains[m]| ==> chains[m][k] != e
    {
      forall m, k | 0 <= m < |chains| && 0 <= k < |chains[m]| ensures chains[m][k] != e {
        assert chains[m][k] in chains[m];
      }
    }

    method LinkFront(h: nat, e: Entry<K, V>, ghost moved: set<Entry<K, V>>)
      requires Hung(b, chains, moved) && h < |chains| && e !in moved
      requires Within(chains[h := [e] + chains[h]], moved + {e})
      modifies b, e`next
      ensures Linked(b, chains[h := [e] + chains[h]], moved + {e})
    {
      hide Sorted, Within;
      ghost var c := chains[h];
      Strange(chains, moved, e);
      e.next := b[h];
      b[h] := e;
      assert Chain(b[h], [e] + c);
      hide Chain;
    }

    lemma NoneMoved(c: seq<Entry<K, V>>, moved: set<Entry<K, V>>)
      ensures moved + Members(c[..0]) == moved
    {
    }

    lemma OneMoved(c: seq<Entry<K, V>>, moved: set<Entry<K, V>>, k: nat)
      requires Apart(c, moved) && DistinctKeys(c) && k < |c|
      ensures Apart([c[k]], moved + Members(c[..k]))
      ensures moved + Members(c[..k + 1]) == moved + Members(c[..k]) + {c[k]}
      ensures forall m :: k < m < |c| ==> c[m] != c[k]
    {
      assert c[..k + 1] == c[..k] + [c[k]];
    }

    /** The inner loop: one old chain moved over, entry by entry. */
    method MoveChain(head: Entry?<K, V>, ghost c: seq<Entry<K, V>>, ghost moved: set<Entry<K, V>>)
      requires Hung(b, chains, moved) && Placed(chains, moved)
      requires Chain(head, c) && DistinctKeys(c) && Apart(c, moved)
      modifies this`chains, b, c`next
      ensures Hung(b, chains, moved + Members(c)) && Placed(chains, moved + Members(c))
      ensures |chains| == |old(chains)|
    {
      hide Hung, Placed, Members, Apart, DistinctKeys, Chain, Within;
      Linkage(head, c);
      var e := head;
      ghost var k, now := 0, moved;
      NoneMoved(c, moved);
      while e != null
        invariant k <= |c| && e == At(c, k) && now == moved + Members(c[..k])
        invariant forall m :: k <= m < |c| ==> c[m].next == At(c, m + 1)
        invariant Hung(b, chains, now) && Placed(chains, now) && |chains| == |old(chains)|
        decreases |c| - k
      {
        var nx := e.next;
        OneMoved(c, moved, k);
        Prepend(e, now);
        now := now + {e};
        e, k := nx, k + 1;
      }
      assert c[..k] == c;
    }

    /** All entries of the first `i` chains. */
    ghost function Upto(chains: seq<seq<Entry<K, V>>>, i: nat): set<Entry<K, V>>
      requires i <= |chains|
    {
      if i == 0 then {} else Upto(chains, i - 1) + Members(chains[i - 1])
    }

    lemma {:induction false} InUpto(chains: seq<seq<Entry<K, V>>>, i: nat, e: Entry<K, V>)
      requires i <= |chains|
      ensures e in Upto(chains, i) <==> exists m :: 0 <= m < i && e in chains[m]
    {
      if i > 0 {
        InUpto(chains, i - 1, e);
      }
    }

    /** From bucket `i` on, the old chains are still linked. */
    ghost predicate Rest(b: array<Entry?<K, V>>, chains: seq<seq<Entry<K, V>>>, nodes: set<Entry<K, V>>, i: nat)
      reads b, nodes`next
    {
      && b.Length == |chains|
      && forall m :: i <= m < |chains| ==> (forall e :: e in chains[m] ==> e in nodes) && Chain(b[m], chains[m])
    }

    lemma Parts(b: array<Entry?<K, V>>, chains: seq<seq<Entry<K, V>>>, nodes: set<Entry<K, V>>)
      requires Hung(b, chains, nodes)
      ensures 0 < b.Length == |chains| && Upto(chains, 0) == {}
      ensures Sorted(chains) && Rest(b, chains, nodes, 0)
    {
      hide Chain, Sorted;
    }

    /** Chains of different buckets share no key, so moving one leaves the later ones apart. */
    lemma LaterApart(chains: seq<seq<Entry<K, V>>>, i: nat)
      requires Sorted(chains) && i < |chains|
      ensures Apart(chains[i], Upto(chains, i))
    {
      hide DistinctKeys;
      forall x, y | x in chains[i] && y in Upto(chains, i) ensures x.key != y.key {
        InUpto(chains, i, y);
      }
    }

    /** One bucket of the old table. */
    method MoveBucket(ob: array<Entry?<K, V>>, i: nat, ghost was: seq<seq<Entry<K, V>>>)
      requires Sorted(was) && Rest(ob, was, nodes, i) && i < |was| && b != ob
      requires Hung(b, chains, Upto(was, i)) && Placed(chains, Upto(was, i))
      modifies this`chains, b, nodes`next
      ensures Rest(ob, was, nodes, i + 1) && |chains| == |old(chains)|
      ensures Hung(b, chains, Upto(was, i + 1)) && Placed(chains, Upto(was, i + 1))
    {
      hide Hung, Placed, Upto;
      ghost var c := was[i];
      LaterApart(was, i);
      assert Upto(was, i + 1) == Upto(was, i) + Members(c) by {
        UptoNext(was, i);
      }
      assert Chain(ob[i], c) && DistinctKeys(c);
      forall m, e | i < m < |was| && e in was[m] ensures e !in c {
      }
      hide DistinctKeys, Sorted;
      MoveChain(ob[i], c, Upto(was, i));
      forall m | i < m < |was| ensures Chain(ob[m], was[m]) {
        assert old(Chain(ob[m], was[m]));
        assert forall k :: 0 <= k < |was[m]| ==> was[m][k] in was[m];
      }
    }

    lemma UptoNext(chains: seq<seq<Entry<K, V>>>, i: nat)
      requires i < |chains|
      ensures Upto(chains, i + 1) == Upto(chains, i) + Members(chains[i])
    {
    }

    lemma HeldAt(chains: seq<seq<Entry<K, V>>>, nodes: set<Entry<K, V>>, store: map<K, V>, m: nat, e: Entry<K, V>)
      requires Holds(chains, nodes, store) && m < |chains| && e in chains[m]
      ensures e in nodes && e.key in store && e.value == store[e.key]
    {
    }

    /** The doubled table holds the same bindings: every entry has been moved. */
    lemma StillHolds(was: seq<seq<Entry<K, V>>>, now: seq<seq<Entry<K, V>>>, b: array<Entry?<K, V>>,
                     moved: set<Entry<K, V>>, nodes: set<Entry<K, V>>, store: map<K, V>)
      requires Holds(was, nodes, store) && Hung(b, now, moved) && Placed(now, moved)
      requires moved == Upto(was, |was|)
      ensures Hung(b, now, nodes) && Holds(now, nodes, store)
    {
      hide Chain, Sorted, Upto, Sits;
      forall e | e in moved ensures e in nodes && e.key in store && e.value == store[e.key] {
        InUpto(was, |was|, e);
        var m: nat :| m < |was| && e in was[m];
        HeldAt(was, nodes, store, m, e);
      }
      forall i, e | 0 <= i < |now| && e in now[i] ensures e in moved {
      }
      forall key {:trigger Found(now, key)} | key in store ensures Found(now, key) {
        assert Found(was, key);
        StillFound(was, now, moved, key);
      }
    }

    lemma StillSits(was: seq<seq<Entry<K, V>>>, now: seq<seq<Entry<K, V>>>, moved: set<Entry<K, V>>)
      requires Placed(now, moved) && moved == Upto(was, |was|)
      ensures forall e {:trigger Sits(now, e)} :: Sits(was, e) ==> Sits(now, e)
    {
      hide Upto;
      forall e {:trigger Sits(now, e)} | Sits(was, e) ensures Sits(now, e) {
        InUpto(was, |was|, e);
      }
    }

    lemma StillFound(was: seq<seq<Entry<K, V>>>, now: seq<seq<Entry<K, V>>>, moved: set<Entry<K, V>>, key: K)
      requires |was| > 0 && Found(was, key) && Placed(now, moved) && moved == Upto(was, |was|)
      ensures Found(now, key)
    {
      hide Upto;
      var m := Bucket(key, |was|);
      var k :| 0 <= k < |was[m]| && was[m][k].key == key;
      var e := was[m][k];
      InUpto(was, |was|, e);
      assert e in now[Bucket(key, |now|)];
    }

    /** Twice as many buckets, the same entries relinked into them, the same bindings. */
    method Rehash()
      requires Hung(b, chains, nodes) && Holds(chains, nodes, store)
      modifies this`b, this`chains, nodes`next
      ensures Hung(b, chains, nodes) && Holds(chains, nodes, store)
      ensures fresh(b) && b.Length == 2 * old(b.Length)
      ensures forall e {:trigger Sits(chains, e)} :: Sits(old(chains), e) ==> Sits(chains, e)
    {
      hide Hung, Placed, Holds, Rest, Sorted, Upto, Chain, Bucket, Sits;
      ghost var was := chains;
      Parts(b, chains, nodes);
      var ob, onb := b, b.Length;
      NewTable(2 * onb);
      var i := 0;
      while i < onb
        invariant i <= onb == |was| && b != ob && fresh(b) && b.Length == 2 * onb == |chains|
        invariant Hung(b, chains, Upto(was, i)) && Placed(chains, Upto(was, i))
        invariant Rest(ob, was, nodes, i)
      {
        MoveBucket(ob, i, was);
        i := i + 1;
      }
      assert Holds(was, nodes, store);
      StillHolds(was, chains, b, Upto(was, onb), nodes, store);
      StillSits(was, chains, Upto(was, onb));
    }

    method NewTable(nb: nat)
      requires nb > 0
      modifies this`b, this`chains
      ensures fresh(b) && b.Length == nb == |chains|
      ensures Hung(b, chains, {}) && Placed(chains, {})
    {
      b := new Entry?<K, V>[nb](_ => null);
      chains := seq(nb, _ => []);
    }

    method Set(key: K, v: V, zero: V)
      requires Valid()
      modifies this, b, nodes
      ensures Valid() && store == old(store)[key := v] && fresh(nodes - old(nodes)) && (b == old(b) || fresh(b))
    {
      hide Valid, Sits;
      var e := Put(key, zero);
      Write(e, v);
    }

    /** `e->iv = v` and the like, on the entry that `Put` returned: it binds that key and no other. */
    method Write(e: Entry<K, V>, v: V)
      requires Valid() && Sits(chains, e)
      modifies this`store, e`value
      ensures Valid() && store == old(store)[e.key := v]
    {
      Held(e);
      OnlyEntry(e);
      hide Hung, Holds, Sits;
      Assign(e, v);
      store := store[e.key := v];
    }

    method Assign(e: Entry<K, V>, v: V)
      requires Holds(chains, nodes, store) && e.key in store && e in nodes
      requires forall i, f :: 0 <= i < |chains| && f in chains[i] && f.key == e.key ==> f == e
      modifies e`value
      ensures Holds(chains, nodes, store[e.key := v])
    {
      hide Found;
      e.value := v;
    }

    lemma Held(e: Entry<K, V>)
      requires Valid() && Sits(chains, e)
      ensures e.key in store && e in nodes
    {
      hide Hung, Found;
    }

    lemma OnlyEntry(e: Entry<K, V>)
      requires Valid() && Sits(chains, e)
      ensures forall i, f :: 0 <= i < |chains| && f in chains[i] && f.key == e.key ==> f == e
    {
      Parts(b, chains, nodes);
      hide Hung, Holds, Found, DistinctKeys, Chain, Rest;
      ghost var m := Bucket(e.key, b.Length);
      forall i, f | 0 <= i < |chains| && f in chains[i] && f.key == e.key ensures f == e {
        OneWithKey(chains[m], e, f);
      }
    }

    lemma OneWithKey(c: seq<Entry<K, V>>, e: Entry<K, V>, f: Entry<K, V>)
      requires DistinctKeys(c) && e in c && f in c && e.key == f.key
      ensures e == f
    {
    }

    lemma SortedCut(chains: seq<seq<Entry<K, V>>>, nodes: set<Entry<K, V>>, i: nat, j: nat)
      requires Sorted(chains) && Within(chains, nodes) && i < |chains| && j < |chains[i]|
      ensures var chains' := chains[i := chains[i][..j] + chains[i][j + 1..]];
        Sorted(chains') && Within(chains', nodes)
    {
      var c := chains[i];
      var c' := c[..j] + c[j + 1..];
      assert forall k :: 0 <= k < |c'| ==> c'[k] == if k < j then c[k] else c[k + 1];
    }

    /** With the link to entry `j` pointing past it, the others hang together. */
    lemma ChainCut(head: Entry?<K, V>, c: seq<Entry<K, V>>, j: nat)
      requires j < |c| && head == (if j == 0 then At(c, 1) else c[0])
      requires forall k :: 0 <= k < |c| ==> c[k].next == At(c, if k + 1 == j then j + 1 else k + 1)
      ensures Chain(head, c[..j] + c[j + 1..])
    {
      var c' := c[..j] + c[j + 1..];
      forall k | 0 <= k < |c'| ensures c'[k].next == At(c', k + 1) {
        assert c'[k] == if k < j then c[k] else c[k + 1];
        assert k + 1 < |c'| ==> c'[k + 1] == if k + 1 < j then c[k + 1] else c[k + 2];
      }
    }

    /** The entry is cut out of its chain. */
    method Cut(i: nat, prev: Entry?<K, V>, e: Entry<K, V>, ghost j: nat)
      requires Hung(b, chains, nodes) && i < b.Length && j < |chains[i]| && e == chains[i][j]
      requires prev == if j == 0 then null else chains[i][j - 1]
      modifies this`chains, b, nodes`next
      ensures Hung(b, chains, nodes)
      ensures chains == old(chains)[i := old(chains)[i][..j] + old(chains)[i][j + 1..]]
    {
      hide Sorted, Linked, Within;
      SortedCut(chains, nodes, i, j);
      PointPast(i, prev, e, j);
      chains := chains[i := chains[i][..j] + chains[i][j + 1..]];
    }

    /** The link that led to the entry leads past it. */
    method PointPast(i: nat, prev: Entry?<K, V>, e: Entry<K, V>, ghost j: nat)
      requires Hung(b, chains, nodes) && i < b.Length && j < |chains[i]| && e == chains[i][j]
      requires prev == if j == 0 then null else chains[i][j - 1]
      requires var chains' := chains[i := chains[i][..j] + chains[i][j + 1..]]; Within(chains', nodes)
      modifies b, nodes`next
      ensures var chains' := chains[i := chains[i][..j] + chains[i][j + 1..]]; Linked(b, chains', nodes)
    {
      hide Sorted, Chain;
      ghost var c := chains[i];
      assert Chain(b[i], c);
      Linkage(b[i], c);
      if prev == null {
        b[i] := e.next;
      } else {
        OnlyHere(i, j - 1);
        prev.next := e.next;
      }
      ChainCut(b[i], c, j);
      assert forall m :: 0 <= m < |chains| && m != i ==> Chain(b[m], chains[m]);
    }

    lemma Linkage(head: Entry?<K, V>, c: seq<Entry<K, V>>)
      requires Chain(head, c)
      ensures head == At(c, 0) && forall k :: 0 <= k < |c| ==> c[k].next == At(c, k + 1)
    {
    }

    /** An entry of one chain is nowhere else in it, and in no other chain. */
    lemma OnlyHere(i: nat, j: nat)
      requires Hung(b, chains, nodes) && i < |chains| && j < |chains[i]|
      ensures forall k :: 0 <= k < |chains[i]| && k != j ==> chains[i][k] != chains[i][j]
      ensures forall m :: 0 <= m < |chains| && m != i ==> chains[i][j] !in chains[m]
      ensures chains[i][j] in nodes
    {
      hide Chain, Linked;
      assert chains[i][j] in chains[i];
      Elsewhere(chains, chains[i][j]);
    }

    lemma HoldsCut(was: seq<seq<Entry<K, V>>>, i: nat, j: nat, nodes: set<Entry<K, V>>, store: map<K, V>)
      requires Holds(was, nodes, store) && Sorted(was) && i < |was| && j < |was[i]|
      ensures Holds(was[i := was[i][..j] + was[i][j + 1..]], nodes, store - {was[i][j].key})
    {
      var c, key0 := was[i], was[i][j].key;
      var now, store' := was[i := c[..j] + c[j + 1..]], store - {key0};
      assert c[j] in c;
      forall m, e | 0 <= m < |now| && e in now[m] ensures e in was[m] && e.key != key0 {
      }
      forall key {:trigger Found(now, key)} | key in store' ensures Found(now, key) {
        assert Found(was, key);
        var m := Bucket(key, |was|);
        var k :| 0 <= k < |was[m]| && was[m][k].key == key;
        var k' := if m == i && k > j then k - 1 else k;
        assert now[m][k'] == was[m][k];
      }
    }

    method Remove(i: nat, prev: Entry?<K, V>, e: Entry<K, V>, ghost j: nat)
      requires Valid() && e.key in store
      requires i < b.Length == |chains| && j < |chains[i]| && e == chains[i][j]
      requires prev == if j == 0 then null else chains[i][j - 1]
      modifies this`chains, this`store, this`len, b, nodes`next
      ensures Valid() && store == old(store) - {e.key}
    {
      hide Hung, Holds, Sorted, Rest, Upto;
      Parts(b, chains, nodes);
      ghost var was := chains;
      Cut(i, prev, e, j);
      HoldsCut(was, i, j, nodes, store);
      store := store - {e.key};
      len := len - 1;
    }

    /** Deleting removes the key's binding and no other. */
    method Del(key: K)
      requires Valid()
      modifies this`chains, this`store, this`len, b, nodes`next
      ensures Valid() && store == old(store) - {key}
    {
      var i, prev, e, j := Slot(key);
      if e == null {
        return;
      }
      Held(e);
      hide Hung, Holds, Sits;
      Remove(i, prev, e, j);
    }

    /** The keys of the first `i` chains, in the order of the chains. */
    ghost function KeysUpto(chains: seq<seq<Entry<K, V>>>, i: nat): seq<K>
      requires i <= |chains|
    {
      if i == 0 then [] else KeysUpto(chains, i - 1) + KeysOf(chains[i - 1])
    }

    ghost function KeysOf(c: seq<Entry<K, V>>): seq<K> {
      seq(|c|, k requires 0 <= k < |c| => c[k].key)
    }

    lemma {:induction false} KeysOnce(chains: seq<seq<Entry<K, V>>>, i: nat)
      requires Sorted(chains) && i <= |chains| && |chains| > 0
      ensures Distinct(KeysUpto(chains, i))
      ensures forall key :: key in KeysUpto(chains, i) <==> Bucket(key, |chains|) < i && Found(chains, key)
    {
      if i > 0 {
        KeysOnce(chains, i - 1);
        var c, before := chains[i - 1], KeysUpto(chains, i - 1);
        var own := KeysOf(c);
        forall k | 0 <= k < |c| ensures own[k] == c[k].key && Bucket(own[k], |chains|) == i - 1 {
          assert c[k] in c;
        }
        DistinctJoin(before, own);
      }
    }

    /** Walks one chain, listing its keys. */
    method ListChain(head: Entry?<K, V>, listed: seq<K>, ghost c: seq<Entry<K, V>>) returns (v: seq<K>)
      requires Chain(head, c)
      ensures v == listed + KeysOf(c)
    {
      v := listed;
      var e := head;
      ghost var k := 0;
      while e != null
        invariant k <= |c| && e == At(c, k)
        invariant v == listed + KeysOf(c)[..k]
        decreases |c| - k
      {
        v := v + [e.key];
        e, k := e.next, k + 1;
      }
    }

    lemma KeysComplete()
      requires Valid()
      ensures var v := KeysUpto(chains, |chains|);
        Distinct(v) && |v| == |store| && forall key :: key in v <==> key in store
    {
      KeysOnce(chains, |chains|);
      var v := KeysUpto(chains, |chains|);
      hide Hung, Holds, Sorted, KeysUpto;
      forall key ensures key in v <==> key in store {
        KeyFound(key);
      }
      assert Members(v) == store.Keys;
      DistinctSize(v);
    }

    lemma KeyFound(key: K)
      requires Valid()
      ensures Found(chains, key) <==> key in store
    {
      KeyInBucket(key);
    }

    lemma KeyListed(key: K)
      requires Valid()
      ensures key in KeysUpto(chains, |chains|) <==> key in store
    {
      KeysComplete();
    }

    lemma LinkedAll()
      requires Valid()
      ensures b.Length == |chains| && KeysUpto(chains, 0) == []
      ensures forall i :: 0 <= i < |chains| ==> Chain(b[i], chains[i])
    {
    }

    lemma KeysNext(i: nat)
      requires i < |chains|
      ensures KeysUpto(chains, i + 1) == KeysUpto(chains, i) + KeysOf(chains[i])
    {
    }

    /** Every key of the map, once. */
    method Keys() returns (v: seq<K>)
      requires Valid()
      ensures Distinct(v) && |v| == |store|
      ensures forall key :: key in v <==> key in store
    {
      KeysComplete();
      LinkedAll();
      hide Valid, Chain, KeysUpto, Distinct;
      v := [];
      for i := 0 to b.Length
        invariant v == KeysUpto(chains, i)
      {
        KeysNext(i);
        v := ListChain(b[i], v, chains[i]);
      }
      assert v == KeysUpto(chains, |chains|);
      forall key ensures key in v <==> key in store {
        KeyListed(key);
      }
    }
  }

  lemma DistinctJoin<T>(a: seq<T>, b: seq<T>)
    requires Distinct(a) && Distinct(b) && forall x :: x in a ==> x !in b
    ensures Distinct(a + b)
  {
    var s := a + b;
    forall j, k | 0 <= j < k < |s| ensures s[j] != s[k] {
      if j < |a| <= k {
        assert s[j] in a && s[k] in b;
      }
    }
  }

  lemma {:induction false} DistinctSize<T>(s: seq<T>)
    requires Distinct(s)
    ensures |Members(s)| == |s|
  {
    if s == [] {
      assert Members(s) == {};
    } else {
      var last := |s| - 1;
      DistinctSize(s[..last]);
      assert s[last] !in Members(s[..last]);
      assert Members(s) == Members(s[..last]) + {s[last]};
    }
  }
}
