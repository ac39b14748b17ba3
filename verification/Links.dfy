/** Capability links between worlds: a directed graph kept acyclic by a bounded search, and an
  in-degree counter that guards every free. */
module Links {
  import opened Common

  // ---------------------------------------------------------------- graphs

  type Graph<T> = map<T, seq<T>>

  ghost predicate Closed<T>(g: Graph<T>) {
    forall a, i :: a in g && 0 <= i < |g[a]| ==> g[a][i] in g
  }

  /** `t` is `n` links away from `a`. */
  ghost predicate Away<T>(g: Graph<T>, n: nat, a: T, t: T) {
    if n == 0 then a == t else a in g && exists c :: c in g[a] && Away(g, n - 1, c, t)
  }

  ghost predicate Connected<T>(g: Graph<T>, a: T, t: T) {
    exists n: nat :: n >= 1 && Away(g, n, a, t)
  }

  ghost predicate Acyclic<T>(g: Graph<T>) {
    forall a :: a in g ==> !Connected(g, a, a)
  }

  ghost function Owners<T>(g: Graph<T>, t: T): set<T> {
    set a | a in g && t in g[a]
  }

  /** A rank that every link lowers: a witness that there is no cycle. */
  ghost predicate Ranked<T>(g: Graph<T>, rank: map<T, nat>) {
    && (forall a :: a in g ==> a in rank)
    && forall a, c :: a in g && c in g[a] ==> c in rank && rank[c] < rank[a]
  }

  lemma {:induction false} RankFalls<T>(g: Graph<T>, rank: map<T, nat>, n: nat, a: T, t: T)
    requires Ranked(g, rank) && Away(g, n, a, t) && n >= 1
    ensures a in rank && t in rank && rank[t] < rank[a]
  {
    var c :| c in g[a] && Away(g, n - 1, c, t);
    if n > 1 {
      RankFalls(g, rank, n - 1, c, t);
    }
  }

  lemma RankedIsAcyclic<T>(g: Graph<T>, rank: map<T, nat>)
    requires Ranked(g, rank)
    ensures Acyclic(g)
  {
    forall a | a in g ensures !Connected(g, a, a) {
      if n: nat :| n >= 1 && Away(g, n, a, a) {
        RankFalls(g, rank, n, a, a);
      }
    }
  }

  // ------------------------------------------------------ the bounded search

  /** `baga_world_reaches`: true when `t` is found, or the depth or the step budget runs out.
      The second result is what is left of the budget. */
  ghost function Search<T>(g: Graph<T>, a: T, t: T, depth: nat, steps: int): (bool, int)
    requires Closed(g) && a in g
    decreases 66 - depth, 1, 0
  {
    if depth > 64 then (true, steps)
    else if steps - 1 < 0 then (true, steps - 1)
    else Scan(g, a, t, depth, steps - 1, 0)
  }

  /** The loop over the links of `a`, from link `i` on. */
  ghost function Scan<T>(g: Graph<T>, a: T, t: T, depth: nat, steps: int, i: nat): (bool, int)
    requires Closed(g) && a in g && i <= |g[a]| && depth <= 64
    decreases 66 - depth, 0, |g[a]| - i
  {
    if i == |g[a]| then (false, steps)
    else if g[a][i] == t then (true, steps)
    else
      var r := Search(g, g[a][i], t, depth + 1, steps);
      if r.0 then r else Scan(g, a, t, depth, r.1, i + 1)
  }

  lemma LinkedLive<T>(g: Graph<T>, a: T, i: nat)
    requires Closed(g) && a in g && i < |g[a]|
    ensures g[a][i] in g
  {
  }

  /** A negative answer is never wrong: nothing leads from `a` to `t`. */
  lemma {:induction false} SearchSound<T>(g: Graph<T>, a: T, t: T, depth: nat, steps: int)
    requires Closed(g) && a in g && !Search(g, a, t, depth, steps).0
    ensures !Connected(g, a, t)
    decreases 66 - depth, 1, 0
  {
    ScanSound(g, a, t, depth, steps - 1, 0);
    forall n: nat | n >= 1 ensures !Away(g, n, a, t) {
      forall c | c in g[a] ensures !Away(g, n - 1, c, t) {
        assert c != t && !Connected(g, c, t);
      }
    }
  }

  lemma {:induction false} ScanSound<T>(g: Graph<T>, a: T, t: T, depth: nat, steps: int, i: nat)
    requires Closed(g) && a in g && i <= |g[a]| && depth <= 64 && !Scan(g, a, t, depth, steps, i).0
    ensures forall j :: i <= j < |g[a]| ==> g[a][j] != t && !Connected(g, g[a][j], t)
    decreases 66 - depth, 0, |g[a]| - i
  {
    if i < |g[a]| {
      var r := Search(g, g[a][i], t, depth + 1, steps);
      SearchSound(g, g[a][i], t, depth + 1, steps);
      ScanSound(g, a, t, depth, r.1, i + 1);
    }
  }

  /** No chain of links from `a` is longer than `d`. */
  ghost predicate Shallow<T>(g: Graph<T>, a: T, d: nat)
    decreases d
  {
    a in g && forall c :: c in g[a] ==> d > 0 && Shallow(g, c, d - 1)
  }

  /** A positive answer given within the budget is right as well. */
  lemma {:induction false} SearchComplete<T>(g: Graph<T>, a: T, t: T, depth: nat, steps: int)
    requires Closed(g) && a in g && depth <= 64 && Shallow(g, a, 64 - depth)
    requires Search(g, a, t, depth, steps).0 && Search(g, a, t, depth, steps).1 >= 0
    ensures Connected(g, a, t)
    decreases 66 - depth, 1, 0
  {
    ScanComplete(g, a, t, depth, steps - 1, 0);
  }

  lemma {:induction false} ScanComplete<T>(g: Graph<T>, a: T, t: T, depth: nat, steps: int, i: nat)
    requires Closed(g) && a in g && i <= |g[a]| && depth <= 64 && Shallow(g, a, 64 - depth)
    requires Scan(g, a, t, depth, steps, i).0 && Scan(g, a, t, depth, steps, i).1 >= 0
    ensures Connected(g, a, t)
    decreases 66 - depth, 0, |g[a]| - i
  {
    var c := g[a][i];
    assert c in g[a];
    if c == t {
      assert Away(g, 0, c, t);
      assert Away(g, 1, a, t);
    } else {
      var r := Search(g, c, t, depth + 1, steps);
      if r.0 {
        SearchComplete(g, c, t, depth + 1, steps);
        var n: nat :| n >= 1 && Away(g, n, c, t);
        assert Away(g, n + 1, a, t);
      } else {
        ScanComplete(g, a, t, depth, r.1, i + 1);
      }
    }
  }

  /** The walks along links from `a`, of length at most `d`: the visits of a search that never stops early. */
  ghost function Visits<T>(g: Graph<T>, a: T, d: nat): nat
    requires Closed(g) && a in g
    decreases d, 1, 0
  {
    1 + VisitsFrom(g, a, d, 0)
  }

  /** Those that take link `i` of `a` or a later one. */
  ghost function VisitsFrom<T>(g: Graph<T>, a: T, d: nat, i: nat): nat
    requires Closed(g) && a in g && i <= |g[a]|
    decreases d, 0, |g[a]| - i
  {
    if d == 0 || i == |g[a]| then 0 else Visits(g, g[a][i], d - 1) + VisitsFrom(g, a, d, i + 1)
  }

  /** A search takes one step off the budget per visit, and a negative one has made every visit. */
  lemma {:induction false} SearchCost<T>(g: Graph<T>, a: T, t: T, depth: nat, steps: int)
    requires Closed(g) && a in g && depth <= 64
    ensures var r, n := Search(g, a, t, depth, steps), Visits(g, a, 64 - depth);
      r.1 >= steps - n && (!r.0 ==> r.1 == steps - n >= 0)
    decreases 66 - depth, 1, 0
  {
    if steps >= 1 {
      ScanCost(g, a, t, depth, steps - 1, 0);
    }
  }

  lemma {:induction false} ScanCost<T>(g: Graph<T>, a: T, t: T, depth: nat, steps: int, i: nat)
    requires Closed(g) && a in g && i <= |g[a]| && depth <= 64 && steps >= 0
    ensures var r, n := Scan(g, a, t, depth, steps, i), VisitsFrom(g, a, 64 - depth, i);
      r.1 >= steps - n && (!r.0 ==> r.1 == steps - n >= 0)
    decreases 66 - depth, 0, |g[a]| - i
  {
    if i < |g[a]| && g[a][i] != t && depth < 64 {
      SearchCost(g, g[a][i], t, depth + 1, steps);
      var r := Search(g, g[a][i], t, depth + 1, steps);
      if !r.0 {
        ScanCost(g, a, t, depth, r.1, i + 1);
      }
    }
  }

  /** A negative answer has seen the end of every chain. */
  lemma {:induction false} SearchDepth<T>(g: Graph<T>, a: T, t: T, depth: nat, steps: int)
    requires Closed(g) && a in g && !Search(g, a, t, depth, steps).0
    ensures depth <= 64 && Shallow(g, a, 64 - depth)
    decreases 66 - depth, 1, 0
  {
    ScanDepth(g, a, t, depth, steps - 1, 0);
  }

  lemma {:induction false} ScanDepth<T>(g: Graph<T>, a: T, t: T, depth: nat, steps: int, i: nat)
    requires Closed(g) && a in g && i <= |g[a]| && depth <= 64 && !Scan(g, a, t, depth, steps, i).0
    ensures forall j :: i <= j < |g[a]| ==> depth < 64 && Shallow(g, g[a][j], 64 - depth - 1)
    decreases 66 - depth, 0, |g[a]| - i
  {
    if i < |g[a]| {
      SearchDepth(g, g[a][i], t, depth + 1, steps);
      ScanDepth(g, a, t, depth, Search(g, g[a][i], t, depth + 1, steps).1, i + 1);
    }
  }

  /** The graph below `a` is small enough for the search: no chain is longer than `depth` allows, and there
      are no more walks than `steps`. */
  ghost predicate Small<T>(g: Graph<T>, a: T, depth: nat, steps: int)
    requires Closed(g) && a in g
  {
    depth <= 64 && Shallow(g, a, 64 - depth) && Visits(g, a, 64 - depth) <= steps
  }

  /** When the search answers no: exactly when the graph is small enough and `t` cannot be reached. */
  lemma SearchExact<T>(g: Graph<T>, a: T, t: T, depth: nat, steps: int)
    requires Closed(g) && a in g
    ensures Search(g, a, t, depth, steps).0 <==> Connected(g, a, t) || !Small(g, a, depth, steps)
  {
    if !Search(g, a, t, depth, steps).0 {
      SearchSound(g, a, t, depth, steps);
      SearchDepth(g, a, t, depth, steps);
      SearchCost(g, a, t, depth, steps);
    } else if Small(g, a, depth, steps) {
      SearchCost(g, a, t, depth, steps);
      SearchComplete(g, a, t, depth, steps);
    }
  }

  // ------------------------------------------------------------ adding a link

  /** `o` or a world from which `o` can be reached. */
  ghost predicate Above<T>(g: Graph<T>, x: T, o: T) {
    exists n: nat :: Away(g, n, x, o)
  }

  lemma AboveStep<T>(g: Graph<T>, a: T, c: T, o: T)
    requires a in g && c in g[a] && Above(g, c, o)
    ensures Above(g, a, o)
  {
    var n: nat :| Away(g, n, c, o);
    assert Away(g, n + 1, a, o);
  }

  /** Lifting everything above `o` makes room for a link to `t`. */
  ghost function Lifted<T>(g: Graph<T>, rank: map<T, nat>, o: T, t: T): map<T, nat>
    requires t in rank
  {
    map x | x in rank :: if Above(g, x, o) then rank[x] + rank[t] + 1 else rank[x]
  }

  lemma LinkKeepsRank<T>(g: Graph<T>, rank: map<T, nat>, o: T, t: T)
    requires Ranked(g, rank) && o in g && t in g && o != t && !Connected(g, t, o)
    ensures Ranked(g[o := g[o] + [t]], Lifted(g, rank, o, t))
  {
    var h, lift := g[o := g[o] + [t]], Lifted(g, rank, o, t);
    assert Away(g, 0, o, o);
    assert !Above(g, t, o);
    forall a, c | a in h && c in h[a] ensures c in lift && lift[c] < lift[a] {
      if a != o || c in g[o] {
        if Above(g, c, o) { AboveStep(g, a, c, o); }
      }
    }
  }

  /** Dropping links or a world that nobody links to keeps the rank. */
  lemma FewerLinksKeepRank<T>(g: Graph<T>, rank: map<T, nat>, h: Graph<T>)
    requires Ranked(g, rank)
    requires forall a :: a in h ==> a in g && forall c :: c in h[a] ==> c in g[a]
    ensures Ranked(h, rank)
  {
  }

  // ---------------------------------------------------------------- draining

  lemma {:induction false} Highest<T>(s: set<T>, rank: map<T, nat>) returns (x: T)
    requires s != {} && forall a :: a in s ==> a in rank
    ensures x in s && forall a :: a in s ==> rank[a] <= rank[x]
  {
    x :| x in s;
    var rest := s - {x};
    assert s == rest + {x};
    if rest != {} {
      var y := Highest(rest, rank);
      if rank[y] > rank[x] {
        x := y;
      }
    }
  }

  /** Every non-empty family of worlds has one that nobody links to. */
  lemma SomeFree<T>(g: Graph<T>, rank: map<T, nat>) returns (x: T)
    requires Ranked(g, rank) && g != map[]
    ensures x in g && Owners(g, x) == {}
  {
    assert g.Keys != {};
    x := Highest(g.Keys, rank);
    forall a | a in g ensures x !in g[a] {
      assert rank[a] <= rank[x];
    }
  }

  /** `order` frees the whole family: nobody that is still there links to the next world. */
  ghost predicate Drains<T>(g: Graph<T>, order: seq<T>)
    decreases |order|
  {
    if |order| == 0 then g == map[]
    else order[0] in g && Owners(g, order[0]) == {} && Drains(g - {order[0]}, order[1..])
  }

  lemma {:induction false} AllCanBeDrained<T>(g: Graph<T>, rank: map<T, nat>) returns (order: seq<T>)
    requires Ranked(g, rank)
    ensures Drains(g, order) && |order| == |g|
    decreases |g|
  {
    if g == map[] {
      order := [];
    } else {
      var x := SomeFree(g, rank);
      var h := g - {x};
      OneLess(g, x);
      FewerLinksKeepRank(g, rank, h);
      var rest := AllCanBeDrained(h, rank);
      order := [x] + rest;
      DrainsFrom(g, x, rest);
    }
  }

  lemma DrainsFrom<T>(g: Graph<T>, x: T, rest: seq<T>)
    requires x in g && Owners(g, x) == {} && Drains(g - {x}, rest)
    ensures Drains(g, [x] + rest)
  {
    var order := [x] + rest;
    assert |order| != 0 && order[0] == x && order[1..] == rest;
    assert Drains(g - {order[0]}, order[1..]);
  }

  lemma OneLess<T>(g: Graph<T>, x: T)
    requires x in g
    ensures |g - {x}| == |g| - 1
  {
    var h := g - {x};
    assert h.Keys == g.Keys - {x};
    assert |h.Keys| == |h|;
    assert |g.Keys| == |g|;
  }

  // ----------------------------------------------------- graph and counters

  /** What every operation keeps: no dangling link, no cycle, no duplicate, exact counters. */
  ghost predicate Ok<T>(g: Graph<T>, counts: map<T, int>, rank: map<T, nat>) {
    && Closed(g) && Ranked(g, rank) && counts.Keys == g.Keys
    && (forall a :: a in g ==> Distinct(g[a]))
    && forall a :: a in g ==> counts[a] == |Owners(g, a)|
  }

  /** Swap-remove of the element at `i`. */
  function Without<T>(s: seq<T>, i: nat): seq<T>
    requires i < |s|
  {
    s[i := s[|s| - 1]][..|s| - 1]
  }

  lemma WithoutLink<T>(s: seq<T>, i: nat)
    requires i < |s| && Distinct(s)
    ensures Distinct(Without(s, i)) && forall c :: c in Without(s, i) <==> c in s && c != s[i]
  {
    var u, n := Without(s, i), |s| - 1;
    forall c | c in s && c != s[i] ensures c in u {
      var j :| 0 <= j < |s| && s[j] == c;
      assert u[if j == n then i else j] == c;
    }
  }

  lemma OkIsClosed<T>(g: Graph<T>, counts: map<T, int>, rank: map<T, nat>)
    requires Ok(g, counts, rank)
    ensures Closed(g) && forall a :: a in g ==> Distinct(g[a])
  {
  }

  lemma OkNew<T>(g: Graph<T>, counts: map<T, int>, rank: map<T, nat>, a: T)
    requires Ok(g, counts, rank) && a !in g
    ensures Ok(g[a := []], counts[a := 0], rank[a := 0])
  {
    var h := g[a := []];
    forall b | b in g ensures Owners(h, b) == Owners(g, b) {
    }
    forall b, i | b in g && 0 <= i < |g[b]| ensures g[b][i] != a {
    }
    assert Owners(h, a) == {};
  }

  lemma OkLink<T>(g: Graph<T>, counts: map<T, int>, rank: map<T, nat>, o: T, t: T)
    requires Ok(g, counts, rank) && o in g && t in g && o != t && t !in g[o] && !Connected(g, t, o)
    ensures t in rank && Ok(g[o := g[o] + [t]], counts[t := counts[t] + 1], Lifted(g, rank, o, t))
  {
    hide Ranked, Connected;
    var h := g[o := g[o] + [t]];
    LinkKeepsRank(g, rank, o, t);
    InRank(g, rank, t);
    OwnersAfterLink(g, o, t);
    assert Closed(h) by {
      forall a, i | a in h && 0 <= i < |h[a]| ensures h[a][i] in h {
        assert a != o ==> h[a] == g[a];
      }
    }
    assert forall a :: a in h ==> Distinct(h[a]);
  }

  lemma InRank<T>(g: Graph<T>, rank: map<T, nat>, t: T)
    requires Ranked(g, rank) && t in g
    ensures t in rank
  {
  }

  lemma OwnersAfterLink<T>(g: Graph<T>, o: T, t: T)
    requires o in g && t !in g[o]
    ensures var h := g[o := g[o] + [t]];
      |Owners(h, t)| == |Owners(g, t)| + 1 && forall b :: b != t ==> Owners(h, b) == Owners(g, b)
  {
    var h := g[o := g[o] + [t]];
    assert Owners(h, t) == Owners(g, t) + {o};
    forall b | b != t ensures Owners(h, b) == Owners(g, b) {
    }
  }

  lemma OwnersAfterUnlink<T>(g: Graph<T>, o: T, i: nat)
    requires o in g && i < |g[o]| && Distinct(g[o])
    ensures var t, h := g[o][i], g[o := Without(g[o], i)];
      |Owners(h, t)| == |Owners(g, t)| - 1 && forall b :: b != t ==> Owners(h, b) == Owners(g, b)
  {
    var t, h := g[o][i], g[o := Without(g[o], i)];
    WithoutLink(g[o], i);
    assert t in g[o];
    assert Owners(h, t) == Owners(g, t) - {o};
    forall b | b != t ensures Owners(h, b) == Owners(g, b) {
    }
  }

  lemma OkUnlink<T>(g: Graph<T>, counts: map<T, int>, rank: map<T, nat>, o: T, i: nat)
    requires Ok(g, counts, rank) && o in g && i < |g[o]|
    ensures g[o][i] != o && g[o][i] in g
    ensures Ok(g[o := Without(g[o], i)], counts[g[o][i] := counts[g[o][i]] - 1], rank)
  {
    assert g[o][i] in g[o];
    RankAfterUnlink(g, rank, o, i);
    OwnersAfterUnlink(g, o, i);
    ClosedAfterUnlink(g, o, i);
    WithoutLink(g[o], i);
    hide Ranked, Closed, Owners;
  }

  lemma RankAfterUnlink<T>(g: Graph<T>, rank: map<T, nat>, o: T, i: nat)
    requires Ranked(g, rank) && o in g && i < |g[o]| && Distinct(g[o])
    ensures Ranked(g[o := Without(g[o], i)], rank)
  {
    WithoutLink(g[o], i);
    FewerLinksKeepRank(g, rank, g[o := Without(g[o], i)]);
  }

  lemma ClosedAfterUnlink<T>(g: Graph<T>, o: T, i: nat)
    requires Closed(g) && o in g && i < |g[o]| && Distinct(g[o])
    ensures Closed(g[o := Without(g[o], i)])
  {
    var h := g[o := Without(g[o], i)];
    WithoutLink(g[o], i);
    forall a, j | a in h && 0 <= j < |h[a]| ensures h[a][j] in h {
      assert h[a][j] in g[a];
    }
  }

  /** The counters after one was taken off for each world of `s`. */
  ghost function TakenOff<T>(counts: map<T, int>, s: seq<T>): map<T, int> {
    map b | b in counts :: counts[b] - if b in s then 1 else 0
  }

  lemma OkFree<T>(g: Graph<T>, counts: map<T, int>, rank: map<T, nat>, a: T)
    requires Ok(g, counts, rank) && a in g && counts[a] == 0
    ensures Ok(g - {a}, TakenOff(counts, g[a]) - {a}, rank)
  {
    var h := g - {a};
    assert Owners(g, a) == {};
    FewerLinksKeepRank(g, rank, h);
    OwnersAfterFree(g, a);
    ClosedAfterFree(g, a);
  }

  lemma OwnersAfterFree<T>(g: Graph<T>, a: T)
    requires a in g
    ensures forall b :: |Owners(g - {a}, b)| == |Owners(g, b)| - if b in g[a] then 1 else 0
  {
    forall b ensures |Owners(g - {a}, b)| == |Owners(g, b)| - if b in g[a] then 1 else 0 {
      assert Owners(g - {a}, b) == Owners(g, b) - {a};
      assert a in Owners(g, b) <==> b in g[a];
    }
  }

  lemma ClosedAfterFree<T>(g: Graph<T>, a: T)
    requires Closed(g) && Owners(g, a) == {}
    ensures Closed(g - {a})
  {
    forall b, i | b in g - {a} && 0 <= i < |g[b]| ensures g[b][i] in g - {a} {
      assert b !in Owners(g, a);
      assert g[b][i] in g[b];
    }
  }

  // ------------------------------------------------------------- the runtime

  class Arena {
    var links: seq<Arena>
    var linkedBy: int
    var frozen: bool

    constructor ()
      ensures links == [] && linkedBy == 0 && !frozen
    {
      links, linkedBy, frozen := [], 0, false;
    }
  }

  /** The worlds that were created and not freed yet. */
  class Family {
    ghost var live: set<Arena>
    ghost var rank: map<Arena, nat>

    ghost function Graph(): (g: Graph<Arena>)
      reads this, live
      ensures g.Keys == live
    {
      map a | a in live :: a.links
    }

    ghost function Counts(): (m: map<Arena, int>)
      reads this, live
      ensures m.Keys == live
    {
      map a | a in live :: a.linkedBy
    }

    ghost predicate Valid()
      reads this, live
    {
      Ok<Arena>(Graph(), Counts(), rank)
    }

    constructor ()
      ensures Valid() && live == {}
    {
      live, rank := {}, map[];
    }

    /** In every state the graph has no cycle. */
    lemma NoCycle()
      requires Valid()
      ensures Acyclic<Arena>(Graph())
    {
      RankedIsAcyclic<Arena>(Graph(), rank);
    }

    /** In every state some world can be freed, and all of them in a suitable order. */
    lemma CanDrain() returns (order: seq<Arena>)
      requires Valid()
      ensures Drains<Arena>(Graph(), order) && |order| == |live|
    {
      order := AllCanBeDrained<Arena>(Graph(), rank);
      assert |Graph().Keys| == |Graph()|;
    }

    /** `arena_new` as far as links are concerned. */
    method New() returns (a: Arena)
      requires Valid()
      modifies this
      ensures Valid() && fresh(a) && live == old(live) + {a} && Graph() == old(Graph())[a := []]
    {
      hide Ok;
      ghost var g, c := Graph(), Counts();
      a := new Arena();
      OkNew<Arena>(g, c, rank, a);
      live, rank := live + {a}, rank[a := 0];
      assert Graph() == g[a := []] && Counts() == c[a := 0];
    }

    /** `baga_world_reaches`. It answers no exactly when the graph below `a` is small enough and `t` cannot be
        reached. */
    method Reaches(a: Arena, t: Arena, depth: nat, steps: int) returns (found: bool, left: int)
      requires Closed<Arena>(Graph()) && a in live
      ensures (found, left) == Search<Arena>(Graph(), a, t, depth, steps)
      ensures found <==> Connected<Arena>(Graph(), a, t) || !Small<Arena>(Graph(), a, depth, steps)
      decreases 66 - depth
    {
      hide Small, Connected, Closed;
      ghost var g := Graph();
      SearchExact<Arena>(g, a, t, depth, steps);
      if depth > 64 { return true, steps; }
      left := steps - 1;
      if left < 0 { return true, left; }
      var i := 0;
      while i < |a.links|
        invariant 0 <= i <= |a.links| == |g[a]|
        invariant Scan<Arena>(g, a, t, depth, left, i) == Search<Arena>(g, a, t, depth, steps)
      {
        var c := a.links[i];
        assert g[a][i] == c;
        assert c in g by { LinkedLive<Arena>(g, a, i); }
        if c == t { return true, left; }
        found, left := Reaches(c, t, depth + 1, left);
        if found { return; }
        i := i + 1;
      }
      found := false;
    }

    /** `baga_world_link`. A frozen owner, a self link and a positive search are fatal: nothing happens and the
        result is false. So a link is made exactly when the owner is not frozen, no cycle would close, and the
        graph below the target has no chain of more than 64 links and no more than 10000 walks. */
    method Link(o: Arena, t: Arena) returns (ok: bool)
      requires Valid() && o in live && t in live
      modifies `rank, o`links, t`linkedBy
      ensures Valid() && live == old(live)
      ensures var g := old(Graph());
        ok <==> !o.frozen && o != t && !Connected<Arena>(g, t, o) && Small<Arena>(g, t, 0, 10000)
      ensures Graph() ==
        if !ok || t in old(o.links) then old(Graph()) else old(Graph())[o := old(o.links) + [t]]
    {
      hide Search, Ok, Closed, Connected, Small;
      OkIsClosed<Arena>(Graph(), Counts(), rank);
      if o.frozen || o == t { return false; }
      var cut, left := Reaches(t, o, 0, 10000);
      if cut { return false; }
      var known := Linked(o, t);
      if !known {
        AddLink(o, t);
      }
      ok := true;
    }

    method AddLink(o: Arena, t: Arena)
      requires Valid() && o in live && t in live && o != t && t !in o.links && !Connected<Arena>(Graph(), t, o)
      modifies `rank, o`links, t`linkedBy
      ensures Valid() && live == old(live) && Graph() == old(Graph())[o := old(o.links) + [t]]
    {
      hide Ok, Connected;
      ghost var g, c := Graph(), Counts();
      OkLink<Arena>(g, c, rank, o, t);
      o.links := o.links + [t];
      t.linkedBy := t.linkedBy + 1;
      rank := Lifted<Arena>(g, rank, o, t);
      assert Graph() == g[o := g[o] + [t]];
      assert Counts() == c[t := c[t] + 1];
    }

    method Linked(o: Arena, t: Arena) returns (known: bool)
      ensures known <==> t in o.links
    {
      var i := 0;
      while i < |o.links|
        invariant 0 <= i <= |o.links| && t !in o.links[..i]
      {
        if o.links[i] == t { return true; }
        i := i + 1;
      }
      known := false;
    }

    /** `baga_world_unlink`: swap-remove of the link, if it is there. */
    method Unlink(o: Arena, t: Arena)
      requires Valid() && o in live && t in live && !o.frozen
      modifies o`links, t`linkedBy
      ensures Valid()
      ensures t !in old(o.links) ==> Graph() == old(Graph())
      ensures t in old(o.links) ==>
        exists i :: 0 <= i < |old(o.links)| && old(o.links)[i] == t &&
          Graph() == old(Graph())[o := Without<Arena>(old(o.links), i)]
    {
      hide Ok;
      ghost var g, c := Graph(), Counts();
      var i := 0;
      while i < |o.links|
        invariant 0 <= i <= |o.links| && t !in o.links[..i]
        invariant o.links == g[o] && t.linkedBy == c[t]
      {
        if o.links[i] == t {
          OkUnlink<Arena>(g, c, rank, o, i);
          o.links := Without<Arena>(o.links, i);
          t.linkedBy := t.linkedBy - 1;
          assert Graph() == g[o := Without<Arena>(g[o], i)];
          assert Counts() == c[t := c[t] - 1];
          return;
        }
        i := i + 1;
      }
      assert Graph() == g && Counts() == c;
    }

    /** `world_free`: fatal while somebody links to the world. */
    method Free(a: Arena)
      requires Valid() && a in live && a.linkedBy == 0
      modifies `live, a.links`linkedBy
      ensures Valid() && live == old(live) - {a} && Graph() == old(Graph()) - {a}
    {
      ghost var g, c := Graph(), Counts();
      OkFree<Arena>(g, c, rank, a);
      LinksLive(g, c, rank, a);
      hide Ok, Closed;
      assert g[a] == a.links;
      TakeLinksOff(a);
      assert Graph() == g;
      assert Counts() == TakenOff<Arena>(c, g[a]);
      Retire(a);
    }

    ghost method Retire(a: Arena)
      modifies `live
      ensures live == old(live) - {a} && Graph() == old(Graph()) - {a} && Counts() == old(Counts()) - {a}
    {
      live := live - {a};
    }

    method TakeLinksOff(a: Arena)
      requires Distinct<Arena>(a.links)
      modifies a.links`linkedBy
      ensures forall b :: b in a.links ==> b.linkedBy == old(b.linkedBy) - 1
    {
      var i := 0;
      while i < |a.links|
        invariant 0 <= i <= |a.links|
        invariant forall j :: 0 <= j < |a.links| ==>
          a.links[j].linkedBy == old(a.links[j].linkedBy) - if j < i then 1 else 0
      {
        a.links[i].linkedBy := a.links[i].linkedBy - 1;
        i := i + 1;
      }
    }

    lemma LinksLive(g: Graph<Arena>, c: map<Arena, int>, rank: map<Arena, nat>, a: Arena)
      requires Ok<Arena>(g, c, rank) && a in g
      ensures Distinct<Arena>(g[a]) && forall j :: 0 <= j < |g[a]| ==> g[a][j] in g
    {
    }
  }
}
