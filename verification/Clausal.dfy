/** Clauses, what follows from them, and the trail of a solver that propagates, learns and jumps back: the facts
    that the steps of SatSolver rest on. */
module Clausal {
  import opened Common

  /** A variable is 1, 2, ...; a literal is a variable or its negation. */
  type Lit = int

  type Clause = seq<Lit>

  function Var(l: Lit): nat {
    if l > 0 then l else -l
  }

  // ------------------------------------------------------------------ what clauses mean

  ghost predicate True(m: int -> bool, l: Lit) {
    if l > 0 then m(l) else !m(-l)
  }

  ghost predicate Holds(m: int -> bool, c: Clause) {
    exists l :: l in c && True(m, l)
  }

  ghost predicate Models(m: int -> bool, f: seq<Clause>) {
    forall c :: c in f ==> Holds(m, c)
  }

  ghost predicate Implies(f: seq<Clause>, c: Clause) {
    forall m :: Models(m, f) ==> Holds(m, c)
  }

  ghost predicate Satisfiable(f: seq<Clause>) {
    exists m :: Models(m, f)
  }

  ghost predicate InRange(c: Clause, n: nat) {
    forall l :: l in c ==> 0 < Var(l) <= n
  }

  /** No clause repeats a literal. */
  ghost predicate Plain(f: seq<Clause>) {
    forall c :: c in f ==> Distinct(c)
  }

  // ------------------------------------------------------------------ the trail

  /** Literals made true, oldest first: each variable once. */
  ghost predicate Proper(trail: seq<Lit>, n: nat) {
    && InRange(trail, n)
    && forall i, j :: 0 <= i < j < |trail| ==> Var(trail[i]) != Var(trail[j])
  }

  /** `assign` says of each variable what the trail says. */
  ghost predicate Agree(assign: seq<int>, trail: seq<Lit>) {
    forall v :: 0 < v < |assign| ==> assign[v] == Sign(trail, v)
  }

  ghost function Sign(trail: seq<Lit>, v: Lit): int {
    if v in trail then 1 else if -v in trail then -1 else 0
  }

  ghost predicate False(c: Clause, trail: seq<Lit>) {
    forall l :: l in c ==> -l in trail
  }

  /** All places of the clause but one, which holds `l`, are false. */
  ghost predicate UnitFor(c: Clause, l: Lit, trail: seq<Lit>) {
    && l in c && (forall x :: x in c ==> x == l || -x in trail)
    && forall i, j :: 0 <= i < j < |c| ==> c[i] != l || c[j] != l
  }

  ghost predicate Sated(c: Clause, trail: seq<Lit>) {
    exists l :: l in c && l in trail
  }

  /** Two places of the clause are not false, as far as the literals in `done` go. */
  ghost predicate TwoFree(c: Clause, done: seq<Lit>) {
    exists i, j :: 0 <= i < j < |c| && -c[i] !in done && -c[j] !in done
  }

  /** How many levels have begun at or before position `i`; level `k + 1` begins at `lim[k]`. */
  ghost function Lev(lim: seq<nat>, i: nat): (k: nat)
    ensures k <= |lim|
  {
    if |lim| == 0 then 0
    else if lim[|lim| - 1] <= i then |lim|
    else Lev(lim[..|lim| - 1], i)
  }

  ghost predicate Rising(lim: seq<nat>, n: nat) {
    && (forall j, k :: 0 <= j < k < |lim| ==> lim[j] < lim[k])
    && forall k :: 0 <= k < |lim| ==> lim[k] < n
  }

  lemma {:induction false} LevIs(lim: seq<nat>, n: nat, i: nat)
    requires Rising(lim, n)
    ensures forall k :: 0 <= k < |lim| ==> (k < Lev(lim, i) <==> lim[k] <= i)
  {
    if |lim| > 0 && lim[|lim| - 1] > i {
      var l := lim[..|lim| - 1];
      LevIs(l, n, i);
      assert forall k :: 0 <= k < |l| ==> l[k] == lim[k];
    }
  }

  lemma {:induction false} LevCut(lim: seq<nat>, n: nat, k: nat, i: nat)
    requires Rising(lim, n) && k <= |lim| && (k < |lim| ==> i < lim[k])
    ensures Lev(lim[..k], i) == Lev(lim, i)
    decreases |lim|
  {
    if k < |lim| {
      var l := lim[..|lim| - 1];
      assert lim[|lim| - 1] > i;
      LevCut(l, n, k, i);
      assert l[..k] == lim[..k];
    } else {
      assert lim[..k] == lim;
    }
  }

  ghost predicate Leveled(trail: seq<Lit>, lim: seq<nat>, level: seq<nat>) {
    forall i :: 0 <= i < |trail| ==> Var(trail[i]) < |level| && level[Var(trail[i])] == Lev(lim, i)
  }

  /** Why position `i` is on the trail: clause `r - 1`, or for `r == 0` a decision or nothing but the formula. */
  ghost predicate ReasonOk(cl: seq<Clause>, trail: seq<Lit>, lim: seq<nat>, i: nat, r: nat)
    requires i < |trail|
  {
    && r <= |cl|
    && (r > 0 ==> UnitFor(cl[r - 1], trail[i], trail[..i]))
    && (r == 0 && Lev(lim, i) > 0 ==> lim[Lev(lim, i) - 1] == i)
  }

  ghost predicate Reasoned(cl: seq<Clause>, trail: seq<Lit>, lim: seq<nat>, reason: seq<nat>) {
    forall i :: 0 <= i < |trail| ==>
      Var(trail[i]) < |reason| && ReasonOk(cl, trail, lim, i, reason[Var(trail[i])])
  }

  /** What was made true before the first decision follows from the formula. */
  ghost predicate Rooted(f: seq<Clause>, trail: seq<Lit>, lim: seq<nat>) {
    forall i :: 0 <= i < |trail| && Lev(lim, i) == 0 ==> Implies(f, [trail[i]])
  }

  /** The clauses are those of the formula and some that follow from them. */
  ghost predicate Entailed(f: seq<Clause>, cl: seq<Clause>) {
    (forall c :: c in cl ==> Implies(f, c)) && forall c :: c in f ==> c in cl
  }

  /** Every clause is listed under each of its literals. */
  ghost predicate Indexed(cl: seq<Clause>, occ: map<Lit, seq<nat>>) {
    && (forall l, k :: l in occ && 0 <= k < |occ[l]| ==> occ[l][k] < |cl| && l in cl[occ[l][k]])
    && forall i, l :: 0 <= i < |cl| && l in cl[i] ==> l in occ && i in occ[l]
  }

  // ------------------------------------------------------------------ literals and implication

  lemma OneLiteral(m: int -> bool, l: Lit)
    ensures Holds(m, [l]) <==> True(m, l)
  {
    assert l in [l];
  }

  lemma Contradicts(f: seq<Clause>, m: int -> bool, x: Lit)
    requires Models(m, f) && Implies(f, [-x]) && x != 0
    ensures !True(m, x)
  {
    OneLiteral(m, -x);
  }

  /** A clause of which all literals but one contradict what follows from the formula: that one follows too. */
  lemma UnitFollows(f: seq<Clause>, c: Clause, l: Lit)
    requires Implies(f, c) && forall x :: x in c && x != l ==> x != 0 && Implies(f, [-x])
    ensures Implies(f, [l])
  {
    forall m | Models(m, f) ensures Holds(m, [l]) {
      forall x | x in c && x != l ensures !True(m, x) {
        Contradicts(f, m, x);
      }
      OneLiteral(m, l);
    }
  }

  /** And if all contradict it, the formula has no model. */
  lemma NoModel(f: seq<Clause>, c: Clause)
    requires Implies(f, c) && forall x :: x in c ==> x != 0 && Implies(f, [-x])
    ensures !Satisfiable(f)
  {
    forall m ensures !Models(m, f) {
      forall x | Models(m, f) && x in c ensures !True(m, x) {
        Contradicts(f, m, x);
      }
    }
  }

  // ------------------------------------------------------------------ one more literal on the trail

  lemma NotBoth(trail: seq<Lit>, n: nat, l: Lit)
    requires Proper(trail, n) && l != 0
    ensures !(l in trail && -l in trail)
  {
    forall i, j | 0 <= i < |trail| && 0 <= j < |trail| && trail[i] == l ensures trail[j] != -l {
      assert Var(l) == Var(-l);
    }
  }

  lemma PushAgree(assign: seq<int>, trail: seq<Lit>, l: Lit)
    requires Agree(assign, trail) && 0 < Var(l) < |assign| && l !in trail && -l !in trail
    ensures Agree(assign[Var(l) := if l > 0 then 1 else -1], trail + [l])
  {
    var assign', trail' := assign[Var(l) := if l > 0 then 1 else -1], trail + [l];
    forall v | 0 < v < |assign'| ensures assign'[v] == Sign(trail', v) {
      assert v != Var(l) ==> assign[v] == Sign(trail, v);
    }
  }

  lemma PushProper(trail: seq<Lit>, n: nat, l: Lit)
    requires Proper(trail, n) && 0 < Var(l) <= n && l !in trail && -l !in trail
    ensures Proper(trail + [l], n)
  {
    forall i | 0 <= i < |trail| ensures Var(trail[i]) != Var(l) {
      assert trail[i] in trail;
    }
  }

  /** A new level begins with `l`, or `l` joins the newest one. */
  ghost predicate Opens(lim: seq<nat>, lim': seq<nat>, n: nat) {
    lim' == lim || lim' == lim + [n]
  }

  lemma PushLev(lim: seq<nat>, lim': seq<nat>, n: nat)
    requires Rising(lim, n) && Opens(lim, lim', n)
    ensures Rising(lim', n + 1) && Lev(lim', n) == |lim'|
    ensures forall i :: 0 <= i < n ==> Lev(lim', i) == Lev(lim, i)
  {
    if lim' == lim + [n] {
      assert lim'[..|lim|] == lim;
    }
  }

  lemma PushLeveled(trail: seq<Lit>, lim: seq<nat>, lim': seq<nat>, level: seq<nat>, l: Lit, n: nat)
    requires Proper(trail + [l], n) && Rising(lim, |trail|) && Opens(lim, lim', |trail|) && |level| == n + 1
    requires Leveled(trail, lim, level)
    ensures Leveled(trail + [l], lim', level[Var(l) := |lim'|])
  {
    PushLev(lim, lim', |trail|);
    var trail' := trail + [l];
    assert l in trail';
    forall i | 0 <= i < |trail| ensures Var(trail[i]) != Var(l) {
      assert trail'[i] == trail[i] && trail'[|trail|] == l;
    }
  }

  lemma PushReasoned(cl: seq<Clause>, trail: seq<Lit>, lim: seq<nat>, lim': seq<nat>, reason: seq<nat>, l: Lit,
                     n: nat, r: nat)
    requires Proper(trail + [l], n) && Rising(lim, |trail|) && Opens(lim, lim', |trail|) && |reason| == n + 1
    requires Reasoned(cl, trail, lim, reason) && r <= |cl|
    requires r == 0 ==> lim' == [] || lim' == lim + [|trail|]
    requires r > 0 ==> UnitFor(cl[r - 1], l, trail)
    ensures Reasoned(cl, trail + [l], lim', reason[Var(l) := r])
  {
    PushLev(lim, lim', |trail|);
    var trail', reason' := trail + [l], reason[Var(l) := r];
    assert l in trail';
    forall i | 0 <= i < |trail'|
      ensures Var(trail'[i]) < |reason'| && ReasonOk(cl, trail', lim', i, reason'[Var(trail'[i])])
    {
      assert trail'[..i] == trail[..i];
      if i < |trail| {
        assert trail'[i] == trail[i] && trail'[|trail|] == l;
        assert ReasonOk(cl, trail, lim, i, reason[Var(trail[i])]);
      } else {
        assert trail[..i] == trail;
      }
    }
  }

  lemma PushRooted(f: seq<Clause>, trail: seq<Lit>, lim: seq<nat>, lim': seq<nat>, l: Lit)
    requires Rising(lim, |trail|) && Opens(lim, lim', |trail|) && Rooted(f, trail, lim)
    requires lim' == [] ==> Implies(f, [l])
    ensures Rooted(f, trail + [l], lim')
  {
    hide Implies;
    PushLev(lim, lim', |trail|);
  }

  lemma RootUnit(f: seq<Clause>, c: Clause, l: Lit, trail: seq<Lit>, n: nat)
    requires Implies(f, c) && InRange(c, n) && UnitFor(c, l, trail) && Rooted(f, trail, [])
    ensures Implies(f, [l])
  {
    hide Implies;
    forall x | x in c && x != l ensures x != 0 && Implies(f, [-x]) {
      var i :| 0 <= i < |trail| && trail[i] == -x;
      assert Lev([], i) == 0;
    }
    UnitFollows(f, c, l);
  }

  lemma RootConflict(f: seq<Clause>, c: Clause, trail: seq<Lit>, n: nat)
    requires Implies(f, c) && InRange(c, n) && False(c, trail) && Rooted(f, trail, [])
    ensures !Satisfiable(f)
  {
    hide Implies;
    forall x | x in c ensures x != 0 && Implies(f, [-x]) {
      var i :| 0 <= i < |trail| && trail[i] == -x;
      assert Lev([], i) == 0;
    }
    NoModel(f, c);
  }

  // ------------------------------------------------------------------ what propagation leaves

  /** A clause that calls for nothing: it is true, or two places are not false as far as `done` goes. */
  ghost predicate Calm(c: Clause, trail: seq<Lit>, done: seq<Lit>) {
    Sated(c, trail) || TwoFree(c, done)
  }

  ghost predicate AllCalm(cl: seq<Clause>, trail: seq<Lit>, q: nat)
    requires q <= |trail|
  {
    forall c :: c in cl ==> Calm(c, trail, trail[..q])
  }

  /** A false clause, one literal of which is still waiting to be propagated. */
  ghost predicate Pending(c: Clause, trail: seq<Lit>, q: nat)
    requires q <= |trail|
  {
    False(c, trail) && exists l :: l in c && -l in trail[q..]
  }

  lemma Scanned(c: Clause, trail: seq<Lit>, n: nat, t0: seq<Lit>, q: nat)
    requires Proper(trail, n) && InRange(c, n) && t0 <= trail && q <= |t0|
    requires Sated(c, trail) || TwoFree(c, trail)
    ensures Calm(c, trail, trail[..q]) && !False(c, t0)
  {
    if Sated(c, trail) {
      var l :| l in c && l in trail;
      NotBoth(trail, n, l);
      assert -l !in t0;
    } else {
      var i, j :| 0 <= i < j < |c| && -c[i] !in trail && -c[j] !in trail;
      assert -c[i] !in trail[..q] && -c[j] !in trail[..q];
      assert c[i] in c;
    }
  }

  /** Clauses without the literal just made false stay calm, true clauses stay true. */
  lemma CalmStays(c: Clause, t0: seq<Lit>, trail: seq<Lit>, q: nat)
    requires t0 <= trail && 0 < q <= |t0| && Calm(c, t0, t0[..q - 1]) && -t0[q - 1] !in c
    ensures Calm(c, trail, trail[..q])
  {
    if TwoFree(c, t0[..q - 1]) {
      var i, j :| 0 <= i < j < |c| && -c[i] !in t0[..q - 1] && -c[j] !in t0[..q - 1];
      assert trail[..q] == t0[..q - 1] + [t0[q - 1]];
      assert c[i] in c && c[j] in c;
      assert -c[i] !in trail[..q] && -c[j] !in trail[..q];
    } else {
      var l :| l in c && l in t0;
    }
  }

  lemma LongerCalm(c: Clause, t0: seq<Lit>, trail: seq<Lit>, done: seq<Lit>)
    requires t0 <= trail && Calm(c, t0, done)
    ensures Calm(c, trail, done)
  {
    if Sated(c, t0) {
      var l :| l in c && l in t0;
    }
  }

  /** A conflict in a clause that was calm and repeats no literal is found before its last literal is propagated. */
  lemma FoundEarly(c: Clause, t0: seq<Lit>, trail: seq<Lit>, n: nat, q: nat)
    requires t0 <= trail && 0 < q <= |t0| && Calm(c, t0, t0[..q - 1]) && Proper(trail, n) && InRange(c, n)
    requires Distinct(c) && False(c, trail)
    ensures Pending(c, trail, q)
  {
    if Sated(c, t0) {
      var l :| l in c && l in t0;
      NotBoth(trail, n, l);
    }
    var i, j :| 0 <= i < j < |c| && -c[i] !in t0[..q - 1] && -c[j] !in t0[..q - 1];
    var k := if -c[i] == t0[q - 1] then j else i;
    assert trail[..q] == t0[..q - 1] + [t0[q - 1]] && trail == trail[..q] + trail[q..];
    assert c[k] in c && -c[k] in trail;
    assert -c[k] !in trail[..q];
  }

  lemma AllDone(c: Clause, trail: seq<Lit>)
    ensures !Pending(c, trail, |trail|)
  {
  }

  /** A trail is no longer than there are variables. */
  lemma {:induction false} TrailFits(trail: seq<Lit>, n: nat)
    requires Proper(trail, n)
    ensures |trail| <= n
    decreases n
  {
    if trail != [] {
      assert trail[0] in trail;
      if i :| 0 <= i < |trail| && Var(trail[i]) == n {
        var rest := trail[..i] + trail[i + 1..];
        forall l | l in rest ensures 0 < Var(l) <= n - 1 {
          var j :| 0 <= j < |rest| && rest[j] == l;
          assert l == trail[if j < i then j else j + 1];
          assert l in trail;
        }
        TrailFits(rest, n - 1);
      } else {
        forall l | l in trail ensures 0 < Var(l) <= n - 1 {
          var j :| 0 <= j < |trail| && trail[j] == l;
          assert l in trail;
        }
        TrailFits(trail, n - 1);
      }
    }
  }

  // ------------------------------------------------------------------ conflict analysis

  /** Whatever satisfies the formula makes one of these literals true. */
  ghost predicate Entails(f: seq<Clause>, s: set<Lit>) {
    forall m :: Models(m, f) ==> exists l :: l in s && True(m, l)
  }

  /** What is left of the conflict: the literals set aside, and those of the current level still to be resolved. */
  ghost function Goal(trail: seq<Lit>, learn: Clause, pend: set<nat>): (s: set<Lit>)
    requires forall k :: k in pend ==> k < |trail|
  {
    Members(learn) + set k | k in pend :: -trail[k]
  }

  /** The literal was false already before the first decision. */
  ghost predicate AtRoot(trail: seq<Lit>, lim: seq<nat>, l: Lit) {
    exists k :: 0 <= k < |trail| && trail[k] == -l && Lev(lim, k) == 0
  }

  /** Each literal but `p` has been gathered, or is false anyway. */
  ghost predicate Covered(trail: seq<Lit>, lim: seq<nat>, c: Clause, p: Lit, s: set<Lit>) {
    forall l :: l in c ==> l == p || l in s || AtRoot(trail, lim, l)
  }

  lemma RootFalse(f: seq<Clause>, trail: seq<Lit>, lim: seq<nat>, n: nat, m: int -> bool, l: Lit)
    requires Proper(trail, n) && Rooted(f, trail, lim) && AtRoot(trail, lim, l) && Models(m, f)
    ensures !True(m, l)
  {
    var k :| 0 <= k < |trail| && trail[k] == -l && Lev(lim, k) == 0;
    assert trail[k] in trail;
    assert Implies(f, [-l]);
    Contradicts(f, m, l);
  }

  /** Resolution with the reason of `p`; or, for `p == 0`, what a clause says before any. */
  lemma Resolve(f: seq<Clause>, trail: seq<Lit>, n: nat, lim: seq<nat>, c: Clause, p: Lit, s: set<Lit>, s': set<Lit>)
    requires Proper(trail, n) && Rooted(f, trail, lim)
    requires Implies(f, c) && 0 !in c && Covered(trail, lim, c, p, s')
    requires p != 0 ==> Entails(f, s + {-p}) && s <= s'
    ensures Entails(f, s')
  {
    forall m | Models(m, f) ensures exists l :: l in s' && True(m, l) {
      var l :| l in c && True(m, l);
      if AtRoot(trail, lim, l) {
        RootFalse(f, trail, lim, n, m, l);
      }
      if l == p {
        var x :| x in s + {-p} && True(m, x);
        assert x != -p;
      }
    }
  }

  /** The literal is false, since a level from 1 to `bj`. */
  ghost predicate Low(trail: seq<Lit>, lim: seq<nat>, l: Lit, bj: nat) {
    exists k :: 0 <= k < |trail| && trail[k] == -l && 1 <= Lev(lim, k) <= bj
  }

  /** One of the literals is false exactly since level `bj`. */
  ghost predicate Highest(trail: seq<Lit>, lim: seq<nat>, learn: Clause, bj: nat) {
    exists j, k :: 0 <= j < |learn| && 0 <= k < |trail| && trail[k] == -learn[j] && Lev(lim, k) == bj
  }

  ghost predicate OneVarEach(learn: Clause) {
    forall i, j :: 0 <= i < j < |learn| ==> Var(learn[i]) != Var(learn[j])
  }

  /** The literals set aside are false since levels 1 to `bj`. */
  ghost predicate Aside(trail: seq<Lit>, lim: seq<nat>, learn: Clause, bj: nat) {
    && (forall l :: l in learn ==> Low(trail, lim, l, bj))
    && OneVarEach(learn) && bj < |lim|
    && (if learn == [] then bj == 0 else Highest(trail, lim, learn, bj))
  }

  /** The positions of the current level that are to be resolved lie between its start and `index`. */
  ghost predicate Open(trail: seq<Lit>, lim: seq<nat>, pend: set<nat>, index: int)
    requires |lim| > 0
  {
    forall k :: k in pend ==> lim[|lim| - 1] <= k <= index && k < |trail|
  }

  /** `seen` marks the variables of both. */
  ghost predicate Marks(trail: seq<Lit>, learn: Clause, pend: set<nat>, seen: set<nat>)
    requires forall k :: k in pend ==> k < |trail|
  {
    forall v :: v in seen <==> (exists l :: l in learn && Var(l) == v) || (exists k :: k in pend && Var(trail[k]) == v)
  }

  /** A false literal whose variable is marked is one of those gathered. */
  lemma SeenBefore(trail: seq<Lit>, n: nat, lim: seq<nat>, learn: Clause, bj: nat, pend: set<nat>, index: int,
                   seen: set<nat>, l: Lit)
    requires Proper(trail, n) && Aside(trail, lim, learn, bj) && |lim| > 0 && Open(trail, lim, pend, index)
    requires Marks(trail, learn, pend, seen) && Var(l) in seen && -l in trail && l != 0
    ensures l in Goal(trail, learn, pend)
  {
    NotBoth(trail, n, l);
    if x :| x in learn && Var(x) == Var(l) {
      assert Low(trail, lim, x, bj);
      assert -x in trail;
      assert x == l;
    } else {
      var k :| k in pend && Var(trail[k]) == Var(l);
      assert trail[k] in trail;
      assert trail[k] == -l;
    }
  }

  /** A literal of the current level is added to those to be resolved, */
  lemma Wait(trail: seq<Lit>, n: nat, lim: seq<nat>, learn: Clause, pend: set<nat>, index: int, seen: set<nat>, k: nat)
    requires Proper(trail, n) && |lim| > 0 && Rising(lim, |trail|) && Open(trail, lim, pend, index)
    requires Marks(trail, learn, pend, seen)
    requires k <= index && k < |trail| && Lev(lim, k) == |lim| && Var(trail[k]) !in seen
    ensures k !in pend && Open(trail, lim, pend + {k}, index)
    ensures Marks(trail, learn, pend + {k}, seen + {Var(trail[k])})
    ensures Goal(trail, learn, pend + {k}) == Goal(trail, learn, pend) + {-trail[k]}
  {
    LevIs(lim, |trail|, k);
    var pend', seen' := pend + {k}, seen + {Var(trail[k])};
    forall v ensures v in seen' <==>
      (exists l :: l in learn && Var(l) == v) || (exists j :: j in pend' && Var(trail[j]) == v)
    {
      if j :| j in pend && Var(trail[j]) == v {
        assert j in pend';
      }
      assert k in pend';
    }
  }

  /** or one of an older level is set aside. */
  lemma SetAside(trail: seq<Lit>, n: nat, lim: seq<nat>, learn: Clause, bj: nat, pend: set<nat>, index: int,
                 seen: set<nat>, l: Lit, k: nat)
    requires Proper(trail, n) && |lim| > 0 && Open(trail, lim, pend, index) && Aside(trail, lim, learn, bj)
    requires Marks(trail, learn, pend, seen)
    requires k < |trail| && trail[k] == -l && 0 < Lev(lim, k) < |lim| && Var(l) !in seen
    ensures var bj' := if Lev(lim, k) > bj then Lev(lim, k) else bj;
      Aside(trail, lim, learn + [l], bj') && Marks(trail, learn + [l], pend, seen + {Var(l)})
    ensures Goal(trail, learn + [l], pend) == Goal(trail, learn, pend) + {l}
  {
    var bj', learn' := if Lev(lim, k) > bj then Lev(lim, k) else bj, learn + [l];
    forall x | x in learn' ensures Low(trail, lim, x, bj') {
      if x in learn {
        assert Low(trail, lim, x, bj);
      }
    }
    if bj' == Lev(lim, k) {
      assert learn'[|learn|] == l;
    } else {
      var i, j :| 0 <= i < |learn| && 0 <= j < |trail| && trail[j] == -learn[i] && Lev(lim, j) == bj;
      assert learn'[i] == learn[i];
    }
    forall i | 0 <= i < |learn| ensures Var(learn[i]) != Var(l) {
      assert learn[i] in learn;
    }
    NowMarked(trail, learn, pend, seen, l);
  }

  lemma NowMarked(trail: seq<Lit>, learn: Clause, pend: set<nat>, seen: set<nat>, l: Lit)
    requires (forall k :: k in pend ==> k < |trail|) && Marks(trail, learn, pend, seen)
    ensures Marks(trail, learn + [l], pend, seen + {Var(l)})
  {
    var learn', seen' := learn + [l], seen + {Var(l)};
    forall v ensures v in seen' <==>
      (exists x :: x in learn' && Var(x) == v) || (exists k :: k in pend && Var(trail[k]) == v)
    {
      if x :| x in learn && Var(x) == v {
        assert x in learn';
      }
      assert l in learn';
    }
  }

  /** A literal set aside is of another variable than any position of the current level. */
  lemma OlderVars(trail: seq<Lit>, n: nat, lim: seq<nat>, learn: Clause, bj: nat, k: nat)
    requires Proper(trail, n) && Rising(lim, |trail|) && Aside(trail, lim, learn, bj)
    requires k < |trail| && Lev(lim, k) == |lim|
    ensures forall x :: x in learn ==> Var(x) != Var(trail[k])
  {
    hide Highest, OneVarEach;
    forall x | x in learn ensures Var(x) != Var(trail[k]) {
      assert Low(trail, lim, x, bj);
      var j :| 0 <= j < |trail| && trail[j] == -x && 1 <= Lev(lim, j) <= bj;
      assert j != k && Var(trail[j]) == Var(x);
    }
  }

  /** `p` has been resolved: it is taken off those still to be resolved. */
  lemma TakeOff(trail: seq<Lit>, n: nat, lim: seq<nat>, learn: Clause, bj: nat, pend: set<nat>, index: nat,
                seen: set<nat>)
    requires Proper(trail, n) && |lim| > 0 && Rising(lim, |trail|) && Aside(trail, lim, learn, bj)
    requires Open(trail, lim, pend, index) && Marks(trail, learn, pend, seen) && index in pend
    ensures Open(trail, lim, pend - {index}, index - 1)
    ensures Marks(trail, learn, pend - {index}, seen - {Var(trail[index])})
    ensures Goal(trail, learn, pend) == Goal(trail, learn, pend - {index}) + {-trail[index]}
  {
    hide Aside;
    var pend', v0 := pend - {index}, Var(trail[index]);
    assert forall k :: k in pend <==> k in pend' || k == index;
    LevIs(lim, |trail|, index);
    OlderVars(trail, n, lim, learn, bj, index);
    forall v ensures v in seen - {v0} <==>
      (exists l :: l in learn && Var(l) == v) || (exists k :: k in pend' && Var(trail[k]) == v)
    {
      if k :| k in pend && Var(trail[k]) == v {
        assert k == index || k in pend';
      }
    }
  }

  /** The newest position of the current level whose variable is marked is to be resolved. */
  lemma MarkedHere(trail: seq<Lit>, n: nat, lim: seq<nat>, learn: Clause, bj: nat, pend: set<nat>, index: nat,
                   seen: set<nat>)
    requires Proper(trail, n) && |lim| > 0 && Rising(lim, |trail|) && Aside(trail, lim, learn, bj)
    requires Open(trail, lim, pend, |trail|) && Marks(trail, learn, pend, seen)
    requires index < |trail| && Lev(lim, index) == |lim|
    ensures Var(trail[index]) in seen <==> index in pend
  {
    hide Aside;
    OlderVars(trail, n, lim, learn, bj, index);
    if Var(trail[index]) in seen {
      var k :| k in pend && Var(trail[k]) == Var(trail[index]);
      assert k == index;
    }
  }

  /** A literal of the current level is neither set aside nor false from the start. */
  lemma NotOlder(trail: seq<Lit>, n: nat, lim: seq<nat>, k: nat, learn: Clause, bj: nat)
    requires Proper(trail, n) && Rising(lim, |trail|) && Aside(trail, lim, learn, bj)
    requires |lim| > 0 && lim[|lim| - 1] <= k < |trail|
    ensures trail[k] != 0 && -trail[k] !in learn && !AtRoot(trail, lim, -trail[k])
  {
    assert trail[k] in trail;
    LevIs(lim, |trail|, k);
    forall j | 0 <= j < |trail| && trail[j] == trail[k] ensures Lev(lim, j) == |lim| {
      assert j == k;
    }
    OlderVars(trail, n, lim, learn, bj, k);
  }

  /** What is learned, once nothing is left to resolve: `-p`, which alone is of the current level, first. */
  ghost predicate Learnt(trail: seq<Lit>, lim: seq<nat>, learn: Clause, bj: nat) {
    && |lim| > 0 && bj < |lim| && |learn| > 0 && Distinct(learn)
    && (exists i :: lim[|lim| - 1] <= i < |trail| && trail[i] == -learn[0])
    && (forall l :: l in learn[1..] ==> Low(trail, lim, l, bj))
    && (if |learn| == 1 then bj == 0 else Highest(trail, lim, learn[1..], bj))
  }

  lemma LearntIs(f: seq<Clause>, trail: seq<Lit>, n: nat, lim: seq<nat>, learn: Clause, bj: nat, i: nat)
    requires Proper(trail, n) && |lim| > 0 && Rising(lim, |trail|) && Aside(trail, lim, learn, bj)
    requires lim[|lim| - 1] <= i < |trail| && Entails(f, Members(learn) + {-trail[i]})
    ensures Learnt(trail, lim, [-trail[i]] + learn, bj) && Implies(f, [-trail[i]] + learn)
    ensures InRange([-trail[i]] + learn, n)
  {
    var p := trail[i];
    var all := [-p] + learn;
    assert all[1..] == learn;
    LevIs(lim, |trail|, i);
    assert p in trail;
    OlderVars(trail, n, lim, learn, bj, i);
    forall l | l in learn ensures 0 < Var(l) <= n {
      assert Low(trail, lim, l, bj);
      assert -l in trail;
    }
    forall m | Models(m, f) ensures Holds(m, all) {
      var l :| l in Members(learn) + {-p} && True(m, l);
      assert l in all;
    }
  }

  // ------------------------------------------------------------------ going back

  lemma TrailFitsVars(trail: seq<Lit>, n: nat)
    requires Proper(trail, n)
    ensures forall i :: 0 <= i < |trail| ==> 0 < Var(trail[i]) <= n
  {
    forall i | 0 <= i < |trail| ensures 0 < Var(trail[i]) <= n {
      assert trail[i] in trail;
    }
  }

  lemma Different(trail: seq<Lit>, n: nat, k: nat)
    requires Proper(trail, n) && k < |trail|
    ensures forall i :: 0 <= i < k ==> Var(trail[i]) != Var(trail[k])
  {
  }

  lemma DropAgree(assign: seq<int>, trail: seq<Lit>, n: nat)
    requires Agree(assign, trail) && Proper(trail, n) && |assign| == n + 1 && |trail| > 0
    ensures 0 < Var(trail[|trail| - 1]) <= n
    ensures Agree(assign[Var(trail[|trail| - 1]) := 0], trail[..|trail| - 1])
    ensures Proper(trail[..|trail| - 1], n)
  {
    var l, rest := trail[|trail| - 1], trail[..|trail| - 1];
    assert trail == rest + [l] && l in trail;
    forall v | 0 < v <= n ensures assign[Var(l) := 0][v] == Sign(rest, v) {
      assert assign[v] == Sign(trail, v);
      if v == Var(l) {
        forall i | 0 <= i < |rest| ensures rest[i] != v && rest[i] != -v {
          assert Var(trail[i]) != Var(trail[|rest|]);
        }
      }
    }
  }

  /** The trail up to where level `k + 1` begins is as good as the whole one. */
  lemma CutOk(cl: seq<Clause>, f: seq<Clause>, trail: seq<Lit>, n: nat, lim: seq<nat>, level: seq<nat>,
              reason: seq<nat>, k: nat)
    requires Proper(trail, n) && Rising(lim, |trail|) && Leveled(trail, lim, level) && Rooted(f, trail, lim)
    requires k < |lim|
    requires forall i :: 0 <= i < lim[k] ==>
      Var(trail[i]) < |reason| && ReasonOk(cl, trail, lim, i, reason[Var(trail[i])])
    ensures var trail', lim' := trail[..lim[k]], lim[..k];
      && Proper(trail', n) && Rising(lim', |trail'|) && Leveled(trail', lim', level)
      && Reasoned(cl, trail', lim', reason) && Rooted(f, trail', lim')
  {
    hide Implies;
    var trail', lim' := trail[..lim[k]], lim[..k];
    forall i | 0 <= i < |trail'| ensures Lev(lim', i) == Lev(lim, i) {
      LevCut(lim, |trail|, k, i);
    }
    forall i | 0 <= i < |trail'| ensures ReasonOk(cl, trail', lim', i, reason[Var(trail'[i])]) {
      assert trail'[..i] == trail[..i];
      assert ReasonOk(cl, trail, lim, i, reason[Var(trail[i])]);
    }
  }

  /** Where every level begins, all clauses were calm. */
  ghost predicate Quiet(cl: seq<Clause>, trail: seq<Lit>, lim: seq<nat>)
    requires Rising(lim, |trail|)
  {
    forall k :: 0 <= k < |lim| ==> AllCalm(cl, trail[..lim[k]], lim[k])
  }

  /** A literal false since level `bj` or before is false where level `bj + 1` begins. */
  lemma LowBack(trail: seq<Lit>, lim: seq<nat>, l: Lit, bj: nat)
    requires Rising(lim, |trail|) && bj < |lim| && Low(trail, lim, l, bj)
    ensures -l in trail[..lim[bj]]
  {
    var k :| 0 <= k < |trail| && trail[k] == -l && 1 <= Lev(lim, k) <= bj;
    LevIs(lim, |trail|, k);
    assert trail[..lim[bj]][k] == -l;
  }

  /** At the level it goes back to, the learned clause is unit. */
  lemma LearntUnit(trail: seq<Lit>, n: nat, lim: seq<nat>, learn: Clause, bj: nat)
    requires Proper(trail, n) && Rising(lim, |trail|) && Learnt(trail, lim, learn, bj)
    ensures bj < |lim| && 0 < Var(learn[0]) <= n
    ensures var back := trail[..lim[bj]];
      UnitFor(learn, learn[0], back) && learn[0] !in back && -learn[0] !in back
  {
    hide Low, Highest;
    var back := trail[..lim[bj]];
    var i :| lim[|lim| - 1] <= i < |trail| && trail[i] == -learn[0];
    assert trail[i] in trail;
    NotBoth(trail, n, learn[0]);
    assert -learn[0] !in back by {
      Different(trail, n, i);
    }
    forall x | x in learn && x != learn[0] ensures -x in back {
      assert x in learn[1..];
      LowBack(trail, lim, x, bj);
    }
  }

  /** And where the levels below began, it had two places that were not false. */
  lemma LearntCalm(trail: seq<Lit>, n: nat, lim: seq<nat>, learn: Clause, bj: nat, k: nat)
    requires Proper(trail, n) && Rising(lim, |trail|) && Learnt(trail, lim, learn, bj) && k < bj
    ensures TwoFree(learn, trail[..lim[k]])
  {
    var done := trail[..lim[k]];
    var i :| lim[|lim| - 1] <= i < |trail| && trail[i] == -learn[0];
    var j, h :| 0 <= j < |learn[1..]| && 0 <= h < |trail| && trail[h] == -learn[1..][j] && Lev(lim, h) == bj;
    LevIs(lim, |trail|, h);
    assert learn[j + 1] == learn[1..][j];
    assert -learn[0] !in done && -learn[j + 1] !in done;
  }

  lemma QuietBack(cl: seq<Clause>, trail: seq<Lit>, n: nat, lim: seq<nat>, learn: Clause, bj: nat)
    requires Proper(trail, n) && Rising(lim, |trail|) && Learnt(trail, lim, learn, bj) && Quiet(cl, trail, lim)
    ensures var trail', lim' := trail[..lim[bj]] + [learn[0]], lim[..bj];
      && Rising(lim', |trail'|) && Quiet(cl + [learn], trail', lim')
      && AllCalm(cl + [learn], trail', lim[bj])
  {
    hide Low, Highest, TwoFree, Sated;
    var back, lim' := trail[..lim[bj]], lim[..bj];
    var trail' := back + [learn[0]];
    forall k | 0 <= k < bj ensures AllCalm(cl + [learn], trail'[..lim[k]], lim[k]) {
      assert trail'[..lim[k]] == trail[..lim[k]] && trail[..lim[k]][..lim[k]] == trail[..lim[k]];
      assert AllCalm(cl, trail[..lim[k]], lim[k]);
      LearntCalm(trail, n, lim, learn, bj, k);
    }
    assert AllCalm(cl, back, lim[bj]) && back[..lim[bj]] == back == trail'[..lim[bj]];
    forall c | c in cl ensures Calm(c, trail', back) {
      LongerCalm(c, back, trail', back);
    }
    LearntSated(learn, trail');
  }

  lemma LearntSated(learn: Clause, trail: seq<Lit>)
    requires |learn| > 0 && learn[0] in trail
    ensures Sated(learn, trail)
  {
    var l := learn[0];
    assert l in learn && l in trail;
  }

  /** The clause has two different literals. */
  ghost predicate Mixed(c: Clause) {
    exists x, y :: x in c && y in c && x != y
  }

  ghost predicate AllMixed(cl: seq<Clause>) {
    forall c :: c in cl ==> Mixed(c)
  }

  /** While nothing is assigned, such a clause is neither true nor false nor unit. */
  lemma MixedScan(c: Clause, l: Lit)
    requires Mixed(c)
    ensures !Sated(c, []) && !False(c, []) && !UnitFor(c, l, [])
  {
  }

  lemma QuietStays(cl: seq<Clause>, t0: seq<Lit>, trail: seq<Lit>, lim: seq<nat>)
    requires Rising(lim, |t0|) && t0 <= trail && Quiet(cl, t0, lim)
    ensures Rising(lim, |trail|) && Quiet(cl, trail, lim)
  {
    hide AllCalm;
    forall k | 0 <= k < |lim| ensures AllCalm(cl, trail[..lim[k]], lim[k]) {
      assert trail[..lim[k]] == t0[..lim[k]];
      assert AllCalm(cl, t0[..lim[k]], lim[k]);
    }
  }

  lemma QuietDecided(cl: seq<Clause>, t0: seq<Lit>, lim: seq<nat>, l: Lit)
    requires Rising(lim, |t0|) && Quiet(cl, t0, lim) && AllCalm(cl, t0, |t0|)
    ensures Rising(lim + [|t0|], |t0| + 1) && Quiet(cl, t0 + [l], lim + [|t0|])
    ensures AllCalm(cl, t0 + [l], |t0|)
  {
    hide Calm;
    var trail, lim' := t0 + [l], lim + [|t0|];
    assert t0[..|t0|] == t0 == trail[..|t0|];
    forall k | 0 <= k < |lim'| ensures AllCalm(cl, trail[..lim'[k]], lim'[k]) {
      if k < |lim| {
        assert trail[..lim[k]] == t0[..lim[k]];
        assert AllCalm(cl, t0[..lim[k]], lim[k]);
      }
    }
    forall c | c in cl ensures Calm(c, trail, t0) {
      LongerCalm(c, t0, trail, t0);
    }
  }

  /** The assignment that the answer stands for. */
  function Assigned(assign: seq<int>): int -> bool {
    (v: int) => 0 < v < |assign| && assign[v] > 0
  }

  /** Once every variable has a value, calm clauses are true. */
  lemma AllTrue(f: seq<Clause>, cl: seq<Clause>, trail: seq<Lit>, n: nat, assign: seq<int>)
    requires Proper(trail, n) && Agree(assign, trail) && |assign| == n + 1
    requires (forall c :: c in f ==> c in cl) && (forall c :: c in cl ==> InRange(c, n))
    requires AllCalm(cl, trail, |trail|) && forall v :: 0 < v <= n ==> assign[v] != 0
    ensures Models(Assigned(assign), f)
  {
    assert trail[..|trail|] == trail;
    forall c | c in f ensures Holds(Assigned(assign), c) {
      assert Calm(c, trail, trail);
      if TwoFree(c, trail) {
        var i, j :| 0 <= i < j < |c| && -c[i] !in trail && -c[j] !in trail;
        assert c[i] in c && assign[Var(c[i])] == Sign(trail, Var(c[i]));
        assert c[i] in trail;
      }
      var l :| l in c && l in trail;
      NotBoth(trail, n, l);
      assert assign[Var(l)] == Sign(trail, Var(l));
    }
  }

  lemma LearntJoins(f: seq<Clause>, cl: seq<Clause>, learn: Clause, trail: seq<Lit>, lim: seq<nat>, bj: nat, n: nat,
                    reason: seq<nat>)
    requires Entailed(f, cl) && Implies(f, learn) && Learnt(trail, lim, learn, bj) && InRange(learn, n)
    requires Reasoned(cl, trail, lim, reason)
    ensures Entailed(f, cl + [learn]) && (Plain(cl) ==> Plain(cl + [learn]))
    ensures (forall c :: c in cl ==> InRange(c, n)) ==> forall c :: c in cl + [learn] ==> InRange(c, n)
    ensures Reasoned(cl + [learn], trail, lim, reason)
  {
    hide Implies, InRange, UnitFor, Low, Highest;
    forall i | 0 <= i < |trail| ensures ReasonOk(cl + [learn], trail, lim, i, reason[Var(trail[i])]) {
      assert ReasonOk(cl, trail, lim, i, reason[Var(trail[i])]);
    }
  }

  lemma MoreFormula(f: seq<Clause>, cl: seq<Clause>, c: Clause)
    requires Entailed(f, cl) && (Plain(f) ==> Plain(cl))
    ensures Entailed(f + [c], cl + [c]) && (Plain(f + [c]) ==> Plain(cl + [c]))
  {
    forall d | d in cl + [c] ensures Implies(f + [c], d) {
      forall m | Models(m, f + [c]) ensures Holds(m, d) {
        assert forall e :: e in f ==> e in f + [c];
        assert c in f + [c];
      }
    }
    if Plain(f + [c]) {
      assert forall d :: d in f ==> d in f + [c];
      assert c in f + [c];
    }
  }

  lemma Weaker(f: seq<Clause>, learn: Clause, pend: set<nat>, trail: seq<Lit>, p: Lit)
    requires pend == {} && Entails(f, Goal(trail, learn, pend))
    ensures Entails(f, Members(learn) + {-p})
  {
    assert Goal(trail, learn, pend) == Members(learn);
    forall m | Models(m, f) ensures exists l :: l in Members(learn) + {-p} && True(m, l) {
      var l :| l in Members(learn) && True(m, l);
      assert l in Members(learn) + {-p};
    }
  }
}
