/** The SAT solver behind the bit-vector verifier: unit propagation over occurrence lists, conflict analysis that
    learns a clause, and a jump back to the level where that clause is unit. */
module SatSolver {
  import opened Common
  import opened Clausal

  datatype Answer = Satisfied | Unsatisfiable | Undecided

  /** `assign`, `level` and `reason` are indexed by variable, `occ` lists the numbers of the clauses with a literal.
      The trail holds what is true, oldest first; level `k + 1` begins at `lim[k]`, and from `q` on it has not been
      propagated. */
  class Solver {
    var nVars: nat
    var cl: seq<Clause>
    var occ: map<Lit, seq<nat>>
    var assign: seq<int>
    var level: seq<nat>
    var reason: seq<nat>
    var trail: seq<Lit>
    var lim: seq<nat>
    var q: nat
    var conflicts: nat
    var budget: nat
    var phase: nat
    var conflictCl: nat
    /** The formula: the clauses that were added, not those that were learned. */
    ghost var f: seq<Clause>

    /** `bv_sat_init`, and `n` variables. */
    constructor (n: nat, budget: nat, phase: nat)
      ensures Valid() && f == [] && cl == [] && trail == [] && lim == []
      ensures nVars == n && conflicts == 0 && this.budget == budget && this.phase == phase
    {
      nVars, cl, occ, trail, lim, q := n, [], map[], [], [], 0;
      assign, level, reason := seq(n + 1, _ => 0), seq(n + 1, _ => 0), seq(n + 1, _ => 0);
      conflicts, this.budget, this.phase, conflictCl, f := 0, budget, phase, 0, [];
    }

    /** The clauses follow from the formula and are listed under their literals. */
    ghost predicate Clauses()
      reads `nVars, `cl, `occ, `f
    {
      && Entailed(f, cl) && Indexed(cl, occ) && (Plain(f) ==> Plain(cl))
      && forall c :: c in cl ==> InRange(c, nVars)
    }

    /** Values, levels and reasons are those of the trail. */
    ghost predicate Trailed()
      reads `nVars, `cl, `f, `assign, `level, `reason, `trail, `lim
    {
      && |assign| == |level| == |reason| == nVars + 1
      && Proper(trail, nVars) && Agree(assign, trail) && Rising(lim, |trail|)
      && Leveled(trail, lim, level) && Reasoned(cl, trail, lim, reason) && Rooted(f, trail, lim)
    }

    ghost predicate Valid()
      reads this
    {
      Clauses() && Trailed() && q <= |trail|
    }

    /** 1 for true, -1 for false, 0 for neither. */
    function LitValue(l: Lit): int
      requires 0 < Var(l) < |assign|
      reads `assign
    {
      if l > 0 then assign[l] else -assign[-l]
    }

    lemma Valued(l: Lit)
      requires Trailed() && 0 < Var(l) <= nVars
      ensures LitValue(l) > 0 <==> l in trail
      ensures LitValue(l) < 0 <==> -l in trail
      ensures !(l in trail && -l in trail)
    {
      var v := Var(l);
      assert assign[v] == Sign(trail, v);
      NotBoth(trail, nVars, l);
    }

    /** `l` becomes true, with clause `r - 1` as its reason, or without one for `r == 0`. */
    method Push(l: Lit, r: nat, ghost lim0: seq<nat>)
      requires |assign| == |level| == |reason| == nVars + 1 && 0 < Var(l) <= nVars && l !in trail && -l !in trail
      requires Proper(trail, nVars) && Agree(assign, trail) && Rising(lim0, |trail|) && Opens(lim0, lim, |trail|)
      requires Leveled(trail, lim0, level) && Reasoned(cl, trail, lim0, reason) && Rooted(f, trail, lim0)
      requires r <= |cl| && (r == 0 ==> lim == [] || lim == lim0 + [|trail|])
      requires r > 0 ==> UnitFor(cl[r - 1], l, trail)
      requires lim == [] ==> Implies(f, [l])
      modifies `assign, `level, `reason, `trail
      ensures Trailed() && trail == old(trail) + [l]
    {
      hide Proper, Agree, Leveled, Reasoned, Rooted, Rising, Implies;
      PushProper(trail, nVars, l);
      PushAgree(assign, trail, l);
      PushLeveled(trail, lim0, lim, level, l, nVars);
      PushReasoned(cl, trail, lim0, lim, reason, l, nVars, r);
      PushRooted(f, trail, lim0, lim, l);
      PushLev(lim0, lim, |trail|);
      trail := trail + [l];
      assign := assign[Var(l) := if l > 0 then 1 else -1];
      level := level[Var(l) := |lim|];
      reason := reason[Var(l) := r];
    }

    /** Looks at a clause, at most until a true literal or a second undetermined place is found. */
    method Scan(c: Clause) returns (un: nat, ul: Lit, sat: bool)
      requires Trailed() && InRange(c, nVars)
      ensures sat ==> Sated(c, trail)
      ensures !sat && un == 0 ==> False(c, trail)
      ensures !sat && un == 1 ==> UnitFor(c, ul, trail) && ul !in trail && -ul !in trail && 0 < Var(ul) <= nVars
      ensures !sat && un > 1 ==> TwoFree(c, trail)
    {
      hide Proper, Agree, Leveled, Reasoned, Rooted, Rising;
      un, ul, sat := 0, 0, false;
      ghost var at := 0;
      for i := 0 to |c|
        invariant !sat && un <= 1
        invariant un == 0 ==> forall k :: 0 <= k < i ==> -c[k] in trail
        invariant un == 1 ==> at < i && ul == c[at] && ul !in trail && -ul !in trail
        invariant un == 1 ==> forall k :: 0 <= k < i && k != at ==> -c[k] in trail
      {
        assert c[i] in c;
        Valued(c[i]);
        var v := LitValue(c[i]);
        if v > 0 {
          sat := true;
          return;
        }
        if v == 0 {
          un := un + 1;
          if un > 1 {
            return;
          }
          ul, at := c[i], i;
        }
      }
    }

    /** The clauses with this literal, by their numbers. */
    function List(l: Lit): seq<nat>
      reads `occ
    {
      if l in occ then occ[l] else []
    }

    lemma Listed(l: Lit, k: nat)
      requires Clauses() && k < |List(l)|
      ensures List(l)[k] < |cl| && l in cl[List(l)[k]]
    {
      hide Entailed, Plain, InRange;
    }

    lemma InList(l: Lit, c: Clause) returns (k: nat)
      requires Clauses() && c in cl && l in c
      ensures k < |List(l)| && List(l)[k] < |cl| && cl[List(l)[k]] == c
    {
      hide Entailed, Plain, InRange;
      var i :| 0 <= i < |cl| && cl[i] == c;
      assert i in occ[l];
      k :| 0 <= k < |occ[l]| && occ[l][k] == i;
    }

    /** Clause `i` has been looked at since `lit` became true. */
    ghost predicate Looked(i: nat, t0: seq<Lit>)
      requires q <= |trail|
      reads `cl, `trail, `q
    {
      i < |cl| && Calm(cl[i], trail, trail[..q]) && !False(cl[i], t0)
    }

    /** The clauses that lose a literal as `lit` is true. */
    method Visit(lit: Lit) returns (conflict: bool)
      requires Valid() && 0 < q && trail[q - 1] == lit
      modifies `assign, `level, `reason, `trail, `conflictCl
      ensures Valid() && old(trail) <= trail
      ensures conflict ==> conflictCl < |cl| && False(cl[conflictCl], trail) && -lit in cl[conflictCl]
      ensures !conflict ==>
        forall c :: c in cl && -lit in c ==> Calm(c, trail, trail[..q]) && !False(c, old(trail))
    {
      hide Trailed, Clauses, Calm, False, List;
      ghost var t0 := trail;
      var list := List(-lit);
      for i := 0 to |list|
        invariant Valid() && t0 <= trail
        invariant forall k :: 0 <= k < i ==> Looked(list[k], t0)
      {
        Listed(-lit, i);
        var ci := list[i];
        ghost var t1 := trail;
        var found := Revise(ci, t0);
        if found {
          conflictCl := ci;
          return true;
        }
        forall k | 0 <= k < i ensures Looked(list[k], t0) {
          assert trail[..q] == t1[..q];
          LongerCalm(cl[list[k]], t1, trail, trail[..q]);
        }
      }
      forall c | c in cl && -lit in c ensures Calm(c, trail, trail[..q]) && !False(c, t0) {
        var k := InList(-lit, c);
        assert Looked(list[k], t0);
      }
      return false;
    }

    /** One clause: already true, false, unit, or none of these. */
    method Revise(ci: nat, ghost t0: seq<Lit>) returns (found: bool)
      requires Valid() && ci < |cl| && t0 <= trail && q <= |t0|
      modifies `assign, `level, `reason, `trail
      ensures Valid() && old(trail) <= trail
      ensures found ==> False(cl[ci], trail)
      ensures !found ==> Calm(cl[ci], trail, trail[..q]) && !False(cl[ci], t0)
    {
      hide Calm, False, TwoFree, Agree, Leveled, Reasoned, Rooted, Rising, Indexed, Implies;
      assert cl[ci] in cl;
      var un, ul, sat := Scan(cl[ci]);
      if !sat && un == 0 {
        return true;
      }
      if !sat && un == 1 {
        if lim == [] {
          RootUnit(f, cl[ci], ul, trail, nVars);
        }
        Push(ul, ci + 1, lim);
        assert ul in trail;
      }
      Scanned(cl[ci], trail, nVars, t0, q);
      return false;
    }

    ghost predicate InConflict()
      reads `cl, `trail, `q, `conflictCl
    {
      && 0 < q <= |trail| && conflictCl < |cl|
      && False(cl[conflictCl], trail) && -trail[q - 1] in cl[conflictCl]
    }

    /** Unit propagation: from calm clauses to calm clauses with nothing left to propagate, or to a conflict. */
    method Propagate() returns (conflict: bool)
      requires Valid()
      modifies `assign, `level, `reason, `trail, `q, `conflictCl
      ensures Valid() && old(trail) <= trail && q >= old(q)
      ensures conflict ==> InConflict() && q > old(q)
      ensures !conflict ==> q == |trail| && (old(AllCalm(cl, trail, q)) ==> AllCalm(cl, trail, q))
      ensures conflict && old(AllCalm(cl, trail, q)) && Plain(cl) ==> Pending(cl[conflictCl], trail, q)
      ensures old(conflictCl < |cl| && Pending(cl[conflictCl], trail, q)) ==> conflict
      ensures old(q == |trail|) ==> !conflict && trail == old(trail)
    {
      hide Trailed, Clauses, False, AllCalm, Pending;
      ghost var q0, t0, c0 := q, trail, conflictCl;
      while q < |trail|
        invariant Valid() && t0 <= trail && q0 <= q
        invariant AllCalm(cl, t0, q0) ==> AllCalm(cl, trail, q)
        invariant c0 < |cl| && Pending(cl[c0], t0, q0) ==> Pending(cl[c0], trail, q)
        invariant q0 == |t0| ==> trail == t0
        decreases nVars - q
      {
        ghost var t1 := trail;
        var lit := trail[q];
        Room();
        q := q + 1;
        conflict := Visit(lit);
        if conflict {
          Conflicting(t1);
          return;
        }
        StillCalm(t1);
        if c0 < |cl| {
          StillPending(c0, t1);
        }
      }
      conflict := false;
      if c0 < |cl| {
        AllDone(cl[c0], trail);
      }
    }

    lemma Room()
      requires Trailed()
      ensures |trail| <= nVars
    {
      hide Agree, Leveled, Reasoned, Rooted, Rising;
      TrailFits(trail, nVars);
    }

    lemma Conflicting(t1: seq<Lit>)
      requires Valid() && InConflict() && t1 <= trail && q <= |t1|
      ensures AllCalm(cl, t1, q - 1) && Plain(cl) ==> Pending(cl[conflictCl], trail, q)
    {
      hide Agree, Leveled, Reasoned, Rooted, Rising, Indexed, Entailed, False, Calm;
      assert cl[conflictCl] in cl;
      if AllCalm(cl, t1, q - 1) && Plain(cl) {
        FoundEarly(cl[conflictCl], t1, trail, nVars, q);
      }
    }

    lemma StillCalm(t1: seq<Lit>)
      requires Valid() && t1 <= trail && 0 < q <= |t1|
      requires forall c :: c in cl && -t1[q - 1] in c ==> Calm(c, trail, trail[..q]) && !False(c, t1)
      ensures AllCalm(cl, t1, q - 1) ==> AllCalm(cl, trail, q)
    {
      hide Valid, Calm, False;
      if AllCalm(cl, t1, q - 1) {
        forall c | c in cl ensures Calm(c, trail, trail[..q]) {
          if -t1[q - 1] !in c {
            CalmStays(c, t1, trail, q);
          }
        }
      }
    }

    lemma StillPending(c0: nat, t1: seq<Lit>)
      requires t1 <= trail && 0 < q <= |t1| && c0 < |cl|
      requires forall c :: c in cl && -t1[q - 1] in c ==> Calm(c, trail, trail[..q]) && !False(c, t1)
      ensures Pending(cl[c0], t1, q - 1) ==> Pending(cl[c0], trail, q)
    {
      hide Calm;
      assert cl[c0] in cl;
      if Pending(cl[c0], t1, q - 1) {
        var l :| l in cl[c0] && -l in t1[q - 1..];
        assert t1[q - 1..] == [t1[q - 1]] + t1[q..];
        assert forall x :: x in t1[q..] ==> x in trail[q..] by {
          assert trail == t1 + trail[|t1|..];
          assert trail[q..] == t1[q..] + trail[|t1|..];
        }
      }
    }

    /** What has been gathered of a conflict so far. */
    ghost predicate Gathered(learn: Clause, bj: nat, seen: set<nat>, counter: nat, pend: set<nat>, index: int)
      reads `trail, `lim
    {
      && |lim| > 0 && -1 <= index < |trail|
      && Aside(trail, lim, learn, bj) && Open(trail, lim, pend, index) && Marks(trail, learn, pend, seen)
      && counter == |pend|
    }

    /** One literal of a clause that is resolved. */
    method Gather(l: Lit, index: int, learn0: Clause, bj0: nat, seen0: set<nat>, counter0: nat, ghost pend0: set<nat>)
      returns (learn: Clause, bj: nat, seen: set<nat>, counter: nat, ghost pend: set<nat>)
      requires Trailed() && Gathered(learn0, bj0, seen0, counter0, pend0, index)
      requires 0 < Var(l) <= nVars && -l in trail[..index + 1]
      ensures Gathered(learn, bj, seen, counter, pend, index)
      ensures Goal(trail, learn0, pend0) <= Goal(trail, learn, pend)
      ensures l in Goal(trail, learn, pend) || AtRoot(trail, lim, l)
    {
      hide Proper, Agree, Reasoned, Rooted, Rising, Implies, Aside, Open, Marks, Goal;
      learn, bj, seen, counter, pend := learn0, bj0, seen0, counter0, pend0;
      var v := Var(l);
      ghost var k :| 0 <= k < index + 1 && trail[k] == -l;
      assert level[v] == Lev(lim, k);
      if v in seen {
        SeenBefore(trail, nVars, lim, learn, bj, pend, index, seen, l);
      } else if level[v] == 0 {
        assert AtRoot(trail, lim, l);
      } else if level[v] >= |lim| {
        Wait(trail, nVars, lim, learn, pend, index, seen, k);
        seen, counter, pend := seen + {v}, counter + 1, pend + {k};
      } else {
        SetAside(trail, nVars, lim, learn, bj, pend, index, seen, l, k);
        learn, seen := learn + [l], seen + {v};
        if level[v] > bj {
          bj := level[v];
        }
      }
    }

    /** One clause that is resolved: the conflict itself, with `p == 0`, or the reason of `p`. */
    method GatherAll(c: Clause, p: Lit, index: int, learn0: Clause, bj0: nat, seen0: set<nat>, counter0: nat,
                     ghost pend0: set<nat>)
      returns (learn: Clause, bj: nat, seen: set<nat>, counter: nat, ghost pend: set<nat>)
      requires Trailed() && Gathered(learn0, bj0, seen0, counter0, pend0, index) && InRange(c, nVars)
      requires forall l :: l in c && l != p ==> -l in trail[..index + 1]
      ensures Gathered(learn, bj, seen, counter, pend, index)
      ensures Goal(trail, learn0, pend0) <= Goal(trail, learn, pend)
      ensures Covered(trail, lim, c, p, Goal(trail, learn, pend))
    {
      hide Trailed, Implies, Aside, Marks, Goal;
      learn, bj, seen, counter, pend := learn0, bj0, seen0, counter0, pend0;
      for i := 0 to |c|
        invariant Gathered(learn, bj, seen, counter, pend, index)
        invariant Goal(trail, learn0, pend0) <= Goal(trail, learn, pend)
        invariant Covered(trail, lim, c[..i], p, Goal(trail, learn, pend))
      {
        assert c[..i + 1] == c[..i] + [c[i]] && c[i] in c;
        if c[i] != p {
          learn, bj, seen, counter, pend := Gather(c[i], index, learn, bj, seen, counter, pend);
        }
      }
      assert c[..|c|] == c;
    }

    /** Back to the newest position that is to be resolved. */
    method SkipTo(index0: int, learn: Clause, bj: nat, seen: set<nat>, counter: nat, ghost pend: set<nat>)
      returns (index: int)
      requires Trailed() && Gathered(learn, bj, seen, counter, pend, index0)
      ensures Gathered(learn, bj, seen, counter, pend, index) && -1 <= index <= index0 && index < |trail|
      ensures counter > 0 ==> index >= 0 && index in pend
      ensures counter == 0 ==> pend == {}
    {
      hide Proper, Agree, Reasoned, Rooted, Rising, Aside, Marks;
      index := index0;
      while index >= 0 && !(Var(trail[index]) in seen && level[Var(trail[index])] >= |lim|)
        invariant Gathered(learn, bj, seen, counter, pend, index) && index <= index0
      {
        assert level[Var(trail[index])] == Lev(lim, index);
        if level[Var(trail[index])] >= |lim| {
          MarkedHere(trail, nVars, lim, learn, bj, pend, index, seen);
        } else {
          NotOpen(index, pend, index);
        }
        index := index - 1;
      }
      if index >= 0 {
        MarkedHere(trail, nVars, lim, learn, bj, pend, index, seen);
      }
      if index < 0 {
        assert forall k :: k !in pend;
      }
    }

    lemma NotOpen(k: nat, pend: set<nat>, index: int)
      requires |lim| > 0 && Rising(lim, |trail|) && Open(trail, lim, pend, index) && Lev(lim, k) < |lim|
      ensures k !in pend
    {
      LevIs(lim, |trail|, k);
    }

    lemma NothingYet()
      requires Valid() && |lim| > 0
      ensures Gathered([], 0, {}, 0, {}, |trail| - 1)
    {
    }

    /** The conflict has a literal of the current level. */
    lemma SomethingOpen(learn: Clause, bj: nat, seen: set<nat>, counter: nat, pend: set<nat>, index: int)
      requires Valid() && InConflict() && |lim| > 0 && lim[|lim| - 1] < q
      requires Gathered(learn, bj, seen, counter, pend, index)
      requires Covered(trail, lim, cl[conflictCl], 0, Goal(trail, learn, pend))
      ensures counter > 0
    {
      hide Agree, Leveled, Reasoned, Rooted, Marks, False, Clauses, Proper, Aside, AtRoot, Rising;
      var l := -trail[q - 1];
      NotOlder(trail, nVars, lim, q - 1, learn, bj);
      assert l in cl[conflictCl];
      assert pend != {};
    }

    lemma Resolved(c: Clause, p: Lit, s: set<Lit>, s': set<Lit>)
      requires Valid() && c in cl && Covered(trail, lim, c, p, s')
      requires p != 0 ==> Entails(f, s + {-p}) && s <= s'
      ensures Entails(f, s')
    {
      hide Agree, Leveled, Reasoned, Rising, Implies, Covered, Entails, Indexed;
      Resolve(f, trail, nVars, lim, c, p, s, s');
    }

    ghost predicate Within(pend: set<nat>)
      reads `trail
    {
      forall k :: k in pend ==> k < |trail|
    }

    lemma GatheredWithin(learn: Clause, bj: nat, seen: set<nat>, counter: nat, pend: set<nat>, index: int)
      requires Gathered(learn, bj, seen, counter, pend, index)
      ensures Within(pend)
    {
    }

    lemma ConflictClause()
      requires Valid() && InConflict()
      ensures cl[conflictCl] in cl && forall l :: l in cl[conflictCl] ==> -l in trail[..|trail|]
    {
      assert trail[..|trail|] == trail;
    }

    lemma ClauseFits(c: Clause)
      requires Clauses() && c in cl
      ensures InRange(c, nVars)
    {
    }

    /** The newest position still to be resolved is taken. */
    lemma Take(learn: Clause, bj: nat, seen: set<nat>, counter: nat, pend: set<nat>, index: nat)
      requires Trailed() && Gathered(learn, bj, seen, counter, pend, index) && index in pend
      ensures lim[|lim| - 1] <= index < |trail| && Var(trail[index]) < |reason| && trail[index] != 0 && counter > 0
      ensures Gathered(learn, bj, seen - {Var(trail[index])}, counter - 1, pend - {index}, index - 1)
      ensures Goal(trail, learn, pend) == Goal(trail, learn, pend - {index}) + {-trail[index]}
    {
      hide Agree, Leveled, Reasoned, Rooted, Aside, Marks;
      TakeOff(trail, nVars, lim, learn, bj, pend, index, seen);
      assert trail[index] in trail;
    }

    /** Only the decision is left of the current level when the resolution comes to it. */
    lemma AtDecision(learn: Clause, bj: nat, seen: set<nat>, counter: nat, pend: set<nat>, index: nat)
      requires Trailed() && Gathered(learn, bj, seen, counter, pend, index) && index in pend
      requires Within(pend) && Entails(f, Goal(trail, learn, pend))
      requires Var(trail[index]) < |reason| && reason[Var(trail[index])] == 0
      ensures Entails(f, Members(learn) + {-trail[index]})
    {
      hide Agree, Leveled, Rooted, Entails, Aside, Marks;
      LevIs(lim, |trail|, index);
      assert ReasonOk(cl, trail, lim, index, 0);
      assert forall k :: k in pend <==> k == index;
      assert Goal(trail, learn, pend) == Members(learn) + {-trail[index]};
    }

    lemma PutTogether(learn: Clause, bj: nat, seen: set<nat>, counter: nat, pend: set<nat>, index: int, at: nat)
      requires Valid() && Gathered(learn, bj, seen, counter, pend, index)
      requires lim[|lim| - 1] <= at < |trail| && Entails(f, Members(learn) + {-trail[at]})
      ensures var all := [-trail[at]] + learn;
        Learnt(trail, lim, all, bj) && Implies(f, all) && InRange(all, nVars)
    {
      hide Agree, Leveled, Reasoned, Rooted, Clauses, Entails, Implies, Marks, Open;
      LearntIs(f, trail, nVars, lim, learn, bj, at);
    }

    lemma NextReason(index: nat)
      requires Valid() && index < |trail| && Var(trail[index]) < |reason| && reason[Var(trail[index])] > 0
      ensures reason[Var(trail[index])] <= |cl|
      ensures var c := cl[reason[Var(trail[index])] - 1];
        c in cl && forall l :: l in c && l != trail[index] ==> -l in trail[..index]
    {
      hide Agree, Leveled, Rooted, Clauses;
      assert ReasonOk(cl, trail, lim, index, reason[Var(trail[index])]);
    }

    /** The clause learned from a conflict, and the level to go back to. It follows from the formula, whatever was
        decided, and it is unit at that level. The source's guards for an analysis that finds nothing of the
        current level, or a clause with a literal and its negation, are left out: neither happens. */
    method Analyze() returns (learn: Clause, bj: nat)
      requires Valid() && InConflict() && |lim| > 0 && lim[|lim| - 1] < q
      ensures Learnt(trail, lim, learn, bj) && Implies(f, learn) && InRange(learn, nVars)
    {
      hide Trailed, Clauses, Gathered, Implies, Goal, Entails, Covered, InRange, Learnt, False;
      var p: Lit, index: int, c := 0, |trail| - 1, cl[conflictCl];
      learn, bj := [], 0;
      var seen: set<nat>, counter: nat := {}, 0;
      ghost var pend: set<nat>, at: nat := {}, 0;
      NothingYet();
      ConflictClause();
      while true
        invariant -1 <= index < |trail| && Gathered(learn, bj, seen, counter, pend, index)
        invariant c in cl && forall l :: l in c && l != p ==> -l in trail[..index + 1]
        invariant p == 0 ==> c == cl[conflictCl]
        invariant p != 0 ==> lim[|lim| - 1] <= at < |trail| && p == trail[at]
        invariant p != 0 ==> Within(pend) && Entails(f, Goal(trail, learn, pend) + {-p})
        decreases index
      {
        GatheredWithin(learn, bj, seen, counter, pend, index);
        ghost var goal := Goal(trail, learn, pend);
        ClauseFits(c);
        learn, bj, seen, counter, pend := GatherAll(c, p, index, learn, bj, seen, counter, pend);
        GatheredWithin(learn, bj, seen, counter, pend, index);
        Resolved(c, p, goal, Goal(trail, learn, pend));
        if p == 0 {
          SomethingOpen(learn, bj, seen, counter, pend, index);
        }
        index := SkipTo(index, learn, bj, seen, counter, pend);
        if index < 0 || counter == 0 {
          Weaker(f, learn, pend, trail, p);
          break;
        }
        Take(learn, bj, seen, counter, pend, index);
        p := trail[index];
        at := index;
        var r := reason[Var(p)];
        if r == 0 {
          AtDecision(learn, bj, seen, counter, pend, index);
          break;
        }
        NextReason(index);
        seen, counter, pend := seen - {Var(p)}, counter - 1, pend - {index};
        c := cl[r - 1];
        index := index - 1;
      }
      PutTogether(learn, bj, seen, counter, pend, index, at);
      learn := [-p] + learn;
    }

    /** A clause is appended and listed under its literals. */
    method Append(c: Clause)
      requires Indexed(cl, occ)
      modifies `cl, `occ
      ensures cl == old(cl) + [c] && Indexed(cl, occ)
    {
      ghost var was := cl;
      var ci := |cl|;
      cl := cl + [c];
      for i := 0 to |c|
        invariant cl == was + [c]
        invariant forall l, k :: l in occ && 0 <= k < |occ[l]| ==> occ[l][k] < |cl| && l in cl[occ[l][k]]
        invariant forall j, l :: 0 <= j < |was| && l in was[j] ==> l in occ && j in occ[l]
        invariant forall l :: l in c[..i] ==> l in occ && ci in occ[l]
      {
        occ := occ[c[i] := List(c[i]) + [ci]];
      }
      assert c[..|c|] == c;
    }

    /** `bv_sat_add_clause`. */
    method AddClause(c: Clause)
      requires Valid() && trail == [] && lim == [] && InRange(c, nVars)
      modifies `cl, `occ, `f
      ensures Valid() && f == old(f) + [c] && cl == old(cl) + [c]
    {
      hide Implies, Indexed;
      ghost var f0, cl0 := f, cl;
      Append(c);
      f := f + [c];
      MoreFormula(f0, cl0, c);
    }

    /** The newest literals are taken off the trail, down to the first `start`. */
    method PopTo(start: nat)
      requires Proper(trail, nVars) && |assign| == |reason| == nVars + 1 && Agree(assign, trail) && start <= |trail|
      modifies `trail, `assign, `reason
      ensures trail == old(trail)[..start] && |assign| == |reason| == nVars + 1 && Agree(assign, trail)
      ensures forall i :: 0 <= i < start ==> Var(old(trail)[i]) < |reason|
      ensures forall i :: 0 <= i < start ==> reason[Var(old(trail)[i])] == old(reason)[Var(old(trail)[i])]
    {
      hide Proper, Agree;
      ghost var t0, r0 := trail, reason;
      assert t0[..|t0|] == t0;
      TrailFitsVars(t0, nVars);
      while |trail| > start
        invariant start <= |trail| <= |t0| && trail == t0[..|trail|] && |assign| == |reason| == nVars + 1
        invariant Proper(trail, nVars) && Agree(assign, trail)
        invariant forall i :: 0 <= i < start ==> reason[Var(t0[i])] == r0[Var(t0[i])]
      {
        ghost var n := |trail| - 1;
        var l := trail[|trail| - 1];
        DropAgree(assign, trail, nVars);
        Different(t0, nVars, n);
        trail := trail[..|trail| - 1];
        assert trail == t0[..n];
        assign := assign[Var(l) := 0];
        reason := reason[Var(l) := 0];
      }
    }

    /** Back to the level at which the learned clause is unit, and its first literal is made true there. */
    method Jump(learn: Clause, bj: nat)
      requires Valid() && Learnt(trail, lim, learn, bj) && Implies(f, learn) && InRange(learn, nVars)
      modifies `cl, `occ, `trail, `lim, `assign, `level, `reason, `q
      ensures Valid() && cl == old(cl) + [learn] && lim == old(lim)[..bj]
      ensures trail == old(trail)[..old(lim)[bj]] + [learn[0]] && q == |trail| - 1
      ensures old(Quiet(cl, trail, lim)) ==> Quiet(cl, trail, lim) && AllCalm(cl, trail, q)
    {
      hide Proper, Agree, Leveled, Reasoned, Rooted, Implies, Learnt, Quiet, AllCalm, Entailed, Indexed, InRange;
      ghost var cl0, t0, l0 := cl, trail, lim;
      LearntUnit(trail, nVars, lim, learn, bj);
      if Quiet(cl, trail, lim) {
        QuietBack(cl, trail, nVars, lim, learn, bj);
      }
      Append(learn);
      LearntJoins(f, cl0, learn, trail, lim, bj, nVars, reason);
      Back(bj);
      if lim == [] {
        RootUnit(f, learn, learn[0], trail, nVars);
      }
      Push(learn[0], |cl|, lim);
      q := |trail| - 1;
    }

    /** The levels above `bj` are undone, newest first. */
    method Back(bj: nat)
      requires Trailed() && bj < |lim|
      modifies `trail, `lim, `assign, `reason
      ensures Trailed() && lim == old(lim)[..bj] && trail == old(trail)[..old(lim)[bj]]
    {
      hide Agree, Leveled, Reasoned, Rooted, Proper;
      ghost var t0, l0 := trail, lim;
      while |lim| > bj
        invariant bj <= |lim| <= |l0| && lim == l0[..|lim|] && Trailed()
        invariant |trail| <= |t0| && trail == t0[..|trail|]
        invariant |lim| < |l0| ==> |trail| == l0[|lim|]
      {
        var top := |lim| - 1;
        BackOne(lim[top]);
        assert lim == l0[..top];
      }
    }

    method BackOne(start: nat)
      requires Trailed() && |lim| > 0 && start == lim[|lim| - 1]
      modifies `trail, `lim, `assign, `reason
      ensures Trailed() && lim == old(lim)[..|old(lim)| - 1] && start <= |old(trail)| && trail == old(trail)[..start]
    {
      hide Agree, Leveled, Rooted, Proper;
      ghost var t0, r0 := trail, reason;
      PopTo(start);
      forall i | 0 <= i < start
        ensures Var(t0[i]) < |reason| && ReasonOk(cl, t0, lim, i, reason[Var(t0[i])])
      {
        assert trail[i] == t0[i];
        assert ReasonOk(cl, t0, lim, i, r0[Var(t0[i])]);
      }
      CutOk(cl, f, t0, nVars, lim, level, reason, |lim| - 1);
      lim := lim[..|lim| - 1];
    }

    /** The lowest variable without a value. */
    method DecideVar() returns (v: nat)
      requires Trailed()
      ensures v <= nVars && (v > 0 ==> assign[v] == 0 && forall x :: 0 < x < v ==> assign[x] != 0)
      ensures v == 0 ==> forall x :: 0 < x <= nVars ==> assign[x] != 0
    {
      v := 1;
      while v <= nVars
        invariant 1 <= v <= nVars + 1 && forall x :: 0 < x < v ==> assign[x] != 0
      {
        if assign[v] == 0 {
          return;
        }
        v := v + 1;
      }
      v := 0;
    }

    /** A new level begins with a guess; which value is tried first depends on the phase. */
    method Decide(v: Lit) returns (l: Lit)
      requires Valid() && q == |trail| && 0 < v <= nVars && assign[v] == 0
      modifies `assign, `level, `reason, `trail, `lim, `q
      ensures Valid() && lim == old(lim) + [|old(trail)|] && trail == old(trail) + [l] && q == |trail| - 1
      ensures l == if phase == 1 || (phase == 2 && |lim| % 2 == 0) then -v else v
      ensures old(Quiet(cl, trail, lim) && AllCalm(cl, trail, q)) ==> Quiet(cl, trail, lim) && AllCalm(cl, trail, q)
    {
      hide Proper, Agree, Leveled, Reasoned, Rooted, Implies, Clauses, Quiet, AllCalm;
      ghost var t0, l0 := trail, lim;
      Valued(v);
      Valued(-v);
      lim := lim + [|trail|];
      l := v;
      if phase == 1 {
        l := -v;
      } else if phase == 2 && |lim| % 2 == 0 {
        l := -v;
      }
      if Quiet(cl, t0, l0) && AllCalm(cl, t0, |t0|) {
        QuietDecided(cl, t0, l0, l);
      }
      Push(l, 0, l0);
      q := |trail| - 1;
    }

    /** One pass over all clauses before the first decision. */
    method Pass() returns (progressed: bool, dead: bool)
      requires Valid() && lim == []
      modifies `assign, `level, `reason, `trail
      ensures Valid() && old(trail) <= trail
      ensures dead ==> !Satisfiable(f)
      ensures progressed ==> |old(trail)| < |trail|
      ensures !progressed && !dead ==> trail == old(trail) && AllCalm(cl, trail, |trail|)
      ensures old(trail) == [] && AllMixed(cl) ==> !progressed && !dead
    {
      hide Proper, Agree, Leveled, Reasoned, Rooted, Implies, Indexed, Satisfiable, Plain;
      hide UnitFor, False, Sated, TwoFree;
      progressed, dead := false, false;
      ghost var t0 := trail;
      assert t0[..|t0|] == t0;
      for i := 0 to |cl|
        invariant Valid() && t0 <= trail && !dead
        invariant if progressed then |t0| < |trail| else trail == t0
        invariant !progressed ==> forall k :: 0 <= k < i ==> Calm(cl[k], trail, trail)
        invariant t0 == [] && AllMixed(cl) ==> !progressed
      {
        assert cl[i] in cl;
        var un, ul, sat := Scan(cl[i]);
        if t0 == [] && AllMixed(cl) {
          MixedScan(cl[i], ul);
        }
        if !sat && un == 0 {
          RootConflict(f, cl[i], trail, nVars);
          dead := true;
          return;
        }
        if !sat && un == 1 {
          RootUnit(f, cl[i], ul, trail, nVars);
          Push(ul, 0, lim);
          progressed := true;
        }
      }
    }

    /** What follows without any decision. */
    method Units() returns (dead: bool)
      requires Valid() && lim == [] && trail == []
      modifies `assign, `level, `reason, `trail, `q, `conflictCl
      ensures Valid() && (dead ==> !Satisfiable(f))
      ensures !dead ==> q == |trail| && AllCalm(cl, trail, q)
      ensures AllMixed(cl) ==> !dead && trail == []
    {
      hide Trailed, Clauses, AllCalm, Satisfiable, AllMixed;
      q := 0;
      while true
        invariant Valid() && q == |trail| && (AllMixed(cl) ==> trail == [])
        decreases nVars - |trail|
      {
        Room();
        var progressed, over := Pass();
        Room();
        if over {
          return true;
        }
        if !progressed {
          break;
        }
        q := 0;
        var conflict := Propagate();
        Room();
        if conflict {
          Dead();
          return true;
        }
      }
      var conflict := Propagate();
      dead := conflict;
    }

    /** A conflict before any decision: the formula has no model. */
    lemma Dead()
      requires Valid() && lim == [] && InConflict()
      ensures !Satisfiable(f)
    {
      hide Proper, Agree, Leveled, Reasoned, Rooted, Implies, Indexed, False, Plain;
      assert cl[conflictCl] in cl;
      RootConflict(f, cl[conflictCl], trail, nVars);
    }

    /** Nothing to propagate, and if no clause repeats a literal, every clause is calm. */
    ghost predicate Settled()
      reads this
    {
      Valid() && q == |trail| && (Plain(f) ==> Quiet(cl, trail, lim) && AllCalm(cl, trail, q))
    }

    /** A conflict to be analyzed. */
    ghost predicate Stuck()
      reads this
    {
      && Valid() && InConflict() && (|lim| > 0 ==> lim[|lim| - 1] < q)
      && (Plain(f) ==> Quiet(cl, trail, lim))
    }

    /** Propagation of a literal just made true. */
    method Spread() returns (conflict: bool)
      requires Valid() && q + 1 == |trail| && (|lim| > 0 ==> lim[|lim| - 1] <= q)
      requires Plain(f) ==> Quiet(cl, trail, lim) && AllCalm(cl, trail, q)
      modifies `assign, `level, `reason, `trail, `q, `conflictCl
      ensures old(trail) <= trail && q > old(q)
      ensures if conflict then Stuck() else Settled()
      ensures conflict && Plain(f) ==> Pending(cl[conflictCl], trail, q)
      ensures old(AllCalm(cl, trail, q)) && !conflict ==> AllCalm(cl, trail, q)
    {
      hide Proper, Agree, Leveled, Reasoned, Rooted, Indexed, Entailed, Plain, Quiet, AllCalm, Pending, False;
      ghost var t0 := trail;
      conflict := Propagate();
      if Plain(f) {
        QuietStays(cl, t0, trail, lim);
      }
    }

    /** A conflict: a clause is learned, its first literal made true at an older level, and propagated. A further
        conflict there is not looked at but left for the next propagation to find again. */
    method Recover() returns (conflict: bool)
      requires Stuck() && |lim| > 0
      modifies `cl, `occ, `trail, `lim, `assign, `level, `reason, `q, `conflictCl
      ensures if conflict then Stuck() else Settled()
      ensures conflict && Plain(f) ==> Pending(cl[conflictCl], trail, q)
      ensures |cl| == |old(cl)| + 1
    {
      hide Proper, Agree, Leveled, Reasoned, Rooted, Indexed, Entailed, Quiet, AllCalm, Pending, False, Learnt, Implies;
      var learn, bj := Analyze();
      Jump(learn, bj);
      conflict := Spread();
    }

    method Again() returns (conflict: bool)
      requires Stuck() && (Plain(f) ==> Pending(cl[conflictCl], trail, q))
      modifies `assign, `level, `reason, `trail, `q, `conflictCl
      ensures if conflict then Stuck() else Settled()
      ensures Plain(f) ==> conflict
      ensures old(q == |trail|) ==> !conflict && trail == old(trail)
    {
      hide Proper, Agree, Leveled, Reasoned, Rooted, Indexed, Entailed, Quiet, AllCalm, Pending, False;
      ghost var t0 := trail;
      conflict := Propagate();
      if Plain(f) {
        QuietStays(cl, t0, trail, lim);
      }
    }

    /** Since there were `c` clauses and `k` conflicts had been counted: each conflict counted left a learned clause,
        but for the one that ends the search. */
    ghost predicate Counted(c: nat, k: nat, done: Option<Answer>)
      reads `cl, `conflicts
    {
      && |cl| - c <= conflicts - k <= |cl| - c + 1
      && (done == None || done == Some(Satisfied) ==> conflicts - k == |cl| - c)
      && (done == Some(Undecided) ==> conflicts - k == |cl| - c + 1)
    }

    /** Conflict after conflict is analyzed, until there is none, or an answer. */
    method Repair() returns (done: Option<Answer>)
      requires Stuck() && conflicts <= budget
      modifies `cl, `occ, `trail, `lim, `assign, `level, `reason, `q, `conflictCl, `conflicts
      ensures Valid() && done != Some(Satisfied)
      ensures done == None ==> Settled() && old(conflicts) < conflicts <= budget
      ensures done == Some(Unsatisfiable) ==> !Satisfiable(f)
      ensures done == Some(Undecided) ==> conflicts == budget + 1
      ensures Counted(|old(cl)|, old(conflicts), done)
    {
      hide Trailed, Clauses, Proper, Agree, Rising, Plain, Quiet, AllCalm, Pending, False, Satisfiable;
      var conflict := true;
      while conflict
        invariant if conflict then Stuck() else Settled()
        invariant old(conflicts) <= conflicts <= budget && (!conflict ==> old(conflicts) < conflicts)
        invariant conflicts - old(conflicts) == |cl| - |old(cl)|
        decreases budget - conflicts
      {
        conflicts := conflicts + 1;
        if conflicts > budget {
          return Some(Undecided);
        }
        if |lim| == 0 {
          Dead();
          return Some(Unsatisfiable);
        }
        conflict := Recover();
        if conflict {
          if |lim| == 0 {
            Dead();
            return Some(Unsatisfiable);
          }
          conflict := Again();
        }
      }
      done := None;
    }

    /** A decision and what follows from it. */
    method Try(v: Lit) returns (done: Option<Answer>)
      requires Settled() && 0 < v <= nVars && assign[v] == 0 && conflicts <= budget
      modifies `cl, `occ, `trail, `lim, `assign, `level, `reason, `q, `conflictCl, `conflicts
      ensures Valid() && done != Some(Satisfied)
      ensures done == None ==> Settled() && old(conflicts) <= conflicts <= budget
      ensures done == None && conflicts == old(conflicts) ==> |trail| > |old(trail)|
      ensures done == Some(Unsatisfiable) ==> !Satisfiable(f)
      ensures done == Some(Undecided) ==> conflicts == budget + 1
      ensures Counted(|old(cl)|, old(conflicts), done)
    {
      hide Proper, Agree, Leveled, Reasoned, Rooted, Clauses, Plain, Quiet, AllCalm, Pending, False, Satisfiable;
      var l := Decide(v);
      var conflict := Spread();
      done := None;
      if conflict {
        done := Repair();
      }
    }

    /** `bv_sat_solve`. "Unsatisfiable" is always right. "Satisfied" is right if no clause of the formula repeats a
        literal. "Undecided" means that the budget is used up: as many clauses as it still had conflicts have been
        learned, one from each, and there is yet another conflict. */
    method Solve() returns (a: Answer)
      requires Valid() && trail == [] && lim == [] && conflicts <= budget
      modifies `cl, `occ, `trail, `lim, `assign, `level, `reason, `q, `conflictCl, `conflicts
      ensures Valid()
      ensures a == Unsatisfiable ==> !Satisfiable(f)
      ensures a == Satisfied ==> forall v :: 0 < v <= nVars ==> v < |assign| && assign[v] != 0
      ensures a == Satisfied && Plain(f) ==> Models(Assigned(assign), f)
      ensures a == Undecided ==> conflicts == budget + 1 && |cl| == |old(cl)| + budget - old(conflicts)
      ensures Counted(|old(cl)|, old(conflicts), Some(a))
    {
      hide Trailed, Clauses, Proper, Agree, Rising, Plain, Quiet, AllCalm, Pending, False, Satisfiable, Models;
      var dead := Units();
      if dead {
        return Unsatisfiable;
      }
      NoLevels();
      Room();
      while true
        invariant Settled() && conflicts <= budget && |trail| <= nVars
        invariant conflicts - old(conflicts) == |cl| - |old(cl)|
        decreases budget - conflicts, nVars - |trail|
      {
        var v := DecideVar();
        if v == 0 {
          HasValue(nVars);
          Answered();
          return Satisfied;
        }
        HasValue(v);
        var done := Try(v);
        if done.Some? {
          return done.value;
        }
        Room();
      }
    }

    lemma HasValue(v: nat)
      requires Trailed() && v <= nVars
      ensures v < |assign|
    {
    }

    lemma NoLevels()
      requires Valid() && lim == []
      ensures Quiet(cl, trail, lim)
    {
    }

    lemma Answered()
      requires Settled() && forall x :: 0 < x <= nVars ==> assign[x] != 0
      ensures Plain(f) ==> Models(Assigned(assign), f)
    {
      hide Proper, Agree, Leveled, Reasoned, Rooted, Indexed, Implies, Quiet, AllCalm, Models, Plain;
      if Plain(f) {
        AllTrue(f, cl, trail, nVars, assign);
      }
    }

    /** `bv_sat_reset`: what was learned stays. */
    method Reset(phase: nat)
      requires Valid()
      modifies `trail, `lim, `assign, `reason, `q, `conflicts, `phase
      ensures Valid() && trail == [] && lim == [] && q == 0 && conflicts == 0 && this.phase == phase
    {
      hide Implies, Indexed, Entailed, Plain;
      PopTo(0);
      lim, q, conflicts := [], 0, 0;
      this.phase := phase;
    }

    /** The three attempts of the verifier, with different first guesses. Undecided, each has used up the whole budget,
        and what all have learned is kept. */
    method ThreePhases() returns (a: Answer)
      requires Valid() && trail == [] && lim == [] && conflicts == 0
      modifies this
      ensures Valid() && f == old(f) && budget == old(budget)
      ensures a == Unsatisfiable ==> !Satisfiable(f)
      ensures a == Satisfied && Plain(f) ==> Models(Assigned(assign), f)
      ensures a == Undecided ==> phase == 2 && conflicts == budget + 1 && |cl| == |old(cl)| + 3 * budget
    {
      hide Trailed, Clauses, Plain, Satisfiable, Models;
      a := Undecided;
      for mode := 0 to 3
        invariant Valid() && f == old(f) && budget == old(budget)
        invariant mode == 0 ==> a == Undecided && trail == [] && lim == [] && conflicts == 0
        invariant a == Undecided ==> |cl| == |old(cl)| + mode * budget
        invariant mode > 0 && a == Undecided ==> phase == mode - 1 && conflicts == budget + 1
        invariant a == Unsatisfiable ==> !Satisfiable(f)
        invariant a == Satisfied && Plain(f) ==> Models(Assigned(assign), f)
      {
        if a == Undecided {
          if mode > 0 {
            Reset(mode);
          } else {
            phase := mode;
          }
          a := Solve();
        }
      }
    }
  }

  // ------------------------------------------------------------------ a clause that repeats a literal

  /** The clauses of a multiplexer gate: `g` is `a` if `s` is true and `b` otherwise. */
  function Multiplexer(g: Lit, s: Lit, a: Lit, b: Lit): seq<Clause> {
    [[-s, -g, a], [-s, g, -a], [s, -g, b], [s, g, -b]]
  }

  /** They say just that, and with a new `g` they repeat a literal exactly if one of the inputs is the selector or
      its negation, as in the lowest layers of a shift of a word by itself. */
  lemma MultiplexerMeans(g: Lit, s: Lit, a: Lit, b: Lit, m: int -> bool)
    requires g != 0 && s != 0 && a != 0 && b != 0
    requires Var(g) != Var(s) && Var(g) != Var(a) && Var(g) != Var(b)
    ensures Models(m, Multiplexer(g, s, a, b)) <==> (True(m, g) <==> if True(m, s) then True(m, a) else True(m, b))
    ensures Plain(Multiplexer(g, s, a, b)) <==> Var(a) != Var(s) && Var(b) != Var(s)
  {
    var f := Multiplexer(g, s, a, b);
    assert f[0] in f && f[1] in f && f[2] in f && f[3] in f;
    forall x: Lit, y: Lit, z: Lit ensures Holds(m, [x, y, z]) <==> True(m, x) || True(m, y) || True(m, z) {
      assert x in [x, y, z] && y in [x, y, z] && z in [x, y, z];
    }
    forall x: Lit, y: Lit, z: Lit ensures Distinct([x, y, z]) <==> x != y && y != z && x != z {
      assert [x, y, z][0] == x && [x, y, z][1] == y && [x, y, z][2] == z;
    }
  }

  const REPEATS: seq<Clause> := [[2, -1, 2], [-2, -1, -2]]

  /** Variable 1 is true; then nothing is true, false or unit, and nothing follows. */
  lemma NoUnit(c: Clause, l: Lit)
    requires c in REPEATS
    ensures Mixed(c) && !UnitFor(c, l, [1]) && !False(c, [1]) && TwoFree(c, [1])
  {
    assert c == [2, -1, 2] || c == [-2, -1, -2];
    assert c[1] == -1 && c[1] in c && c[0] in c && c[0] == c[2];
    assert -c[0] !in [1] && -c[2] !in [1];
  }

  lemma NotAlone()
    ensures !Implies(REPEATS, [-2])
  {
    var m := (v: int) => v == 2;
    forall c | c in REPEATS ensures Holds(m, c) {
      assert c[1] == -1 && c[1] in c && True(m, -1);
    }
    OneLiteral(m, -2);
  }

  /** What is learned from a conflict at [1, 2] begins with -2 and leads back to level 1. */
  lemma OnlyClause(learn: Clause, bj: nat)
    requires Learnt([1, 2], [0, 1], learn, bj) && Implies(REPEATS, learn)
    ensures learn[0] == -2 && bj == 1
  {
    var trail: seq<Lit>, lim := [1, 2], [0, 1];
    LevIs(lim, 2, 0);
    LevIs(lim, 2, 1);
    assert learn[0] == -2;
    NotAlone();
    assert learn != [-2];
    forall l | l in learn[1..] ensures l == -1 {
      assert Low(trail, lim, l, bj);
    }
    forall k | 1 <= k < |learn| ensures learn[k] == -1 {
      assert learn[k] in learn[1..];
    }
  }

  lemma NotPlain()
    ensures !Plain(REPEATS) && AllMixed(REPEATS)
  {
    assert REPEATS[0] in REPEATS && REPEATS[0][0] == REPEATS[0][2];
    forall c | c in REPEATS ensures Mixed(c) {
      NoUnit(c, 0);
    }
  }

  /** Nothing follows from making variable 1 true. */
  lemma Alone(s: Solver)
    requires s.Valid() && s.cl == REPEATS && s.lim == [0] && [1] <= s.trail
    ensures s.trail == [1] && !s.InConflict() && AllCalm(s.cl, [1], 1)
  {
    hide Proper, Agree, Leveled, Rooted, UnitFor, False, TwoFree, s.Clauses;
    assert [1][..1] == [1];
    forall c | c in REPEATS ensures TwoFree(c, [1]) && !False(c, [1]) {
      NoUnit(c, 0);
    }
    if |s.trail| > 1 {
      assert s.trail[..1] == [1] && Lev(s.lim, 1) == 1;
      var r := s.reason[Var(s.trail[1])];
      assert ReasonOk(s.cl, s.trail, s.lim, 1, r);
      NoUnit(s.cl[r - 1], s.trail[1]);
    }
  }

  /** The decisions 1 and 2 make the second clause false, */
  lemma Clash(s: Solver)
    requires s.Valid() && s.cl == REPEATS && s.nVars == 2 && [1, 2] <= s.trail
    ensures s.trail == [1, 2] && AllCalm(s.cl, [1, 2], 1) && !AllCalm(s.cl, [1, 2], 2)
  {
    hide Agree, Leveled, Reasoned, Rooted, UnitFor, False, s.Clauses;
    s.Room();
    assert [1, 2][..1] == [1] && [1, 2][..2] == [1, 2];
    forall c | c in REPEATS ensures TwoFree(c, [1]) {
      NoUnit(c, 0);
    }
    NotCalm([-2, -1, -2], [1, 2]);
    assert REPEATS[1] in REPEATS;
  }

  /** and 1 and the learned -2 the first. */
  lemma ClashAgain(s: Solver, learn: Clause)
    requires s.Valid() && s.cl == REPEATS + [learn] && |learn| > 0 && learn[0] == -2
    requires s.nVars == 2 && [1, -2] <= s.trail
    ensures s.trail == [1, -2] && AllCalm(s.cl, [1, -2], 1) && !AllCalm(s.cl, [1, -2], 2)
  {
    hide Agree, Leveled, Reasoned, Rooted, UnitFor, False, s.Clauses;
    s.Room();
    assert [1, -2][..1] == [1] && [1, -2][..2] == [1, -2];
    forall c | c in s.cl ensures Calm(c, [1, -2], [1]) {
      if c in REPEATS {
        NoUnit(c, 0);
      } else {
        assert c[0] in c && c[0] in [1, -2];
      }
    }
    NotCalm([2, -1, 2], [1, -2]);
    assert s.cl[0] in s.cl;
  }

  lemma NotCalm(c: Clause, trail: seq<Lit>)
    requires False(c, trail) && forall l :: l in c ==> l !in trail
    ensures !Calm(c, trail, trail)
  {
    forall i | 0 <= i < |c| ensures -c[i] in trail {
      assert c[i] in c;
    }
  }

  lemma Values(s: Solver)
    requires s.Trailed() && s.nVars == 2 && |s.trail| == 2 && s.trail[0] == 1 && s.trail[1] == -2
    ensures s.assign[1] == 1 && s.assign[2] == -1 && !Models(Assigned(s.assign), REPEATS)
  {
    assert Sign(s.trail, 1) == 1 && Sign(s.trail, 2) == -1;
    var m := Assigned(s.assign);
    assert REPEATS[0] in REPEATS;
    assert !Holds(m, [2, -1, 2]);
  }

  /** The steps of `Solve` on that formula, in its order, up to the first decision. */
  method FirstDecision() returns (s: Solver)
    ensures fresh(s) && s.Valid() && s.f == REPEATS && s.cl == REPEATS && s.nVars == 2 && s.phase == 0
    ensures s.trail == [1] && s.lim == [0] && s.q == 0
  {
    hide Solver.Trailed, Solver.Clauses, Plain, AllMixed, Quiet, AllCalm, Pending, False, Rising;
    s := new Solver(2, 30000, 0);
    s.AddClause([2, -1, 2]);
    s.AddClause([-2, -1, -2]);
    NotPlain();
    assert s.f == REPEATS && s.cl == REPEATS;
    var dead := s.Units();
    Unassigned(s);
    var v := s.DecideVar();
    assert v == 1;
    var l := s.Decide(1);
  }

  /** And up to the first conflict. */
  method FirstClash() returns (s: Solver)
    ensures fresh(s) && s.Stuck() && s.f == REPEATS && s.cl == REPEATS && s.nVars == 2
    ensures s.trail == [1, 2] && s.lim == [0, 1]
  {
    hide Solver.Trailed, Solver.Clauses, Plain, AllMixed, Quiet, AllCalm, Pending, False, Rising;
    NotPlain();
    s := FirstDecision();
    var conflict := s.Spread();
    Alone(s);
    Unassigned(s);
    var v := s.DecideVar();
    assert v == 2;
    var l := s.Decide(2);
    Clash(s);
    conflict := s.Spread();
    Clash(s);
  }

  lemma Unassigned(s: Solver)
    requires s.Valid() && s.nVars == 2
    ensures |s.assign| == 3
    ensures s.trail == [] ==> s.assign[1] == 0
    ensures s.trail == [1] ==> s.assign[1] != 0 && s.assign[2] == 0
  {
    assert s.assign[1] == Sign(s.trail, 1) && s.assign[2] == Sign(s.trail, 2);
  }

  /** And from there. After the jump the false clause is found, but nothing is left to propagate, and so it is not
      found again: the answer would be "satisfied". */
  method Repeats() returns (s: Solver, missed: bool)
    ensures fresh(s) && s.Valid() && s.f == REPEATS && missed
    ensures s.q == |s.trail| && (forall v :: 0 < v <= s.nVars ==> s.assign[v] != 0)
    ensures !Models(Assigned(s.assign), s.f)
  {
    hide Solver.Trailed, Solver.Clauses, Plain, AllMixed, Quiet, AllCalm, Pending, False, Rising, Learnt, Implies;
    NotPlain();
    s := FirstClash();
    var learn, bj := s.Analyze();
    LearntSome(s.trail, s.lim, learn, bj);
    OnlyClause(learn, bj);
    s.Jump(learn, bj);
    ClashAgain(s, learn);
    var conflict := s.Spread();
    ClashAgain(s, learn);
    conflict := s.Again();
    missed := !conflict;
    Values(s);
  }

  lemma LearntSome(trail: seq<Lit>, lim: seq<nat>, learn: Clause, bj: nat)
    requires Learnt(trail, lim, learn, bj)
    ensures |learn| > 0
  {
  }
}
