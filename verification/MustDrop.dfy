/** The must-drop analysis of the checker: a flag per variable and one log, lifted and joined at
  if, catch and match. It is compared with "dropped on every path". */
module MustDrop {
  import opened Common
  import opened Paths
  import opened WrongDrops

  // ---------------------------------------------- what the checker concludes, on values

  /** The entries' `dropped` flags and the overflow flag of the log. */
  datatype Flags = Flags(dropped: set<Slot>, overflowed: bool)

  ghost function Lifted(f: Flags, s: seq<Slot>): Flags {
    f.(dropped := f.dropped - Members(s))
  }

  /** Running from `f` to `g` and logging `added` concludes `must` about the variables of `env`: what
      is logged is new and is all that is marked, none of it wrongly, and with `room` nothing is missed. */
  ghost predicate Outcome(must: iset<Slot>, env: Env, room: bool, f: Flags, g: Flags, added: seq<Slot>) {
    && (forall x :: InScope(x, env) ==>
          && (x in g.dropped <==> x in f.dropped || x in added)
          && (x in added ==> x in must && x !in f.dropped)
          && (room && !f.overflowed && x in must ==> x in g.dropped))
    && (room && !f.overflowed ==> !g.overflowed)
  }

  /** The same said of fewer variables, or with room for more. */
  lemma Narrow(must: iset<Slot>, must': iset<Slot>, env: Env, env': Env, room: bool, room': bool,
               f: Flags, g: Flags, added: seq<Slot>)
    requires Outcome(must, env, room, f, g, added)
    requires room' ==> room
    requires forall x :: InScope(x, env') ==> InScope(x, env) && (x in must <==> x in must')
    ensures Outcome(must', env', room', f, g, added)
  {
  }

  /** A new scope, with a variable in it when `n` is 1. That variable starts undropped, whatever an
      earlier one left in its slot. */
  ghost function Opening(f: Flags, env: Env, n: nat): Flags {
    f.(dropped := f.dropped - if n == 1 then {Slot(|env|, 0)} else {})
  }

  /** For the variables outside the scope nothing has happened. */
  lemma OpeningKeeps(must: iset<Slot>, env: Env, n: nat, room: bool, f: Flags, g: Flags, added: seq<Slot>)
    requires Outcome(must, env, room, Opening(f, env, n), g, added)
    ensures Outcome(must, env, room, f, g, added)
  {
  }

  lemma InSequence(m1: iset<Slot>, m2: iset<Slot>, env: Env, room: bool, f: Flags, g: Flags, h: Flags,
                   n1: seq<Slot>, n2: seq<Slot>)
    requires Outcome(m1, env, room, f, g, n1) && Outcome(m2, env, room, g, h, n2)
    ensures Outcome(m1 + m2, env, room, f, h, n1 + n2)
  {
  }

  /** Lifting what one alternative logged: as if it had not run. */
  lemma LiftUndoes(m: iset<Slot>, env: Env, room: bool, f: Flags, g: Flags, added: seq<Slot>)
    requires Outcome(m, env, room, f, g, added)
    ensures Outcome(iset{}, env, room, f, Lifted(g, added).(overflowed := false), [])
    ensures forall x :: InScope(x, env) ==> (x in Lifted(g, added).dropped <==> x in f.dropped)
  {
  }

  /** What the two-way join promises. */
  ghost predicate JoinOf2(f: Flags, first: seq<Slot>, second: seq<Slot>, g: Flags, kept: seq<Slot>) {
    && !g.overflowed
    && if f.overflowed then kept == [] && g.dropped == f.dropped - Members(first + second)
       else
      && Members(kept) == Members(first) * Members(second)
      && g.dropped == f.dropped - Members(second) + Members(kept)
  }

  lemma JoinTwo(m1: iset<Slot>, m2: iset<Slot>, env: Env, room: bool, f: Flags, g: Flags, h: Flags, k: Flags,
                first: seq<Slot>, second: seq<Slot>, kept: seq<Slot>)
    requires Outcome(m1, env, room, f, g, first)
    requires Outcome(m2, env, room, Lifted(g, first), h, second)
    requires JoinOf2(h, first, second, k, kept)
    ensures Outcome(m1 * m2, env, room, f, k, kept)
  {
    forall x ensures x in kept <==> x in Members(kept) {
    }
    forall x ensures x in first + second <==> x in first || x in second {
    }
  }

  ghost predicate InSome(x: Slot, parts: seq<seq<Slot>>) {
    exists k :: 0 <= k < |parts| && x in parts[k]
  }

  ghost predicate InEvery(x: Slot, parts: seq<seq<Slot>>) {
    |parts| > 0 && forall k :: 0 <= k < |parts| ==> x in parts[k]
  }

  ghost function Flat(parts: seq<seq<Slot>>): seq<Slot> {
    if parts == [] then [] else Flat(parts[..|parts| - 1]) + parts[|parts| - 1]
  }

  lemma {:induction false} InFlat(x: Slot, parts: seq<seq<Slot>>)
    ensures x in Flat(parts) <==> InSome(x, parts)
  {
    if parts != [] {
      var last := |parts| - 1;
      InFlat(x, parts[..last]);
      if k :| 0 <= k < |parts| && x in parts[k] {
        if k < last {
          assert x in parts[..last][k];
        }
      }
    }
  }

  /** Some arms of a match have been checked, each from the flags at its start. */
  ghost predicate ArmsSoFar(ms: seq<iset<Slot>>, env: Env, room: bool, f: Flags, cur: Flags, parts: seq<seq<Slot>>) {
    && |ms| == |parts|
    && (forall x :: InScope(x, env) ==>
          && (x in f.dropped ==> x in cur.dropped && !InSome(x, parts))
          && (x in cur.dropped ==> x in f.dropped || InSome(x, parts)))
    && (forall k, x :: 0 <= k < |parts| && InScope(x, env) && x in parts[k] ==> x in ms[k])
    && (room && !f.overflowed ==>
          && !cur.overflowed
          && forall k, x :: 0 <= k < |parts| && InScope(x, env) && x in ms[k] ==> x in f.dropped || x in parts[k])
  }

  lemma NextArm(ms: seq<iset<Slot>>, m: iset<Slot>, env: Env, room: bool, f: Flags, cur: Flags, next: Flags,
                parts: seq<seq<Slot>>, added: seq<Slot>)
    requires ArmsSoFar(ms, env, room, f, cur, parts)
    requires Outcome(m, env, room, Lifted(cur, Flat(parts)), next, added)
    ensures ArmsSoFar(ms + [m], env, room, f, next, parts + [added])
  {
    var parts', l := parts + [added], Lifted(cur, Flat(parts));
    assert parts'[|parts|] == added;
    forall x | InScope(x, env)
      ensures x in l.dropped <==> x in f.dropped
      ensures InSome(x, parts') <==> InSome(x, parts) || x in added
    {
      InFlat(x, parts);
      assert forall k :: 0 <= k < |parts| ==> parts'[k] == parts[k];
    }
  }

  /** What the join over all arms promises; `arms` says whether the ends of the arms are known. */
  ghost predicate JoinOfAll(f: Flags, parts: seq<seq<Slot>>, known: bool, g: Flags, kept: seq<Slot>) {
    && !g.overflowed
    && if f.overflowed || !known || parts == [] then
         kept == [] && g.dropped == f.dropped - Members(Flat(parts))
       else
         && (forall x :: x in kept <==> InEvery(x, parts))
         && (forall x :: x in g.dropped <==> InEvery(x, parts) || (x in f.dropped && !InSome(x, parts)))
  }

  /** The join of a match without arms is not the identity: the flag is cleared. */
  lemma NoArms(f: Flags, known: bool, g: Flags, kept: seq<Slot>)
    requires JoinOfAll(f, [], known, g, kept)
    ensures kept == [] && g.dropped == f.dropped && (g == f <==> !f.overflowed)
  {
    assert Members(Flat([])) == {};
  }

  ghost predicate InAll(x: Slot, ms: seq<iset<Slot>>) {
    |ms| > 0 && forall k :: 0 <= k < |ms| ==> x in ms[k]
  }

  ghost function All(ms: seq<iset<Slot>>): iset<Slot> {
    iset x | InAll(x, ms)
  }

  lemma JoinAll(ms: seq<iset<Slot>>, env: Env, room: bool, known: bool, f: Flags, cur: Flags, g: Flags,
                parts: seq<seq<Slot>>, kept: seq<Slot>)
    requires ArmsSoFar(ms, env, room, f, cur, parts) && JoinOfAll(cur, parts, known, g, kept)
    requires room ==> known
    ensures Outcome(All(ms), env, room, f, g, kept)
  {
    forall x | InScope(x, env)
      ensures x in Flat(parts) <==> InSome(x, parts)
      ensures InEvery(x, parts) ==> InSome(x, parts)
    {
      InFlat(x, parts);
      if InEvery(x, parts) {
        assert x in parts[0];
      }
    }
  }

  // ---------------------------------------------------------------- what fits the log

  const LOG_MAX := 256
  const ARMS_MAX := 64

  /** No match has more arms than the join keeps the ends of. */
  predicate FewArms(s: Stmt) {
    match s
    case Skip => true
    case Drop(_) => true
    case Then(a, b) => FewArms(a) && FewArms(b)
    case If(t, e) => FewArms(t) && FewArms(e)
    case IfOnly(t) => FewArms(t)
    case Catch(b, h, _) => FewArms(b) && FewArms(h)
    case Match(arms, _, _) => |arms| <= ARMS_MAX && forall arm :: arm in arms ==> FewArms(arm.body)
    case While(b) => FewArms(b)
    case For(b) => FewArms(b)
    case Block(items) => FewArmsItems(items)
  }

  predicate FewArmsItems(items: Items) {
    match items
    case Done => true
    case Let(init, rest) => FewArms(init) && FewArmsItems(rest)
    case Do(s, rest) => FewArms(s) && FewArmsItems(rest)
  }

  /** A statement whose drops all fit the log after `n` entries. */
  predicate Fits(s: Stmt, n: nat) {
    n + Drops(s) <= LOG_MAX && FewArms(s)
  }

  predicate FitsItems(items: Items, n: nat) {
    n + ItemDrops(items) <= LOG_MAX && FewArmsItems(items)
  }

  /** Where arm `k` starts in the log, from the recorded ends. */
  function StartOf(base: nat, ends: seq<nat>, k: nat): nat
    requires k <= |ends|
  {
    if k == 0 then base else ends[k - 1]
  }

  ghost predicate ArmLaid(log: seq<Slot>, base: nat, ends: seq<nat>, parts: seq<seq<Slot>>, k: nat)
    requires k < |ends| <= |parts|
  {
    && base <= StartOf(base, ends, k) <= ends[k] <= |log|
    && (k > 0 ==> ends[0] <= ends[k - 1])
    && log[StartOf(base, ends, k)..ends[k]] == parts[k]
  }

  /** The arms' entries lie one after another in the log from `base`, arm `k` up to `ends[k]`; said
      of the arms from number `first` on. */
  ghost predicate Laid(log: seq<Slot>, base: nat, ends: seq<nat>, parts: seq<seq<Slot>>, first: nat) {
    |ends| <= |parts| && forall k :: first <= k < |ends| ==> ArmLaid(log, base, ends, parts, k)
  }

  /** Writing over arm 0 leaves the later arms as they are. */
  lemma LaterArmsStay(log: seq<Slot>, log': seq<Slot>, base: nat, ends: seq<nat>, parts: seq<seq<Slot>>)
    requires Laid(log, base, ends, parts, 1) && |log'| == |log| && |ends| > 0
    requires forall i :: ends[0] <= i < |log| ==> log'[i] == log[i]
    ensures Laid(log', base, ends, parts, 1)
  {
    forall k | 1 <= k < |ends| ensures ArmLaid(log', base, ends, parts, k) {
      assert ArmLaid(log, base, ends, parts, k);
      assert log'[StartOf(base, ends, k)..ends[k]] == log[StartOf(base, ends, k)..ends[k]];
    }
  }

  lemma OneMorePart(x: Slot, parts: seq<seq<Slot>>, k: nat)
    requires 1 <= k < |parts|
    ensures InSome(x, parts[1..k + 1]) <==> InSome(x, parts[1..k]) || x in parts[k]
  {
    assert parts[1..k + 1] == parts[1..k] + [parts[k]];
    assert (parts[1..k] + [parts[k]])[k - 1] == parts[k];
    assert forall m :: 0 <= m < k - 1 ==> parts[1..k + 1][m] == parts[1..k][m];
  }

  /** One entry `e` handled by the first loop of the join over all arms. */
  ghost predicate Marked(l: seq<Slot>, l': seq<Slot>, base: nat, w: nat, w': nat, e: Slot, parts: seq<seq<Slot>>,
                         d: set<Slot>, d': set<Slot>)
  {
    && |l'| == |l| && base <= w <= w' <= w + 1 && w' <= |l|
    && (forall j :: 0 <= j < w || w' <= j < |l| ==> l'[j] == l[j])
    && (forall x :: x in l'[base..w'] <==> x in l[base..w] || (x == e && InEvery(e, parts)))
    && d' == if InEvery(e, parts) then d + {e} else d - {e}
  }

  /** That loop has handled `was[base..i]` and kept `now[base..w]`. */
  ghost predicate Swept(was: seq<Slot>, now: seq<Slot>, base: nat, i: nat, w: nat, parts: seq<seq<Slot>>,
                        d0: set<Slot>, d: set<Slot>)
  {
    && base <= w <= i <= |was| == |now|
    && (forall j :: 0 <= j < base || w <= j < |was| ==> now[j] == was[j])
    && (forall x :: x in now[base..w] <==> x in was[base..i] && InEvery(x, parts))
    && (forall x :: x in d <==> if x in was[base..i] then InEvery(x, parts) else x in d0)
  }

  lemma SliceAt(s: seq<Slot>, a: nat, b: nat, p: seq<Slot>, i: nat)
    requires a <= i < b <= |s| && s[a..b] == p
    ensures s[i] == p[i - a]
  {
  }

  lemma Prefixed(log: array<Slot>, n: nat, a: nat, b: nat)
    requires a <= b <= n <= log.Length
    ensures log[..n][a..b] == log[a..b]
  {
  }

  lemma TwoParts(log: array<Slot>, base: nat, mid: nat, n: nat)
    requires base <= mid <= n <= log.Length
    ensures log[base..n] == log[base..mid] + log[mid..n] && log[..base] == log[..mid][..base]
  {
  }

  lemma SweepStart(was: seq<Slot>, base: nat, ends: seq<nat>, parts: seq<seq<Slot>>, d0: set<Slot>)
    requires |ends| > 0 && Laid(was, base, ends, parts, 0)
    ensures Laid(was, base, ends, parts, 1)
    ensures base <= ends[0] <= |was| && was[base..ends[0]] == parts[0]
    ensures Swept(was, was, base, base, base, parts, d0, d0)
  {
    assert ArmLaid(was, base, ends, parts, 0);
  }

  lemma SweptRest(was: seq<Slot>, now: seq<Slot>, base: nat, i: nat, w: nat, parts: seq<seq<Slot>>,
                  d0: set<Slot>, d: set<Slot>)
    requires Swept(was, now, base, i, w, parts, d0, d)
    ensures |now| == |was| && forall j :: w <= j < |was| ==> now[j] == was[j]
  {
  }

  lemma SweptStep(was: seq<Slot>, now: seq<Slot>, now': seq<Slot>, base: nat, i: nat, w: nat, w': nat,
                  parts: seq<seq<Slot>>, d0: set<Slot>, d: set<Slot>, d': set<Slot>)
    requires Swept(was, now, base, i, w, parts, d0, d) && i < |was|
    requires Marked(now, now', base, w, w', was[i], parts, d, d')
    ensures Swept(was, now', base, i + 1, w', parts, d0, d')
  {
    hide InEvery;
    assert was[base..i + 1] == was[base..i] + [was[i]];
  }

  /** After the first loop: arm 0 has been overwritten only with some of its own entries. */
  lemma SweptAll(was: seq<Slot>, now: seq<Slot>, base: nat, end0: nat, w: nat, parts: seq<seq<Slot>>,
                 d0: set<Slot>, d: set<Slot>)
    requires Swept(was, now, base, end0, w, parts, d0, d) && |parts| > 0 && was[base..end0] == parts[0]
    ensures forall x :: x in now[base..end0] ==> x in parts[0]
    ensures forall x :: InEvery(x, parts) <==> x in now[base..w]
    ensures forall x :: InEvery(x, parts) ==> x in now[base..end0]
    ensures forall x :: x in d <==> if x in parts[0] then InEvery(x, parts) else x in d0
  {
    assert forall x :: InEvery(x, parts) ==> x in parts[0];
    hide InEvery;
    assert now[base..end0] == now[base..w] + now[w..end0];
    forall x | x in now[w..end0] ensures x in parts[0] {
      var j :| w <= j < end0 && now[j] == x;
      assert was[j] == parts[0][j - base];
    }
  }

  /** The two loops together: `left` is what the second loop can still see of arm 0. */
  lemma JoinedAll(was: set<Slot>, marked: set<Slot>, now: set<Slot>, parts: seq<seq<Slot>>, left: seq<Slot>)
    requires |parts| > 0
    requires forall x :: x in left ==> x in parts[0]
    requires forall x :: InEvery(x, parts) ==> x in left
    requires forall x :: x in marked <==> if x in parts[0] then InEvery(x, parts) else x in was
    requires forall x :: x in now <==> x in marked && (x in left || !InSome(x, parts[1..]))
    ensures forall x :: x in now <==> InEvery(x, parts) || (x in was && !InSome(x, parts))
  {
    forall x ensures InSome(x, parts) <==> x in parts[0] || InSome(x, parts[1..]) {
      if k :| 0 <= k < |parts| && x in parts[k] {
        if k > 0 {
          assert parts[1..][k - 1] == parts[k];
        }
      }
      if k :| 0 <= k < |parts[1..]| && x in parts[1..][k] {
        assert parts[k + 1] == parts[1..][k];
      }
    }
  }

  // ------------------------------------------ each construct concludes what "must" says

  lemma SkipOutcome(env: Env, loop: nat, room: bool, f: Flags)
    ensures Outcome(Musts(Skip, env, loop), env, room, f, f, [])
  {
    assert Path(Skip, env, loop, {});
  }

  lemma DropOutcome(x: Slot, env: Env, loop: nat, room: bool, f: Flags, g: Flags, added: seq<Slot>)
    requires var ok := InScope(x, env) && x !in f.dropped && !LoopOuter(x, loop);
      || (ok && added == [x] && g == f.(dropped := f.dropped + {x}))
      || (added == [] && g == Flags(f.dropped, f.overflowed || ok) && (room ==> !ok))
    ensures Outcome(Musts(Drop(x), env, loop), env, room, f, g, added)
  {
    forall y ensures Must(Drop(x), env, loop, y) <==> y in Effect(x, env, loop) {
      assert Path(Drop(x), env, loop, Effect(x, env, loop));
    }
  }

  lemma ThenOutcome(a: Stmt, b: Stmt, env: Env, loop: nat, base: nat, mid: nat, f: Flags, g: Flags, h: Flags,
                    n1: seq<Slot>, n2: seq<Slot>)
    requires base <= mid <= base + Drops(a)
    requires Outcome(Musts(a, env, loop), env, Fits(a, base), f, g, n1)
    requires Outcome(Musts(b, env, loop), env, Fits(b, mid), g, h, n2)
    ensures Outcome(Musts(Then(a, b), env, loop), env, Fits(Then(a, b), base), f, h, n1 + n2)
  {
    var ma, mb, room := Musts(a, env, loop), Musts(b, env, loop), Fits(Then(a, b), base);
    forall x ensures Must(Then(a, b), env, loop, x) <==> x in ma + mb {
      MustThen(a, b, env, loop, x);
    }
    hide Outcome, Must;
    Narrow(ma, ma, env, env, Fits(a, base), room, f, g, n1);
    Narrow(mb, mb, env, env, Fits(b, mid), room, g, h, n2);
    InSequence(ma, mb, env, room, f, g, h, n1, n2);
    Narrow(ma + mb, Musts(Then(a, b), env, loop), env, env, room, room, f, h, n1 + n2);
  }

  lemma IfOutcome(t: Stmt, e: Stmt, env: Env, loop: nat, base: nat, mid: nat, f: Flags, g: Flags, h: Flags, k: Flags,
                  first: seq<Slot>, second: seq<Slot>, kept: seq<Slot>)
    requires base <= mid <= base + Drops(t)
    requires Outcome(Musts(t, env, loop), env, Fits(t, base), f, g, first)
    requires Outcome(Musts(e, env, loop), env, Fits(e, mid), Lifted(g, first), h, second)
    requires JoinOf2(h, first, second, k, kept)
    ensures Outcome(Musts(If(t, e), env, loop), env, Fits(If(t, e), base), f, k, kept)
  {
    var mt, me, room := Musts(t, env, loop), Musts(e, env, loop), Fits(If(t, e), base);
    forall x ensures Must(If(t, e), env, loop, x) <==> x in mt * me {
      MustIf(t, e, env, loop, x);
    }
    hide Outcome, Must, JoinOf2;
    Narrow(mt, mt, env, env, Fits(t, base), room, f, g, first);
    Narrow(me, me, env, env, Fits(e, mid), room, Lifted(g, first), h, second);
    JoinTwo(mt, me, env, room, f, g, h, k, first, second, kept);
    Narrow(mt * me, Musts(If(t, e), env, loop), env, env, room, room, f, k, kept);
  }

  lemma IfOnlyOutcome(t: Stmt, env: Env, loop: nat, room: bool, f: Flags, g: Flags, added: seq<Slot>)
    requires Outcome(Musts(t, env, loop), env, room, f, g, added)
    ensures Outcome(Musts(IfOnly(t), env, loop), env, room, f, Lifted(g, added).(overflowed := false), [])
  {
    forall x ensures !Must(IfOnly(t), env, loop, x) {
      MustIfOnly(t, env, loop, x);
    }
    hide Outcome, Must;
    LiftUndoes(Musts(t, env, loop), env, room, f, g, added);
    Narrow(iset{}, Musts(IfOnly(t), env, loop), env, env, room, room, f, Lifted(g, added).(overflowed := false), []);
  }

  lemma CatchOutcome(b: Stmt, h: Stmt, binding: bool, env: Env, loop: nat, base: nat, mid: nat,
                     f: Flags, g: Flags, j: Flags, k: Flags, first: seq<Slot>, second: seq<Slot>, kept: seq<Slot>)
    requires base <= mid <= base + Drops(b)
    requires Outcome(Musts(b, env, loop), env, Fits(b, base), f, g, first)
    requires var inner := env + [Bound(binding)];
      Outcome(Musts(h, inner, loop), inner, Fits(h, mid), Opening(Lifted(g, first), env, Bound(binding)), j, second)
    requires JoinOf2(j, first, second, k, kept)
    ensures var s := Catch(b, h, binding); Outcome(Musts(s, env, loop), env, Fits(s, base), f, k, kept)
  {
    var s, inner := Catch(b, h, binding), env + [Bound(binding)];
    var mb, mh, room := Musts(b, env, loop), Musts(h, inner, loop), Fits(s, base);
    forall x | InScope(x, env) ensures InScope(x, inner) && (Must(s, env, loop, x) <==> x in mb * mh) {
      MustCatch(b, h, binding, env, loop, x);
      MustInnerVisible(h, Bound(binding), env, loop, x);
    }
    hide Outcome, Must, JoinOf2;
    Narrow(mb, mb, env, env, Fits(b, base), room, f, g, first);
    Narrow(mh, mh, inner, env, Fits(h, mid), room, Opening(Lifted(g, first), env, Bound(binding)), j, second);
    OpeningKeeps(mh, env, Bound(binding), room, Lifted(g, first), j, second);
    JoinTwo(mb, mh, env, room, f, g, j, k, first, second, kept);
    Narrow(mb * mh, Musts(s, env, loop), env, env, room, room, f, k, kept);
  }

  /** Variables from outside a loop are never dropped in it, so a loop concludes nothing. */
  lemma WhileOutcome(b: Stmt, env: Env, loop: nat, room: bool, f: Flags, g: Flags, added: seq<Slot>)
    requires Outcome(Musts(b, env, |env|), env, room, f, g, added)
    ensures Outcome(Musts(While(b), env, loop), env, room, f, g, added)
  {
    forall x | InScope(x, env) ensures !Must(b, env, |env|, x) && !Must(While(b), env, loop, x) {
      NeverOuter(b, env, |env|, x);
      MustLoop(b, env, loop, x);
    }
    hide Outcome, Must;
    Narrow(Musts(b, env, |env|), Musts(While(b), env, loop), env, env, room, room, f, g, added);
  }

  lemma ForOutcome(b: Stmt, env: Env, loop: nat, room: bool, f: Flags, g: Flags, added: seq<Slot>)
    requires Outcome(Musts(b, env + [1], |env|), env + [1], room, Opening(f, env, 1), g, added)
    ensures Outcome(Musts(For(b), env, loop), env, room, f, g, added)
  {
    forall x | InScope(x, env) ensures !Must(b, env + [1], |env|, x) && !Must(For(b), env, loop, x) {
      NeverOuter(b, env + [1], |env|, x);
      MustLoop(b, env, loop, x);
    }
    hide Outcome, Must;
    var m := Musts(For(b), env, loop);
    Narrow(Musts(b, env + [1], |env|), m, env + [1], env, room, room, Opening(f, env, 1), g, added);
    OpeningKeeps(m, env, 1, room, f, g, added);
  }

  lemma BlockOutcome(items: Items, env: Env, loop: nat, room: bool, f: Flags, g: Flags, added: seq<Slot>)
    requires Outcome(MustsItems(items, env + [0], loop), env + [0], room, f, g, added)
    ensures Outcome(Musts(Block(items), env, loop), env, room, f, g, added)
  {
    forall x | InScope(x, env)
      ensures InScope(x, env + [0]) && (Must(Block(items), env, loop, x) <==> MustItems(items, env + [0], loop, x))
    {
      MustBlock(items, env, loop, x);
    }
    hide Outcome, Must, MustItems;
    Narrow(MustsItems(items, env + [0], loop), Musts(Block(items), env, loop), env + [0], env, room, room, f, g, added);
  }

  lemma DoneOutcome(env: Env, loop: nat, room: bool, f: Flags)
    requires |env| > 0
    ensures Outcome(MustsItems(Done, env, loop), env, room, f, f, [])
  {
    assert PathItems(Done, env, loop, {});
  }

  lemma DoOutcome(s: Stmt, rest: Items, env: Env, loop: nat, base: nat, mid: nat, f: Flags, g: Flags, h: Flags,
                  n1: seq<Slot>, n2: seq<Slot>)
    requires |env| > 0 && base <= mid <= base + Drops(s)
    requires Outcome(Musts(s, env, loop), env, Fits(s, base), f, g, n1)
    requires Outcome(MustsItems(rest, env, loop), env, FitsItems(rest, mid), g, h, n2)
    ensures Outcome(MustsItems(Do(s, rest), env, loop), env, FitsItems(Do(s, rest), base), f, h, n1 + n2)
  {
    var ms, mr, room := Musts(s, env, loop), MustsItems(rest, env, loop), FitsItems(Do(s, rest), base);
    forall x ensures MustItems(Do(s, rest), env, loop, x) <==> x in ms + mr {
      MustDo(s, rest, env, loop, x);
    }
    hide Outcome, Must, MustItems;
    Narrow(ms, ms, env, env, Fits(s, base), room, f, g, n1);
    Narrow(mr, mr, env, env, FitsItems(rest, mid), room, g, h, n2);
    InSequence(ms, mr, env, room, f, g, h, n1, n2);
    Narrow(ms + mr, MustsItems(Do(s, rest), env, loop), env, env, room, room, f, h, n1 + n2);
  }

  /** The slot the next variable of the innermost scope gets. */
  function NewSlot(env: Env): Slot
    requires |env| > 0
  {
    Slot(|env| - 1, env[|env| - 1])
  }

  /** A new variable starts undropped, whatever an earlier variable left in its slot. */
  lemma LetOutcome(init: Stmt, rest: Items, env: Env, loop: nat, base: nat, mid: nat, f: Flags, g: Flags, h: Flags,
                   n1: seq<Slot>, n2: seq<Slot>)
    requires |env| > 0 && base <= mid <= base + Drops(init)
    requires Outcome(Musts(init, env, loop), env, Fits(init, base), f, g, n1)
    requires var g' := g.(dropped := g.dropped - {NewSlot(env)});
      Outcome(MustsItems(rest, Declared(env), loop), Declared(env), FitsItems(rest, mid), g', h, n2)
    ensures Outcome(MustsItems(Let(init, rest), env, loop), env, FitsItems(Let(init, rest), base), f, h, n1 + n2)
  {
    var s, inner, g' := Let(init, rest), Declared(env), g.(dropped := g.dropped - {NewSlot(env)});
    var mi, mr, room := Musts(init, env, loop), MustsItems(rest, inner, loop), FitsItems(s, base);
    forall x ensures MustItems(s, env, loop, x) <==> x in mi + mr {
      MustLet(init, rest, env, loop, x);
    }
    assert Outcome(mi, env, Fits(init, base), f, g', n1);
    hide Outcome, Must, MustItems;
    Narrow(mi, mi, env, env, Fits(init, base), room, f, g', n1);
    Narrow(mr, mr, inner, env, FitsItems(rest, mid), room, g', h, n2);
    InSequence(mi, mr, env, room, f, g', h, n1, n2);
    Narrow(mi + mr, MustsItems(s, env, loop), env, env, room, room, f, h, n1 + n2);
  }

  lemma ArmOutcome(arm: Arm, env: Env, loop: nat, room: bool, f: Flags, g: Flags, added: seq<Slot>)
    requires var inner := env + [Bound(arm.binding)];
      Outcome(Musts(arm.body, inner, loop), inner, room, Opening(f, env, Bound(arm.binding)), g, added)
    ensures Outcome(MustsArm(arm, true, env, loop), env, room, f, g, added)
  {
    var inner, f' := env + [Bound(arm.binding)], Opening(f, env, Bound(arm.binding));
    forall x | InScope(x, env)
      ensures InScope(x, inner) && (MustArm(arm, true, env, loop, x) <==> Must(arm.body, inner, loop, x))
    {
      MustInnerVisible(arm.body, Bound(arm.binding), env, loop, x);
    }
    hide Outcome, Must, MustArm;
    Narrow(Musts(arm.body, inner, loop), MustsArm(arm, true, env, loop), inner, env, room, room, f', g, added);
    OpeningKeeps(MustsArm(arm, true, env, loop), env, Bound(arm.binding), room, f, g, added);
  }

  lemma BareArm(arm: Arm, env: Env, loop: nat, base: nat, f: Flags, g: Flags, added: seq<Slot>, e0: nat, e1: nat)
    requires Outcome(Musts(arm.body, env, loop), env, Fits(arm.body, base), f, g, added)
    requires Told(arm.body, env, loop, base, f, e0, e1)
    ensures Outcome(MustsArm(arm, false, env, loop), env, Fits(arm.body, base), f, g, added)
    ensures ToldArm(arm, false, env, loop, base, f, e0, e1)
  {
    assert forall x :: MustArm(arm, false, env, loop, x) <==> Must(arm.body, env, loop, x);
    hide Must, MustArm, Outcome;
    var room := Fits(arm.body, base);
    Narrow(Musts(arm.body, env, loop), MustsArm(arm, false, env, loop), env, env, room, room, f, g, added);
  }

  ghost function ArmMusts(arms: seq<Arm>, scoped: bool, env: Env, loop: nat): seq<iset<Slot>> {
    seq(|arms|, k requires 0 <= k < |arms| => MustsArm(arms[k], scoped, env, loop))
  }

  lemma MatchOutcome(arms: seq<Arm>, scoped: bool, total: bool, env: Env, loop: nat, room: bool, known: bool,
                     f: Flags, cur: Flags, g: Flags, parts: seq<seq<Slot>>, kept: seq<Slot>)
    requires ArmsSoFar(ArmMusts(arms, scoped, env, loop), env, room, f, cur, parts)
    requires scoped || total
    requires JoinOfAll(cur, parts, known, g, kept) && (room ==> known)
    ensures Outcome(Musts(Match(arms, scoped, total), env, loop), env, room, f, g, kept)
  {
    var ms := ArmMusts(arms, scoped, env, loop);
    forall x ensures Must(Match(arms, scoped, total), env, loop, x) <==> x in All(ms) {
      MustMatch(arms, scoped, total, env, loop, x);
      assert forall k :: 0 <= k < |arms| ==> (x in ms[k] <==> MustArm(arms[k], scoped, env, loop, x));
    }
    hide Outcome, Must, ArmsSoFar, JoinOfAll;
    JoinAll(ms, env, room, known, f, cur, g, parts, kept);
    Narrow(All(ms), Musts(Match(arms, scoped, total), env, loop), env, env, room, room, f, g, kept);
  }

  /** Without `_` a match over plain values may run no arm: everything is lifted. */
  lemma PartialMatchOutcome(arms: seq<Arm>, env: Env, loop: nat, room: bool, f: Flags, cur: Flags,
                            parts: seq<seq<Slot>>)
    requires ArmsSoFar(ArmMusts(arms, false, env, loop), env, room, f, cur, parts)
    ensures var g := Lifted(cur, Flat(parts)).(overflowed := false);
      Outcome(Musts(Match(arms, false, false), env, loop), env, room, f, g, [])
  {
    forall x | InScope(x, env)
      ensures !Must(Match(arms, false, false), env, loop, x)
      ensures x in Lifted(cur, Flat(parts)).dropped <==> x in f.dropped
    {
      MustMatch(arms, false, false, env, loop, x);
      InFlat(x, parts);
    }
    hide Must;
  }

  /** The end of one more arm is recorded, or is past what can be recorded. */
  lemma LaidNext(log: seq<Slot>, log': seq<Slot>, base: nat, ends: seq<nat>, parts: seq<seq<Slot>>, added: seq<Slot>)
    requires Laid(log, base, ends, parts, 0) && log' == log + added && base <= |log|
    ensures Laid(log', base, ends, parts + [added], 0)
    ensures |ends| == |parts| && |log| == StartOf(base, ends, |ends|)
      ==> Laid(log', base, ends + [|log'|], parts + [added], 0)
  {
    var ends', parts' := ends + [|log'|], parts + [added];
    forall k | 0 <= k < |ends|
      ensures ArmLaid(log', base, ends, parts', k) && (|ends'| <= |parts'| ==> ArmLaid(log', base, ends', parts', k))
    {
      assert ArmLaid(log, base, ends, parts, k);
      assert log'[StartOf(base, ends, k)..ends[k]] == log[StartOf(base, ends, k)..ends[k]];
    }
    if |ends| == |parts| && |log| == StartOf(base, ends, |ends|) {
      var k := |ends|;
      assert StartOf(base, ends', k) == |log|;
      assert log'[|log|..|log'|] == added == parts'[k];
      assert k > 0 ==> ArmLaid(log, base, ends, parts, 0);
      assert ArmLaid(log', base, ends', parts', k);
    }
  }

  /** What is known between two arms of a match: `base` is the length of the log before it. */
  ghost predicate Between(arms: seq<Arm>, i: nat, scoped: bool, env: Env, loop: nat, base: nat, room: bool,
                          f: Flags, cur: Flags, log: seq<Slot>, ends: seq<nat>, parts: seq<seq<Slot>>)
    requires i <= |arms|
  {
    && base <= |log| <= base + ArmDrops(arms[..i])
    && ArmsSoFar(ArmMusts(arms[..i], scoped, env, loop), env, room, f, cur, parts)
    && log[base..] == Flat(parts)
    && |ends| == (if i <= ARMS_MAX then i else ARMS_MAX)
    && Laid(log, base, ends, parts, 0)
    && (i <= ARMS_MAX ==> |log| == StartOf(base, ends, i))
  }

  lemma FlatNext(parts: seq<seq<Slot>>, added: seq<Slot>)
    ensures Flat(parts + [added]) == Flat(parts) + added
  {
    assert (parts + [added])[..|parts|] == parts;
  }

  lemma ArmMustsNext(arms: seq<Arm>, i: nat, scoped: bool, env: Env, loop: nat)
    requires i < |arms|
    ensures |ArmMusts(arms[..i], scoped, env, loop)| == i
    ensures ArmMusts(arms[..i + 1], scoped, env, loop)
         == ArmMusts(arms[..i], scoped, env, loop) + [MustsArm(arms[i], scoped, env, loop)]
  {
  }

  lemma SameCount(ms: seq<iset<Slot>>, env: Env, room: bool, f: Flags, cur: Flags, parts: seq<seq<Slot>>)
    requires ArmsSoFar(ms, env, room, f, cur, parts)
    ensures |ms| == |parts|
  {
  }

  lemma BetweenStart(arms: seq<Arm>, scoped: bool, env: Env, loop: nat, base: nat, room: bool, f: Flags,
                     log: seq<Slot>, ends: seq<nat>)
    requires |log| == base && ends == []
    ensures Between(arms, 0, scoped, env, loop, base, room, f, f, log, ends, [])
  {
    assert arms[..0] == [];
  }

  lemma BetweenNext(arms: seq<Arm>, i: nat, scoped: bool, env: Env, loop: nat, base: nat, room: bool,
                    f: Flags, cur: Flags, next: Flags, log: seq<Slot>, log': seq<Slot>, ends: seq<nat>, ends': seq<nat>,
                    parts: seq<seq<Slot>>, added: seq<Slot>)
    requires i < |arms| && Between(arms, i, scoped, env, loop, base, room, f, cur, log, ends, parts)
    requires var arm := arms[i];
      && |added| <= Drops(arm.body)
      && Outcome(MustsArm(arm, scoped, env, loop), env, Fits(arm.body, |log|), Lifted(cur, log[base..]), next, added)
    requires room ==> base + ArmDrops(arms) <= LOG_MAX && forall arm :: arm in arms ==> FewArms(arm.body)
    requires log' == log + added && ends' == if i < ARMS_MAX then ends + [|log'|] else ends
    ensures Between(arms, i + 1, scoped, env, loop, base, room, f, next, log', ends', parts + [added])
  {
    hide Outcome, Laid, ArmsSoFar, ArmMusts, Flat, ArmDrops, Drops, FewArms, Lifted, MustsArm;
    var ms, m := ArmMusts(arms[..i], scoped, env, loop), MustsArm(arms[i], scoped, env, loop);
    ArmDropsUpTo(arms, i);
    assert ArmDrop(arms[i]) == Drops(arms[i].body);
    ArmMustsNext(arms, i, scoped, env, loop);
    FlatNext(parts, added);
    assert log'[base..] == log[base..] + added;
    assert room ==> Fits(arms[i].body, |log|);
    Narrow(m, m, env, env, Fits(arms[i].body, |log|), room, Lifted(cur, Flat(parts)), next, added);
    NextArm(ms, m, env, room, f, cur, next, parts, added);
    LaidNext(log, log', base, ends, parts, added);
    assert |parts| == |ms| == i by { SameCount(ms, env, room, f, cur, parts); }
  }

  /** What the outcome means when everything fits: dropped now is dropped before or on every path. */
  lemma Exact(s: Stmt, env: Env, loop: nat, base: nat, f: Flags, g: Flags, added: seq<Slot>)
    requires Outcome(Musts(s, env, loop), env, Fits(s, base), f, g, added)
    ensures Fits(s, base) && !f.overflowed ==>
      forall x :: InScope(x, env) ==> (x in g.dropped <==> x in f.dropped || Must(s, env, loop, x))
  {
    hide Must;
  }

  // ------------------------------------------------ each construct reports what is wrong

  /** The variables of `env` that are marked as dropped. */
  ghost function Marks(f: Flags, env: Env): iset<Slot> {
    iset x | x in f.dropped && InScope(x, env)
  }

  /** Checking `s` with `base` entries in the log takes the count of errors from `e0` to `e1`. */
  ghost predicate Told(s: Stmt, env: Env, loop: nat, base: nat, f: Flags, e0: nat, e1: nat) {
    Reported(e0, e1, Fits(s, base) && !f.overflowed, Verdicts(s, env, loop, Marks(f, env)))
  }

  ghost predicate ToldItems(items: Items, env: Env, loop: nat, base: nat, f: Flags, e0: nat, e1: nat)
    requires |env| > 0
  {
    Reported(e0, e1, FitsItems(items, base) && !f.overflowed, ItemVerdicts(items, env, loop, Marks(f, env)))
  }

  ghost predicate ToldArm(arm: Arm, scoped: bool, env: Env, loop: nat, base: nat, f: Flags, e0: nat, e1: nat) {
    Reported(e0, e1, Fits(arm.body, base) && !f.overflowed, ArmVerdicts(arm, scoped, env, loop, Marks(f, env)))
  }

  /** What is marked after `s`, against what every path through it has dropped. */
  lemma MarksAfter(s: Stmt, env: Env, loop: nat, room: bool, f: Flags, g: Flags, added: seq<Slot>)
    requires Outcome(Musts(s, env, loop), env, room, f, g, added) && loop <= |env|
    ensures Marks(g, env) <= Marks(f, env) + Musts(s, env, loop)
    ensures room && !f.overflowed ==> !g.overflowed && Marks(g, env) == Marks(f, env) + Musts(s, env, loop)
  {
    forall x | Must(s, env, loop, x) ensures InScope(x, env) {
      MustInScope(s, env, loop, x);
    }
    hide Must;
  }

  /** Once the drops of an alternative are lifted, what was marked before it is. */
  lemma MarksLifted(m: iset<Slot>, env: Env, room: bool, f: Flags, g: Flags, added: seq<Slot>)
    requires Outcome(m, env, room, f, g, added)
    ensures Marks(Lifted(g, added), env) == Marks(f, env)
    ensures room && !f.overflowed ==> !Lifted(g, added).overflowed
  {
  }

  /** In sequence: the second part is judged by what was marked after the first. */
  lemma InTurn(e0: nat, e1: nat, e2: nat, x1: bool, x2: bool, x: bool, v1: seq<bool>, v2: seq<bool>, w2: seq<bool>)
    requires Reported(e0, e1, x1, v1) && Reported(e1, e2, x2, w2)
    requires Errors(w2) <= Errors(v2)
    requires x ==> x1 && x2 && Errors(w2) == Errors(v2)
    ensures Reported(e0, e2, x, v1 + v2)
  {
    ErrorsAdd(v1, v2);
  }

  lemma SkipTold(env: Env, loop: nat, base: nat, f: Flags, e0: nat)
    ensures Told(Skip, env, loop, base, f, e0, e0)
  {
  }

  lemma DropTold(x: Slot, env: Env, loop: nat, base: nat, f: Flags, e0: nat, e1: nat)
    requires e1 == e0 + if InScope(x, env) && x !in f.dropped && !LoopOuter(x, loop) then 0 else 1
    ensures Told(Drop(x), env, loop, base, f, e0, e1)
  {
    DropVerdicts(x, env, loop, Marks(f, env));
    hide Verdicts;
  }

  lemma ThenTold(a: Stmt, b: Stmt, env: Env, loop: nat, base: nat, mid: nat, f: Flags, g: Flags,
                 added: seq<Slot>, e0: nat, e1: nat, e2: nat)
    requires base <= mid <= base + Drops(a) && loop <= |env|
    requires Outcome(Musts(a, env, loop), env, Fits(a, base), f, g, added)
    requires Told(a, env, loop, base, f, e0, e1) && Told(b, env, loop, mid, g, e1, e2)
    ensures Told(Then(a, b), env, loop, base, f, e0, e2)
  {
    hide Outcome, Musts, Marks, Verdicts, Reported;
    var m := Marks(f, env);
    MarksAfter(a, env, loop, Fits(a, base), f, g, added);
    ThenVerdicts(a, b, env, loop, m);
    MoreGone(b, env, loop, Marks(g, env), m + Musts(a, env, loop));
    InTurn(e0, e1, e2, Fits(a, base) && !f.overflowed, Fits(b, mid) && !g.overflowed,
           Fits(Then(a, b), base) && !f.overflowed, Verdicts(a, env, loop, m),
           Verdicts(b, env, loop, m + Musts(a, env, loop)), Verdicts(b, env, loop, Marks(g, env)));
  }

  lemma IfTold(t: Stmt, e: Stmt, env: Env, loop: nat, base: nat, mid: nat, f: Flags, g: Flags,
               first: seq<Slot>, e0: nat, e1: nat, e2: nat)
    requires base <= mid <= base + Drops(t)
    requires Outcome(Musts(t, env, loop), env, Fits(t, base), f, g, first)
    requires Told(t, env, loop, base, f, e0, e1) && Told(e, env, loop, mid, Lifted(g, first), e1, e2)
    ensures Told(If(t, e), env, loop, base, f, e0, e2)
  {
    hide Outcome, Musts, Marks, Verdicts, Reported, Lifted;
    var m, l := Marks(f, env), Lifted(g, first);
    MarksLifted(Musts(t, env, loop), env, Fits(t, base), f, g, first);
    IfVerdicts(t, e, env, loop, m);
    InTurn(e0, e1, e2, Fits(t, base) && !f.overflowed, Fits(e, mid) && !l.overflowed,
           Fits(If(t, e), base) && !f.overflowed, Verdicts(t, env, loop, m),
           Verdicts(e, env, loop, m), Verdicts(e, env, loop, m));
  }

  lemma IfOnlyTold(t: Stmt, env: Env, loop: nat, base: nat, f: Flags, e0: nat, e1: nat)
    requires Told(t, env, loop, base, f, e0, e1)
    ensures Told(IfOnly(t), env, loop, base, f, e0, e1)
  {
    hide Verdicts, Reported;
    IfOnlyVerdicts(t, env, loop, Marks(f, env));
  }

  /** A variable of a scope just opened is not marked. */
  lemma MarksOpened(f: Flags, env: Env, n: nat)
    requires n <= 1
    ensures Marks(Opening(f, env, n), env + [n]) == Marks(f, env)
  {
  }

  lemma CatchTold(b: Stmt, h: Stmt, binding: bool, env: Env, loop: nat, base: nat, mid: nat, f: Flags, g: Flags,
                  first: seq<Slot>, e0: nat, e1: nat, e2: nat)
    requires base <= mid <= base + Drops(b)
    requires Outcome(Musts(b, env, loop), env, Fits(b, base), f, g, first)
    requires Told(b, env, loop, base, f, e0, e1)
    requires var l := Opening(Lifted(g, first), env, Bound(binding));
      Told(h, env + [Bound(binding)], loop, mid, l, e1, e2)
    ensures Told(Catch(b, h, binding), env, loop, base, f, e0, e2)
  {
    hide Outcome, Musts, Marks, Verdicts, Reported, Lifted;
    var s, m, inner := Catch(b, h, binding), Marks(f, env), env + [Bound(binding)];
    MarksLifted(Musts(b, env, loop), env, Fits(b, base), f, g, first);
    MarksOpened(Lifted(g, first), env, Bound(binding));
    CatchVerdicts(b, h, binding, env, loop, m);
    InTurn(e0, e1, e2, Fits(b, base) && !f.overflowed, Fits(h, mid) && !Lifted(g, first).overflowed,
           Fits(s, base) && !f.overflowed, Verdicts(b, env, loop, m),
           Verdicts(h, inner, loop, m), Verdicts(h, inner, loop, m));
  }

  lemma WhileTold(b: Stmt, env: Env, loop: nat, base: nat, f: Flags, e0: nat, e1: nat)
    requires Told(b, env, |env|, base, f, e0, e1)
    ensures Told(While(b), env, loop, base, f, e0, e1)
  {
    hide Verdicts, Reported;
    WhileVerdicts(b, env, loop, Marks(f, env));
  }

  lemma ForTold(b: Stmt, env: Env, loop: nat, base: nat, f: Flags, e0: nat, e1: nat)
    requires Told(b, env + [1], |env|, base, Opening(f, env, 1), e0, e1)
    ensures Told(For(b), env, loop, base, f, e0, e1)
  {
    hide Verdicts, Reported, Marks;
    MarksOpened(f, env, 1);
    ForVerdicts(b, env, loop, Marks(f, env));
  }

  lemma BlockTold(items: Items, env: Env, loop: nat, base: nat, f: Flags, e0: nat, e1: nat)
    requires ToldItems(items, env + [0], loop, base, f, e0, e1)
    ensures Told(Block(items), env, loop, base, f, e0, e1)
  {
    hide Verdicts, ItemVerdicts, Reported, Marks;
    MarksOpened(f, env, 0);
    assert Opening(f, env, 0) == f;
    BlockVerdicts(items, env, loop, Marks(f, env));
  }

  lemma DoneTold(env: Env, loop: nat, base: nat, f: Flags, e0: nat)
    requires |env| > 0
    ensures ToldItems(Done, env, loop, base, f, e0, e0)
  {
  }

  lemma DoTold(s: Stmt, rest: Items, env: Env, loop: nat, base: nat, mid: nat, f: Flags, g: Flags,
               added: seq<Slot>, e0: nat, e1: nat, e2: nat)
    requires |env| > 0 && base <= mid <= base + Drops(s) && loop <= |env|
    requires Outcome(Musts(s, env, loop), env, Fits(s, base), f, g, added)
    requires Told(s, env, loop, base, f, e0, e1) && ToldItems(rest, env, loop, mid, g, e1, e2)
    ensures ToldItems(Do(s, rest), env, loop, base, f, e0, e2)
  {
    hide Outcome, Musts, Marks, Verdicts, ItemVerdicts, Reported;
    var m := Marks(f, env);
    MarksAfter(s, env, loop, Fits(s, base), f, g, added);
    DoVerdicts(s, rest, env, loop, m);
    MoreGoneItems(rest, env, loop, Marks(g, env), m + Musts(s, env, loop));
    InTurn(e0, e1, e2, Fits(s, base) && !f.overflowed, FitsItems(rest, mid) && !g.overflowed,
           FitsItems(Do(s, rest), base) && !f.overflowed, Verdicts(s, env, loop, m),
           ItemVerdicts(rest, env, loop, m + Musts(s, env, loop)), ItemVerdicts(rest, env, loop, Marks(g, env)));
  }

  lemma MarksDeclared(f: Flags, env: Env)
    requires |env| > 0
    ensures Marks(f.(dropped := f.dropped - {NewSlot(env)}), Declared(env)) == Marks(f, env)
  {
  }

  lemma LetTold(init: Stmt, rest: Items, env: Env, loop: nat, base: nat, mid: nat, f: Flags, g: Flags,
                added: seq<Slot>, e0: nat, e1: nat, e2: nat)
    requires |env| > 0 && base <= mid <= base + Drops(init) && loop <= |env|
    requires Outcome(Musts(init, env, loop), env, Fits(init, base), f, g, added)
    requires Told(init, env, loop, base, f, e0, e1)
    requires var g' := g.(dropped := g.dropped - {NewSlot(env)});
      ToldItems(rest, Declared(env), loop, mid, g', e1, e2)
    ensures ToldItems(Let(init, rest), env, loop, base, f, e0, e2)
  {
    hide Outcome, Musts, Marks, Verdicts, ItemVerdicts, Reported;
    var s, m, inner := Let(init, rest), Marks(f, env), Declared(env);
    MarksAfter(init, env, loop, Fits(init, base), f, g, added);
    MarksDeclared(g, env);
    LetVerdicts(init, rest, env, loop, m);
    MoreGoneItems(rest, inner, loop, Marks(g, env), m + Musts(init, env, loop));
    InTurn(e0, e1, e2, Fits(init, base) && !f.overflowed, FitsItems(rest, mid) && !g.overflowed,
           FitsItems(s, base) && !f.overflowed, Verdicts(init, env, loop, m),
           ItemVerdicts(rest, inner, loop, m + Musts(init, env, loop)), ItemVerdicts(rest, inner, loop, Marks(g, env)));
  }

  lemma ArmTold(arm: Arm, env: Env, loop: nat, base: nat, f: Flags, e0: nat, e1: nat)
    requires var n := Bound(arm.binding); Told(arm.body, env + [n], loop, base, Opening(f, env, n), e0, e1)
    ensures ToldArm(arm, true, env, loop, base, f, e0, e1)
  {
    hide Verdicts, Reported, Marks;
    MarksOpened(f, env, Bound(arm.binding));
  }

  /** What has been reported when some arms of a match have been checked. */
  ghost predicate ToldArms(arms: seq<Arm>, scoped: bool, env: Env, loop: nat, room: bool, f: Flags, e0: nat, e1: nat) {
    Reported(e0, e1, room && !f.overflowed, AllArmVerdicts(arms, scoped, env, loop, Marks(f, env)))
  }

  /** Between two arms, once their drops are lifted, what was marked before the match is. */
  lemma MarksBetween(arms: seq<Arm>, i: nat, scoped: bool, env: Env, loop: nat, base: nat, room: bool,
                     f: Flags, cur: Flags, log: seq<Slot>, ends: seq<nat>, parts: seq<seq<Slot>>)
    requires i < |arms| && Between(arms, i, scoped, env, loop, base, room, f, cur, log, ends, parts)
    ensures base <= |log| <= base + ArmDrops(arms[..i])
    ensures Marks(Lifted(cur, log[base..]), env) == Marks(f, env)
    ensures room && !f.overflowed ==> !cur.overflowed
  {
    hide ArmMusts, Flat, InSome, Laid, ArmDrops;
    forall x ensures x in Flat(parts) <==> InSome(x, parts) {
      InFlat(x, parts);
    }
  }

  lemma ArmsTold(arms: seq<Arm>, i: nat, scoped: bool, env: Env, loop: nat, base: nat, room: bool,
                 f: Flags, cur: Flags, log: seq<Slot>, ends: seq<nat>, parts: seq<seq<Slot>>, e0: nat, e1: nat, e2: nat)
    requires i < |arms| && Between(arms, i, scoped, env, loop, base, room, f, cur, log, ends, parts)
    requires room ==> base + ArmDrops(arms) <= LOG_MAX && forall arm :: arm in arms ==> FewArms(arm.body)
    requires ToldArms(arms[..i], scoped, env, loop, room, f, e0, e1)
    requires base <= |log| && ToldArm(arms[i], scoped, env, loop, |log|, Lifted(cur, log[base..]), e1, e2)
    ensures ToldArms(arms[..i + 1], scoped, env, loop, room, f, e0, e2)
  {
    hide Between, Marks, ArmVerdicts, Reported, FewArms, ArmDrops;
    var m := Marks(f, env);
    MarksBetween(arms, i, scoped, env, loop, base, room, f, cur, log, ends, parts);
    ArmDropsUpTo(arms, i);
    assert ArmDrop(arms[i]) == Drops(arms[i].body) && arms[i] in arms;
    assert arms[..i + 1][..i] == arms[..i];
    var v1, v2 := AllArmVerdicts(arms[..i], scoped, env, loop, m), ArmVerdicts(arms[i], scoped, env, loop, m);
    assert AllArmVerdicts(arms[..i + 1], scoped, env, loop, m) == v1 + v2;
    InTurn(e0, e1, e2, room && !f.overflowed, Fits(arms[i].body, |log|) && !Lifted(cur, log[base..]).overflowed,
           room && !f.overflowed, v1, v2, v2);
  }

  lemma NoArmsTold(arms: seq<Arm>, scoped: bool, env: Env, loop: nat, room: bool, f: Flags, e0: nat)
    ensures ToldArms(arms[..0], scoped, env, loop, room, f, e0, e0)
  {
  }

  lemma MatchTold(arms: seq<Arm>, scoped: bool, total: bool, env: Env, loop: nat, base: nat, f: Flags, e0: nat, e1: nat)
    requires var s := Match(arms, scoped, total); ToldArms(arms[..|arms|], scoped, env, loop, Fits(s, base), f, e0, e1)
    ensures Told(Match(arms, scoped, total), env, loop, base, f, e0, e1)
  {
    hide AllArmVerdicts, Reported, Marks;
    assert arms[..|arms|] == arms;
    MatchVerdicts(arms, scoped, total, env, loop, Marks(f, env));
  }

  /** With exact flags: no error is reported just when no drop is wrong. */
  lemma NoneReported(s: Stmt, env: Env, loop: nat, base: nat, f: Flags, e0: nat, e1: nat)
    requires Told(s, env, loop, base, f, e0, e1)
    ensures Fits(s, base) && !f.overflowed ==>
      (e1 == e0 <==> NoneBad(s, env, loop, Marks(f, env)))
  {
    hide Bad;
    var v := Verdicts(s, env, loop, Marks(f, env));
    NoneWrong(v);
    assert forall k: nat :: k < Drops(s) ==> v[k] == Bad(s, k, env, loop, Marks(f, env));
  }

  // ---------------------------------------------------------------- the checker

  class Checker {
    var counts: Env
    var dropped: set<Slot>
    const log: array<Slot>
    var n: nat
    var overflowed: bool
    var loopDepth: nat
    var errors: nat

    ghost predicate Valid()
      reads this
    {
      log.Length == LOG_MAX && n <= LOG_MAX && |counts| > 0 && loopDepth <= |counts|
    }

    ghost function Now(): Flags
      reads this
    {
      Flags(dropped, overflowed)
    }

    /** Everything logged since the log had `base` entries. */
    ghost function Since(base: nat): seq<Slot>
      requires base <= n <= log.Length
      reads this, log
    {
      log[base..n]
    }

    constructor ()
      ensures Valid() && fresh(log) && counts == [0] && n == 0 && loopDepth == 0
      ensures dropped == {} && !overflowed && errors == 0
    {
      counts, dropped, n, overflowed, loopDepth, errors := [0], {}, 0, false, 0, 0;
      log := new Slot[LOG_MAX](_ => Slot(0, 0));
    }

    method LiftFrom(base: nat)
      requires Valid() && base <= n
      modifies this`dropped
      ensures Valid()
      ensures Now() == Lifted(old(Now()), Since(base))
    {
      var i := base;
      while i < n
        invariant base <= i <= n
        invariant dropped == old(dropped) - Members(log[base..i])
      {
        assert log[base..i + 1] == log[base..i] + [log[i]];
        dropped := dropped - {log[i]};
        i := i + 1;
      }
    }

    method Find(lo: nat, hi: nat, x: Slot) returns (found: bool)
      requires lo <= hi <= log.Length
      ensures found <==> x in log[lo..hi]
    {
      for i := lo to hi
        invariant x !in log[lo..i]
      {
        if log[i] == x {
          return true;
        }
      }
      return false;
    }

    /** Copies `x` down to `w` unless `log[base..w]` has it already. */
    method KeepOnce(base: nat, w: nat, x: Slot) returns (w': nat)
      requires base <= w < log.Length
      modifies log
      ensures w' == w || w' == w + 1
      ensures forall i :: 0 <= i < log.Length && (i != w || w' == w) ==> log[i] == old(log[i])
      ensures forall y :: y in log[base..w'] <==> y in old(log[base..w]) || y == x
    {
      var seen := Find(base, w, x);
      w' := w;
      if !seen {
        log[w] := x;
        w' := w + 1;
        assert log[base..w'] == old(log[base..w]) + [x];
      }
    }

    /** First half of the two-way join: of what the second alternative dropped, only what the first
        one also dropped stays dropped. */
    method MarkCommon(base: nat, mid: nat)
      requires Valid() && base <= mid <= n
      modifies this`dropped
      ensures Valid()
      ensures dropped == old(dropped) - Members(log[mid..n]) + Members(log[base..mid]) * Members(log[mid..n])
    {
      var j := mid;
      while j < n
        invariant mid <= j <= n
        invariant forall x :: x in dropped <==>
            if x in log[mid..j] then x in log[base..mid] else x in old(dropped)
      {
        assert log[mid..j + 1] == log[mid..j] + [log[j]];
        var inFirst := Find(base, mid, log[j]);
        dropped := if inFirst then dropped + {log[j]} else dropped - {log[j]};
        j := j + 1;
      }
    }

    /** Second half: the survivors are copied down to `base`, over entries already read. */
    method KeepDropped(base: nat, mid: nat) returns (w: nat)
      requires Valid() && base <= mid <= n
      modifies log
      ensures base <= w <= base + (n - mid)
      ensures log[..base] == old(log[..base])
      ensures forall x :: x in log[base..w] <==> x in old(log[mid..n]) && x in dropped
    {
      ghost var was := log[..];
      w := base;
      var j := mid;
      while j < n
        invariant base <= w <= base + (j - mid) && mid <= j <= n
        invariant forall i :: 0 <= i < base || j <= i < n ==> log[i] == was[i]
        invariant forall x :: x in log[base..w] <==> x in was[mid..j] && x in dropped
      {
        assert was[mid..j + 1] == was[mid..j] + [was[j]];
        if log[j] in dropped {
          w := KeepOnce(base, w, log[j]);
        }
        j := j + 1;
      }
      assert was[mid..n] == old(log[mid..n]);
    }

    /** The join after if/else and catch. */
    method Join2(base: nat, mid: nat)
      requires Valid() && base <= mid <= n
      modifies this`dropped, this`n, this`overflowed, log
      ensures Valid() && base <= n <= old(n)
      ensures log[..base] == old(log[..base])
      ensures JoinOf2(old(Now()), old(log[base..mid]), old(log[mid..n]), Now(), Since(base))
    {
      ghost var first, second := log[base..mid], log[mid..n];
      if overflowed {
        LiftFrom(base);
        assert log[base..n] == first + second;
        n := base;
        overflowed := false;
      } else {
        MarkCommon(base, mid);
        n := KeepDropped(base, mid);
        assert Members(log[base..n]) == Members(first) * Members(second);
      }
    }

    /** Did every arm after the first drop `x`? */
    method InLaterArms(base: nat, armEnd: array<nat>, narm: nat, x: Slot, ghost parts: seq<seq<Slot>>)
      returns (everywhere: bool)
      requires Valid() && 0 < narm <= armEnd.Length && |parts| == narm
      requires Laid(log[..n], base, armEnd[..narm], parts, 1)
      ensures x in parts[0] ==> (everywhere <==> InEvery(x, parts))
    {
      ghost var ends := armEnd[..narm];
      for k := 1 to narm
        invariant forall m :: 1 <= m < k ==> x in parts[m]
      {
        assert ArmLaid(log[..n], base, ends, parts, k);
        assert StartOf(base, ends, k) == ends[k - 1] == armEnd[k - 1] && ends[k] == armEnd[k];
        assert log[armEnd[k - 1]..armEnd[k]] == log[..n][armEnd[k - 1]..armEnd[k]] == parts[k];
        var found := Find(armEnd[k - 1], armEnd[k], x);
        if !found {
          return false;
        }
      }
      return true;
    }

    /** Entries of a later arm that arm 0 lacks are lifted. Arm 0 has been compacted in place by now,
        so what is read of it is only part of what it was. */
    method LiftMissing(base: nat, end0: nat, lo: nat, hi: nat)
      requires Valid() && base <= end0 <= n && lo <= hi <= n
      modifies this`dropped
      ensures Valid()
      ensures dropped == old(dropped) - (Members(log[lo..hi]) - Members(log[base..end0]))
    {
      var j := lo;
      while j < hi
        invariant lo <= j <= hi
        invariant dropped == old(dropped) - (Members(log[lo..j]) - Members(log[base..end0]))
      {
        assert log[lo..j + 1] == log[lo..j] + [log[j]];
        if log[j] in dropped {
          var in0 := Find(base, end0, log[j]);
          if !in0 {
            dropped := dropped - {log[j]};
          }
        }
        j := j + 1;
      }
    }

    /** One entry of arm 0: marked, and kept if every arm has it. */
    method MarkOne(base: nat, armEnd: array<nat>, narm: nat, i: nat, w: nat, ghost parts: seq<seq<Slot>>)
      returns (w': nat)
      requires Valid() && 0 < narm <= armEnd.Length && |parts| == narm && base <= w <= i < n
      requires Laid(log[..n], base, armEnd[..narm], parts, 1) && log[i] in parts[0]
      modifies this`dropped, log
      ensures Valid()
      ensures Marked(old(log[..n]), log[..n], base, w, w', old(log[i]), parts, old(dropped), dropped)
    {
      var e := log[i];
      Prefixed(log, n, base, w);
      var everywhere := InLaterArms(base, armEnd, narm, e, parts);
      dropped := if everywhere then dropped + {e} else dropped - {e};
      w' := w;
      if everywhere {
        w' := KeepOnce(base, w, e);
      }
      Prefixed(log, n, base, w');
    }

    /** First loop of the join over all arms: arm 0's entries are marked, and the survivors copied
        down, while the later arms are searched. */
    method MarkEvery(base: nat, armEnd: array<nat>, narm: nat, ghost parts: seq<seq<Slot>>) returns (w: nat)
      requires Valid() && 0 < narm <= armEnd.Length && |parts| == narm
      requires Laid(log[..n], base, armEnd[..narm], parts, 0)
      modifies this`dropped, log
      ensures Valid() && base <= w <= armEnd[0] <= n
      ensures Swept(old(log[..n]), log[..n], base, armEnd[0], w, parts, old(dropped), dropped)
    {
      hide Laid, InEvery, ArmLaid, StartOf, Swept, Marked;
      ghost var was, ends := log[..n], armEnd[..narm];
      SweepStart(was, base, ends, parts, dropped);
      w := base;
      var i := base;
      while i < armEnd[0]
        invariant base <= w <= i <= armEnd[0] <= n
        invariant Swept(was, log[..n], base, i, w, parts, old(dropped), dropped)
      {
        ghost var now, marked := log[..n], dropped;
        SweptRest(was, now, base, i, w, parts, old(dropped), marked);
        LaterArmsStay(was, now, base, ends, parts);
        SliceAt(was, base, armEnd[0], parts[0], i);
        assert log[i] == now[i];
        var w' := MarkOne(base, armEnd, narm, i, w, parts);
        SweptStep(was, now, log[..n], base, i, w, w', parts, old(dropped), marked, dropped);
        w, i := w', i + 1;
      }
    }

    /** Second loop: later arms' entries that arm 0 lacks. */
    method LiftLater(base: nat, armEnd: array<nat>, narm: nat, ghost parts: seq<seq<Slot>>)
      requires Valid() && 0 < narm <= armEnd.Length && |parts| == narm
      requires Laid(log[..n], base, armEnd[..narm], parts, 1) && base <= armEnd[0] <= n
      modifies this`dropped
      ensures Valid()
      ensures forall x :: x in dropped <==>
          x in old(dropped) && (x in log[base..armEnd[0]] || !InSome(x, parts[1..]))
    {
      for k := 1 to narm
        invariant Valid()
        invariant forall x :: x in dropped <==>
            x in old(dropped) && (x in log[base..armEnd[0]] || !InSome(x, parts[1..k]))
      {
        ghost var ends := armEnd[..narm];
        assert ArmLaid(log[..n], base, ends, parts, k);
        assert StartOf(base, ends, k) == ends[k - 1] == armEnd[k - 1] && ends[k] == armEnd[k];
        assert log[armEnd[k - 1]..armEnd[k]] == log[..n][armEnd[k - 1]..armEnd[k]] == parts[k];
        LiftMissing(base, armEnd[0], armEnd[k - 1], armEnd[k]);
        forall x ensures InSome(x, parts[1..k + 1]) <==> InSome(x, parts[1..k]) || x in parts[k] {
          OneMorePart(x, parts, k);
        }
      }
      assert parts[1..narm] == parts[1..];
    }

    /** The join after a match. `armEnd` is null when there are more arms than it could record. */
    method JoinArms(base: nat, armEnd: array?<nat>, narm: nat, ghost parts: seq<seq<Slot>>)
      requires Valid() && base <= n && |parts| == narm && log[base..n] == Flat(parts)
      requires armEnd != null ==> narm <= armEnd.Length && Laid(log[..n], base, armEnd[..narm], parts, 0)
      modifies this`dropped, this`n, this`overflowed, log
      ensures Valid() && base <= n <= old(n)
      ensures log[..base] == old(log[..base])
      ensures JoinOfAll(old(Now()), parts, armEnd != null, Now(), Since(base))
      ensures narm == 0 ==> n == old(n) && log[..n] == old(log[..n]) && (Now() == old(Now()) <==> !old(overflowed))
    {
      if overflowed || armEnd == null || narm == 0 {
        LiftFrom(base);
        n := base;
        overflowed := false;
      } else {
        ghost var was := log[..n];
        var w := MarkEvery(base, armEnd, narm, parts);
        ghost var marked, left := dropped, log[base..armEnd[0]];
        assert ArmLaid(was, base, armEnd[..narm], parts, 0);
        SweptRest(was, log[..n], base, armEnd[0], w, parts, old(dropped), marked);
        LaterArmsStay(was, log[..n], base, armEnd[..narm], parts);
        SweptAll(was, log[..n], base, armEnd[0], w, parts, old(dropped), marked);
        Prefixed(log, n, base, armEnd[0]);
        Prefixed(log, n, base, w);
        LiftLater(base, armEnd, narm, parts);
        n := w;
        JoinedAll(old(dropped), marked, dropped, parts, left);
      }
    }

    /** The `drop` rule. A drop of an unknown variable, of one already dropped, or of one from outside
        the enclosing loop is an error and is not recorded; with the log full it is not marked either. */
    method NoteDrop(x: Slot)
      requires Valid()
      modifies this`dropped, this`n, this`overflowed, this`errors, log
      ensures Valid()
      ensures var ok := InScope(x, counts) && x !in old(dropped) && !LoopOuter(x, loopDepth);
        && errors == old(errors) + (if ok then 0 else 1)
        && (if ok && old(n) < LOG_MAX
            then log[..n] == old(log[..n]) + [x] && Now() == old(Now()).(dropped := old(dropped) + {x})
            else log[..n] == old(log[..n]) && Now() == Flags(old(dropped), old(overflowed) || ok))
    {
      ghost var was := log[..n];
      if !InScope(x, counts) || x in dropped || LoopOuter(x, loopDepth) {
        errors := errors + 1;
      } else if n < LOG_MAX {
        dropped := dropped + {x};
        log[n] := x;
        n := n + 1;
        assert log[..n] == was + [x];
      } else {
        overflowed := true;
      }
    }

    /** A new variable in the innermost scope, undropped. */
    method Define()
      requires Valid()
      modifies this`counts, this`dropped
      ensures Valid() && counts == Declared(old(counts))
      ensures Now() == old(Now()).(dropped := old(dropped) - {NewSlot(old(counts))})
    {
      var d := |counts| - 1;
      dropped := dropped - {Slot(d, counts[d])};
      counts := counts[d := counts[d] + 1];
    }

    /** A new scope, with an undropped variable in it when `m` is 1. */
    method OpenScope(m: nat)
      requires Valid() && m <= 1
      modifies this`counts, this`dropped
      ensures Valid() && counts == old(counts) + [m]
      ensures Now() == Opening(old(Now()), old(counts), m)
    {
      if m == 1 {
        dropped := dropped - {Slot(|counts|, 0)};
      }
      counts := counts + [m];
    }

    /** What checking a statement does. With room in the log, a variable in scope before `s` counts as
        dropped after it exactly when it did before or every path through `s` drops it; without, none
        is marked wrongly. */
    method Infer(s: Stmt)
      requires Valid()
      modifies this, log
      ensures Valid() && counts == old(counts) && loopDepth == old(loopDepth)
      ensures old(n) <= n <= old(n) + Drops(s)
      ensures log[..old(n)] == old(log[..n])
      ensures Outcome(Musts(s, counts, loopDepth), counts, Fits(s, old(n)), old(Now()), Now(), Since(old(n)))
      ensures Told(s, counts, loopDepth, old(n), old(Now()), old(errors), errors)
      ensures Fits(s, old(n)) && !old(overflowed) ==>
        forall x :: InScope(x, counts) ==>
          (x in dropped <==> x in old(dropped) || Must(s, counts, loopDepth, x))
      ensures Fits(s, old(n)) && !old(overflowed) ==>
        (errors == old(errors) <==> NoneBad(s, counts, loopDepth, Marks(old(Now()), counts)))
      decreases s, 1
    {
      hide Outcome, Must, Musts, MustItems, MustsItems, Told, Bad, Marks;
      ghost var f, env, loop, base, before := Now(), counts, loopDepth, n, errors;
      match s {
        case Skip =>
          SkipOutcome(env, loop, Fits(s, n), f);
          assert Told(Skip, env, loop, base, f, before, before) by { SkipTold(env, loop, base, f, before); }
          assert log[base..n] == [];
        case Drop(_) => InferDrop(s);
        case Then(_, _) => InferThen(s);
        case If(_, _) => InferIf(s);
        case IfOnly(_) => InferIf(s);
        case Catch(_, _, _) => InferCatch(s);
        case Match(_, _, _) => InferMatch(s);
        case While(_) => InferLoop(s);
        case For(_) => InferLoop(s);
        case Block(_) => InferBlock(s);
      }
      assert counts == env && loopDepth == loop;
      Exact(s, env, loop, base, f, Now(), log[base..n]);
      NoneReported(s, env, loop, base, f, before, errors);
    }

    method InferDrop(s: Stmt)
      requires Valid() && s.Drop?
      modifies this, log
      ensures Valid() && counts == old(counts) && loopDepth == old(loopDepth)
      ensures old(n) <= n <= old(n) + Drops(s)
      ensures log[..old(n)] == old(log[..n])
      ensures Outcome(Musts(s, counts, loopDepth), counts, Fits(s, old(n)), old(Now()), Now(), Since(old(n)))
      ensures Told(s, counts, loopDepth, old(n), old(Now()), old(errors), errors)
      decreases s, 0
    {
      hide Told;
      ghost var f, base, before := Now(), n, errors;
      NoteDrop(s.x);
      assert log[base..n] == log[..n][base..];
      assert log[..base] == log[..n][..base];
      DropOutcome(s.x, counts, loopDepth, Fits(s, base), f, Now(), log[base..n]);
      DropTold(s.x, counts, loopDepth, base, f, before, errors);
    }

    method InferThen(s: Stmt)
      requires Valid() && s.Then?
      modifies this, log
      ensures Valid() && counts == old(counts) && loopDepth == old(loopDepth)
      ensures old(n) <= n <= old(n) + Drops(s)
      ensures log[..old(n)] == old(log[..n])
      ensures Outcome(Musts(s, counts, loopDepth), counts, Fits(s, old(n)), old(Now()), Now(), Since(old(n)))
      ensures Told(s, counts, loopDepth, old(n), old(Now()), old(errors), errors)
      decreases s, 0
    {
      hide Outcome, Must, Musts, Told;
      ghost var f, base, before := Now(), n, errors;
      Infer(s.a);
      ghost var g, mid, between := Now(), n, errors;
      Infer(s.b);
      TwoParts(log, base, mid, n);
      ThenOutcome(s.a, s.b, counts, loopDepth, base, mid, f, g, Now(), log[base..mid], log[mid..n]);
      ThenTold(s.a, s.b, counts, loopDepth, base, mid, f, g, log[base..mid], before, between, errors);
    }

    method InferBlock(s: Stmt)
      requires Valid() && s.Block?
      modifies this, log
      ensures Valid() && counts == old(counts) && loopDepth == old(loopDepth)
      ensures old(n) <= n <= old(n) + Drops(s)
      ensures log[..old(n)] == old(log[..n])
      ensures Outcome(Musts(s, counts, loopDepth), counts, Fits(s, old(n)), old(Now()), Now(), Since(old(n)))
      ensures Told(s, counts, loopDepth, old(n), old(Now()), old(errors), errors)
      decreases s, 0
    {
      hide Outcome, Must, Musts, MustItems, MustsItems, Told, ToldItems;
      ghost var f, env, base, before := Now(), counts, n, errors;
      counts := counts + [0];
      InferItems(s.items);
      counts := counts[..|counts| - 1];
      BlockOutcome(s.items, env, loopDepth, FitsItems(s.items, base), f, Now(), log[base..n]);
      BlockTold(s.items, env, loopDepth, base, f, before, errors);
    }

    /** `while` and `for` set the depth at which variables count as outer; `for` opens a scope first. */
    method InferLoop(s: Stmt)
      requires Valid() && (s.While? || s.For?)
      modifies this, log
      ensures Valid() && counts == old(counts) && loopDepth == old(loopDepth)
      ensures old(n) <= n <= old(n) + Drops(s)
      ensures log[..old(n)] == old(log[..n])
      ensures Outcome(Musts(s, counts, loopDepth), counts, Fits(s, old(n)), old(Now()), Now(), Since(old(n)))
      ensures Told(s, counts, loopDepth, old(n), old(Now()), old(errors), errors)
      decreases s, 0
    {
      hide Outcome, Must, Musts, Told;
      ghost var f, env, loop, base, before := Now(), counts, loopDepth, n, errors;
      var saved := loopDepth;
      if s.While? {
        loopDepth := |counts|;
        Infer(s.body);
        loopDepth := saved;
        WhileOutcome(s.body, env, loop, Fits(s, base), f, Now(), log[base..n]);
        WhileTold(s.body, env, loop, base, f, before, errors);
      } else {
        OpenScope(1);
        loopDepth := |counts| - 1;
        Infer(s.body);
        loopDepth := saved;
        counts := counts[..|counts| - 1];
        ForOutcome(s.body, env, loop, Fits(s, base), f, Now(), log[base..n]);
        ForTold(s.body, env, loop, base, f, before, errors);
      }
    }

    /** `if`, with or without `else`: the second branch must not see the drops of the first. */
    method InferIf(s: Stmt)
      requires Valid() && (s.If? || s.IfOnly?)
      modifies this, log
      ensures Valid() && counts == old(counts) && loopDepth == old(loopDepth)
      ensures old(n) <= n <= old(n) + Drops(s)
      ensures log[..old(n)] == old(log[..n])
      ensures Outcome(Musts(s, counts, loopDepth), counts, Fits(s, old(n)), old(Now()), Now(), Since(old(n)))
      ensures Told(s, counts, loopDepth, old(n), old(Now()), old(errors), errors)
      decreases s, 0
    {
      hide Outcome, Must, Musts, Told, JoinOf2, Lifted;
      ghost var f, env, loop, before := Now(), counts, loopDepth, errors;
      var base := n;
      Infer(s.thn);
      ghost var g, first, between, was := Now(), log[base..n], errors, log[..n];
      Prefixed(log, n, base, n);
      var mid := n;
      LiftFrom(base);
      if s.If? {
        Infer(s.els);
        ghost var h, second := Now(), log[mid..n];
        Prefixed(log, mid, base, mid);
        assert log[..mid] == was && log[..base] == was[..base];
        assert log[base..mid] == first;
        IfTold(s.thn, s.els, env, loop, base, mid, f, g, first, before, between, errors);
        Join2(base, mid);
        IfOutcome(s.thn, s.els, env, loop, base, mid, f, g, h, Now(), first, second, log[base..n]);
      } else {
        n := base;
        overflowed := false;
        assert Since(base) == [];
        IfOnlyOutcome(s.thn, env, loop, Fits(s, base), f, g, first);
        IfOnlyTold(s.thn, env, loop, base, f, before, errors);
      }
    }

    method InferCatch(s: Stmt)
      requires Valid() && s.Catch?
      modifies this, log
      ensures Valid() && counts == old(counts) && loopDepth == old(loopDepth)
      ensures old(n) <= n <= old(n) + Drops(s)
      ensures log[..old(n)] == old(log[..n])
      ensures Outcome(Musts(s, counts, loopDepth), counts, Fits(s, old(n)), old(Now()), Now(), Since(old(n)))
      ensures Told(s, counts, loopDepth, old(n), old(Now()), old(errors), errors)
      decreases s, 0
    {
      hide Outcome, Must, Musts, Told, JoinOf2, Lifted;
      ghost var f, env, loop, before := Now(), counts, loopDepth, errors;
      var base := n;
      Infer(s.body);
      ghost var g, first, between, was := Now(), log[base..n], errors, log[..n];
      Prefixed(log, n, base, n);
      var mid := n;
      LiftFrom(base);
      OpenScope(Bound(s.binding));
      Infer(s.handler);
      counts := counts[..|counts| - 1];
      ghost var h, second := Now(), log[mid..n];
      Prefixed(log, mid, base, mid);
      assert log[..mid] == was && log[..base] == was[..base];
      assert log[base..mid] == first;
      CatchTold(s.body, s.handler, s.binding, env, loop, base, mid, f, g, first, before, between, errors);
      Join2(base, mid);
      CatchOutcome(s.body, s.handler, s.binding, env, loop, base, mid, f, g, h, Now(), first, second, log[base..n]);
    }

    method InferItems(items: Items)
      requires Valid()
      modifies this, log
      ensures Valid() && loopDepth == old(loopDepth)
      ensures |counts| == |old(counts)| && counts[..|counts| - 1] == old(counts[..|counts| - 1])
      ensures old(n) <= n <= old(n) + ItemDrops(items)
      ensures log[..old(n)] == old(log[..n])
      ensures Outcome(MustsItems(items, old(counts), loopDepth), old(counts), FitsItems(items, old(n)),
                      old(Now()), Now(), Since(old(n)))
      ensures ToldItems(items, old(counts), loopDepth, old(n), old(Now()), old(errors), errors)
      decreases items, 0
    {
      hide Outcome, Must, Musts, MustItems, MustsItems, Told, ToldItems, Drops, FewArms;
      ghost var f, env, loop, base, before := Now(), counts, loopDepth, n, errors;
      match items
      case Done =>
        DoneOutcome(env, loop, FitsItems(items, n), f);
        DoneTold(env, loop, base, f, before);
        assert Since(base) == [];
      case Do(s, rest) =>
        Infer(s);
        ghost var g, mid, between := Now(), n, errors;
        InferItems(rest);
        TwoParts(log, base, mid, n);
        DoOutcome(s, rest, env, loop, base, mid, f, g, Now(), log[base..mid], log[mid..n]);
        DoTold(s, rest, env, loop, base, mid, f, g, log[base..mid], before, between, errors);
      case Let(init, rest) =>
        Infer(init);
        ghost var g, mid, between := Now(), n, errors;
        Define();
        InferItems(rest);
        TwoParts(log, base, mid, n);
        LetOutcome(init, rest, env, loop, base, mid, f, g, Now(), log[base..mid], log[mid..n]);
        LetTold(init, rest, env, loop, base, mid, f, g, log[base..mid], before, between, errors);
    }

    /** One arm, with a scope of its own if the match is over an enum. */
    method InferArm(arm: Arm, scoped: bool)
      requires Valid()
      modifies this, log
      ensures Valid() && counts == old(counts) && loopDepth == old(loopDepth)
      ensures old(n) <= n <= old(n) + Drops(arm.body)
      ensures log[..old(n)] == old(log[..n])
      ensures Outcome(MustsArm(arm, scoped, counts, loopDepth), counts, Fits(arm.body, old(n)),
                      old(Now()), Now(), Since(old(n)))
      ensures ToldArm(arm, scoped, counts, loopDepth, old(n), old(Now()), old(errors), errors)
      decreases arm, 2
    {
      hide Outcome, Must, Musts, Told;
      ghost var f, env, loop, base, before := Now(), counts, loopDepth, n, errors;
      if scoped {
        OpenScope(Bound(arm.binding));
        Infer(arm.body);
        counts := counts[..|counts| - 1];
        ArmOutcome(arm, env, loop, Fits(arm.body, base), f, Now(), log[base..n]);
        ArmTold(arm, env, loop, base, f, before, errors);
      } else {
        Infer(arm.body);
        BareArm(arm, env, loop, base, f, Now(), log[base..n], before, errors);
      }
    }

    /** Arm `i` of a match: it must not see the drops of the arms before it. */
    method InferArmOf(s: Stmt, i: nat, base: nat, armEnd: array<nat>, ghost f: Flags, ghost room: bool,
                      ghost parts: seq<seq<Slot>>, ghost before: nat) returns (ghost parts': seq<seq<Slot>>)
      requires Valid() && s.Match? && i < |s.arms| && base <= n && armEnd.Length == ARMS_MAX
      requires room ==> Fits(s, base)
      requires Between(s.arms, i, s.scoped, counts, loopDepth, base, room, f, Now(), log[..n],
                       armEnd[..if i <= ARMS_MAX then i else ARMS_MAX], parts)
      requires ToldArms(s.arms[..i], s.scoped, counts, loopDepth, room, f, before, errors)
      modifies this, log, armEnd
      ensures Valid() && counts == old(counts) && loopDepth == old(loopDepth) && base <= n
      ensures log[..base] == old(log[..base])
      ensures Between(s.arms, i + 1, s.scoped, counts, loopDepth, base, room, f, Now(), log[..n],
                      armEnd[..if i + 1 <= ARMS_MAX then i + 1 else ARMS_MAX], parts')
      ensures ToldArms(s.arms[..i + 1], s.scoped, counts, loopDepth, room, f, before, errors)
      decreases s, 0, 0
    {
      hide Outcome, Between, Musts, MustsArm, Must, MustArm, ToldArms, ToldArm;
      ghost var cur, was, ends := Now(), log[..n], armEnd[..if i <= ARMS_MAX then i else ARMS_MAX];
      ghost var between := errors;
      LiftFrom(base);
      assert was[base..] == log[base..n];
      InferArm(s.arms[i], s.scoped);
      if i < ARMS_MAX {
        armEnd[i] := n;
      }
      ghost var added := log[|was|..n];
      assert log[..n] == was + added;
      assert log[..base] == was[..base];
      parts' := parts + [added];
      ArmsTold(s.arms, i, s.scoped, counts, loopDepth, base, room, f, cur, was, ends, parts, before, between, errors);
      BetweenNext(s.arms, i, s.scoped, counts, loopDepth, base, room, f, cur, Now(), was, log[..n],
                  ends, armEnd[..if i + 1 <= ARMS_MAX then i + 1 else ARMS_MAX], parts, added);
    }

    /** The arms one after another; the ends of the first 64 are kept for the join. */
    method InferMatch(s: Stmt)
      requires Valid() && s.Match?
      modifies this, log
      ensures Valid() && counts == old(counts) && loopDepth == old(loopDepth)
      ensures old(n) <= n <= old(n) + Drops(s)
      ensures log[..old(n)] == old(log[..n])
      ensures Outcome(Musts(s, counts, loopDepth), counts, Fits(s, old(n)), old(Now()), Now(), Since(old(n)))
      ensures Told(s, counts, loopDepth, old(n), old(Now()), old(errors), errors)
      decreases s, 0, 1
    {
      hide Outcome, Between, Musts, MustsArm, Must, MustArm, ToldArms, Told, Drops, ArmDrops;
      ghost var f, env, loop, room, before := Now(), counts, loopDepth, Fits(s, n), errors;
      var base, i, narm := n, 0, |s.arms|;
      var armEnd := new nat[ARMS_MAX];
      ghost var parts: seq<seq<Slot>> := [];
      BetweenStart(s.arms, s.scoped, env, loop, base, room, f, log[..n], armEnd[..0]);
      NoArmsTold(s.arms, s.scoped, env, loop, room, f, before);
      while i < narm
        invariant i <= narm && Valid() && counts == env && loopDepth == loop && fresh(armEnd)
        invariant base <= n && log[..base] == old(log[..n])
        invariant Between(s.arms, i, s.scoped, env, loop, base, room, f, Now(), log[..n],
                          armEnd[..if i <= ARMS_MAX then i else ARMS_MAX], parts)
        invariant ToldArms(s.arms[..i], s.scoped, env, loop, room, f, before, errors)
      {
        parts := InferArmOf(s, i, base, armEnd, f, room, parts, before);
        i := i + 1;
      }
      MatchTold(s.arms, s.scoped, s.total, env, loop, base, f, before, errors);
      FinishMatch(s, base, armEnd, f, room, parts);
    }

    /** The join, or without `_` over plain values the lift, at the end of a match. */
    method FinishMatch(s: Stmt, base: nat, armEnd: array<nat>, ghost f: Flags, ghost room: bool,
                       ghost parts: seq<seq<Slot>>)
      requires Valid() && s.Match? && base <= n && armEnd.Length == ARMS_MAX
      requires room ==> |s.arms| <= ARMS_MAX
      requires Between(s.arms, |s.arms|, s.scoped, counts, loopDepth, base, room, f, Now(), log[..n],
                       armEnd[..if |s.arms| <= ARMS_MAX then |s.arms| else ARMS_MAX], parts)
      modifies this`dropped, this`n, this`overflowed, log
      ensures Valid() && base <= n <= old(n) && n <= base + Drops(s)
      ensures log[..base] == old(log[..base])
      ensures Outcome(Musts(s, counts, loopDepth), counts, room, f, Now(), Since(base))
    {
      ghost var cur := Now();
      var narm := |s.arms|;
      assert s.arms[..narm] == s.arms;
      assert log[base..n] == log[..n][base..];
      if s.scoped || s.total {
        JoinArms(base, if narm <= ARMS_MAX then armEnd else null, narm, parts);
        MatchOutcome(s.arms, s.scoped, s.total, counts, loopDepth, room, narm <= ARMS_MAX, f, cur, Now(), parts,
                     log[base..n]);
      } else {
        LiftFrom(base);
        n := base;
        overflowed := false;
        PartialMatchOutcome(s.arms, counts, loopDepth, room, f, cur, parts);
      }
    }
  }
}
