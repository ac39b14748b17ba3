/** Which drops of a statement are wrong, said of its executions: a drop is wrong when every execution
  that gets there finds its variable unknown, from outside the enclosing loop, or dropped already. */
module WrongDrops {
  import opened Paths

  // ---------------------------------------------------------------- executions up to a drop

  /** What stands at a drop: its variable, the scopes open there and the depth of the enclosing loop. */
  datatype Place = Place(x: Slot, env: Env, loop: nat)

  /** Some execution of `s` gets to its drop number `k` in textual order, which stands at `at`, having
      dropped exactly `d`. A handler is entered after any part of what the body drops; a loop body, after
      any number of rounds, each with a loop variable of its own. */
  ghost predicate Reach(s: Stmt, k: nat, env: Env, loop: nat, at: Place, d: set<Slot>)
    decreases s, 0
  {
    match s
    case Skip => false
    case Drop(x) => k == 0 && at == Place(x, env, loop) && d == {}
    case Then(a, b) =>
      if k < Drops(a) then Reach(a, k, env, loop, at, d)
      else exists d1, d2 :: Path(a, env, loop, d1) && Reach(b, k - Drops(a), env, loop, at, d2) && d == d1 + d2
    case If(t, e) =>
      if k < Drops(t) then Reach(t, k, env, loop, at, d) else Reach(e, k - Drops(t), env, loop, at, d)
    case IfOnly(t) => Reach(t, k, env, loop, at, d)
    case Catch(b, h, binding) =>
      if k < Drops(b) then Reach(b, k, env, loop, at, d)
      else
        exists d1, d2 ::
          && CutShort(b, env, loop, d1)
          && Reach(h, k - Drops(b), env + [Bound(binding)], loop, at, d2) && d == d1 + d2
    case Match(arms, scoped, _) =>
      exists i :: Written(arms, i, k) && ReachArm(arms[i], scoped, k - ArmDrops(arms[..i]), env, loop, at, d)
    case While(b) =>
      exists n: nat, d1, d2 :: Iterations(b, env, |env|, n, d1) && Reach(b, k, env, |env|, at, d2) && d == d1 + d2
    case For(b) =>
      exists n: nat, e, d2 ::
        && Iterations(b, env + [1], |env|, n, e)
        && Reach(b, k, env + [1], |env|, at, d2) && d == Visible(e, |env|) + d2
    case Block(items) => ReachItems(items, k, env + [0], loop, at, d)
  }

  /** An execution of `s` cut short may have dropped exactly `d`. */
  ghost predicate CutShort(s: Stmt, env: Env, loop: nat, d: set<Slot>) {
    exists p :: Path(s, env, loop, p) && d <= p
  }

  /** Drop number `k` of a match is written in arm `i`. */
  ghost predicate Written(arms: seq<Arm>, i: int, k: nat) {
    0 <= i < |arms| && ArmDrops(arms[..i]) <= k < ArmDrops(arms[..i]) + ArmDrop(arms[i])
  }

  ghost predicate ReachArm(arm: Arm, scoped: bool, k: nat, env: Env, loop: nat, at: Place, d: set<Slot>)
    decreases arm, 1
  {
    Reach(arm.body, k, Opened(arm, scoped, env), loop, at, d)
  }

  /** The scopes open in an arm. */
  function Opened(arm: Arm, scoped: bool, env: Env): Env {
    if scoped then env + [Bound(arm.binding)] else env
  }

  ghost predicate ReachItems(items: Items, k: nat, env: Env, loop: nat, at: Place, d: set<Slot>)
    requires |env| > 0
    decreases items, 0
  {
    match items
    case Done => false
    case Do(s, rest) =>
      if k < Drops(s) then Reach(s, k, env, loop, at, d)
      else exists d1, d2 :: Path(s, env, loop, d1) && ReachItems(rest, k - Drops(s), env, loop, at, d2) && d == d1 + d2
    case Let(init, rest) =>
      if k < Drops(init) then Reach(init, k, env, loop, at, d)
      else
        exists d1, d2 ::
          && Path(init, env, loop, d1)
          && ReachItems(rest, k - Drops(init), Declared(env), loop, at, d2) && d == d1 + d2
  }

  lemma {:induction false} ArmOf(arms: seq<Arm>, k: nat) returns (i: nat)
    requires k < ArmDrops(arms)
    ensures Written(arms, i, k)
  {
    var last := |arms| - 1;
    if ArmDrops(arms[..last]) <= k {
      i := last;
    } else {
      i := ArmOf(arms[..last], k);
      assert arms[..last][..i] == arms[..i];
    }
  }

  lemma {:induction false} WrittenOnce(arms: seq<Arm>, i: int, j: int, k: nat)
    requires Written(arms, i, k) && Written(arms, j, k)
    ensures i == j
  {
    if i < j {
      ArmsBefore(arms, i, j);
    } else if j < i {
      ArmsBefore(arms, j, i);
    }
  }

  lemma {:induction false} ArmsBefore(arms: seq<Arm>, i: nat, j: nat)
    requires i < j <= |arms|
    ensures ArmDrops(arms[..i]) + ArmDrop(arms[i]) <= ArmDrops(arms[..j])
    decreases j
  {
    ArmDropsUpTo(arms, i);
    if i + 1 < j {
      ArmsBefore(arms, i, j - 1);
      ArmDropsUpTo(arms, j - 1);
    }
  }

  lemma {:induction false} ReachInArm(arms: seq<Arm>, scoped: bool, total: bool, i: nat, k: nat, m: nat, env: Env,
                                      loop: nat, at: Place, d: set<Slot>)
    requires Written(arms, i, k) && k == ArmDrops(arms[..i]) + m
    ensures Reach(Match(arms, scoped, total), k, env, loop, at, d)
       <==> Reach(arms[i].body, m, Opened(arms[i], scoped, env), loop, at, d)
  {
    hide Path, ArmDrops;
    assert ReachArm(arms[i], scoped, m, env, loop, at, d)
      == Reach(arms[i].body, m, Opened(arms[i], scoped, env), loop, at, d);
    forall j | Written(arms, j, k) ensures i == j {
      WrittenOnce(arms, i, j, k);
    }
  }

  lemma AtOnce(s: Stmt, env: Env, loop: nat)
    ensures CutShort(s, env, loop, {})
  {
    var p := SomePath(s, env, loop);
    assert {} <= p;
  }

  /** The handler may be entered before the body has dropped anything, a loop body in the first round. */
  lemma ReachInHandler(b: Stmt, h: Stmt, binding: bool, k: nat, env: Env, loop: nat, at: Place, d: set<Slot>)
    requires Reach(h, k, env + [Bound(binding)], loop, at, d)
    ensures Reach(Catch(b, h, binding), Drops(b) + k, env, loop, at, d)
  {
    hide Path, CutShort, Drops;
    AtOnce(b, env, loop);
    assert {} + d == d;
    assert Reach(h, Drops(b) + k - Drops(b), env + [Bound(binding)], loop, at, d);
  }

  lemma ReachInWhile(b: Stmt, k: nat, env: Env, loop: nat, at: Place, d: set<Slot>)
    requires Reach(b, k, env, |env|, at, d)
    ensures Reach(While(b), k, env, loop, at, d)
  {
    hide Path;
    assert Iterations(b, env, |env|, 0, {});
    assert {} + d == d;
  }

  lemma ReachInFor(b: Stmt, k: nat, env: Env, loop: nat, at: Place, d: set<Slot>)
    requires Reach(b, k, env + [1], |env|, at, d)
    ensures Reach(For(b), k, env, loop, at, d)
  {
    hide Path;
    assert Iterations(b, env + [1], |env|, 0, {});
    assert Visible({}, |env|) + d == d;
  }

  /** Every drop written is reached by some execution. */
  lemma {:induction false} SomeReach(s: Stmt, k: nat, env: Env, loop: nat) returns (at: Place, d: set<Slot>)
    requires k < Drops(s)
    ensures Reach(s, k, env, loop, at, d)
    decreases s, 0
  {
    hide Path;
    match s
    case Drop(x) => at, d := Place(x, env, loop), {};
    case Then(a, b) =>
      if k < Drops(a) {
        at, d := SomeReach(a, k, env, loop);
      } else {
        var d1 := SomePath(a, env, loop);
        var at', d2 := SomeReach(b, k - Drops(a), env, loop);
        at, d := at', d1 + d2;
      }
    case If(t, e) =>
      if k < Drops(t) {
        at, d := SomeReach(t, k, env, loop);
      } else {
        at, d := SomeReach(e, k - Drops(t), env, loop);
      }
    case IfOnly(t) => at, d := SomeReach(t, k, env, loop);
    case Catch(b, h, binding) =>
      if k < Drops(b) {
        at, d := SomeReach(b, k, env, loop);
      } else {
        at, d := SomeReach(h, k - Drops(b), env + [Bound(binding)], loop);
        ReachInHandler(b, h, binding, k - Drops(b), env, loop, at, d);
      }
    case Match(arms, scoped, total) =>
      var i := ArmOf(arms, k);
      at, d := SomeReach(arms[i].body, k - ArmDrops(arms[..i]), Opened(arms[i], scoped, env), loop);
      ReachInArm(arms, scoped, total, i, k, k - ArmDrops(arms[..i]), env, loop, at, d);
    case While(b) =>
      at, d := SomeReach(b, k, env, |env|);
      ReachInWhile(b, k, env, loop, at, d);
    case For(b) =>
      at, d := SomeReach(b, k, env + [1], |env|);
      ReachInFor(b, k, env, loop, at, d);
    case Block(items) => at, d := SomeItemsReach(items, k, env + [0], loop);
  }

  lemma {:induction false} SomeItemsReach(items: Items, k: nat, env: Env, loop: nat) returns (at: Place, d: set<Slot>)
    requires |env| > 0 && k < ItemDrops(items)
    ensures ReachItems(items, k, env, loop, at, d)
    decreases items, 0
  {
    match items
    case Do(s, rest) =>
      if k < Drops(s) {
        at, d := SomeReach(s, k, env, loop);
      } else {
        var d1 := SomePath(s, env, loop);
        var at', d2 := SomeItemsReach(rest, k - Drops(s), env, loop);
        at, d := at', d1 + d2;
      }
    case Let(init, rest) =>
      if k < Drops(init) {
        at, d := SomeReach(init, k, env, loop);
      } else {
        var d1 := SomePath(init, env, loop);
        var at', d2 := SomeItemsReach(rest, k - Drops(init), Declared(env), loop);
        at, d := at', d1 + d2;
      }
  }

  // ---------------------------------------------------------------- wrong drops

  /** A drop at `at` when the variables of `gone` have been dropped. */
  ghost predicate Wrong(at: Place, gone: iset<Slot>) {
    !InScope(at.x, at.env) || LoopOuter(at.x, at.loop) || at.x in gone
  }

  ghost function With(gone: iset<Slot>, d: set<Slot>): iset<Slot> {
    iset x | x in gone || x in d
  }

  /** Drop number `k` of `s` is wrong: it is so in every execution that gets there, when the variables
      of `gone` were dropped before `s`. */
  ghost predicate Bad(s: Stmt, k: nat, env: Env, loop: nat, gone: iset<Slot>) {
    forall at, d :: Reach(s, k, env, loop, at, d) ==> Wrong(at, With(gone, d))
  }

  ghost predicate NoneBad(s: Stmt, env: Env, loop: nat, gone: iset<Slot>) {
    forall k: nat :: k < Drops(s) ==> !Bad(s, k, env, loop, gone)
  }

  ghost predicate BadItem(items: Items, k: nat, env: Env, loop: nat, gone: iset<Slot>)
    requires |env| > 0
  {
    forall at, d :: ReachItems(items, k, env, loop, at, d) ==> Wrong(at, With(gone, d))
  }

  /** One verdict for each drop of `s`. */
  ghost function Verdicts(s: Stmt, env: Env, loop: nat, gone: iset<Slot>): seq<bool> {
    seq(Drops(s), k requires 0 <= k < Drops(s) => Bad(s, k, env, loop, gone))
  }

  ghost function ItemVerdicts(items: Items, env: Env, loop: nat, gone: iset<Slot>): seq<bool>
    requires |env| > 0
  {
    seq(ItemDrops(items), k requires 0 <= k < ItemDrops(items) => BadItem(items, k, env, loop, gone))
  }

  ghost function ArmVerdicts(arm: Arm, scoped: bool, env: Env, loop: nat, gone: iset<Slot>): seq<bool> {
    Verdicts(arm.body, Opened(arm, scoped, env), loop, gone)
  }

  /** The verdicts on the arms of a match, one arm after another. */
  ghost function AllArmVerdicts(arms: seq<Arm>, scoped: bool, env: Env, loop: nat, gone: iset<Slot>): seq<bool> {
    if arms == [] then []
    else
      var last := |arms| - 1;
      AllArmVerdicts(arms[..last], scoped, env, loop, gone) + ArmVerdicts(arms[last], scoped, env, loop, gone)
  }

  /** How many are wrong. */
  ghost function Errors(v: seq<bool>): nat {
    if v == [] then 0 else Errors(v[..|v| - 1]) + if v[|v| - 1] then 1 else 0
  }

  lemma {:induction false} ErrorsAdd(v: seq<bool>, w: seq<bool>)
    ensures Errors(v + w) == Errors(v) + Errors(w)
  {
    if w == [] {
      assert v + w == v;
    } else {
      ErrorsAdd(v, w[..|w| - 1]);
      assert (v + w)[..|v + w| - 1] == v + w[..|w| - 1];
    }
  }

  lemma {:induction false} NoneWrong(v: seq<bool>)
    ensures Errors(v) <= |v|
    ensures Errors(v) == 0 <==> forall k :: 0 <= k < |v| ==> !v[k]
  {
    if v != [] {
      NoneWrong(v[..|v| - 1]);
      assert forall k :: 0 <= k < |v| - 1 ==> v[..|v| - 1][k] == v[k];
    }
  }

  lemma {:induction false} ErrorsGrow(v: seq<bool>, w: seq<bool>)
    requires |v| == |w| && forall k :: 0 <= k < |v| && v[k] ==> w[k]
    ensures Errors(v) <= Errors(w)
  {
    if v != [] {
      var last := |v| - 1;
      assert forall k :: 0 <= k < last ==> v[..last][k] == v[k] && w[..last][k] == w[k];
      ErrorsGrow(v[..last], w[..last]);
    }
  }

  /** The more was dropped before, the more is wrong. */
  lemma MoreGone(s: Stmt, env: Env, loop: nat, gone: iset<Slot>, gone': iset<Slot>)
    requires gone <= gone'
    ensures Errors(Verdicts(s, env, loop, gone)) <= Errors(Verdicts(s, env, loop, gone'))
  {
    forall k: nat | k < Drops(s) && Bad(s, k, env, loop, gone) ensures Bad(s, k, env, loop, gone') {
      forall at, d | Reach(s, k, env, loop, at, d) ensures Wrong(at, With(gone', d)) {
        assert Wrong(at, With(gone, d));
      }
    }
    ErrorsGrow(Verdicts(s, env, loop, gone), Verdicts(s, env, loop, gone'));
  }

  lemma MoreGoneItems(items: Items, env: Env, loop: nat, gone: iset<Slot>, gone': iset<Slot>)
    requires |env| > 0 && gone <= gone'
    ensures Errors(ItemVerdicts(items, env, loop, gone)) <= Errors(ItemVerdicts(items, env, loop, gone'))
  {
    forall k: nat | k < ItemDrops(items) && BadItem(items, k, env, loop, gone)
      ensures BadItem(items, k, env, loop, gone')
    {
      forall at, d | ReachItems(items, k, env, loop, at, d) ensures Wrong(at, With(gone', d)) {
        assert Wrong(at, With(gone, d));
      }
    }
    ErrorsGrow(ItemVerdicts(items, env, loop, gone), ItemVerdicts(items, env, loop, gone'));
  }

  // ---------------------------------------------------------------- how verdicts compose

  lemma DropVerdicts(x: Slot, env: Env, loop: nat, gone: iset<Slot>)
    ensures Errors(Verdicts(Drop(x), env, loop, gone))
         == if InScope(x, env) && !LoopOuter(x, loop) && x !in gone then 0 else 1
  {
    var at := Place(x, env, loop);
    assert Reach(Drop(x), 0, env, loop, at, {});
    assert With(gone, {}) == gone;
    assert Bad(Drop(x), 0, env, loop, gone) <==> Wrong(at, gone);
    assert Verdicts(Drop(x), env, loop, gone) == [Wrong(at, gone)];
    NoneWrong([Wrong(at, gone)]);
    assert Errors([Wrong(at, gone)][..0]) == 0;
  }

  /** After `a`, what was dropped before it or is dropped on every path through it. */
  lemma ThenVerdicts(a: Stmt, b: Stmt, env: Env, loop: nat, gone: iset<Slot>)
    ensures Verdicts(Then(a, b), env, loop, gone)
         == Verdicts(a, env, loop, gone) + Verdicts(b, env, loop, gone + Musts(a, env, loop))
  {
    hide Path;
    var s, later := Then(a, b), gone + Musts(a, env, loop);
    forall k: nat | k < Drops(a) ensures Bad(s, k, env, loop, gone) <==> Bad(a, k, env, loop, gone) {
    }
    forall k: nat | Drops(a) <= k < Drops(s)
      ensures Bad(s, k, env, loop, gone) <==> Bad(b, k - Drops(a), env, loop, later)
    {
      if Bad(s, k, env, loop, gone) {
        forall at, d2 | Reach(b, k - Drops(a), env, loop, at, d2) ensures Wrong(at, With(later, d2)) {
          var d1 := Missing(a, env, loop, at.x);
          assert Reach(s, k, env, loop, at, d1 + d2);
        }
      }
      if Bad(b, k - Drops(a), env, loop, later) {
        forall at, d | Reach(s, k, env, loop, at, d) ensures Wrong(at, With(gone, d)) {
          var d1, d2 :| Path(a, env, loop, d1) && Reach(b, k - Drops(a), env, loop, at, d2) && d == d1 + d2;
          assert Wrong(at, With(later, d2));
        }
      }
    }
  }

  /** A path that leaves `x` alone, if there is one. */
  lemma Missing(s: Stmt, env: Env, loop: nat, x: Slot) returns (d: set<Slot>)
    ensures Path(s, env, loop, d) && (x in d ==> Must(s, env, loop, x))
  {
    if Must(s, env, loop, x) {
      d := SomePath(s, env, loop);
    } else {
      d :| Path(s, env, loop, d) && x !in d;
    }
  }

  lemma IfVerdicts(t: Stmt, e: Stmt, env: Env, loop: nat, gone: iset<Slot>)
    ensures Verdicts(If(t, e), env, loop, gone) == Verdicts(t, env, loop, gone) + Verdicts(e, env, loop, gone)
  {
    hide Path;
    var s := If(t, e);
    forall k: nat | k < Drops(s)
      ensures Bad(s, k, env, loop, gone)
         <==> if k < Drops(t) then Bad(t, k, env, loop, gone) else Bad(e, k - Drops(t), env, loop, gone)
    {
    }
  }

  lemma IfOnlyVerdicts(t: Stmt, env: Env, loop: nat, gone: iset<Slot>)
    ensures Verdicts(IfOnly(t), env, loop, gone) == Verdicts(t, env, loop, gone)
  {
    forall k: nat | k < Drops(t) ensures Bad(IfOnly(t), k, env, loop, gone) <==> Bad(t, k, env, loop, gone) {
    }
  }

  lemma BadInHandler(b: Stmt, h: Stmt, binding: bool, k: nat, env: Env, loop: nat, gone: iset<Slot>)
    ensures Bad(Catch(b, h, binding), Drops(b) + k, env, loop, gone) <==> Bad(h, k, env + [Bound(binding)], loop, gone)
  {
    hide Path, CutShort, Drops, Wrong, Reach;
    var s, m, inner := Catch(b, h, binding), Drops(b) + k, env + [Bound(binding)];
    if Bad(s, m, env, loop, gone) {
      forall at, d | Reach(h, k, inner, loop, at, d) ensures Wrong(at, With(gone, d)) {
        ReachInHandler(b, h, binding, k, env, loop, at, d);
      }
    }
    if Bad(h, k, inner, loop, gone) {
      forall at, d | Reach(s, m, env, loop, at, d) ensures Wrong(at, With(gone, d)) {
        var d2 := InHandler(b, h, binding, k, env, loop, at, d);
        MoreWrong(at, gone, d2, d);
      }
    }
  }

  lemma InHandler(b: Stmt, h: Stmt, binding: bool, k: nat, env: Env, loop: nat, at: Place, d: set<Slot>)
    returns (d2: set<Slot>)
    requires Reach(Catch(b, h, binding), Drops(b) + k, env, loop, at, d)
    ensures Reach(h, k, env + [Bound(binding)], loop, at, d2) && d2 <= d
  {
    hide Path, CutShort, Drops;
    var d1, e :| Reach(h, Drops(b) + k - Drops(b), env + [Bound(binding)], loop, at, e) && d == d1 + e;
    d2 := e;
  }

  lemma MoreWrong(at: Place, gone: iset<Slot>, d: set<Slot>, d': set<Slot>)
    requires Wrong(at, With(gone, d)) && d <= d'
    ensures Wrong(at, With(gone, d'))
  {
  }

  lemma CatchVerdicts(b: Stmt, h: Stmt, binding: bool, env: Env, loop: nat, gone: iset<Slot>)
    ensures Verdicts(Catch(b, h, binding), env, loop, gone)
         == Verdicts(b, env, loop, gone) + Verdicts(h, env + [Bound(binding)], loop, gone)
  {
    hide Wrong, Path, CutShort;
    var s, inner := Catch(b, h, binding), env + [Bound(binding)];
    forall k: nat | k < Drops(b) ensures Bad(s, k, env, loop, gone) <==> Bad(b, k, env, loop, gone) {
    }
    forall k: nat | Drops(b) <= k < Drops(s)
      ensures Bad(s, k, env, loop, gone) <==> Bad(h, k - Drops(b), inner, loop, gone)
    {
      BadInHandler(b, h, binding, k - Drops(b), env, loop, gone);
    }
  }

  /** A loop body may be entered before any round has dropped anything. */
  lemma WhileVerdicts(b: Stmt, env: Env, loop: nat, gone: iset<Slot>)
    ensures Verdicts(While(b), env, loop, gone) == Verdicts(b, env, |env|, gone)
  {
    hide Path;
    var s := While(b);
    forall k: nat | k < Drops(b) ensures Bad(s, k, env, loop, gone) <==> Bad(b, k, env, |env|, gone) {
      if Bad(s, k, env, loop, gone) {
        forall at, d | Reach(b, k, env, |env|, at, d) ensures Wrong(at, With(gone, d)) {
          ReachInWhile(b, k, env, loop, at, d);
        }
      }
      if Bad(b, k, env, |env|, gone) {
        forall at, d | Reach(s, k, env, loop, at, d) ensures Wrong(at, With(gone, d)) {
          var d1, d2 :| Reach(b, k, env, |env|, at, d2) && d == d1 + d2;
          assert Wrong(at, With(gone, d2));
        }
      }
    }
  }

  lemma ForVerdicts(b: Stmt, env: Env, loop: nat, gone: iset<Slot>)
    ensures Verdicts(For(b), env, loop, gone) == Verdicts(b, env + [1], |env|, gone)
  {
    hide Path;
    var s, inner := For(b), env + [1];
    forall k: nat | k < Drops(b) ensures Bad(s, k, env, loop, gone) <==> Bad(b, k, inner, |env|, gone) {
      if Bad(s, k, env, loop, gone) {
        forall at, d | Reach(b, k, inner, |env|, at, d) ensures Wrong(at, With(gone, d)) {
          ReachInFor(b, k, env, loop, at, d);
        }
      }
      if Bad(b, k, inner, |env|, gone) {
        forall at, d | Reach(s, k, env, loop, at, d) ensures Wrong(at, With(gone, d)) {
          var d1, d2 :| Reach(b, k, inner, |env|, at, d2) && d == d1 + d2;
          assert Wrong(at, With(gone, d2));
        }
      }
    }
  }

  lemma BlockVerdicts(items: Items, env: Env, loop: nat, gone: iset<Slot>)
    ensures Verdicts(Block(items), env, loop, gone) == ItemVerdicts(items, env + [0], loop, gone)
  {
    forall k: nat | k < ItemDrops(items)
      ensures Bad(Block(items), k, env, loop, gone) <==> BadItem(items, k, env + [0], loop, gone)
    {
    }
  }

  lemma DoVerdicts(s: Stmt, rest: Items, env: Env, loop: nat, gone: iset<Slot>)
    requires |env| > 0
    ensures ItemVerdicts(Do(s, rest), env, loop, gone)
         == Verdicts(s, env, loop, gone) + ItemVerdicts(rest, env, loop, gone + Musts(s, env, loop))
  {
    hide Path;
    var items, later := Do(s, rest), gone + Musts(s, env, loop);
    forall k: nat | k < Drops(s) ensures BadItem(items, k, env, loop, gone) <==> Bad(s, k, env, loop, gone) {
    }
    forall k: nat | Drops(s) <= k < ItemDrops(items)
      ensures BadItem(items, k, env, loop, gone) <==> BadItem(rest, k - Drops(s), env, loop, later)
    {
      if BadItem(items, k, env, loop, gone) {
        forall at, d2 | ReachItems(rest, k - Drops(s), env, loop, at, d2) ensures Wrong(at, With(later, d2)) {
          var d1 := Missing(s, env, loop, at.x);
          assert ReachItems(items, k, env, loop, at, d1 + d2);
        }
      }
      if BadItem(rest, k - Drops(s), env, loop, later) {
        forall at, d | ReachItems(items, k, env, loop, at, d) ensures Wrong(at, With(gone, d)) {
          var d1, d2 :| Path(s, env, loop, d1) && ReachItems(rest, k - Drops(s), env, loop, at, d2) && d == d1 + d2;
          assert Wrong(at, With(later, d2));
        }
      }
    }
  }

  lemma LetVerdicts(init: Stmt, rest: Items, env: Env, loop: nat, gone: iset<Slot>)
    requires |env| > 0
    ensures ItemVerdicts(Let(init, rest), env, loop, gone)
         == Verdicts(init, env, loop, gone) + ItemVerdicts(rest, Declared(env), loop, gone + Musts(init, env, loop))
  {
    hide Path;
    var items, inner, later := Let(init, rest), Declared(env), gone + Musts(init, env, loop);
    forall k: nat | k < Drops(init) ensures BadItem(items, k, env, loop, gone) <==> Bad(init, k, env, loop, gone) {
    }
    forall k: nat | Drops(init) <= k < ItemDrops(items)
      ensures BadItem(items, k, env, loop, gone) <==> BadItem(rest, k - Drops(init), inner, loop, later)
    {
      if BadItem(items, k, env, loop, gone) {
        forall at, d2 | ReachItems(rest, k - Drops(init), inner, loop, at, d2) ensures Wrong(at, With(later, d2)) {
          var d1 := Missing(init, env, loop, at.x);
          assert ReachItems(items, k, env, loop, at, d1 + d2);
        }
      }
      if BadItem(rest, k - Drops(init), inner, loop, later) {
        forall at, d | ReachItems(items, k, env, loop, at, d) ensures Wrong(at, With(gone, d)) {
          var d1, d2 :|
            Path(init, env, loop, d1) && ReachItems(rest, k - Drops(init), inner, loop, at, d2) && d == d1 + d2;
          assert Wrong(at, With(later, d2));
        }
      }
    }
  }

  lemma {:induction false} ArmVerdictsAt(arms: seq<Arm>, i: nat, k: nat, scoped: bool, env: Env, loop: nat,
                                         gone: iset<Slot>)
    requires Written(arms, i, k)
    ensures k < |AllArmVerdicts(arms, scoped, env, loop, gone)|
    ensures var v := AllArmVerdicts(arms, scoped, env, loop, gone);
      v[k] <==> Bad(arms[i].body, k - ArmDrops(arms[..i]), Opened(arms[i], scoped, env), loop, gone)
  {
    hide Bad;
    var last := |arms| - 1;
    var front := arms[..last];
    AllArmsCount(front, scoped, env, loop, gone);
    if i < last {
      assert front[..i] == arms[..i];
      ArmVerdictsAt(front, i, k, scoped, env, loop, gone);
    }
  }

  lemma {:induction false} AllArmsCount(arms: seq<Arm>, scoped: bool, env: Env, loop: nat, gone: iset<Slot>)
    ensures |AllArmVerdicts(arms, scoped, env, loop, gone)| == ArmDrops(arms)
  {
    if arms != [] {
      AllArmsCount(arms[..|arms| - 1], scoped, env, loop, gone);
    }
  }

  lemma {:induction false} BadInArm(arms: seq<Arm>, scoped: bool, total: bool, i: nat, k: nat, env: Env, loop: nat,
                                    gone: iset<Slot>)
    requires Written(arms, i, k)
    ensures Bad(Match(arms, scoped, total), k, env, loop, gone)
       <==> Bad(arms[i].body, k - ArmDrops(arms[..i]), Opened(arms[i], scoped, env), loop, gone)
  {
    hide Reach, Wrong;
    forall at, d
      ensures Reach(Match(arms, scoped, total), k, env, loop, at, d)
         <==> Reach(arms[i].body, k - ArmDrops(arms[..i]), Opened(arms[i], scoped, env), loop, at, d)
    {
      ReachInArm(arms, scoped, total, i, k, k - ArmDrops(arms[..i]), env, loop, at, d);
    }
  }

  lemma {:induction false} MatchVerdicts(arms: seq<Arm>, scoped: bool, total: bool, env: Env, loop: nat,
                                         gone: iset<Slot>)
    ensures Verdicts(Match(arms, scoped, total), env, loop, gone) == AllArmVerdicts(arms, scoped, env, loop, gone)
  {
    hide Bad, AllArmVerdicts;
    var s, v := Match(arms, scoped, total), AllArmVerdicts(arms, scoped, env, loop, gone);
    AllArmsCount(arms, scoped, env, loop, gone);
    forall k: nat | k < ArmDrops(arms) ensures Bad(s, k, env, loop, gone) <==> v[k] {
      var i := ArmOf(arms, k);
      ArmVerdictsAt(arms, i, k, scoped, env, loop, gone);
      BadInArm(arms, scoped, total, i, k, env, loop, gone);
    }
  }

  // ---------------------------------------------------------------- what is reported

  /** The count of errors goes from `e0` to `e1` over drops with the verdicts `v`: it never counts more
      than are wrong, and when the checker's flags are `exact`, all of them. */
  ghost predicate Reported(e0: nat, e1: nat, exact: bool, v: seq<bool>) {
    e0 <= e1 <= e0 + Errors(v) && (exact ==> e1 == e0 + Errors(v))
  }
}
