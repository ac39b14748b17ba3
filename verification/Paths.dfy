/** Statements with `drop`, the executions they have, and the variables that every execution drops. */
module Paths {
  /** Variable `i` of the scope at depth `d`. Slots are used again once their scope is gone. */
  datatype Slot = Slot(d: nat, i: nat)

  datatype Stmt =
    | Skip
    | Drop(x: Slot)
    | Then(a: Stmt, b: Stmt)
    | If(thn: Stmt, els: Stmt)
    | IfOnly(thn: Stmt)
    | Catch(body: Stmt, handler: Stmt, binding: bool)
    | Match(arms: seq<Arm>, scoped: bool, total: bool)
    | While(body: Stmt)
    | For(body: Stmt)
    | Block(items: Items)

  /** A `scoped` match (over an enum) gives every arm its own scope, perhaps with a binding. One that
      misses a variant is an error of its own, so only an unscoped match may come to run no arm. */
  datatype Arm = Arm(body: Stmt, binding: bool)

  datatype Items = Done | Let(init: Stmt, rest: Items) | Do(s: Stmt, rest: Items)

  // -------------------------------------------------------------------- paths

  /** How many variables each open scope has, outermost first. */
  type Env = seq<nat>

  predicate InScope(x: Slot, env: Env) {
    x.d < |env| && x.i < env[x.d]
  }

  /** A drop is rejected for a variable from outside the enclosing loop; 0 means no loop. */
  predicate LoopOuter(x: Slot, loop: nat) {
    loop > 0 && x.d + 1 <= loop
  }

  function Effect(x: Slot, env: Env, loop: nat): set<Slot> {
    if InScope(x, env) && !LoopOuter(x, loop) then {x} else {}
  }

  function Visible(e: set<Slot>, depth: nat): set<Slot> {
    set x | x in e && x.d < depth
  }

  function Bound(binding: bool): nat {
    if binding then 1 else 0
  }

  /** Some execution of `s` drops exactly the variables `d` among those in scope before it. A
      caught effect may interrupt the body anywhere, so any part of its drops may have happened. */
  ghost predicate Path(s: Stmt, env: Env, loop: nat, d: set<Slot>)
    decreases s, 0, 0
  {
    match s
    case Skip => d == {}
    case Drop(x) => d == Effect(x, env, loop)
    case Then(a, b) => exists d1, d2 :: Path(a, env, loop, d1) && Path(b, env, loop, d2) && d == d1 + d2
    case If(t, e) => Path(t, env, loop, d) || Path(e, env, loop, d)
    case IfOnly(t) => Path(t, env, loop, d) || d == {}
    case Catch(b, h, binding) =>
      || Path(b, env, loop, d)
      || exists p, r :: Path(b, env, loop, p) && Inner(h, Bound(binding), env, loop, r) && r <= d <= p + r
    case Match(arms, scoped, total) =>
      || ((|arms| == 0 || !(scoped || total)) && d == {})
      || exists k :: 0 <= k < |arms| && ArmPath(arms[k], scoped, env, loop, d)
    case While(b) => exists n: nat :: Iterations(b, env, |env|, n, d)
    case For(b) => exists n: nat, e :: Iterations(b, env + [1], |env|, n, e) && d == Visible(e, |env|)
    case Block(items) => exists e :: PathItems(items, env + [0], loop, e) && d == Visible(e, |env|)
  }

  /** A statement in a scope of its own that starts with `n` variables. */
  ghost predicate Inner(s: Stmt, n: nat, env: Env, loop: nat, d: set<Slot>)
    decreases s, 1, 0
  {
    exists e :: Path(s, env + [n], loop, e) && d == Visible(e, |env|)
  }

  ghost predicate ArmPath(arm: Arm, scoped: bool, env: Env, loop: nat, d: set<Slot>)
    decreases arm, 1, 0
  {
    if scoped then Inner(arm.body, Bound(arm.binding), env, loop, d) else Path(arm.body, env, loop, d)
  }

  /** `n` rounds of a loop body. */
  ghost predicate Iterations(b: Stmt, env: Env, loop: nat, n: nat, d: set<Slot>)
    decreases b, 1, n
  {
    if n == 0 then d == {}
    else exists d1, d2 :: Path(b, env, loop, d1) && Iterations(b, env, loop, n - 1, d2) && d == d1 + d2
  }

  ghost predicate PathItems(items: Items, env: Env, loop: nat, d: set<Slot>)
    requires |env| > 0
    decreases items, 0, 0
  {
    match items
    case Done => d == {}
    case Do(s, rest) => exists d1, d2 :: Path(s, env, loop, d1) && PathItems(rest, env, loop, d2) && d == d1 + d2
    case Let(init, rest) =>
      exists d1, d2 :: Path(init, env, loop, d1) && PathItems(rest, Declared(env), loop, d2) && d == d1 + d2
  }

  /** One more variable in the innermost scope. */
  function Declared(env: Env): Env
    requires |env| > 0
  {
    env[|env| - 1 := env[|env| - 1] + 1]
  }

  /** The specification: every path drops `x`. */
  ghost predicate Must(s: Stmt, env: Env, loop: nat, x: Slot) {
    forall d :: Path(s, env, loop, d) ==> x in d
  }

  ghost predicate MustItems(items: Items, env: Env, loop: nat, x: Slot)
    requires |env| > 0
  {
    forall d :: PathItems(items, env, loop, d) ==> x in d
  }

  ghost predicate MustArm(arm: Arm, scoped: bool, env: Env, loop: nat, x: Slot) {
    forall d :: ArmPath(arm, scoped, env, loop, d) ==> x in d
  }

  ghost function Musts(s: Stmt, env: Env, loop: nat): iset<Slot> {
    iset x | Must(s, env, loop, x)
  }

  ghost function MustsItems(items: Items, env: Env, loop: nat): iset<Slot>
    requires |env| > 0
  {
    iset x | MustItems(items, env, loop, x)
  }

  ghost function MustsArm(arm: Arm, scoped: bool, env: Env, loop: nat): iset<Slot> {
    iset x | MustArm(arm, scoped, env, loop, x)
  }

  // ------------------------------------------------------- paths exist, and where they end

  lemma {:induction false} SomePath(s: Stmt, env: Env, loop: nat) returns (d: set<Slot>)
    ensures Path(s, env, loop, d)
    decreases s, 0
  {
    match s
    case Skip => d := {};
    case Drop(x) => d := Effect(x, env, loop);
    case Then(a, b) =>
      var d1 := SomePath(a, env, loop);
      var d2 := SomePath(b, env, loop);
      d := d1 + d2;
    case If(t, _) => d := SomePath(t, env, loop);
    case IfOnly(_) => d := {};
    case Catch(b, _, _) => d := SomePath(b, env, loop);
    case Match(arms, scoped, total) =>
      if |arms| == 0 { d := {}; } else { d := SomeArmPath(arms[0], scoped, env, loop); }
    case While(b) =>
      d := {};
      assert Iterations(b, env, |env|, 0, {});
    case For(b) =>
      d := Visible({}, |env|);
      assert Iterations(b, env + [1], |env|, 0, {});
    case Block(items) =>
      var e := SomeItemsPath(items, env + [0], loop);
      d := Visible(e, |env|);
  }

  lemma {:induction false} SomeArmPath(arm: Arm, scoped: bool, env: Env, loop: nat) returns (d: set<Slot>)
    ensures ArmPath(arm, scoped, env, loop, d)
    decreases arm, 1
  {
    if scoped {
      d := SomeInner(arm.body, Bound(arm.binding), env, loop);
    } else {
      d := SomePath(arm.body, env, loop);
    }
  }

  lemma {:induction false} SomeInner(s: Stmt, n: nat, env: Env, loop: nat) returns (d: set<Slot>)
    ensures Inner(s, n, env, loop, d)
    decreases s, 1
  {
    var e := SomePath(s, env + [n], loop);
    d := Visible(e, |env|);
  }

  lemma {:induction false} SomeItemsPath(items: Items, env: Env, loop: nat) returns (d: set<Slot>)
    requires |env| > 0
    ensures PathItems(items, env, loop, d)
    decreases items, 0
  {
    match items
    case Done => d := {};
    case Do(s, rest) =>
      var d1 := SomePath(s, env, loop);
      var d2 := SomeItemsPath(rest, env, loop);
      d := d1 + d2;
    case Let(init, rest) =>
      var d1 := SomePath(init, env, loop);
      var d2 := SomeItemsPath(rest, Declared(env), loop);
      d := d1 + d2;
  }

  /** A path drops only variables in scope before it, and none from outside the enclosing loop. */
  lemma {:induction false} LoopProtects(s: Stmt, env: Env, loop: nat, d: set<Slot>)
    requires Path(s, env, loop, d) && loop <= |env|
    ensures forall x :: x in d ==> !LoopOuter(x, loop) && InScope(x, env)
    decreases s, 0, 0
  {
    match s
    case Skip =>
    case Drop(_) =>
    case Then(a, b) =>
      var d1, d2 :| Path(a, env, loop, d1) && Path(b, env, loop, d2) && d == d1 + d2;
      LoopProtects(a, env, loop, d1);
      LoopProtects(b, env, loop, d2);
    case If(t, e) => if Path(t, env, loop, d) { LoopProtects(t, env, loop, d); } else { LoopProtects(e, env, loop, d); }
    case IfOnly(t) => if d != {} { LoopProtects(t, env, loop, d); }
    case Catch(b, h, binding) =>
      if Path(b, env, loop, d) {
        LoopProtects(b, env, loop, d);
      } else {
        var p, r :| Path(b, env, loop, p) && Inner(h, Bound(binding), env, loop, r) && r <= d <= p + r;
        LoopProtects(b, env, loop, p);
        InnerProtects(h, Bound(binding), env, loop, r);
      }
    case Match(arms, scoped, total) =>
      if k :| 0 <= k < |arms| && ArmPath(arms[k], scoped, env, loop, d) {
        if scoped {
          InnerProtects(arms[k].body, Bound(arms[k].binding), env, loop, d);
        } else {
          LoopProtects(arms[k].body, env, loop, d);
        }
      }
    case While(b) =>
      var n: nat :| Iterations(b, env, |env|, n, d);
      RoundsProtect(b, env, |env|, n, d);
    case For(b) =>
      var n: nat, e :| Iterations(b, env + [1], |env|, n, e) && d == Visible(e, |env|);
      RoundsProtect(b, env + [1], |env|, n, e);
    case Block(items) =>
      var e :| PathItems(items, env + [0], loop, e) && d == Visible(e, |env|);
      ItemsProtect(items, env + [0], loop, e);
  }

  lemma {:induction false} InnerProtects(s: Stmt, n: nat, env: Env, loop: nat, d: set<Slot>)
    requires Inner(s, n, env, loop, d) && loop <= |env|
    ensures forall x :: x in d ==> !LoopOuter(x, loop) && InScope(x, env)
    decreases s, 1, 0
  {
    var e :| Path(s, env + [n], loop, e) && d == Visible(e, |env|);
    LoopProtects(s, env + [n], loop, e);
  }

  lemma {:induction false} RoundsProtect(b: Stmt, env: Env, loop: nat, n: nat, d: set<Slot>)
    requires Iterations(b, env, loop, n, d) && loop <= |env|
    ensures forall x :: x in d ==> !LoopOuter(x, loop) && InScope(x, env)
    decreases b, 1, n
  {
    if n > 0 {
      var d1, d2 :| Path(b, env, loop, d1) && Iterations(b, env, loop, n - 1, d2) && d == d1 + d2;
      LoopProtects(b, env, loop, d1);
      RoundsProtect(b, env, loop, n - 1, d2);
    }
  }

  lemma {:induction false} ItemsProtect(items: Items, env: Env, loop: nat, d: set<Slot>)
    requires |env| > 0 && PathItems(items, env, loop, d) && loop <= |env|
    ensures forall x :: x in d ==> !LoopOuter(x, loop) && x.d < |env| && (x.d + 1 < |env| ==> InScope(x, env))
    decreases items, 0, 0
  {
    match items
    case Done =>
    case Do(s, rest) =>
      var d1, d2 :| Path(s, env, loop, d1) && PathItems(rest, env, loop, d2) && d == d1 + d2;
      LoopProtects(s, env, loop, d1);
      ItemsProtect(rest, env, loop, d2);
    case Let(init, rest) =>
      var d1, d2 :| Path(init, env, loop, d1) && PathItems(rest, Declared(env), loop, d2) && d == d1 + d2;
      LoopProtects(init, env, loop, d1);
      ItemsProtect(rest, Declared(env), loop, d2);
  }

  // ---------------------------------------------------- how "must" composes

  /** In sequence: one of the two parts drops it on every path. */
  lemma MustThen(a: Stmt, b: Stmt, env: Env, loop: nat, x: Slot)
    ensures Must(Then(a, b), env, loop, x) <==> Must(a, env, loop, x) || Must(b, env, loop, x)
  {
    if !Must(a, env, loop, x) && !Must(b, env, loop, x) {
      var d1 :| Path(a, env, loop, d1) && x !in d1;
      var d2 :| Path(b, env, loop, d2) && x !in d2;
      assert Path(Then(a, b), env, loop, d1 + d2);
    }
  }

  lemma MustIf(t: Stmt, e: Stmt, env: Env, loop: nat, x: Slot)
    ensures Must(If(t, e), env, loop, x) <==> Must(t, env, loop, x) && Must(e, env, loop, x)
  {
    forall d | Path(t, env, loop, d) || Path(e, env, loop, d) ensures Path(If(t, e), env, loop, d) {
    }
  }

  lemma MustIfOnly(t: Stmt, env: Env, loop: nat, x: Slot)
    ensures !Must(IfOnly(t), env, loop, x)
  {
    assert Path(IfOnly(t), env, loop, {});
  }

  ghost predicate MustInner(s: Stmt, n: nat, env: Env, loop: nat, x: Slot) {
    forall d :: Inner(s, n, env, loop, d) ==> x in d
  }

  lemma MustCatch(b: Stmt, h: Stmt, binding: bool, env: Env, loop: nat, x: Slot)
    ensures Must(Catch(b, h, binding), env, loop, x)
      <==> Must(b, env, loop, x) && MustInner(h, Bound(binding), env, loop, x)
  {
    var s := Catch(b, h, binding);
    assert forall d :: Path(b, env, loop, d) ==> Path(s, env, loop, d);
    var p := SomePath(b, env, loop);
    forall r | Inner(h, Bound(binding), env, loop, r) ensures Path(s, env, loop, r) {
      assert r <= r <= p + r;
    }
  }

  lemma MustMatch(arms: seq<Arm>, scoped: bool, total: bool, env: Env, loop: nat, x: Slot)
    ensures Must(Match(arms, scoped, total), env, loop, x)
      <==> (scoped || total) && |arms| > 0 && forall k :: 0 <= k < |arms| ==> MustArm(arms[k], scoped, env, loop, x)
  {
    var s := Match(arms, scoped, total);
    if |arms| == 0 || !(scoped || total) {
      assert Path(s, env, loop, {});
    }
    forall k, d | 0 <= k < |arms| && ArmPath(arms[k], scoped, env, loop, d) ensures Path(s, env, loop, d) {
    }
  }

  /** Leaving a scope does not matter for the variables outside it. */
  lemma MustInnerVisible(s: Stmt, n: nat, env: Env, loop: nat, x: Slot)
    requires x.d < |env|
    ensures MustInner(s, n, env, loop, x) <==> Must(s, env + [n], loop, x)
  {
    forall e | Path(s, env + [n], loop, e) ensures Inner(s, n, env, loop, Visible(e, |env|)) {
    }
  }

  lemma MustBlock(items: Items, env: Env, loop: nat, x: Slot)
    requires x.d < |env|
    ensures Must(Block(items), env, loop, x) <==> MustItems(items, env + [0], loop, x)
  {
    forall e | PathItems(items, env + [0], loop, e) ensures Path(Block(items), env, loop, Visible(e, |env|)) {
    }
  }

  lemma MustDo(s: Stmt, rest: Items, env: Env, loop: nat, x: Slot)
    requires |env| > 0
    ensures MustItems(Do(s, rest), env, loop, x) <==> Must(s, env, loop, x) || MustItems(rest, env, loop, x)
  {
    if !Must(s, env, loop, x) && !MustItems(rest, env, loop, x) {
      var d1 :| Path(s, env, loop, d1) && x !in d1;
      var d2 :| PathItems(rest, env, loop, d2) && x !in d2;
      assert PathItems(Do(s, rest), env, loop, d1 + d2);
    }
  }

  lemma MustLet(init: Stmt, rest: Items, env: Env, loop: nat, x: Slot)
    requires |env| > 0
    ensures MustItems(Let(init, rest), env, loop, x)
      <==> Must(init, env, loop, x) || MustItems(rest, Declared(env), loop, x)
  {
    if !Must(init, env, loop, x) && !MustItems(rest, Declared(env), loop, x) {
      var d1 :| Path(init, env, loop, d1) && x !in d1;
      var d2 :| PathItems(rest, Declared(env), loop, d2) && x !in d2;
      assert PathItems(Let(init, rest), env, loop, d1 + d2);
    }
  }

  /** No loop drops a variable from outside it on every path: it may run zero times. */
  lemma MustLoop(b: Stmt, env: Env, loop: nat, x: Slot)
    ensures !Must(While(b), env, loop, x) && !Must(For(b), env, loop, x)
  {
    assert Iterations(b, env, |env|, 0, {});
    assert Path(While(b), env, loop, {});
    assert Iterations(b, env + [1], |env|, 0, {});
    assert Path(For(b), env, loop, Visible({}, |env|));
  }

  /** What every path drops was in scope. */
  lemma MustInScope(s: Stmt, env: Env, loop: nat, x: Slot)
    requires loop <= |env| && Must(s, env, loop, x)
    ensures InScope(x, env)
  {
    var d := SomePath(s, env, loop);
    LoopProtects(s, env, loop, d);
  }

  /** Inside a loop no path drops an outer variable, so "must" never holds for one. */
  lemma NeverOuter(s: Stmt, env: Env, loop: nat, x: Slot)
    requires loop <= |env| && LoopOuter(x, loop)
    ensures !Must(s, env, loop, x)
  {
    var d := SomePath(s, env, loop);
    LoopProtects(s, env, loop, d);
    assert Path(s, env, loop, d) && x !in d;
  }

  // ---------------------------------------------------------------- drops as written

  /** How many drops are written in a statement. */
  function Drops(s: Stmt): nat {
    match s
    case Skip => 0
    case Drop(_) => 1
    case Then(a, b) => Drops(a) + Drops(b)
    case If(t, e) => Drops(t) + Drops(e)
    case IfOnly(t) => Drops(t)
    case Catch(b, h, _) => Drops(b) + Drops(h)
    case Match(arms, _, _) => ArmDrops(arms)
    case While(b) => Drops(b)
    case For(b) => Drops(b)
    case Block(items) => ItemDrops(items)
  }

  function ArmDrop(arm: Arm): nat {
    Drops(arm.body)
  }

  function ArmDrops(arms: seq<Arm>): nat {
    if arms == [] then 0 else ArmDrops(arms[..|arms| - 1]) + ArmDrop(arms[|arms| - 1])
  }

  function ItemDrops(items: Items): nat {
    match items
    case Done => 0
    case Let(init, rest) => Drops(init) + ItemDrops(rest)
    case Do(s, rest) => Drops(s) + ItemDrops(rest)
  }

  lemma {:induction false} ArmDropsUpTo(arms: seq<Arm>, i: nat)
    requires i < |arms|
    ensures ArmDrops(arms[..i]) + ArmDrop(arms[i]) == ArmDrops(arms[..i + 1]) <= ArmDrops(arms)
    decreases |arms| - i
  {
    assert arms[..i + 1][..i] == arms[..i];
    if i + 1 < |arms| {
      ArmDropsUpTo(arms, i + 1);
    } else {
      assert arms[..i + 1] == arms;
    }
  }
}
