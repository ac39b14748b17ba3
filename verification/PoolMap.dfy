/** `pool_map`: a caller, some workers and two channels. Every interleaving ends with the map of
  the function over the input; no send ever blocks and no reachable state is stuck. */
module PoolMap {
  import opened Channel

  /** A worker waits for a job, computes, and sends the answer. `Sleep` is parked and not
      signalled, `Called` is parked and signalled. */
  datatype Worker =
    | Asking | JobSleep | JobCalled
    | Working(idx: nat)
    | Answering(idx: nat, r: int) | AnswerSleep(idx: nat, r: int) | AnswerCalled(idx: nat, r: int)
    | Exited

  datatype Main =
    | Feeding(i: nat) | FeedSleep(i: nat) | FeedCalled(i: nat)
    | Closing
    | Collecting(i: nat) | ResSleep(i: nat) | ResCalled(i: nat)
    | Joining(w: nat)
    | Finished

  /** `stored` lists the indices written to `out` so far; it only serves the proof. */
  datatype Pool = Pool(
    fn: int -> int, input: seq<int>,
    jobs: seq<nat>, closed: bool, results: seq<(nat, int)>,
    workers: seq<Worker>, main: Main, out: seq<int>, stored: seq<nat>)

  // -------------------------------------------------------------------- steps

  ghost predicate SignalJob(a: seq<Worker>, b: seq<Worker>) {
    if exists w :: 0 <= w < |a| && a[w] == JobSleep
    then exists w :: 0 <= w < |a| && a[w] == JobSleep && b == a[w := JobCalled]
    else b == a
  }

  ghost predicate SignalAnswer(a: seq<Worker>, b: seq<Worker>) {
    if exists w :: 0 <= w < |a| && a[w].AnswerSleep?
    then exists w :: 0 <= w < |a| && a[w].AnswerSleep? && b == a[w := AnswerCalled(a[w].idx, a[w].r)]
    else b == a
  }

  function Woken(ws: seq<Worker>): (u: seq<Worker>)
    ensures |u| == |ws| && forall w :: 0 <= w < |ws| ==> u[w] == if ws[w] == JobSleep then JobCalled else ws[w]
  {
    seq(|ws|, w requires 0 <= w < |ws| => if ws[w] == JobSleep then JobCalled else ws[w])
  }

  /** The caller between two waits. */
  ghost predicate MainStep(s: Pool, u: Pool) {
    match s.main
    case Feeding(i) => MainSend(s, i, u)
    case FeedCalled(i) => MainSend(s, i, u)
    case FeedSleep(_) => false
    case Closing => u == s.(closed := true, workers := Woken(s.workers), main := Collecting(0))
    case Collecting(i) => if i < |s.input| then MainCollect(s, i, u) else u == s.(main := Joining(0))
    case ResCalled(i) => MainCollect(s, i, u)
    case ResSleep(_) => false
    case Joining(w) =>
      if w < |s.workers| then s.workers[w] == Exited && u == s.(main := Joining(w + 1)) else u == s.(main := Finished)
    case Finished => false
  }

  ghost predicate MainSend(s: Pool, i: nat, u: Pool) {
    if i >= |s.input| then u == s.(main := Closing)
    else match SendResult(s.jobs, |s.input|, s.closed)
    case SendBlocked => u == s.(main := FeedSleep(i))
    case SendRefused => u == s.(main := Feeding(i + 1))
    case Accepted =>
      SignalJob(s.workers, u.workers) && u == s.(jobs := s.jobs + [i], main := Feeding(i + 1), workers := u.workers)
  }

  ghost predicate MainCollect(s: Pool, i: nat, u: Pool) {
    match RecvResult(s.results, false)
    case RecvBlocked => u == s.(main := ResSleep(i))
    case RecvClosed => false
    case Got(p) =>
      && SignalAnswer(s.workers, u.workers)
      && u == s.(results := s.results[1..], workers := u.workers, main := Collecting(i + 1), stored := s.stored + [p.0],
                 out := if p.0 < |s.out| then s.out[p.0 := p.1] else s.out)
  }

  function SenderCalled(m: Main): Main {
    if m.FeedSleep? then FeedCalled(m.i) else m
  }

  function CollectorCalled(m: Main): Main {
    if m.ResSleep? then ResCalled(m.i) else m
  }

  /** Worker `w` between two waits. */
  ghost predicate WorkerStep(s: Pool, w: nat, u: Pool) {
    w < |s.workers| &&
    match s.workers[w]
    case Asking => WorkerAsk(s, w, u)
    case JobCalled => WorkerAsk(s, w, u)
    case Working(idx) => idx < |s.input| && u == s.(workers := s.workers[w := Answering(idx, s.fn(s.input[idx]))])
    case Answering(idx, r) => WorkerAnswer(s, w, idx, r, u)
    case AnswerCalled(idx, r) => WorkerAnswer(s, w, idx, r, u)
    case _ => false
  }

  ghost predicate WorkerAsk(s: Pool, w: nat, u: Pool)
    requires w < |s.workers|
  {
    match RecvResult(s.jobs, s.closed)
    case RecvBlocked => u == s.(workers := s.workers[w := JobSleep])
    case RecvClosed => u == s.(workers := s.workers[w := Exited])
    case Got(idx) => u == s.(jobs := s.jobs[1..], workers := s.workers[w := Working(idx)], main := SenderCalled(s.main))
  }

  ghost predicate WorkerAnswer(s: Pool, w: nat, idx: nat, r: int, u: Pool)
    requires w < |s.workers|
  {
    match SendResult(s.results, |s.input|, false)
    case SendBlocked => u == s.(workers := s.workers[w := AnswerSleep(idx, r)])
    case SendRefused => false
    case Accepted =>
      u == s.(results := s.results + [(idx, r)], workers := s.workers[w := Asking], main := CollectorCalled(s.main))
  }

  /** A wake-up for no reason. */
  ghost predicate Spurious(s: Pool, u: Pool) {
    || (s.main.ResSleep? && u == s.(main := Collecting(s.main.i)))
    || (s.main.FeedSleep? && u == s.(main := Feeding(s.main.i)))
    || exists w :: 0 <= w < |s.workers| && (
        || (s.workers[w] == JobSleep && u == s.(workers := s.workers[w := Asking]))
        || (s.workers[w].AnswerSleep? &&
            u == s.(workers := s.workers[w := Answering(s.workers[w].idx, s.workers[w].r)])))
  }

  ghost predicate Progress(s: Pool, u: Pool) {
    MainStep(s, u) || exists w: nat :: WorkerStep(s, w, u)
  }

  ghost predicate Next(s: Pool, u: Pool) {
    Progress(s, u) || Spurious(s, u)
  }

  ghost predicate Init(s: Pool) {
    && |s.input| > 0 && |s.workers| > 0
    && s.jobs == [] && !s.closed && s.results == [] && s.stored == []
    && s.main == Feeding(0) && |s.out| == |s.input|
    && forall w :: 0 <= w < |s.workers| ==> s.workers[w] == Asking
  }

  // ------------------------------------------------------- sums over workers

  ghost function Sum(ws: seq<Worker>, f: Worker -> nat): nat {
    if |ws| == 0 then 0 else Sum(ws[..|ws| - 1], f) + f(ws[|ws| - 1])
  }

  lemma {:induction false} SumMove(ws: seq<Worker>, w: nat, x: Worker, f: Worker -> nat)
    requires w < |ws|
    ensures Sum(ws[w := x], f) == Sum(ws, f) - f(ws[w]) + f(x)
  {
    var n := |ws| - 1;
    if w == n {
      assert ws[w := x][..n] == ws[..n];
    } else {
      SumMove(ws[..n], w, x, f);
      assert ws[w := x][..n] == ws[..n][w := x];
    }
  }

  lemma {:induction false} SumAtLeast(ws: seq<Worker>, w: nat, f: Worker -> nat)
    requires w < |ws|
    ensures Sum(ws, f) >= f(ws[w])
  {
    var n := |ws| - 1;
    if w < n { SumAtLeast(ws[..n], w, f); }
  }

  lemma {:induction false} SumBelow(ws: seq<Worker>, vs: seq<Worker>, f: Worker -> nat, g: Worker -> nat, d: nat)
    requires |ws| == |vs| && forall w :: 0 <= w < |ws| ==> f(ws[w]) <= g(vs[w]) + d
    ensures Sum(ws, f) <= Sum(vs, g) + d * |ws|
  {
    if |ws| > 0 {
      var n := |ws| - 1;
      SumBelow(ws[..n], vs[..n], f, g, d);
      assert d * |ws| == d * n + d;
    }
  }

  lemma {:induction false} SumFinds(ws: seq<Worker>, f: Worker -> nat) returns (w: nat)
    requires Sum(ws, f) > 0
    ensures w < |ws| && f(ws[w]) > 0
  {
    var n := |ws| - 1;
    if f(ws[n]) > 0 { w := n; } else { w := SumFinds(ws[..n], f); }
  }

  /** Workers that hold some index, or index `i`. */
  function HoldsAny(): Worker -> nat {
    (w: Worker) => if w.Working? || w.Answering? then 1 else 0
  }

  function Holds(i: nat): Worker -> nat {
    (w: Worker) => if (w.Working? || w.Answering?) && w.idx == i then 1 else 0
  }

  function Asleep(): Worker -> nat {
    (w: Worker) => if w == JobSleep then 1 else 0
  }

  function Called(): Worker -> nat {
    (w: Worker) => if w == JobCalled then 1 else 0
  }

  // ---------------------------------------------------------------- invariant

  function Sent(s: Pool): nat {
    match s.main
    case Feeding(i) => i
    case FeedSleep(i) => i
    case FeedCalled(i) => i
    case _ => |s.input|
  }

  ghost function Indices(rs: seq<(nat, int)>): (q: seq<nat>)
    ensures |q| == |rs| && forall k :: 0 <= k < |rs| ==> q[k] == rs[k].0
  {
    seq(|rs|, k requires 0 <= k < |rs| => rs[k].0)
  }

  /** How often index `i` occurs: waiting, held by a worker, answered, or stored. */
  ghost function Places(s: Pool, i: nat): nat {
    multiset(s.jobs)[i] + Sum(s.workers, Holds(i)) + multiset(Indices(s.results))[i] + multiset(s.stored)[i]
  }

  /** The indices sent so far are partitioned: each is in exactly one place. */
  ghost predicate Partition(s: Pool) {
    && |s.jobs| + Sum(s.workers, HoldsAny()) + |s.results| + |s.stored| == Sent(s) <= |s.input|
    && forall i: nat :: Places(s, i) == if i < Sent(s) then 1 else 0
  }

  /** Every answer under way or stored is the right one. */
  ghost predicate Values(s: Pool) {
    && |s.out| == |s.input|
    && (forall w :: 0 <= w < |s.workers| && s.workers[w].Answering? ==> Right(s, s.workers[w].idx, s.workers[w].r))
    && (forall k :: 0 <= k < |s.results| ==> Right(s, s.results[k].0, s.results[k].1))
    && (forall k :: 0 <= k < |s.stored| ==> s.stored[k] < |s.input| && Right(s, s.stored[k], s.out[s.stored[k]]))
  }

  ghost predicate Right(s: Pool, idx: nat, r: int) {
    idx < |s.input| && r == s.fn(s.input[idx])
  }

  /** Where the caller stands, and that no send has ever parked. */
  ghost predicate Control(s: Pool) {
    && |s.input| > 0 && |s.workers| > 0
    && (forall w :: 0 <= w < |s.workers| ==> !s.workers[w].AnswerSleep? && !s.workers[w].AnswerCalled?)
    && (forall w :: 0 <= w < |s.workers| && s.workers[w] == Exited ==> s.closed && s.jobs == [])
    && (s.closed <==> !s.main.Feeding? && !s.main.Closing?)
    && match s.main
       case Feeding(i) => i <= |s.input| && s.stored == []
       case FeedSleep(_) => false
       case FeedCalled(_) => false
       case Closing => s.stored == []
       case Collecting(i) => |s.stored| == i <= |s.input|
       case ResSleep(i) => |s.stored| == i < |s.input| && s.results == []
       case ResCalled(i) => |s.stored| == i < |s.input|
       case Joining(w) =>
         |s.stored| == |s.input| && w <= |s.workers| && forall v :: 0 <= v < w ==> s.workers[v] == Exited
       case Finished => |s.stored| == |s.input| && forall v :: 0 <= v < |s.workers| ==> s.workers[v] == Exited
  }

  /** No job waits while all workers sleep unsignalled. */
  ghost predicate Awake(s: Pool) {
    Sum(s.workers, Asleep()) > 0 ==> !s.closed && |s.jobs| <= Sum(s.workers, Called())
  }

  ghost predicate Inv(s: Pool) {
    Control(s) && Partition(s) && Values(s) && Awake(s)
  }

  lemma {:induction false} SumZero(ws: seq<Worker>, f: Worker -> nat)
    requires forall w :: 0 <= w < |ws| ==> f(ws[w]) == 0
    ensures Sum(ws, f) == 0
  {
    if |ws| > 0 { SumZero(ws[..|ws| - 1], f); }
  }

  lemma InitInv(s: Pool)
    requires Init(s)
    ensures Inv(s)
  {
    SumZero(s.workers, HoldsAny());
    SumZero(s.workers, Asleep());
    forall i: nat ensures Places(s, i) == 0 {
      SumZero(s.workers, Holds(i));
    }
  }

  /** Sums seen by the invariant when one worker moves. */
  lemma Moves(ws: seq<Worker>, w: nat, x: Worker)
    requires w < |ws|
    ensures Sum(ws[w := x], HoldsAny()) == Sum(ws, HoldsAny()) - HoldsAny()(ws[w]) + HoldsAny()(x)
    ensures Sum(ws[w := x], Asleep()) == Sum(ws, Asleep()) - Asleep()(ws[w]) + Asleep()(x)
    ensures Sum(ws[w := x], Called()) == Sum(ws, Called()) - Called()(ws[w]) + Called()(x)
    ensures forall i: nat :: Sum(ws[w := x], Holds(i)) == Sum(ws, Holds(i)) - Holds(i)(ws[w]) + Holds(i)(x)
  {
    SumMove(ws, w, x, HoldsAny());
    SumMove(ws, w, x, Asleep());
    SumMove(ws, w, x, Called());
    forall i: nat ensures Sum(ws[w := x], Holds(i)) == Sum(ws, Holds(i)) - Holds(i)(ws[w]) + Holds(i)(x) {
      SumMove(ws, w, x, Holds(i));
    }
  }

  // ------------------------------------------------------------- preservation

  /** An index that is somewhere was sent, so it is in range. */
  lemma InRange(s: Pool, i: nat)
    requires Partition(s) && Places(s, i) > 0
    ensures i < Sent(s) <= |s.input|
  {
  }

  lemma SendKeeps(s: Pool, i: nat, u: Pool)
    requires Inv(s) && s.main == Feeding(i) && i < |s.input| && MainSend(s, i, u)
    ensures SendResult(s.jobs, |s.input|, s.closed) == Accepted && Inv(u)
  {
    assert SignalJob(s.workers, u.workers);
    forall k: nat ensures Places(u, k) == Places(s, k) + (if k == i then 1 else 0) {
      SignalJobMoves(s.workers, u.workers);
    }
    SignalJobMoves(s.workers, u.workers);
  }

  /** A signal changes no holder, and one sleeper into a called worker unless nobody sleeps. */
  lemma SignalJobMoves(a: seq<Worker>, b: seq<Worker>)
    requires SignalJob(a, b)
    ensures |b| == |a| && Sum(b, HoldsAny()) == Sum(a, HoldsAny())
    ensures forall i: nat :: Sum(b, Holds(i)) == Sum(a, Holds(i))
    ensures forall w :: 0 <= w < |a| ==> b[w] == a[w] || (a[w] == JobSleep && b[w] == JobCalled)
    ensures var n := if Sum(a, Asleep()) > 0 then 1 else 0;
      Sum(b, Asleep()) == Sum(a, Asleep()) - n && Sum(b, Called()) == Sum(a, Called()) + n
  {
    if exists w :: 0 <= w < |a| && a[w] == JobSleep {
      var w :| 0 <= w < |a| && a[w] == JobSleep && b == a[w := JobCalled];
      SumAtLeast(a, w, Asleep());
      Moves(a, w, JobCalled);
    } else {
      forall w | 0 <= w < |a| ensures Asleep()(a[w]) == 0 {
        assert a[w] != JobSleep;
      }
      SumZero(a, Asleep());
    }
  }

  lemma {:induction false} SumSame(a: seq<Worker>, b: seq<Worker>, f: Worker -> nat)
    requires |a| == |b| && forall w :: 0 <= w < |a| ==> f(a[w]) == f(b[w])
    ensures Sum(a, f) == Sum(b, f)
  {
    if |a| > 0 { SumSame(a[..|a| - 1], b[..|a| - 1], f); }
  }

  lemma CloseKeeps(s: Pool, u: Pool)
    requires Inv(s) && s.main == Closing && MainStep(s, u)
    ensures Inv(u)
  {
    SumSame(s.workers, u.workers, HoldsAny());
    forall i: nat ensures Places(u, i) == Places(s, i) {
      SumSame(s.workers, u.workers, Holds(i));
    }
    SumZero(u.workers, Asleep());
  }

  /** Only the caller's program counter changed. */
  lemma CallerMoved(s: Pool, u: Pool)
    requires Partition(s) && Values(s) && Awake(s) && u == s.(main := u.main) && Sent(u) == Sent(s)
    ensures Partition(u) && Values(u) && Awake(u)
  {
    assert forall k: nat :: Places(u, k) == Places(s, k);
  }

  /** Only a worker that holds no index moved. */
  lemma WorkerMoved(s: Pool, w: nat, x: Worker, u: Pool)
    requires Partition(s) && Values(s) && w < |s.workers| && u == s.(workers := s.workers[w := x])
    requires HoldsAny()(x) == 0 && HoldsAny()(s.workers[w]) == 0
    ensures Partition(u) && Values(u)
  {
    Moves(s.workers, w, x);
    assert forall k: nat :: Places(u, k) == Places(s, k);
  }

  lemma CollectKeeps(s: Pool, i: nat, u: Pool)
    requires Inv(s) && (s.main == Collecting(i) || s.main == ResCalled(i)) && i < |s.input| && MainCollect(s, i, u)
    ensures Inv(u)
  {
    if |s.results| > 0 {
      ResultTaken(s, i, u);
    } else {
      CallerMoved(s, u);
    }
  }

  lemma ResultTaken(s: Pool, i: nat, u: Pool)
    requires Inv(s) && (s.main == Collecting(i) || s.main == ResCalled(i)) && i < |s.input| && |s.results| > 0
    requires MainCollect(s, i, u)
    ensures Inv(u)
  {
    assert u.workers == s.workers;
    ResultMoved(s, s.results[0], u);
    hide Partition, Values;
  }

  lemma ResultMoved(s: Pool, p: (nat, int), u: Pool)
    requires Partition(s) && Values(s) && |s.results| > 0 && p == s.results[0] && Sent(u) == Sent(s)
    requires u == s.(results := s.results[1..], main := u.main, stored := s.stored + [p.0],
                     out := if p.0 < |s.out| then s.out[p.0 := p.1] else s.out)
    ensures Partition(u) && Values(u)
  {
    hide Partition, Values;
    ResultPlaced(s, p, u);
    ResultRight(s, p, u);
  }

  lemma ResultPlaced(s: Pool, p: (nat, int), u: Pool)
    requires Partition(s) && Values(s) && |s.results| > 0 && p == s.results[0] && Sent(u) == Sent(s)
    requires u == s.(results := s.results[1..], main := u.main, stored := s.stored + [p.0],
                     out := if p.0 < |s.out| then s.out[p.0 := p.1] else s.out)
    ensures Partition(u)
  {
    hide Sum, Values;
    var q := Indices(s.results);
    assert q == [p.0] + Indices(u.results);
    assert forall k: nat :: Places(u, k) == Places(s, k);
  }

  lemma ResultRight(s: Pool, p: (nat, int), u: Pool)
    requires Partition(s) && Values(s) && |s.results| > 0 && p == s.results[0] && Sent(u) == Sent(s)
    requires u == s.(results := s.results[1..], main := u.main, stored := s.stored + [p.0],
                     out := if p.0 < |s.out| then s.out[p.0 := p.1] else s.out)
    ensures Values(u)
  {
    hide Partition, Right;
    assert Right(s, p.0, p.1);
    RightIndex(s, p.0, p.1);
    forall k | 0 <= k < |u.stored| ensures u.stored[k] < |s.input| && Right(s, u.stored[k], u.out[u.stored[k]]) {
      if k < |s.stored| {
        assert Right(s, s.stored[k], s.out[s.stored[k]]);
      }
    }
    assert forall idx, r :: Right(s, idx, r) ==> Right(u, idx, r) by {
      SameTask(s, u);
    }
  }

  lemma RightIndex(s: Pool, idx: nat, r: int)
    requires Right(s, idx, r)
    ensures idx < |s.input|
  {
  }

  lemma SameTask(s: Pool, u: Pool)
    requires u.input == s.input && u.fn == s.fn
    ensures forall idx, r :: Right(u, idx, r) <==> Right(s, idx, r)
  {
  }

  lemma AskKeeps(s: Pool, w: nat, u: Pool)
    requires Inv(s) && w < |s.workers| && (s.workers[w] == Asking || s.workers[w] == JobCalled) && WorkerAsk(s, w, u)
    ensures Inv(u)
  {
    if |s.jobs| > 0 {
      JobTaken(s, w, u);
    } else {
      hide Sum, Places, Values;
      WorkerMoved(s, w, u.workers[w], u);
      Moves(s.workers, w, u.workers[w]);
    }
  }

  lemma JobTaken(s: Pool, w: nat, u: Pool)
    requires Inv(s) && w < |s.workers| && (s.workers[w] == Asking || s.workers[w] == JobCalled) && |s.jobs| > 0
    requires u == s.(jobs := s.jobs[1..], workers := s.workers[w := Working(s.jobs[0])])
    ensures Inv(u)
  {
    hide Sum;
    var idx := s.jobs[0];
    Moves(s.workers, w, Working(idx));
    assert s.jobs == [idx] + u.jobs;
    assert forall k: nat :: Places(u, k) == Places(s, k);
  }

  lemma ComputeKeeps(s: Pool, w: nat, u: Pool)
    requires Inv(s) && WorkerStep(s, w, u) && s.workers[w].Working?
    ensures Inv(u)
  {
    Moves(s.workers, w, u.workers[w]);
    assert forall k: nat :: Places(u, k) == Places(s, k);
  }

  lemma AnswerKeeps(s: Pool, w: nat, u: Pool)
    requires Inv(s) && WorkerStep(s, w, u) && s.workers[w].Answering?
    ensures SendResult(s.results, |s.input|, false) == Accepted && Inv(u)
  {
    hide Sum;
    var idx := s.workers[w].idx;
    SumAtLeast(s.workers, w, HoldsAny());
    Moves(s.workers, w, Asking);
    assert Indices(u.results) == Indices(s.results) + [idx];
    assert forall k: nat :: Places(u, k) == Places(s, k);
  }

  lemma SpuriousKeeps(s: Pool, u: Pool)
    requires Inv(s) && Spurious(s, u)
    ensures Inv(u)
  {
    hide Sum, Partition, Values;
    if s.main.ResSleep? && u == s.(main := Collecting(s.main.i)) {
      CallerMoved(s, u);
    } else {
      var w :| 0 <= w < |s.workers| && s.workers[w] == JobSleep && u == s.(workers := s.workers[w := Asking]);
      WorkerMoved(s, w, Asking, u);
      Moves(s.workers, w, Asking);
    }
  }

  /** Every step of the caller and of every worker keeps the invariant. */
  lemma NextKeeps(s: Pool, u: Pool)
    requires Inv(s) && Next(s, u)
    ensures Inv(u)
  {
    if MainStep(s, u) {
      MainKeeps(s, u);
    } else if w: nat :| WorkerStep(s, w, u) {
      WorkerKeeps(s, w, u);
    } else {
      SpuriousKeeps(s, u);
    }
  }

  lemma MainKeeps(s: Pool, u: Pool)
    requires Inv(s) && MainStep(s, u)
    ensures Inv(u)
  {
    hide Partition, Values, Awake, SignalJob, SignalAnswer;
    match s.main
    case Feeding(i) => if i < |s.input| { SendKeeps(s, i, u); } else { CallerMoved(s, u); }
    case Closing => CloseKeeps(s, u);
    case Collecting(i) => if i < |s.input| { CollectKeeps(s, i, u); } else { CallerMoved(s, u); }
    case ResCalled(i) => CollectKeeps(s, i, u);
    case Joining(_) => CallerMoved(s, u);
  }

  lemma WorkerKeeps(s: Pool, w: nat, u: Pool)
    requires Inv(s) && WorkerStep(s, w, u)
    ensures Inv(u)
  {
    hide Partition, Values, Awake;
    match s.workers[w]
    case Asking => AskKeeps(s, w, u);
    case JobCalled => AskKeeps(s, w, u);
    case Working(_) => ComputeKeeps(s, w, u);
    case Answering(_, _) => AnswerKeeps(s, w, u);
  }

  // --------------------------------------------------------------- whole runs

  ghost predicate Run(run: seq<Pool>) {
    && |run| > 0 && Init(run[0])
    && forall i :: 0 <= i < |run| - 1 ==> Next(run[i], run[i + 1])
  }

  lemma {:induction false} RunKeeps(run: seq<Pool>, n: nat)
    requires Run(run) && n < |run|
    ensures Inv(run[n]) && run[n].fn == run[0].fn && run[n].input == run[0].input
  {
    hide Inv, Init, Next;
    if n == 0 {
      InitInv(run[0]);
    } else {
      RunKeeps(run, n - 1);
      assert Next(run[n - 1], run[n - 1 + 1]);
      NextKeeps(run[n - 1], run[n]);
      TaskStays(run[n - 1], run[n]);
    }
  }

  lemma TaskStays(s: Pool, u: Pool)
    requires Next(s, u)
    ensures u.fn == s.fn && u.input == s.input
  {
    hide SignalJob, SignalAnswer;
  }

  /** `pool_map` is map: when the caller returns, every element was computed and stored. */
  lemma ResultIsMap(run: seq<Pool>, n: nat)
    requires Run(run) && n < |run| && run[n].main == Finished
    ensures |run[n].out| == |run[0].input|
    ensures forall i :: 0 <= i < |run[0].input| ==> run[n].out[i] == run[0].fn(run[0].input[i])
  {
    RunKeeps(run, n);
    var s := run[n];
    forall i: nat | i < |s.input| ensures s.out[i] == s.fn(s.input[i]) {
      AllStored(s, i);
      var k :| 0 <= k < |s.stored| && s.stored[k] == i;
      assert Right(s, s.stored[k], s.out[s.stored[k]]);
    }
  }

  lemma AllStored(s: Pool, i: nat)
    requires Partition(s) && |s.stored| == |s.input| && i < |s.input| == Sent(s)
    ensures i in s.stored
  {
    assert s.jobs == [] && s.results == [];
    SumBelow(s.workers, s.workers, Holds(i), HoldsAny(), 0);
    assert Places(s, i) == multiset(s.stored)[i];
  }

  /** No send ever parks, in any reachable state: both channels have room for all indices. */
  lemma SendsNeverBlock(s: Pool)
    requires Inv(s)
    ensures s.main.Feeding? && s.main.i < |s.input| ==> SendResult(s.jobs, |s.input|, s.closed) == Accepted
    ensures forall w :: 0 <= w < |s.workers| && s.workers[w].Answering? ==>
      SendResult(s.results, |s.input|, false) == Accepted
    ensures !s.main.FeedSleep? && forall w :: 0 <= w < |s.workers| ==> !s.workers[w].AnswerSleep?
  {
    forall w | 0 <= w < |s.workers| && s.workers[w].Answering? ensures |s.results| < |s.input| {
      SumAtLeast(s.workers, w, HoldsAny());
    }
  }

  // ------------------------------------------------------------------ progress

  lemma AWorkerCanMove(s: Pool, w: nat) returns (u: Pool)
    requires Inv(s) && w < |s.workers| && s.workers[w] != JobSleep && s.workers[w] != Exited
    ensures WorkerStep(s, w, u)
  {
    var x := s.workers[w];
    if x.Working? {
      Held(s, w);
      u := s.(workers := s.workers[w := Answering(x.idx, s.fn(s.input[x.idx]))]);
    } else if x.Answering? {
      SendsNeverBlock(s);
      u := s.(results := s.results + [(x.idx, x.r)], workers := s.workers[w := Asking],
              main := CollectorCalled(s.main));
    } else if |s.jobs| > 0 {
      u := s.(jobs := s.jobs[1..], workers := s.workers[w := Working(s.jobs[0])], main := SenderCalled(s.main));
    } else {
      u := s.(workers := s.workers[w := if s.closed then Exited else JobSleep]);
    }
  }

  lemma Held(s: Pool, w: nat)
    requires Partition(s) && w < |s.workers| && s.workers[w].Working?
    ensures s.workers[w].idx < |s.input|
  {
    var i := s.workers[w].idx;
    SumAtLeast(s.workers, w, Holds(i));
    InRange(s, i);
  }

  /** After close nobody sleeps, so a worker that has not exited can move. */
  lemma ClosedMeansAwake(s: Pool, w: nat)
    requires Inv(s) && s.closed && w < |s.workers|
    ensures s.workers[w] != JobSleep
  {
    if s.workers[w] == JobSleep { SumAtLeast(s.workers, w, Asleep()); }
  }

  /** No reachable state is stuck, even if nobody ever wakes up for no reason. */
  lemma NotStuck(s: Pool) returns (u: Pool)
    requires Inv(s) && s.main != Finished
    ensures Progress(s, u)
  {
    match s.main
    case Feeding(i) =>
      if i < |s.input| {
        SendsNeverBlock(s);
        var ws := AfterSignalJob(s.workers);
        u := s.(jobs := s.jobs + [i], main := Feeding(i + 1), workers := ws);
      } else {
        u := s.(main := Closing);
      }
      assert MainStep(s, u);
    case Closing =>
      u := s.(closed := true, workers := Woken(s.workers), main := Collecting(0));
      assert MainStep(s, u);
    case Collecting(i) =>
      u := if i < |s.input| then Collected(s, i) else s.(main := Joining(0));
      assert MainStep(s, u);
    case ResCalled(i) =>
      u := Collected(s, i);
      assert MainStep(s, u);
    case ResSleep(i) =>
      var w := SomeoneWorks(s);
      u := AWorkerCanMove(s, w);
    case Joining(w) =>
      if w < |s.workers| && s.workers[w] != Exited {
        ClosedMeansAwake(s, w);
        u := AWorkerCanMove(s, w);
      } else {
        u := if w < |s.workers| then s.(main := Joining(w + 1)) else s.(main := Finished);
        assert MainStep(s, u);
      }
  }

  lemma AfterSignalJob(a: seq<Worker>) returns (b: seq<Worker>)
    ensures SignalJob(a, b)
  {
    b := a;
    if w :| 0 <= w < |a| && a[w] == JobSleep {
      b := a[w := JobCalled];
    }
  }

  /** The caller's next state when it looks at the results. */
  ghost function Collected(s: Pool, i: nat): (u: Pool)
    requires Control(s)
    ensures MainCollect(s, i, u)
  {
    if |s.results| == 0 then s.(main := ResSleep(i))
    else
      var p := s.results[0];
      s.(results := s.results[1..], main := Collecting(i + 1), stored := s.stored + [p.0],
         out := if p.0 < |s.out| then s.out[p.0 := p.1] else s.out)
  }

  /** While the caller sleeps for a result, some worker holds an index or can take one. */
  lemma SomeoneWorks(s: Pool) returns (w: nat)
    requires Inv(s) && s.main.ResSleep?
    ensures w < |s.workers| && s.workers[w] != JobSleep && s.workers[w] != Exited
  {
    if Sum(s.workers, HoldsAny()) > 0 {
      w := SumFinds(s.workers, HoldsAny());
    } else {
      w := 0;
      assert |s.jobs| > 0;
      ClosedMeansAwake(s, 0);
    }
  }

  // ------------------------------------------------------------------ termination

  function Weight(): Worker -> nat {
    (w: Worker) =>
      match w
      case Exited => 0
      case JobSleep => 1
      case Asking => 2
      case JobCalled => 2
      case Working(_) => 8
      case _ => 7
  }

  /** What the caller still has to do; sends and the close may wake workers up. */
  function CallerWeight(s: Pool): nat
    requires Control(s)
  {
    var n, k := |s.input|, |s.workers|;
    match s.main
    case Feeding(i) => 12 * (n - i) + 4 * n + 2 * k + 8
    case Closing => 4 * n + 2 * k + 7
    case Collecting(i) => 4 * (n - i) + k + 5
    case ResCalled(i) => 4 * (n - i) + k + 5
    case ResSleep(i) => 4 * (n - i) + k + 4
    case Joining(w) => k - w + 1
    case _ => 0
  }

  ghost function Measure(s: Pool): nat
    requires Control(s)
  {
    CallerWeight(s) + 10 * |s.jobs| + 3 * |s.results| + Sum(s.workers, Weight())
  }

  /** Every step except a wake-up for no reason brings the end nearer. */
  lemma MeasureFalls(s: Pool, u: Pool)
    requires Inv(s) && Progress(s, u)
    ensures Control(u) && Measure(u) < Measure(s)
  {
    NextKeeps(s, u);
    if MainStep(s, u) {
      CallerFalls(s, u);
    } else {
      var w: nat :| WorkerStep(s, w, u);
      WorkerFalls(s, w, u);
    }
  }

  lemma CallerFalls(s: Pool, u: Pool)
    requires Inv(s) && Inv(u) && MainStep(s, u)
    ensures Measure(u) < Measure(s)
  {
    hide Partition, Values, Awake, Sum, SignalJob;
    match s.main
    case Feeding(i) =>
      if i < |s.input| {
        SendsNeverBlock(s);
        SignalWeighs(s.workers, u.workers);
      }
    case Closing =>
      SumBelow(u.workers, s.workers, Weight(), Weight(), 1);
    case Collecting(i) => if i < |s.input| { assert u.workers == s.workers; }
    case ResCalled(_) => assert u.workers == s.workers;
    case Joining(_) =>
  }

  lemma WorkerFalls(s: Pool, w: nat, u: Pool)
    requires Inv(s) && Inv(u) && WorkerStep(s, w, u)
    ensures Measure(u) < Measure(s)
  {
    hide Partition, Values, Awake, Sum;
    SendsNeverBlock(s);
    SumMove(s.workers, w, u.workers[w], Weight());
  }

  lemma SignalWeighs(a: seq<Worker>, b: seq<Worker>)
    requires SignalJob(a, b)
    ensures |b| == |a| && Sum(b, Weight()) <= Sum(a, Weight()) + 1
  {
    if exists w :: 0 <= w < |a| && a[w] == JobSleep {
      var w :| 0 <= w < |a| && a[w] == JobSleep && b == a[w := JobCalled];
      SumMove(a, w, JobCalled, Weight());
    }
  }

  /** A wake-up for no reason puts it off by one. */
  lemma SpuriousCosts(s: Pool, u: Pool)
    requires Inv(s) && Spurious(s, u)
    ensures Control(u) && Measure(u) == Measure(s) + 1
  {
    hide Partition, Values, Awake, Sum;
    SpuriousKeeps(s, u);
    if !(s.main.ResSleep? && u == s.(main := Collecting(s.main.i))) {
      var w :| 0 <= w < |s.workers| && s.workers[w] == JobSleep && u == s.(workers := s.workers[w := Asking]);
      SumMove(s.workers, w, Asking, Weight());
    }
  }

  /** How many of the first `n` steps of a run were wake-ups for no reason. */
  ghost function Spurs(run: seq<Pool>, n: nat): nat
    requires n < |run|
  {
    if n == 0 then 0 else Spurs(run, n - 1) + if Progress(run[n - 1], run[n]) then 0 else 1
  }

  lemma {:induction false} MeasureOverRun(run: seq<Pool>, n: nat)
    requires Run(run) && n < |run|
    ensures Control(run[n]) && Control(run[0]) && Measure(run[n]) + n <= Measure(run[0]) + 2 * Spurs(run, n)
  {
    hide Inv, Init, Next, Progress, Spurious, Measure;
    RunKeeps(run, 0);
    RunKeeps(run, n);
    Controlled(run[0]);
    Controlled(run[n]);
    if n > 0 {
      var m := n - 1;
      MeasureOverRun(run, m);
      assert Next(run[m], run[m + 1]);
      RunKeeps(run, m);
      OneStep(run[m], run[n]);
    }
  }

  lemma Controlled(s: Pool)
    requires Inv(s)
    ensures Control(s)
  {
  }

  lemma OneStep(s: Pool, u: Pool)
    requires Inv(s) && Next(s, u)
    ensures Control(s) && Control(u) && Measure(u) + 1 <= Measure(s) + if Progress(s, u) then 0 else 2
  {
    hide Inv, Progress, Spurious, Measure;
    Controlled(s);
    if Progress(s, u) {
      MeasureFalls(s, u);
    } else {
      SpuriousCosts(s, u);
    }
  }

  lemma {:induction false} AllAsking(ws: seq<Worker>)
    requires forall w :: 0 <= w < |ws| ==> ws[w] == Asking
    ensures Sum(ws, Weight()) == 2 * |ws|
  {
    if |ws| > 0 {
      AllAsking(ws[..|ws| - 1]);
    }
  }

  lemma StartMeasure(s: Pool)
    requires Init(s)
    ensures Control(s) && Measure(s) == 16 * |s.input| + 4 * |s.workers| + 8
  {
    AllAsking(s.workers);
  }

  /** Every run is short: the numbers of elements and workers bound it, but for two steps per wake-up for no
      reason. So the call returns unless wake-ups for no reason never end: by `NotStuck` no run is stuck
      before. */
  lemma RunIsShort(run: seq<Pool>)
    requires Run(run)
    ensures |run| - 1 <= 16 * |run[0].input| + 4 * |run[0].workers| + 8 + 2 * Spurs(run, |run| - 1)
  {
    hide Init, Next, Control, Measure;
    MeasureOverRun(run, |run| - 1);
    StartMeasure(run[0]);
  }
}
