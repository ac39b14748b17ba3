/** Bounded channels. First the critical sections on the ring buffer, each proved against a
  queue; then every interleaving of senders and receivers that park, are signalled or wake up
  for no reason, on top of that queue. */
module Channel {
  import opened Probing

  // -------------------------------------------------- critical sections, on a queue

  /** What a critical section does: park, report a closed channel, or act on the queue. */
  datatype SendOutcome = SendBlocked | SendRefused | Accepted

  datatype RecvOutcome<T> = RecvBlocked | RecvClosed | Got(v: T)

  function SendResult<T>(q: seq<T>, cap: nat, closed: bool): SendOutcome {
    if |q| == cap && !closed then SendBlocked else if closed then SendRefused else Accepted
  }

  function RecvResult<T>(q: seq<T>, closed: bool): RecvOutcome<T> {
    if |q| == 0 then if closed then RecvClosed else RecvBlocked else Got(q[0])
  }

  function AfterSend<T>(q: seq<T>, cap: nat, closed: bool, v: T): seq<T> {
    if SendResult(q, cap, closed) == Accepted then q + [v] else q
  }

  function AfterRecv<T>(q: seq<T>): seq<T> {
    if |q| == 0 then q else q[1..]
  }

  // --------------------------------------------------------------- the ring buffer

  class Chan<T(0)> {
    var buf: array<T>
    var len: nat
    var head: nat
    var closed: bool

    ghost predicate Valid()
      reads this
    {
      buf.Length >= 1 && len <= buf.Length && head < buf.Length
    }

    /** The buffered values, oldest first. */
    ghost function Queue(): (q: seq<T>)
      reads this, buf
      requires Valid()
      ensures |q| == len
    {
      if head + len <= buf.Length then buf[head..head + len] else buf[head..] + buf[..head + len - buf.Length]
    }

    /** `baga_chan_new`: a capacity below 1 becomes 1. */
    constructor (cap: int)
      ensures Valid() && fresh(buf) && Queue() == [] && !closed
      ensures buf.Length == if cap < 1 then 1 else cap
    {
      var c := if cap < 1 then 1 else cap;
      buf := new T[c];
      len, head, closed := 0, 0, false;
    }

    /** `baga_chan_send` between taking the lock and waiting or releasing it: refused exactly when closed,
        to wait exactly when open and full, and otherwise the value goes to the end of the queue. */
    method Send(v: T) returns (r: SendOutcome)
      requires Valid()
      modifies `len, buf
      ensures Valid()
      ensures r == SendRefused <==> closed
      ensures r == SendBlocked <==> !closed && |old(Queue())| == buf.Length
      ensures r == Accepted <==> !closed && |old(Queue())| < buf.Length
      ensures Queue() == if r == Accepted then old(Queue()) + [v] else old(Queue())
      ensures r == SendResult(old(Queue()), buf.Length, closed)
      ensures Queue() == AfterSend(old(Queue()), buf.Length, closed, v)
    {
      if len == buf.Length && !closed { return SendBlocked; }
      if closed { return SendRefused; }
      ghost var q := Queue();
      var i := RingIndex(head + len, buf.Length);
      buf[i] := v;
      len := len + 1;
      assert Queue() == q + [v];
      r := Accepted;
    }

    /** `baga_chan_recv`, `baga_chan_recv2` and `baga_chan_try_recv` between taking the lock and
        waiting or releasing it: a buffered value is taken from the front, closed or not; without one the
        caller waits exactly while the channel is open. */
    method Recv() returns (r: RecvOutcome<T>)
      requires Valid()
      modifies `len, `head
      ensures Valid()
      ensures r == RecvClosed <==> closed && old(Queue()) == []
      ensures r == RecvBlocked <==> !closed && old(Queue()) == []
      ensures old(Queue()) != [] ==> r.Got? && old(Queue()) == [r.v] + Queue()
      ensures old(Queue()) == [] ==> Queue() == []
      ensures r == RecvResult(old(Queue()), closed)
      ensures Queue() == AfterRecv(old(Queue()))
    {
      if len == 0 { return if closed then RecvClosed else RecvBlocked; }
      ghost var q := Queue();
      var v := buf[head];
      head := RingIndex(head + 1, buf.Length);
      len := len - 1;
      assert q[0] == v && Queue() == q[1..];
      r := Got(v);
    }

    method Close()
      requires Valid()
      modifies `closed
      ensures Valid() && closed && Queue() == old(Queue())
    {
      closed := true;
    }
  }

  /** `x % m` for an index that is at most one lap ahead. */
  method RingIndex(x: nat, m: nat) returns (i: nat)
    requires 0 < m && x < 2 * m
    ensures i == if x < m then x else x - m
  {
    i := x % m;
    if x < m { ModUnique(x, m, 0, x); } else { ModUnique(x, m, 1, x - m); }
  }

  // ----------------------------------------------------------- interleaved threads

  /** Where a thread stands. A parked thread sleeps until it is signalled; a spurious wake-up
      makes it ask again as if it had just arrived. */
  datatype Pc<T> =
    | Idle
    | Sending(v: T)
    | SendParked(v: T, signalled: bool)
    | Receiving
    | RecvParked(signalled: bool)

  /** The channel, its threads, and what has been accepted and received so far. */
  datatype State<T> = State(
    queue: seq<T>, cap: nat, closed: bool, threads: map<nat, Pc<T>>,
    accepted: seq<T>, received: seq<T>)

  /** `pthread_cond_signal` on the receivers: one parked receiver, if there is one. */
  ghost predicate SignalRecv<T(!new)>(a: map<nat, Pc<T>>, b: map<nat, Pc<T>>) {
    if exists t :: t in a && a[t] == RecvParked(false)
    then exists t :: t in a && a[t] == RecvParked(false) && b == a[t := RecvParked(true)]
    else b == a
  }

  ghost predicate SignalSend<T(!new)>(a: map<nat, Pc<T>>, b: map<nat, Pc<T>>) {
    if exists t :: t in a && Parked(a[t])
    then exists t :: t in a && Parked(a[t]) && b == a[t := a[t].(signalled := true)]
    else b == a
  }

  /** A sender asleep and not signalled. */
  predicate Parked<T>(pc: Pc<T>) {
    pc.SendParked? && !pc.signalled
  }

  /** A sender that may take the lock now. */
  predicate SendReady<T>(pc: Pc<T>) {
    pc.Sending? || (pc.SendParked? && pc.signalled)
  }

  predicate RecvReady<T>(pc: Pc<T>) {
    pc.Receiving? || (pc.RecvParked? && pc.signalled)
  }

  function WokenAll<T>(a: map<nat, Pc<T>>): map<nat, Pc<T>> {
    map t | t in a :: if a[t].SendParked? || a[t].RecvParked? then a[t].(signalled := true) else a[t]
  }

  /** One atomic step of thread `t`. */
  ghost predicate Step<T(!new)>(s: State<T>, t: nat, u: State<T>) {
    t in s.threads && (
      || Arrive(s, t, u)
      || Wake(s, t, u)
      || RunSend(s, t, u)
      || RunRecv(s, t, u)
      || TryRecv(s, t, u)
      || RunClose(s, t, u))
  }

  /** An idle thread calls send or recv. */
  ghost predicate Arrive<T(!new)>(s: State<T>, t: nat, u: State<T>)
    requires t in s.threads
  {
    s.threads[t] == Idle && exists pc: Pc<T> :: (pc.Sending? || pc.Receiving?) && u == s.(threads := s.threads[t := pc])
  }

  /** A spurious wake-up. */
  ghost predicate Wake<T>(s: State<T>, t: nat, u: State<T>)
    requires t in s.threads
  {
    var pc := s.threads[t];
    || (Parked(pc) && u == s.(threads := s.threads[t := Sending(pc.v)]))
    || (pc == RecvParked(false) && u == s.(threads := s.threads[t := Receiving]))
  }

  ghost predicate RunSend<T(!new)>(s: State<T>, t: nat, u: State<T>)
    requires t in s.threads
  {
    var pc := s.threads[t];
    SendReady(pc) &&
    match SendResult(s.queue, s.cap, s.closed)
    case SendBlocked => u == s.(threads := s.threads[t := SendParked(pc.v, false)])
    case SendRefused => u == s.(threads := s.threads[t := Idle])
    case Accepted =>
      && SignalRecv(s.threads[t := Idle], u.threads)
      && u == s.(queue := AfterSend(s.queue, s.cap, s.closed, pc.v), accepted := s.accepted + [pc.v],
                 threads := u.threads)
  }

  ghost predicate RunRecv<T(!new)>(s: State<T>, t: nat, u: State<T>)
    requires t in s.threads
  {
    RecvReady(s.threads[t]) &&
    match RecvResult(s.queue, s.closed)
    case RecvBlocked => u == s.(threads := s.threads[t := RecvParked(false)])
    case RecvClosed => u == s.(threads := s.threads[t := Idle])
    case Got(v) => Take(s, t, v, u)
  }

  ghost predicate Take<T(!new)>(s: State<T>, t: nat, v: T, u: State<T>) {
    && SignalSend(s.threads[t := Idle], u.threads)
    && u == s.(queue := AfterRecv(s.queue), received := s.received + [v], threads := u.threads)
  }

  /** `baga_chan_try_recv` never parks. */
  ghost predicate TryRecv<T(!new)>(s: State<T>, t: nat, u: State<T>)
    requires t in s.threads
  {
    s.threads[t] == Idle && if |s.queue| == 0 then u == s else Take(s, t, s.queue[0], u)
  }

  ghost predicate RunClose<T>(s: State<T>, t: nat, u: State<T>)
    requires t in s.threads
  {
    s.threads[t] == Idle && u == s.(closed := true, threads := WokenAll(s.threads))
  }

  // ---------------------------------------------------------------- counting

  datatype Kind = Other | SendAsleep | SendCalled | RecvAsleep | RecvCalled

  function KindOf<T>(pc: Pc<T>): Kind {
    match pc
    case SendParked(_, sig) => if sig then SendCalled else SendAsleep
    case RecvParked(sig) => if sig then RecvCalled else RecvAsleep
    case _ => Other
  }

  ghost function Those<T>(a: map<nat, Pc<T>>, k: Kind): set<nat> {
    set t | t in a && KindOf(a[t]) == k
  }

  ghost function Tally<T>(a: map<nat, Pc<T>>, k: Kind): nat {
    |Those(a, k)|
  }

  function Is<T>(pc: Pc<T>, k: Kind): nat {
    if KindOf(pc) == k then 1 else 0
  }

  lemma TallyMove<T>(a: map<nat, Pc<T>>, t: nat, pc: Pc<T>, k: Kind)
    requires t in a
    ensures Tally(a[t := pc], k) == Tally(a, k) - Is(a[t], k) + Is(pc, k)
  {
    var b := a[t := pc];
    assert Those(b, k) - {t} == Those(a, k) - {t};
    assert Those(b, k) == if KindOf(pc) == k then (Those(a, k) - {t}) + {t} else Those(a, k) - {t};
  }

  lemma AsleepMeansSome<T>(a: map<nat, Pc<T>>, t: nat, k: Kind)
    requires t in a && KindOf(a[t]) == k
    ensures Tally(a, k) >= 1
  {
    assert t in Those(a, k);
    assert |Those(a, k) - {t}| >= 0;
    assert Those(a, k) == (Those(a, k) - {t}) + {t};
  }

  lemma NoneAsleep<T>(a: map<nat, Pc<T>>, k: Kind)
    requires forall t :: t in a ==> KindOf(a[t]) != k
    ensures Tally(a, k) == 0
  {
    assert Those(a, k) == {};
  }

  // --------------------------------------------------------------- the invariant

  /** The ring holds exactly what was accepted and not yet received, in order. */
  ghost predicate Fifo<T>(s: State<T>) {
    s.cap >= 1 && |s.queue| <= s.cap && s.accepted == s.received + s.queue
  }

  /** No lost wake-up: a receiver sleeps unsignalled only while every buffered value has a
      signalled receiver on its way; dually for senders and free slots; after close nobody
      sleeps. */
  ghost predicate NoLostWakeUp<T>(s: State<T>) {
    && (Tally(s.threads, RecvAsleep) > 0 ==> !s.closed && |s.queue| <= Tally(s.threads, RecvCalled))
    && (Tally(s.threads, SendAsleep) > 0 ==> !s.closed && s.cap - |s.queue| <= Tally(s.threads, SendCalled))
  }

  ghost predicate Inv<T>(s: State<T>) {
    Fifo(s) && NoLostWakeUp(s)
  }

  ghost predicate Init<T>(s: State<T>) {
    && s.cap >= 1 && s.queue == [] && !s.closed && s.accepted == [] && s.received == []
    && forall t :: t in s.threads ==> s.threads[t] == Idle
  }

  lemma InitInv<T>(s: State<T>)
    requires Init(s)
    ensures Inv(s)
  {
    NoneAsleep(s.threads, RecvAsleep);
    NoneAsleep(s.threads, SendAsleep);
  }

  /** Moving one thread, seen by all four counters. */
  lemma Moves<T>(a: map<nat, Pc<T>>, t: nat, pc: Pc<T>)
    requires t in a
    ensures forall k :: Tally(a[t := pc], k) == Tally(a, k) - Is(a[t], k) + Is(pc, k)
  {
    forall k ensures Tally(a[t := pc], k) == Tally(a, k) - Is(a[t], k) + Is(pc, k) {
      TallyMove(a, t, pc, k);
    }
  }

  /** A signal turns one sleeper into a signalled thread, unless nobody sleeps. */
  lemma SignalRecvCounts<T(!new)>(a: map<nat, Pc<T>>, b: map<nat, Pc<T>>)
    requires SignalRecv(a, b)
    ensures var n := if Tally(a, RecvAsleep) > 0 then 1 else 0;
      && Tally(b, RecvAsleep) == Tally(a, RecvAsleep) - n && Tally(b, RecvCalled) == Tally(a, RecvCalled) + n
      && Tally(b, SendAsleep) == Tally(a, SendAsleep) && Tally(b, SendCalled) == Tally(a, SendCalled)
  {
    if exists t :: t in a && a[t] == RecvParked(false) {
      var t :| t in a && a[t] == RecvParked(false) && b == a[t := RecvParked(true)];
      AsleepMeansSome(a, t, RecvAsleep);
      Moves(a, t, RecvParked(true));
    } else {
      forall t | t in a ensures KindOf(a[t]) != RecvAsleep {
        assert a[t] != RecvParked(false);
      }
      NoneAsleep(a, RecvAsleep);
    }
  }

  lemma SignalSendCounts<T(!new)>(a: map<nat, Pc<T>>, b: map<nat, Pc<T>>)
    requires SignalSend(a, b)
    ensures var n := if Tally(a, SendAsleep) > 0 then 1 else 0;
      && Tally(b, SendAsleep) == Tally(a, SendAsleep) - n && Tally(b, SendCalled) == Tally(a, SendCalled) + n
      && Tally(b, RecvAsleep) == Tally(a, RecvAsleep) && Tally(b, RecvCalled) == Tally(a, RecvCalled)
  {
    if exists t :: t in a && Parked(a[t]) {
      var t :| t in a && Parked(a[t]) && b == a[t := a[t].(signalled := true)];
      AsleepMeansSome(a, t, SendAsleep);
      Moves(a, t, a[t].(signalled := true));
    } else {
      forall t | t in a ensures KindOf(a[t]) != SendAsleep {
        assert !Parked(a[t]);
      }
      NoneAsleep(a, SendAsleep);
    }
  }

  lemma TakeKeeps<T(!new)>(s: State<T>, t: nat, v: T, u: State<T>)
    requires Inv(s) && t in s.threads && |s.queue| > 0 && v == s.queue[0] && Take(s, t, v, u)
    requires s.threads[t] == Idle || RecvReady(s.threads[t])
    ensures Inv(u)
  {
    Moves(s.threads, t, Idle);
    SignalSendCounts(s.threads[t := Idle], u.threads);
    assert s.queue == [s.queue[0]] + s.queue[1..];
  }

  /** Every step of every thread keeps the invariant. */
  lemma StepKeeps<T(!new)>(s: State<T>, t: nat, u: State<T>)
    requires Inv(s) && Step(s, t, u)
    ensures Inv(u)
  {
    if Arrive(s, t, u) {
      var pc: Pc<T> :| (pc.Sending? || pc.Receiving?) && u == s.(threads := s.threads[t := pc]);
      Moves(s.threads, t, pc);
    } else if Wake(s, t, u) {
      Moves(s.threads, t, u.threads[t]);
    } else if RunSend(s, t, u) {
      SendKeeps(s, t, u);
    } else if RunRecv(s, t, u) {
      RecvKeeps(s, t, u);
    } else if TryRecv(s, t, u) {
      if |s.queue| > 0 { TakeKeeps(s, t, s.queue[0], u); }
    } else {
      NoneAsleep(u.threads, RecvAsleep);
      NoneAsleep(u.threads, SendAsleep);
    }
  }

  lemma SendKeeps<T(!new)>(s: State<T>, t: nat, u: State<T>)
    requires Inv(s) && t in s.threads && RunSend(s, t, u)
    ensures Inv(u)
  {
    match SendResult(s.queue, s.cap, s.closed)
    case SendBlocked => Moves(s.threads, t, SendParked(s.threads[t].v, false));
    case SendRefused => Moves(s.threads, t, Idle);
    case Accepted =>
      Moves(s.threads, t, Idle);
      SignalRecvCounts(s.threads[t := Idle], u.threads);
      assert s.accepted + [s.threads[t].v] == s.received + (s.queue + [s.threads[t].v]);
  }

  lemma RecvKeeps<T(!new)>(s: State<T>, t: nat, u: State<T>)
    requires Inv(s) && t in s.threads && RunRecv(s, t, u)
    ensures Inv(u)
  {
    match RecvResult(s.queue, s.closed)
    case RecvBlocked => Moves(s.threads, t, RecvParked(false));
    case RecvClosed => Moves(s.threads, t, Idle);
    case Got(v) => TakeKeeps(s, t, v, u);
  }

  // ------------------------------------------------------------------ whole runs

  ghost predicate Run<T(!new)>(run: seq<State<T>>) {
    && |run| > 0 && Init(run[0])
    && forall i :: 0 <= i < |run| - 1 ==> Successor(run[i], run[i + 1])
  }

  ghost predicate Successor<T(!new)>(s: State<T>, u: State<T>) {
    exists t :: Step(s, t, u)
  }

  /** Every reachable state satisfies the invariant, whatever the interleaving. */
  lemma {:induction false} RunKeeps<T(!new)>(run: seq<State<T>>, n: nat)
    requires Run(run) && n < |run|
    ensures Inv(run[n])
  {
    if n == 0 {
      InitInv(run[0]);
    } else {
      RunKeeps(run, n - 1);
      assert Successor(run[n - 1], run[n - 1 + 1]);
      var t :| Step(run[n - 1], t, run[n]);
      StepKeeps(run[n - 1], t, run[n]);
    }
  }

  /** What was accepted or received stays so, in the same order; nothing is accepted after a close. */
  ghost predicate Extends<T>(s: State<T>, u: State<T>) {
    && s.accepted <= u.accepted && s.received <= u.received
    && (s.closed ==> u.closed && u.accepted == s.accepted)
  }

  lemma StepExtends<T(!new)>(s: State<T>, t: nat, u: State<T>)
    requires Step(s, t, u)
    ensures Extends(s, u)
  {
  }

  /** Over every run, from any point to any later one, the histories only grow. */
  lemma {:induction false} HistoryGrows<T(!new)>(run: seq<State<T>>, i: nat, j: nat)
    requires Run(run) && i <= j < |run|
    ensures Extends(run[i], run[j])
    decreases j
  {
    hide Step, Init;
    if i < j {
      HistoryGrows(run, i, j - 1);
      assert Successor(run[j - 1], run[j - 1 + 1]);
      var t :| Step(run[j - 1], t, run[j]);
      StepExtends(run[j - 1], t, run[j]);
    }
  }

  // ---------------------------------------------------- what becomes of one value

  /** Thread `t` is inside a call that sends `v`. */
  predicate Holds<T(==)>(s: State<T>, t: nat, v: T) {
    t in s.threads && (s.threads[t].Sending? || s.threads[t].SendParked?) && s.threads[t].v == v
  }

  /** Such a call goes on, or ends with `v` appended exactly when the channel is open then. */
  ghost predicate SendGoes<T>(s: State<T>, t: nat, v: T, u: State<T>) {
    || Holds(u, t, v)
    || (t in u.threads && u.threads[t] == Idle && u.closed == s.closed
        && u.accepted == if s.closed then s.accepted else s.accepted + [v])
  }

  /** A step of any thread leaves a call that sends where it is, or is the end of it; a sender goes to
      sleep only on an open, full channel. */
  lemma StepSends<T(!new)>(s: State<T>, r: nat, u: State<T>, t: nat, v: T)
    requires Inv(s) && Step(s, r, u) && Holds(s, t, v)
    ensures SendGoes(s, t, v, u)
    ensures r != t ==> Holds(u, t, v)
    ensures r == t && Parked(u.threads[t]) ==> !s.closed && |s.queue| == s.cap
  {
  }

  /** The call starts before state `i` of the run and is over at state `j`: its last step was at some `k`
      between them, and `v` was accepted there exactly when the channel was still open. */
  lemma {:induction false} SendEnds<T(!new)>(run: seq<State<T>>, i: nat, j: nat, t: nat, v: T) returns (k: nat)
    requires Run(run) && i < j < |run| && Holds(run[i], t, v) && !Holds(run[j], t, v)
    ensures i <= k < j && Holds(run[k], t, v)
    ensures t in run[k + 1].threads && run[k + 1].threads[t] == Idle
    ensures run[k + 1].accepted == if run[k].closed then run[k].accepted else run[k].accepted + [v]
    decreases j - i
  {
    hide Step, Init, Inv, Extends;
    k := i;
    assert Successor(run[i], run[i + 1]);
    RunKeeps(run, i);
    var r :| Step(run[i], r, run[i + 1]);
    StepSends(run[i], r, run[i + 1], t, v);
    if Holds(run[i + 1], t, v) {
      k := SendEnds(run, i + 1, j, t, v);
    }
  }

  /** While the channel is open no value is lost: a call that is over at `j` had its value accepted. */
  lemma Delivered<T(!new)>(run: seq<State<T>>, i: nat, j: nat, t: nat, v: T) returns (k: nat)
    requires Run(run) && i < j < |run| && Holds(run[i], t, v) && !Holds(run[j], t, v) && !run[j].closed
    ensures |run[i].accepted| <= k < |run[j].accepted| && run[j].accepted[k] == v
  {
    var m := SendEnds(run, i, j, t, v);
    HistoryGrows(run, m, j);
    HistoryGrows(run, i, m);
    HistoryGrows(run, m + 1, j);
    k := |run[m].accepted|;
  }

  /** Once a receiver can be told that the channel is closed, it has missed nothing, every later receiver
      is told the same, and nothing is ever accepted or received again. */
  lemma ClosedIsFinal<T(!new)>(run: seq<State<T>>, i: nat, j: nat)
    requires Run(run) && i <= j < |run| && RecvResult(run[i].queue, run[i].closed) == RecvClosed
    ensures run[i].received == run[i].accepted
    ensures RecvResult(run[j].queue, run[j].closed) == RecvClosed
    ensures run[j].accepted == run[i].accepted && run[j].received == run[i].received
  {
    RunKeeps(run, i);
    RunKeeps(run, j);
    HistoryGrows(run, i, j);
    assert run[i].received + run[i].queue == run[i].received;
    assert |run[j].received| + |run[j].queue| == |run[i].received|;
  }

  /** While a receiver sleeps unsignalled and a value is buffered, a signalled receiver is about
      to run. */
  lemma ReceiverWillRun<T>(s: State<T>, t: nat) returns (r: nat)
    requires Inv(s) && t in s.threads && s.threads[t] == RecvParked(false) && |s.queue| > 0
    ensures r in s.threads && s.threads[r] == RecvParked(true)
  {
    AsleepMeansSome(s.threads, t, RecvAsleep);
    r := SomeOf(s.threads, RecvCalled);
  }

  lemma SenderWillRun<T>(s: State<T>, t: nat) returns (r: nat)
    requires Inv(s) && t in s.threads && Parked(s.threads[t]) && |s.queue| < s.cap
    ensures r in s.threads && s.threads[r].SendParked? && s.threads[r].signalled
  {
    AsleepMeansSome(s.threads, t, SendAsleep);
    r := SomeOf(s.threads, SendCalled);
  }

  lemma NobodySleepsAfterClose<T>(s: State<T>, t: nat)
    requires Inv(s) && s.closed && t in s.threads
    ensures s.threads[t] != RecvParked(false) && !Parked(s.threads[t])
  {
    if s.threads[t] == RecvParked(false) { AsleepMeansSome(s.threads, t, RecvAsleep); }
    if Parked(s.threads[t]) { AsleepMeansSome(s.threads, t, SendAsleep); }
  }

  lemma SomeOf<T>(a: map<nat, Pc<T>>, k: Kind) returns (t: nat)
    requires Tally(a, k) > 0
    ensures t in a && KindOf(a[t]) == k
  {
    t := Element(Those(a, k));
  }

  lemma Element<S>(s: set<S>) returns (x: S)
    requires |s| > 0
    ensures x in s
  {
    x :| x in s;
  }
}
