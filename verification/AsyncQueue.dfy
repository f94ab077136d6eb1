/** asyncqueue.c as the steps of any number of producers and consumers.  A step is
    either a stretch of code under the mutex or something that the condition
    variable does to a sleeping consumer; every interleaving of them is a run.
 */
module AsyncQueue {
  import opened Machine
  import opened MapSpec

  /** Consumers inside _async_queue_cond_wait are asleep, or woken with success, or
      expired with ETIMEDOUT, the last two still without the mutex. */
  datatype State<T> = State(queue: seq<T>, waiting: nat, asleep: set<nat>, woken: set<nat>, expired: set<nat>, timed: set<nat>)

  datatype Event<T> =
    | Push(value: T, signalled: set<nat>)  // async_queue_push, and whom pthread_cond_signal wakes
    | Pop(thread: nat, timed: bool)        // _async_queue_pop up to its return or its wait
    | Wake(thread: nat)                    // a spurious wakeup
    | Expire(thread: nat)                  // a timeout, which may consume a signal
    | Return(thread: nat)                  // the rest of _async_queue_pop after the wait
    | Clear                                // async_queue_clear

  function Initial<T>(): State<T> {
    State([], 0, {}, {}, {}, {})
  }

  function Inside<T>(s: State<T>): set<nat> {
    s.asleep + s.woken + s.expired
  }

  /** A signal wakes at least one consumer, if any is asleep; without consumers
      waiting there is no signal (asyncqueue.c:111-114). */
  predicate Enabled<T>(s: State<T>, e: Event<T>) {
    match e
    case Push(_, signalled) =>
      signalled <= s.asleep && if s.waiting == 0 then signalled == {} else s.asleep != {} ==> signalled != {}
    case Pop(thread, _) => thread !in Inside(s)
    case Wake(thread) => thread in s.asleep
    case Expire(thread) => thread in s.asleep + s.woken && thread in s.timed
    case Return(thread) => thread in s.woken + s.expired
    case Clear => true
  }

  /** What the consumer of a step comes back with: queue_pop's item, or nothing. */
  function Taken<T>(s: State<T>, e: Event<T>): Option<T> {
    if s.queue != [] && (e.Pop? || (e.Return? && e.thread in s.woken)) then Some(s.queue[0]) else None
  }

  function Next<T>(s: State<T>, e: Event<T>): State<T> {
    match e
    case Push(value, signalled) =>
      s.(queue := if |s.queue| < SIZE_MAX then s.queue + [value] else s.queue,
         asleep := s.asleep - signalled, woken := s.woken + signalled)
    case Pop(thread, timed) =>
      if s.queue != [] then s.(queue := s.queue[1..])
      else if s.waiting < SIZE_MAX then
        s.(waiting := s.waiting + 1, asleep := s.asleep + {thread},
           timed := if timed then s.timed + {thread} else s.timed - {thread})
      else s
    case Wake(thread) => s.(asleep := s.asleep - {thread}, woken := s.woken + {thread})
    case Expire(thread) =>
      s.(asleep := s.asleep - {thread}, woken := s.woken - {thread}, expired := s.expired + {thread})
    case Return(thread) =>
      s.(waiting := if s.waiting > 0 then s.waiting - 1 else SIZE_MAX,
         woken := s.woken - {thread}, expired := s.expired - {thread},
         queue := if s.queue != [] && thread in s.woken then s.queue[1..] else s.queue)
    case Clear => s.(queue := [])
  }

  // ----- runs

  /** The state of a new queue after the first `n` events. */
  function At<T>(events: seq<Event<T>>, n: nat): State<T>
    requires n <= |events|
  {
    if n == 0 then Initial() else Next(At(events, n - 1), events[n - 1])
  }

  /** The first `n` events can happen one after the other. */
  predicate Run<T>(events: seq<Event<T>>, n: nat)
    requires n <= |events|
  {
    n == 0 || (Run(events, n - 1) && Enabled(At(events, n - 1), events[n - 1]))
  }

  // ----- `waiting` counts the consumers inside the wait

  /** No consumer is in two places, and `waiting` is the number of those inside. */
  predicate Tally(asleep: set<nat>, woken: set<nat>, expired: set<nat>, waiting: nat) {
    asleep !! woken && asleep !! expired && woken !! expired && waiting == |asleep| + |woken| + |expired|
  }

  predicate Counted<T>(s: State<T>) {
    Tally(s.asleep, s.woken, s.expired, s.waiting)
  }

  lemma CountedStep<T>(s: State<T>, e: Event<T>)
    requires Counted(s) && Enabled(s, e)
    ensures Counted(Next(s, e))
    ensures e.Return? ==> s.waiting > 0
  {
    match e
    case Push(_, signalled) =>
      CountedWake(s, signalled);
    case Pop(thread, _) =>
      CountedSleep(s, thread);
    case Wake(thread) =>
      CountedWake(s, {thread});
    case Expire(thread) =>
      CountedExpire(s, thread);
    case Return(thread) =>
      CountedReturn(s, thread);
    case Clear =>
  }

  lemma CountedWake<T>(s: State<T>, signalled: set<nat>)
    requires Counted(s) && signalled <= s.asleep
    ensures Tally(s.asleep - signalled, s.woken + signalled, s.expired, s.waiting)
  {
    Moved(s.asleep, s.woken, s.expired, signalled);
  }

  lemma CountedSleep<T>(s: State<T>, thread: nat)
    requires Counted(s) && thread !in Inside(s)
    ensures Tally(s.asleep + {thread}, s.woken, s.expired, s.waiting + 1)
  {
    Joined(s.asleep, s.woken, s.expired, thread);
  }

  lemma CountedExpire<T>(s: State<T>, thread: nat)
    requires Counted(s) && thread in s.asleep + s.woken
    ensures Tally(s.asleep - {thread}, s.woken - {thread}, s.expired + {thread}, s.waiting)
  {
    Without(s.asleep, thread);
    Without(s.woken, thread);
    if thread in s.asleep {
      Moved(s.asleep, s.expired, s.woken, {thread});
    } else {
      Moved(s.woken, s.expired, s.asleep, {thread});
    }
  }

  lemma CountedReturn<T>(s: State<T>, thread: nat)
    requires Counted(s) && thread in s.woken + s.expired
    ensures s.waiting > 0 && Tally(s.asleep, s.woken - {thread}, s.expired - {thread}, s.waiting - 1)
  {
    Without(s.woken, thread);
    Without(s.expired, thread);
  }

  /** `m` moves from `a` to `b`. */
  lemma Moved(a: set<nat>, b: set<nat>, c: set<nat>, m: set<nat>)
    requires a !! b && a !! c && b !! c && m <= a
    ensures a - m !! b + m && a - m !! c && b + m !! c
    ensures |a - m| == |a| - |m| && |b + m| == |b| + |m|
  {
    assert a == (a - m) + m;
    assert |(a - m) + m| == |a - m| + |m|;
  }

  lemma Joined(a: set<nat>, b: set<nat>, c: set<nat>, t: nat)
    requires a !! b && a !! c && b !! c && t !in a + b + c
    ensures a + {t} !! b && a + {t} !! c && |a + {t}| == |a| + 1
  {
  }

  lemma Without(a: set<nat>, t: nat)
    ensures if t in a then |a - {t}| == |a| - 1 else a - {t} == a
  {
  }

  /** In every reachable state `waiting` is the number of consumers inside the wait. */
  lemma {:induction false} WaitingCounts<T>(events: seq<Event<T>>, n: nat)
    requires n <= |events| && Run(events, n)
    ensures Counted(At(events, n)) && At(events, n).waiting == |Inside(At(events, n))|
  {
    if n > 0 {
      WaitingCounts(events, n - 1);
      CountedStep(At(events, n - 1), events[n - 1]);
    }
    var s := At(events, n);
    assert |s.asleep + s.woken| == |s.asleep| + |s.woken|;
    assert |Inside(s)| == |s.asleep + s.woken| + |s.expired|;
  }

  // ----- no wakeup is lost

  /** If a consumer sleeps on, each item has a consumer that is already woken. */
  predicate Served<T>(s: State<T>) {
    s.asleep != {} ==> |s.queue| <= |s.woken|
  }

  /** A timeout that takes a signal away although each woken consumer was needed. */
  predicate Robs<T>(s: State<T>, e: Event<T>) {
    e.Expire? && e.thread in s.woken && s.asleep != {} && |s.queue| == |s.woken|
  }

  /** Such a timeout is the only step that can leave an item to a sleeping consumer alone. */
  lemma ServedStep<T>(s: State<T>, e: Event<T>)
    requires Counted(s) && Served(s) && Enabled(s, e)
    ensures Served(Next(s, e)) <==> !Robs(s, e)
  {
    match e
    case Push(_, signalled) =>
      Moved(s.asleep, s.woken, s.expired, signalled);
      NotEmpty(s.asleep);
      NotEmpty(signalled);
    case Wake(thread) =>
      Moved(s.asleep, s.woken, s.expired, {thread});
    case Expire(thread) =>
      Without(s.asleep, thread);
      Without(s.woken, thread);
    case Return(thread) =>
      Without(s.woken, thread);
    case _ =>
  }

  lemma NotEmpty(a: set<nat>)
    ensures a != {} <==> |a| > 0
  {
  }

  predicate Untimed<T>(events: seq<Event<T>>) {
    forall i :: 0 <= i < |events| ==> !(events[i].Pop? && events[i].timed)
  }

  /** Without timed consumers no wakeup is ever lost, whatever the interleaving and
      however many spurious wakeups and stolen items there are. */
  lemma {:induction false} NoLostWakeup<T>(events: seq<Event<T>>, n: nat)
    requires n <= |events| && Run(events, n) && Untimed(events)
    ensures Served(At(events, n)) && At(events, n).timed == {}
  {
    if n > 0 {
      NoLostWakeup(events, n - 1);
      WaitingCounts(events, n - 1);
      ServedStep(At(events, n - 1), events[n - 1]);
    }
  }

  ghost predicate ServedTo<T>(events: seq<Event<T>>, n: nat)
    requires n <= |events|
  {
    n == 0 || (ServedTo(events, n - 1) && Served(At(events, n)))
  }

  ghost predicate RobbedWithin<T>(events: seq<Event<T>>, n: nat)
    requires n <= |events|
  {
    n > 0 && (RobbedWithin(events, n - 1) || Robs(At(events, n - 1), events[n - 1]))
  }

  /** With them it holds of a run exactly as long as no timeout robs the others. */
  lemma {:induction false} NoLostWakeupTimed<T>(events: seq<Event<T>>, n: nat)
    requires n <= |events| && Run(events, n)
    ensures ServedTo(events, n) <==> !RobbedWithin(events, n)
    ensures ServedTo(events, n) ==> Served(At(events, n))
  {
    if n > 0 {
      NoLostWakeupTimed(events, n - 1);
      WaitingCounts(events, n - 1);
      if ServedTo(events, n - 1) {
        ServedStep(At(events, n - 1), events[n - 1]);
      }
    }
  }

  /** A timed and an untimed consumer sleep; a push signals the timed one, whose timeout
      consumes the signal; it returns with nothing while the item waits and the other sleeps on. */
  lemma TimeoutLosesWakeup(item: int)
    ensures var events := [Pop(0, true), Pop(1, false), Push(item, {0}), Expire(0), Return(0)];
            && Run(events, 5) && Taken(At(events, 4), events[4]) == None
            && At(events, 5).queue == [item] && At(events, 5).asleep == {1} && At(events, 5).woken == {}
  {
    var events := [Pop(0, true), Pop(1, false), Push(item, {0}), Expire(0), Return(0)];
    assert Run(events, 1) && At(events, 1) == State([], 1, {0}, {}, {}, {0});
    assert Run(events, 2) && At(events, 2) == State([], 2, {0, 1}, {}, {}, {0});
    assert Run(events, 3) && At(events, 3) == State([item], 2, {1}, {0}, {}, {0});
    assert Run(events, 4) && At(events, 4) == State([item], 2, {1}, {}, {0}, {0});
    assert Run(events, 5) && At(events, 5) == State([item], 1, {1}, {}, {}, {0});
  }

  // ----- which consumers can lose a wakeup

  /** Only consumers of `timed` pop with a timeout, and only those of `untimed` without. */
  ghost predicate PopsOnly<T>(events: seq<Event<T>>, timed: set<nat>, untimed: set<nat>) {
    forall i :: 0 <= i < |events| && events[i].Pop? ==> events[i].thread in if events[i].timed then timed else untimed
  }

  /** Inside the wait are only such consumers, and timed only such as may be. */
  ghost predicate Within<T>(s: State<T>, timed: set<nat>, untimed: set<nat>) {
    Inside(s) <= timed + untimed && s.timed <= timed
  }

  lemma {:induction false} RunWithin<T>(events: seq<Event<T>>, n: nat, timed: set<nat>, untimed: set<nat>)
    requires n <= |events| && Run(events, n) && PopsOnly(events, timed, untimed)
    ensures Within(At(events, n), timed, untimed)
  {
    if n > 0 {
      RunWithin(events, n - 1, timed, untimed);
    }
  }

  /** A consumer with a timeout can sleep beside another one. */
  ghost predicate Pair(timed: set<nat>, untimed: set<nat>, t: nat, u: nat) {
    t in timed && u in timed + untimed && t != u
  }

  lemma {:induction false} LossNeedsPair<T>(events: seq<Event<T>>, n: nat, timed: set<nat>, untimed: set<nat>)
    requires n <= |events| && Run(events, n) && PopsOnly(events, timed, untimed) && RobbedWithin(events, n)
    ensures exists t, u :: Pair(timed, untimed, t, u)
  {
    if RobbedWithin(events, n - 1) {
      LossNeedsPair(events, n - 1, timed, untimed);
    } else {
      var s, e := At(events, n - 1), events[n - 1];
      RunWithin(events, n - 1, timed, untimed);
      WaitingCounts(events, n - 1);
      var u :| u in s.asleep;
      assert Pair(timed, untimed, e.thread, u);
    }
  }

  /** The run of such a pair that loses a wakeup. */
  ghost function LosingRun<T>(item: T, t: nat, u: nat, uTimed: bool): seq<Event<T>> {
    [Pop(t, true), Pop(u, uTimed), Push(item, {t}), Expire(t)]
  }

  lemma PairLoses<T>(item: T, t: nat, u: nat, uTimed: bool)
    requires t != u
    ensures var events := LosingRun(item, t, u, uTimed);
            && Run(events, 4) && At(events, 4).queue == [item]
            && At(events, 4).asleep == {u} && At(events, 4).woken == {} && !Served(At(events, 4))
  {
    var events := LosingRun(item, t, u, uTimed);
    var timed := if uTimed then {t, u} else {t};
    assert Run(events, 0) && At(events, 0) == State([], 0, {}, {}, {}, {});
    assert events[0] == Pop(t, true) && events[1] == Pop(u, uTimed) && events[2] == Push(item, {t}) && events[3] == Expire(t);
    assert Run(events, 1) && At(events, 1) == State([], 1, {t}, {}, {}, {t});
    assert Run(events, 2) && At(events, 2) == State([], 2, {t, u}, {}, {}, timed);
    assert Run(events, 3) && At(events, 3) == State([item], 2, {u}, {t}, {}, timed);
    assert Run(events, 4) && At(events, 4) == State([item], 2, {u}, {}, {t}, timed);
  }

  /** The consumers can lose a wakeup: some run of theirs leaves a sleeper beside an item
      without a woken consumer for it. */
  ghost predicate Losing<T>(events: seq<Event<T>>, timed: set<nat>, untimed: set<nat>) {
    PopsOnly(events, timed, untimed) && Run(events, |events|) && !Served(At(events, |events|))
  }

  lemma PairIsLosing<T>(item: T, timed: set<nat>, untimed: set<nat>, t: nat, u: nat)
    requires Pair(timed, untimed, t, u)
    ensures Losing(LosingRun(item, t, u, u in timed), timed, untimed)
  {
    var events := LosingRun(item, t, u, u in timed);
    PairLoses(item, t, u, u in timed);
    assert |events| == 4 && events[0] == Pop(t, true) && events[1] == Pop(u, u in timed) && events[2].Push? && events[3].Expire?;
  }

  /** A wakeup can be lost exactly if some consumer uses a timeout and is not the only consumer. */
  lemma LossIsReachable<T(!new)>(item: T, timed: set<nat>, untimed: set<nat>)
    ensures (exists events: seq<Event<T>> :: Losing(events, timed, untimed)) <==> exists t, u :: Pair(timed, untimed, t, u)
  {
    if events: seq<Event<T>> :| Losing(events, timed, untimed) {
      NoLostWakeupTimed(events, |events|);
      LossNeedsPair(events, |events|, timed, untimed);
    }
    if t, u :| Pair(timed, untimed, t, u) {
      PairIsLosing(item, timed, untimed, t, u);
    }
  }

  /** The state after the consumers of `order` have returned. */
  function AfterReturns<T>(s: State<T>, order: seq<nat>, n: nat): State<T>
    requires n <= |order|
  {
    if n == 0 then s
    else
      var before := AfterReturns(s, order, n - 1);
      if Enabled(before, Return(order[n - 1])) then Next(before, Return(order[n - 1])) else before
  }

  /** The woken consumers suffice: once they have all returned, nobody sleeps beside an item. */
  lemma {:induction false} WokenSuffice<T>(s: State<T>, order: seq<nat>, n: nat)
    requires Counted(s) && Served(s) && s.asleep != {} && n <= |order|
    requires forall i, j :: 0 <= i < j < |order| ==> order[i] != order[j]
    requires forall i :: 0 <= i < |order| ==> order[i] in s.woken
    ensures var r := AfterReturns(s, order, n);
            && Counted(r) && r.asleep == s.asleep
            && (forall i :: n <= i < |order| ==> order[i] in r.woken)
            && |r.woken| == |s.woken| - n && |r.queue| <= |s.woken| - n
            && (n == |s.woken| ==> r.queue == [])
  {
    if n > 0 {
      WokenSuffice(s, order, n - 1);
      var before := AfterReturns(s, order, n - 1);
      CountedStep(before, Return(order[n - 1]));
      ServedStep(before, Return(order[n - 1]));
    }
  }

  // ----- first in, first out

  /** A push puts its value behind all others, unless the queue is full; then it has no effect
      on the queue. */
  lemma PushAppends<T>(s: State<T>, value: T, signalled: set<nat>)
    ensures |s.queue| < SIZE_MAX ==> Next(s, Push(value, signalled)).queue == s.queue + [value]
    ensures |s.queue| >= SIZE_MAX ==> Next(s, Push(value, signalled)).queue == s.queue
  {
  }

  /** A consumer takes the first value off the queue, or nothing; nothing else takes
      values but a clear, which takes them all. */
  lemma TakenLeaves<T>(s: State<T>, e: Event<T>)
    ensures match Taken(s, e)
            case Some(value) => s.queue == [value] + Next(s, e).queue
            case None => !e.Push? && !e.Clear? ==> Next(s, e).queue == s.queue
    ensures e.Clear? ==> Next(s, e).queue == []
  {
    if Taken(s, e).Some? {
      assert s.queue == [s.queue[0]] + s.queue[1..];
    }
  }

  /** The values of the push events since the last clear. */
  function PushValues<T>(events: seq<Event<T>>, n: nat): (s: seq<T>)
    requires n <= |events|
    ensures |s| <= n
  {
    if n == 0 || events[n - 1].Clear? then []
    else PushValues(events, n - 1) + if events[n - 1].Push? then [events[n - 1].value] else []
  }

  /** Whatever happens, the queue holds no more values than that. */
  lemma {:induction false} QueueWithinPushes<T>(events: seq<Event<T>>, n: nat)
    requires n <= |events|
    ensures |At(events, n).queue| <= |PushValues(events, n)|
  {
    if n > 0 {
      QueueWithinPushes(events, n - 1);
    }
  }

  function PushedBy<T>(s: State<T>, e: Event<T>): seq<T> {
    if e.Push? && |s.queue| < SIZE_MAX then [e.value] else []
  }

  function PoppedBy<T>(s: State<T>, e: Event<T>): seq<T> {
    match Taken(s, e)
    case Some(value) => [value]
    case None => []
  }

  /** The values that pushes put into the queue since the last clear. */
  function Pushed<T>(events: seq<Event<T>>, n: nat): seq<T>
    requires n <= |events|
  {
    if n == 0 || events[n - 1].Clear? then []
    else Pushed(events, n - 1) + PushedBy(At(events, n - 1), events[n - 1])
  }

  /** The values that consumers came back with since the last clear. */
  function Popped<T>(events: seq<Event<T>>, n: nat): seq<T>
    requires n <= |events|
  {
    if n == 0 || events[n - 1].Clear? then []
    else Popped(events, n - 1) + PoppedBy(At(events, n - 1), events[n - 1])
  }

  lemma QueueStep<T>(pushed: seq<T>, popped: seq<T>, s: State<T>, e: Event<T>)
    requires pushed == popped + s.queue && !e.Clear?
    ensures pushed + PushedBy(s, e) == popped + PoppedBy(s, e) + Next(s, e).queue
  {
    if Taken(s, e).Some? {
      assert s.queue == [s.queue[0]] + s.queue[1..];
    }
  }

  /** Up to SIZE_MAX values, all that were pushed were put into the queue. */
  lemma {:induction false} AllPushed<T>(events: seq<Event<T>>, n: nat)
    requires n <= |events| && |PushValues(events, n)| <= SIZE_MAX
    ensures Pushed(events, n) == PushValues(events, n)
  {
    if n > 0 && !events[n - 1].Clear? {
      AllPushed(events, n - 1);
      QueueWithinPushes(events, n - 1);
    }
  }

  /** In the order of the mutex, consumers get the values that were pushed, first in
      first out, and what they did not get yet is in the queue; for any interleaving,
      with timeouts or without.  Beyond SIZE_MAX values since the last clear, the same
      holds of those pushes that found the queue not full. */
  lemma {:induction false} FirstInFirstOut<T>(events: seq<Event<T>>, n: nat)
    requires n <= |events| && Run(events, n)
    ensures Pushed(events, n) == Popped(events, n) + At(events, n).queue
    ensures |PushValues(events, n)| <= SIZE_MAX ==> PushValues(events, n) == Popped(events, n) + At(events, n).queue
  {
    if n > 0 && !events[n - 1].Clear? {
      FirstInFirstOut(events, n - 1);
      QueueStep(Pushed(events, n - 1), Popped(events, n - 1), At(events, n - 1), events[n - 1]);
    }
    if |PushValues(events, n)| <= SIZE_MAX {
      AllPushed(events, n);
    }
  }

  /** A consumer that comes back with nothing has removed nothing. */
  lemma FailedPopKeeps<T>(s: State<T>, e: Event<T>)
    requires Enabled(s, e) && (e.Pop? || e.Return?) && Taken(s, e) == None
    ensures Next(s, e).queue == s.queue
  {
  }

  /** A pop without a timeout takes the first value there is; if there is none it may
      come back with nothing all the same, after a spurious wakeup or, with SIZE_MAX
      consumers waiting, at once. */
  lemma PopMayFail<T>(s: State<T>, thread: nat)
    requires Enabled(s, Pop(thread, false))
    ensures s.queue != [] ==> Taken(s, Pop(thread, false)) == Some(s.queue[0])
    ensures s.queue == [] && s.waiting < SIZE_MAX ==>
              var a := Next(s, Pop(thread, false));
              var b := Next(a, Wake(thread));
              && Enabled(a, Wake(thread)) && Enabled(b, Return(thread)) && Taken(b, Return(thread)) == None
              && Next(b, Return(thread)).(timed := s.timed) == s
    ensures s.queue == [] && s.waiting >= SIZE_MAX ==> Taken(s, Pop(thread, false)) == None && Next(s, Pop(thread, false)) == s
  {
    if s.queue == [] && s.waiting < SIZE_MAX {
      var b := Next(Next(s, Pop(thread, false)), Wake(thread));
      assert b.asleep == s.asleep && b.woken == s.woken + {thread};
      assert b.woken - {thread} == s.woken && b.expired - {thread} == s.expired;
    }
  }
}
