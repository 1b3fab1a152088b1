/** libcurl's threaded resolver: a started resolver thread and the connection that owns
    the lookup share one `thread_data`, guarded by a mutex, and one `done` flag in it
    decides who releases it. The two parties are a transition system; a run is any
    interleaving of their steps. */
module ResolverThread {
  import opened Basics

  /** What the look-up produces: a list of addresses (named by a number) or an error. */
  datatype Answer = Found(list: nat) | Failed(error: int)

  datatype Party = Owner | Resolver

  datatype Mutex = Unlocked | Locked(holder: Party)

  /** Where the resolver thread is in `getaddrinfo_thread`. */
  datatype ThreadAt = Resolving | Acquiring | Testing | LeavingLate | LeavingFirst | Destroying | Freeing | Exited

  /** Where the connection is: between calls, in `Curl_resolver_is_resolved`, in
      `Curl_resolver_wait_resolv`, or in `destroy_async_data`. */
  datatype OwnerAt =
    | Idle
    | PollAcquiring | PollReading | PollLeaving(seen: bool)
    | Waiting
    | Completing
    | MarkAcquiring | Marking | MarkLeaving(seen: bool)
    | Detaching
    | Joining | OwnerDestroying | OwnerFreeing
    | Gone

  /** The shared data, and a history of what has been released or handed over. */
  datatype State = State(
    thread: ThreadAt,
    owner: OwnerAt,
    mutex: Mutex,
    done: bool,
    res: Option<Answer>,
    handle: bool,
    interval: nat,
    intervalEnd: int,
    answer: Option<Answer>,
    first: Option<Party>,
    freedBy: seq<Party>,
    destroyed: nat,
    handed: seq<Answer>,
    listsFreed: seq<nat>,
    joined: nat,
    detached: nat)

  /** The thread has just been started. */
  const STARTED := State(Resolving, Idle, Unlocked, false, None, true, 0, 0, None, None, [], 0, [], [], 0, 0)

  datatype Action =
    | Resolve(answer: Answer) | ThreadAcquire | Test | ThreadRelease | ThreadDestroy | ThreadFree
    | Poll | Wait | Cancel
    | OwnerAcquire | ReadDone | Mark | OwnerRelease(elapsed: nat)
    | WaitJoin | Complete | Detach | Join | OwnerDestroy | OwnerFree

  predicate Enabled(s: State, a: Action) {
    match a
    case Resolve(_) => s.thread == Resolving
    case ThreadAcquire => s.thread == Acquiring && s.mutex == Unlocked
    case Test => s.thread == Testing
    case ThreadRelease => s.thread == LeavingLate || s.thread == LeavingFirst
    case ThreadDestroy => s.thread == Destroying
    case ThreadFree => s.thread == Freeing
    case Poll => s.owner == Idle
    case Wait => s.owner == Idle
    case Cancel => s.owner == Idle
    case OwnerAcquire => (s.owner == PollAcquiring || s.owner == MarkAcquiring) && s.mutex == Unlocked
    case ReadDone => s.owner == PollReading
    case Mark => s.owner == Marking
    case OwnerRelease(_) => s.owner.PollLeaving? || s.owner.MarkLeaving?
    case WaitJoin => s.owner == Waiting && s.thread == Exited
    case Complete => s.owner == Completing
    case Detach => s.owner == Detaching
    case Join => s.owner == Joining && (s.handle ==> s.thread == Exited)
    case OwnerDestroy => s.owner == OwnerDestroying
    case OwnerFree => s.owner == OwnerFreeing
  }

  /** The poll interval after a poll that found nothing: 1 ms, then doubled whenever the
      last interval has passed, at most 250 ms. */
  function NextInterval(interval: nat, expired: bool): nat {
    var next := if interval == 0 then 1 else if expired then interval * 2 else interval;
    if next > 250 then 250 else next
  }

  /** `destroy_thread_sync_data`: frees the mutex and the list, and clears everything. */
  function Destroy(s: State): State {
    s.(destroyed := s.destroyed + 1,
       listsFreed := if s.res.Some? && s.res.value.Found? then s.listsFreed + [s.res.value.list] else s.listsFreed,
       res := None, done := false)
  }

  function SetDone(s: State, who: Party): State {
    s.(done := true, first := if s.first == None then Some(who) else s.first)
  }

  function Step(s: State, a: Action): State
    requires Enabled(s, a)
  {
    match a
    case Resolve(answer) => s.(thread := Acquiring, answer := Some(answer), res := Some(answer))
    case ThreadAcquire => s.(thread := Testing, mutex := Locked(Resolver))
    case Test => if s.done then s.(thread := LeavingLate) else SetDone(s, Resolver).(thread := LeavingFirst)
    case ThreadRelease => s.(mutex := Unlocked, thread := if s.thread == LeavingLate then Destroying else Exited)
    case ThreadDestroy => Destroy(s).(thread := Freeing)
    case ThreadFree => s.(freedBy := s.freedBy + [Resolver], thread := Exited)
    case Poll => s.(owner := PollAcquiring)
    case Wait => s.(owner := Waiting)
    case Cancel => s.(owner := MarkAcquiring)
    case OwnerAcquire => s.(mutex := Locked(Owner), owner := if s.owner == PollAcquiring then PollReading else Marking)
    case ReadDone => s.(owner := PollLeaving(s.done))
    case Mark => SetDone(s, Owner).(owner := MarkLeaving(s.done))
    case OwnerRelease(elapsed) =>
      if s.owner.MarkLeaving? then s.(mutex := Unlocked, owner := if s.owner.seen then Joining else Detaching)
      else if s.owner.seen then s.(mutex := Unlocked, owner := Completing)
      else
        var interval := NextInterval(s.interval, elapsed >= s.intervalEnd);
        s.(mutex := Unlocked, owner := Idle, interval := interval, intervalEnd := elapsed + interval)
    case WaitJoin => s.(handle := false, joined := s.joined + 1, owner := Completing)
    case Complete =>
      s.(handed := if s.res.Some? then s.handed + [s.res.value] else s.handed, res := None, owner := MarkAcquiring)
    case Detach => s.(detached := s.detached + 1, owner := Gone)
    case Join =>
      if s.handle then s.(handle := false, joined := s.joined + 1, owner := OwnerDestroying)
      else s.(owner := OwnerDestroying)
    case OwnerDestroy => Destroy(s).(owner := OwnerFreeing)
    case OwnerFree => s.(freedBy := s.freedBy + [Owner], owner := Gone)
  }

  /** Whether a step reads or writes the shared `thread_data`. */
  predicate Touches(a: Action) {
    a != Poll && a != Wait && a != Cancel
  }

  /** The steps `actions`, in whatever order the two parties take them, lead from `s` to `t`. */
  ghost predicate Leads(s: State, actions: seq<Action>, t: State)
    decreases |actions|
  {
    if actions == [] then s == t
    else Enabled(s, actions[0]) && Leads(Step(s, actions[0]), actions[1..], t)
  }

  /** `s` comes up in some run. */
  ghost predicate Reachable(s: State) {
    exists actions :: Leads(STARTED, actions, s)
  }

  // ---------------------------------------------------------------------- invariant

  predicate ThreadHolds(t: ThreadAt) {
    t == Testing || t == LeavingLate || t == LeavingFirst
  }

  predicate OwnerHolds(o: OwnerAt) {
    o == PollReading || o.PollLeaving? || o == Marking || o.MarkLeaving?
  }

  /** Who holds the mutex. */
  predicate MutexInv(s: State) {
    match s.mutex
    case Unlocked => !ThreadHolds(s.thread) && !OwnerHolds(s.owner)
    case Locked(Resolver) => ThreadHolds(s.thread) && !OwnerHolds(s.owner)
    case Locked(Owner) => !ThreadHolds(s.thread) && OwnerHolds(s.owner)
  }

  /** The thread before it has looked at the flag. */
  predicate Early(t: ThreadAt) {
    t == Resolving || t == Acquiring || t == Testing
  }

  /** The owner before it has learnt that the result is there. */
  predicate Asking(o: OwnerAt) {
    o == Idle || o == PollAcquiring || o == PollReading || o == PollLeaving(false) || o == Waiting
  }

  /** The owner about to mark the data. */
  predicate Leaving(o: OwnerAt) {
    o == MarkAcquiring || o == Marking
  }

  /** The owner with the result in hand, and after. */
  predicate Informed(o: OwnerAt) {
    o == PollLeaving(true) || o == Completing
  }

  /** The owner cleaning up because the flag was already set. */
  predicate CleaningUp(o: OwnerAt) {
    o == MarkLeaving(true) || o == Joining || o == OwnerDestroying || o == OwnerFreeing
  }

  /** Who set the flag first decides where both parties can be. */
  predicate FlagInv(s: State) {
    && s.done == (s.first.Some? && s.destroyed == 0)
    && match s.first
       case None => Early(s.thread) && (Asking(s.owner) || (Leaving(s.owner) && s.handed == []))
       case Some(Resolver) =>
         (s.thread == LeavingFirst || s.thread == Exited)
         && (Asking(s.owner) || Leaving(s.owner) || Informed(s.owner) || CleaningUp(s.owner) || s.owner == Gone)
       case Some(Owner) =>
         (Early(s.thread) || s.thread == LeavingLate || s.thread == Destroying || s.thread == Freeing
           || s.thread == Exited)
         && ((s.owner == MarkLeaving(false) && Early(s.thread)) || s.owner == Detaching || s.owner == Gone)
  }

  /** The shared data is destroyed once and freed once, by the party that found the flag set. */
  predicate FreeInv(s: State) {
    match s.first
    case None => s.destroyed == 0 && s.freedBy == []
    case Some(Resolver) =>
      && s.destroyed == (if s.owner == OwnerFreeing || s.owner == Gone then 1 else 0)
      && s.freedBy == (if s.owner == Gone then [Owner] else [])
    case Some(Owner) =>
      && s.destroyed == (if s.thread == Freeing || s.thread == Exited then 1 else 0)
      && s.freedBy == (if s.thread == Exited then [Resolver] else [])
  }

  /** The result is in the shared data until it is handed over or freed. */
  predicate ListInv(s: State) {
    && (s.answer == None <==> s.thread == Resolving)
    && (s.handed == [] || (s.answer.Some? && s.handed == [s.answer.value]))
    && (s.handed != [] ==> s.first == Some(Resolver) && (Leaving(s.owner) || CleaningUp(s.owner) || s.owner == Gone))
    && s.res == (if s.handed == [] && s.destroyed == 0 then s.answer else None)
    && s.listsFreed ==
       (if s.handed == [] && s.destroyed == 1 && s.answer.Some? && s.answer.value.Found? then [s.answer.value.list]
        else [])
  }

  /** The thread handle is given back once, by a join or a detach. */
  predicate HandleInv(s: State) {
    && s.handle == (s.joined == 0)
    && s.joined + s.detached <= 1
    && (s.joined == 1 ==>
          s.thread == Exited && s.first == Some(Resolver) && !Asking(s.owner) && s.owner != PollLeaving(true))
    && (s.detached == 1 <==> s.first == Some(Owner) && s.owner == Gone)
    && (s.owner == OwnerDestroying || s.owner == OwnerFreeing || (s.owner == Gone && s.first == Some(Resolver)) ==>
          s.joined == 1)
  }

  /** The back-off interval: not polled yet, a power of two below 250, or 250. */
  predicate IntervalInv(s: State) {
    s.interval in {0, 1, 2, 4, 8, 16, 32, 64, 128, 250}
  }

  predicate Inv(s: State) {
    MutexInv(s) && FlagInv(s) && FreeInv(s) && ListInv(s) && HandleInv(s) && IntervalInv(s)
  }

  predicate OfThread(a: Action) {
    a.Resolve? || a == ThreadAcquire || a == Test || a == ThreadRelease || a == ThreadDestroy || a == ThreadFree
  }

  lemma HandedLate(s: State)
    requires Inv(s)
    ensures s.handed != [] ==> s.first == Some(Resolver)
  {
  }

  lemma ThreadKeepsMutexInv(s: State, a: Action)
    requires Inv(s) && Enabled(s, a) && OfThread(a)
    ensures MutexInv(Step(s, a))
  {
    hide ListInv, FreeInv, IntervalInv;
  }

  lemma OwnerKeepsMutexInv(s: State, a: Action)
    requires Inv(s) && Enabled(s, a) && !OfThread(a)
    ensures MutexInv(Step(s, a))
  {
    hide ListInv, FreeInv, IntervalInv;
  }

  lemma StepKeepsMutexInv(s: State, a: Action)
    requires Inv(s) && Enabled(s, a)
    ensures MutexInv(Step(s, a))
  {
    hide *;
    if OfThread(a) {
      ThreadKeepsMutexInv(s, a);
    } else {
      OwnerKeepsMutexInv(s, a);
    }
  }

  lemma ThreadKeepsFlagInv(s: State, a: Action)
    requires Inv(s) && Enabled(s, a) && OfThread(a)
    ensures FlagInv(Step(s, a))
  {
    hide ListInv, IntervalInv;
  }

  lemma OwnerKeepsFlagInv(s: State, a: Action)
    requires Inv(s) && Enabled(s, a) && !OfThread(a)
    ensures FlagInv(Step(s, a))
  {
    hide ListInv, IntervalInv;
    HandedLate(s);
  }

  lemma StepKeepsFlagInv(s: State, a: Action)
    requires Inv(s) && Enabled(s, a)
    ensures FlagInv(Step(s, a))
  {
    hide *;
    if OfThread(a) {
      ThreadKeepsFlagInv(s, a);
    } else {
      OwnerKeepsFlagInv(s, a);
    }
  }

  lemma ThreadKeepsFreeInv(s: State, a: Action)
    requires Inv(s) && Enabled(s, a) && OfThread(a)
    ensures FreeInv(Step(s, a))
  {
    hide ListInv, HandleInv, IntervalInv;
  }

  lemma OwnerKeepsFreeInv(s: State, a: Action)
    requires Inv(s) && Enabled(s, a) && !OfThread(a)
    ensures FreeInv(Step(s, a))
  {
    hide ListInv, HandleInv, IntervalInv;
  }

  lemma StepKeepsFreeInv(s: State, a: Action)
    requires Inv(s) && Enabled(s, a)
    ensures FreeInv(Step(s, a))
  {
    hide *;
    if OfThread(a) {
      ThreadKeepsFreeInv(s, a);
    } else {
      OwnerKeepsFreeInv(s, a);
    }
  }

  lemma ThreadKeepsListInv(s: State, a: Action)
    requires Inv(s) && Enabled(s, a) && OfThread(a)
    ensures ListInv(Step(s, a))
  {
    hide HandleInv, IntervalInv;
  }

  /** The owner's steps from the result on. */
  predicate Ends(a: Action) {
    a == Complete || a == Detach || a == Join || a == OwnerDestroy || a == OwnerFree
  }

  lemma EndKeepsListInv(s: State, a: Action)
    requires Inv(s) && Enabled(s, a) && Ends(a)
    ensures ListInv(Step(s, a))
  {
    hide HandleInv, IntervalInv;
  }

  /** Before that they do not touch the list. */
  lemma AskingLeavesList(s: State, a: Action)
    requires Enabled(s, a) && !OfThread(a) && !Ends(a)
    ensures var t := Step(s, a);
            && t.answer == s.answer && t.res == s.res && t.handed == s.handed && t.listsFreed == s.listsFreed
            && t.destroyed == s.destroyed && t.thread == s.thread
  {
  }

  lemma AskingGoesOn(s: State, a: Action)
    requires Inv(s) && Enabled(s, a) && !OfThread(a) && !Ends(a) && s.handed != []
    ensures var t := Step(s, a);
            t.first == Some(Resolver) && (Leaving(t.owner) || CleaningUp(t.owner) || t.owner == Gone)
  {
    hide HandleInv, IntervalInv;
  }

  lemma AskingKeepsListInv(s: State, a: Action)
    requires Inv(s) && Enabled(s, a) && !OfThread(a) && !Ends(a)
    ensures ListInv(Step(s, a))
  {
    AskingLeavesList(s, a);
    if s.handed != [] {
      AskingGoesOn(s, a);
    }
    hide Step, Enabled, FlagInv, FreeInv, MutexInv, HandleInv, IntervalInv, OfThread, Ends;
  }

  lemma OwnerKeepsListInv(s: State, a: Action)
    requires Inv(s) && Enabled(s, a) && !OfThread(a)
    ensures ListInv(Step(s, a))
  {
    hide *;
    if Ends(a) {
      EndKeepsListInv(s, a);
    } else {
      AskingKeepsListInv(s, a);
    }
  }

  lemma StepKeepsListInv(s: State, a: Action)
    requires Inv(s) && Enabled(s, a)
    ensures ListInv(Step(s, a))
  {
    hide *;
    if OfThread(a) {
      ThreadKeepsListInv(s, a);
    } else {
      OwnerKeepsListInv(s, a);
    }
  }

  lemma ThreadKeepsHandleInv(s: State, a: Action)
    requires Inv(s) && Enabled(s, a) && OfThread(a)
    ensures HandleInv(Step(s, a))
  {
    hide ListInv, FreeInv, IntervalInv;
  }

  lemma OwnerKeepsHandleInv(s: State, a: Action)
    requires Inv(s) && Enabled(s, a) && !OfThread(a)
    ensures HandleInv(Step(s, a))
  {
    hide ListInv, FreeInv, IntervalInv;
  }

  lemma StepKeepsHandleInv(s: State, a: Action)
    requires Inv(s) && Enabled(s, a)
    ensures HandleInv(Step(s, a))
  {
    hide *;
    if OfThread(a) {
      ThreadKeepsHandleInv(s, a);
    } else {
      OwnerKeepsHandleInv(s, a);
    }
  }

  lemma StepKeepsIntervalInv(s: State, a: Action)
    requires Inv(s) && Enabled(s, a)
    ensures IntervalInv(Step(s, a))
  {
    hide MutexInv, FlagInv, FreeInv, ListInv, HandleInv;
  }

  lemma StepKeepsInv(s: State, a: Action)
    requires Inv(s) && Enabled(s, a)
    ensures Inv(Step(s, a))
  {
    StepKeepsMutexInv(s, a);
    StepKeepsFlagInv(s, a);
    StepKeepsFreeInv(s, a);
    StepKeepsListInv(s, a);
    StepKeepsHandleInv(s, a);
    StepKeepsIntervalInv(s, a);
    hide MutexInv, FlagInv, FreeInv, ListInv, HandleInv, IntervalInv, Step;
  }

  lemma {:induction false} RunKeepsInv(s: State, actions: seq<Action>, t: State)
    requires Inv(s) && Leads(s, actions, t)
    ensures Inv(t)
    decreases |actions|
  {
    hide Inv, Step, Enabled;
    if actions != [] {
      StepKeepsInv(s, actions[0]);
      RunKeepsInv(Step(s, actions[0]), actions[1..], t);
    }
  }

  /** The invariant holds throughout every run. */
  lemma Invariant(s: State)
    requires Reachable(s)
    ensures Inv(s)
  {
    var actions :| Leads(STARTED, actions, s);
    RunKeepsInv(STARTED, actions, s);
  }

  // ------------------------------------------------------------------------- safety

  function Other(p: Party): Party {
    if p == Owner then Resolver else Owner
  }

  /** Both parties are through. */
  predicate Final(s: State) {
    s.thread == Exited && s.owner == Gone
  }

  /** At every moment of every run nothing has been released twice: not the shared data,
      not the thread handle, and the address list has not been both handed over and freed. */
  lemma ReleasedAtMostOnce(s: State)
    requires Reachable(s)
    ensures |s.freedBy| <= 1 && s.destroyed <= 1 && s.joined + s.detached <= 1
            && |s.handed| + |s.listsFreed| <= 1
  {
    Invariant(s);
    hide MutexInv, IntervalInv, Step, Enabled;
  }

  /** Whoever frees the shared data is the party that was not first to set the flag, and
      it frees it only after both the flag and the sync data are done with. */
  lemma FreedByTheLater(s: State)
    requires Reachable(s)
    ensures s.freedBy == [] || (s.first.Some? && s.freedBy == [Other(s.first.value)] && s.destroyed == 1)
  {
    Invariant(s);
    hide MutexInv, IntervalInv, ListInv, HandleInv, Step, Enabled;
  }

  /** When both parties are through, the shared data, its mutex and the thread handle have
      each been released exactly once, and a list that was found has been either handed to
      the callback once or freed once. */
  lemma ReleasedExactlyOnce(s: State)
    requires Reachable(s) && Final(s)
    ensures |s.freedBy| == 1 && s.destroyed == 1 && s.joined + s.detached == 1 && s.answer.Some?
            && match s.answer.value
               case Found(list) => (s.handed == [Found(list)] && s.listsFreed == [])
                                   || (s.handed == [] && s.listsFreed == [list])
               case Failed(_) => s.listsFreed == []
  {
    Invariant(s);
    hide MutexInv, IntervalInv, Step, Enabled;
  }

  /** What `getaddrinfo_complete` hands over is what the resolver thread has found, read
      after the thread has set the flag, so after its last write. */
  lemma HandsOverTheAnswer(s: State)
    requires Reachable(s) && Enabled(s, Complete)
    ensures s.answer.Some? && s.first == Some(Resolver) && Step(s, Complete).handed == [s.answer.value]
  {
    Invariant(s);
    Completes(s);
    hide Inv;
  }

  lemma Completes(s: State)
    requires Inv(s) && s.owner == Completing
    ensures s.handed == [] && s.answer.Some? && s.res == s.answer && s.first == Some(Resolver)
  {
    hide MutexInv, IntervalInv, HandleInv;
    assert s.first == Some(Resolver);
    assert s.destroyed == 0;
  }

  /** No step but the detach uses the shared data after it has been freed. */
  lemma UsesLiveData(s: State, a: Action)
    requires Reachable(s) && Enabled(s, a) && Touches(a)
    ensures s.freedBy == [] || a == Detach
  {
    Invariant(s);
    UsesLive(s, a);
  }

  lemma UsesLive(s: State, a: Action)
    requires Inv(s) && Enabled(s, a) && Touches(a)
    ensures s.freedBy == [] || a == Detach
  {
    hide ListInv, IntervalInv;
  }

  /** The detach reads the handle out of the shared data after the mutex has been given
      back; the data is gone by then exactly when the thread has already finished. */
  lemma DetachIsLate(s: State)
    requires Reachable(s) && Enabled(s, Detach)
    ensures s.freedBy != [] <==> s.thread == Exited
  {
    Invariant(s);
    hide MutexInv, ListInv, HandleInv, IntervalInv, Step;
  }

  /** It does happen: the owner cancels, and the thread finishes before the owner goes on. */
  lemma DetachCanBeLate()
    ensures exists s :: Reachable(s) && Enabled(s, Detach) && s.freedBy == [Resolver]
  {
    hide Leads, Step;
    var marked := STARTED.(owner := Detaching, done := true, first := Some(Owner));
    var late := marked.(thread := Destroying, answer := Some(Failed(1)), res := Some(Failed(1)));
    var freed := late.(thread := Exited, res := None, done := false, destroyed := 1, freedBy := [Resolver]);
    OwnerMarks(marked);
    ThreadComesLate(marked, late);
    ThreadFrees(late, freed);
    LeadsOn(STARTED, [Cancel, OwnerAcquire, Mark, OwnerRelease(0)], marked,
            [Resolve(Failed(1)), ThreadAcquire, Test, ThreadRelease], late);
    LeadsOn(STARTED,
            [Cancel, OwnerAcquire, Mark, OwnerRelease(0)] + [Resolve(Failed(1)), ThreadAcquire, Test, ThreadRelease],
            late, [ThreadDestroy, ThreadFree], freed);
    assert Reachable(freed);
  }

  lemma OwnerMarks(marked: State)
    requires marked == STARTED.(owner := Detaching, done := true, first := Some(Owner))
    ensures Leads(STARTED, [Cancel, OwnerAcquire, Mark, OwnerRelease(0)], marked)
  {
    var s2 := Step(Step(STARTED, Cancel), OwnerAcquire);
    assert s2 == STARTED.(owner := Marking, mutex := Locked(Owner));
    assert Leads(s2, [Mark, OwnerRelease(0)], marked);
  }

  lemma ThreadComesLate(marked: State, late: State)
    requires marked == STARTED.(owner := Detaching, done := true, first := Some(Owner))
    requires late == marked.(thread := Destroying, answer := Some(Failed(1)), res := Some(Failed(1)))
    ensures Leads(marked, [Resolve(Failed(1)), ThreadAcquire, Test, ThreadRelease], late)
  {
    var s2 := Step(Step(marked, Resolve(Failed(1))), ThreadAcquire);
    assert s2 == late.(thread := Testing, mutex := Locked(Resolver));
    assert Leads(s2, [Test, ThreadRelease], late);
  }

  lemma ThreadFrees(late: State, freed: State)
    requires late.thread == Destroying && late.res == Some(Failed(1)) && late.freedBy == [] && late.destroyed == 0
    requires freed == late.(thread := Exited, res := None, done := false, destroyed := 1, freedBy := [Resolver])
    ensures Leads(late, [ThreadDestroy, ThreadFree], freed)
  {
  }

  lemma {:induction false} LeadsOn(s: State, actions: seq<Action>, t: State, more: seq<Action>, u: State)
    requires Leads(s, actions, t) && Leads(t, more, u)
    ensures Leads(s, actions + more, u)
    decreases |actions|
  {
    hide Step, Enabled;
    if actions == [] {
      assert actions + more == more;
    } else {
      LeadsOn(Step(s, actions[0]), actions[1..], t, more, u);
      assert (actions + more)[1..] == actions[1..] + more;
    }
  }

  // -------------------------------------------------------------------------- progress

  /** Every party can always go on until both are through: there is a step other than
      starting one more poll. */
  lemma NeverStuck(s: State)
    requires Reachable(s) && !Final(s)
    ensures exists a :: a != Poll && Enabled(s, a)
  {
    Invariant(s);
    if s.thread != Exited && !(s.thread == Acquiring && s.mutex == Locked(Owner)) {
      ThreadGoesOn(s);
    } else {
      OwnerGoesOn(s);
    }
  }

  lemma ThreadGoesOn(s: State)
    requires Inv(s) && s.thread != Exited && !(s.thread == Acquiring && s.mutex == Locked(Owner))
    ensures ThreadStep(s.thread) != Poll && Enabled(s, ThreadStep(s.thread))
  {
    hide FlagInv, FreeInv, ListInv, HandleInv, IntervalInv;
  }

  lemma OwnerGoesOn(s: State)
    requires Inv(s) && !Final(s) && (s.thread == Exited || (s.thread == Acquiring && s.mutex == Locked(Owner)))
    ensures OwnerStep(s.owner) != Poll && Enabled(s, OwnerStep(s.owner))
  {
    hide FlagInv, FreeInv, ListInv, HandleInv, IntervalInv;
  }

  function ThreadStep(t: ThreadAt): Action {
    match t
    case Resolving => Resolve(Failed(0))
    case Acquiring => ThreadAcquire
    case Testing => Test
    case LeavingLate => ThreadRelease
    case LeavingFirst => ThreadRelease
    case Destroying => ThreadDestroy
    case _ => ThreadFree
  }

  function OwnerStep(o: OwnerAt): Action {
    match o
    case Idle => Cancel
    case PollAcquiring => OwnerAcquire
    case PollReading => ReadDone
    case PollLeaving(_) => OwnerRelease(0)
    case Waiting => WaitJoin
    case Completing => Complete
    case MarkAcquiring => OwnerAcquire
    case Marking => Mark
    case MarkLeaving(_) => OwnerRelease(0)
    case Detaching => Detach
    case Joining => Join
    case OwnerDestroying => OwnerDestroy
    case _ => OwnerFree
  }

  /** How many steps the two parties still have to take. */
  function Left(s: State): nat {
    ThreadLeft(s.thread) + OwnerLeft(s.owner)
  }

  function ThreadLeft(t: ThreadAt): nat {
    match t
    case Resolving => 6
    case Acquiring => 5
    case Testing => 4
    case LeavingLate => 3
    case LeavingFirst => 3
    case Destroying => 2
    case Freeing => 1
    case Exited => 0
  }

  function OwnerLeft(o: OwnerAt): nat {
    match o
    case Idle => 9
    case PollAcquiring => 12
    case PollReading => 11
    case PollLeaving(_) => 10
    case Waiting => 8
    case Completing => 7
    case MarkAcquiring => 6
    case Marking => 5
    case MarkLeaving(_) => 4
    case Detaching => 1
    case Joining => 3
    case OwnerDestroying => 2
    case OwnerFreeing => 1
    case Gone => 0
  }

  function Polls(actions: seq<Action>): nat {
    if actions == [] then 0 else (if actions[0] == Poll then 1 else 0) + Polls(actions[1..])
  }

  lemma StepsRunOut(s: State, a: Action)
    requires Enabled(s, a)
    ensures Left(Step(s, a)) + 1 <= Left(s) + if a == Poll then 4 else 0
  {
  }

  lemma {:induction false} RunLength(s: State, actions: seq<Action>, t: State)
    requires Leads(s, actions, t)
    ensures |actions| + Left(t) <= Left(s) + 4 * Polls(actions)
    decreases |actions|
  {
    hide Left, Step, Enabled;
    if actions != [] {
      StepsRunOut(s, actions[0]);
      RunLength(Step(s, actions[0]), actions[1..], t);
    }
  }

  /** A run takes at most 15 steps and four more for each poll; being never stuck before
      the end, both parties get through once polling stops. */
  lemma RunsAreShort(actions: seq<Action>, t: State)
    requires Leads(STARTED, actions, t)
    ensures |actions| <= 15 + 4 * Polls(actions)
    ensures |actions| == 15 + 4 * Polls(actions) ==> Final(t)
  {
    RunLength(STARTED, actions, t);
  }

  // ------------------------------------------------------------- what a look-up comes to

  /** The flag is set by the thread, and the owner is not about to report otherwise. */
  predicate WillComplete(s: State) {
    s.first == Some(Resolver) && s.owner != PollLeaving(false)
  }

  lemma StepWillComplete(s: State, a: Action)
    requires Inv(s) && Enabled(s, a) && WillComplete(s)
    ensures WillComplete(Step(s, a))
    ensures (a == Poll ==> s.owner == Idle) && (Step(s, a).owner == Idle ==> s.owner == Idle)
    ensures a == Poll ==> Step(s, a).owner != Idle
  {
    hide ListInv, HandleInv, IntervalInv;
  }

  lemma {:induction false} PollsOnce(s: State, actions: seq<Action>, t: State)
    requires Inv(s) && WillComplete(s) && Leads(s, actions, t)
    ensures Polls(actions) <= if s.owner == Idle then 1 else 0
    decreases |actions|
  {
    hide Inv, Step, Enabled, WillComplete;
    if actions != [] {
      StepWillComplete(s, actions[0]);
      StepKeepsInv(s, actions[0]);
      PollsOnce(Step(s, actions[0]), actions[1..], t);
    }
  }

  /** Once the thread has set the flag, at most one more poll is started: it completes the
      look-up. */
  lemma LastPoll(before: seq<Action>, s: State, after: seq<Action>, t: State)
    requires Leads(STARTED, before, s) && s.first == Some(Resolver) && s.owner == Idle && Leads(s, after, t)
    ensures Polls(after) <= 1
  {
    hide Inv, Step, Leads;
    assert Reachable(s);
    Invariant(s);
    PollsOnce(s, after, t);
  }

  /** A poll that has read the flag set completes, and hands over the result; one that has
      read it unset comes back with nothing handed over, and the interval begins anew. */
  lemma PollEnds(s: State, elapsed: nat)
    requires Reachable(s) && s.owner.PollLeaving?
    ensures var t := Step(s, OwnerRelease(elapsed));
            if s.owner.seen then
              t.owner == Completing && s.answer.Some? && Step(t, Complete).handed == [s.answer.value]
            else t.owner == Idle && t.handed == [] && t.intervalEnd == elapsed + t.interval
  {
    Invariant(s);
    if s.owner.seen {
      var t := Step(s, OwnerRelease(elapsed));
      StepKeepsInv(s, OwnerRelease(elapsed));
      Completes(t);
    } else {
      NothingWhileAsking(s);
    }
    hide Inv, NextInterval;
  }

  lemma NothingWhileAsking(s: State)
    requires Inv(s) && Asking(s.owner)
    ensures s.handed == []
  {
    hide MutexInv, FlagInv, FreeInv, HandleInv, IntervalInv;
  }

  /** What the poll has read is the flag. */
  lemma PollReads(s: State)
    requires Reachable(s) && s.owner == PollReading
    ensures Step(s, ReadDone).owner == PollLeaving(s.first == Some(Resolver))
  {
    Invariant(s);
    hide ListInv, HandleInv, IntervalInv;
  }

  /** The owner has left without a cancel: then it has handed something over. */
  predicate Served(s: State) {
    s.first != Some(Owner) && (Leaving(s.owner) || CleaningUp(s.owner) || s.owner == Gone ==> s.handed != [])
  }

  /** The owner has cancelled. */
  predicate Dropped(s: State) {
    && s.handed == []
    && (Leaving(s.owner) || s.owner.MarkLeaving? || CleaningUp(s.owner) || s.owner == Detaching || s.owner == Gone)
  }

  lemma StepServes(s: State, a: Action)
    requires Inv(s) && Enabled(s, a) && Served(s) && a != Cancel
    ensures Served(Step(s, a))
  {
    if s.owner == Completing {
      Completes(s);
    }
    hide HandleInv, IntervalInv;
  }

  lemma StepDrops(s: State, a: Action)
    requires Inv(s) && Enabled(s, a) && (Dropped(s) || a == Cancel)
    ensures Dropped(Step(s, a))
  {
    if a == Cancel {
      NothingWhileAsking(s);
    }
    hide FlagInv, FreeInv, ListInv, HandleInv, IntervalInv, MutexInv;
  }

  lemma {:induction false} RunServes(s: State, actions: seq<Action>, t: State)
    requires Inv(s) && Served(s) && Leads(s, actions, t)
    ensures Inv(t) && if Cancel in actions then Dropped(t) else Served(t)
    decreases |actions|
  {
    hide Inv, Step, Enabled, Served, Dropped;
    if actions != [] {
      var a, rest := actions[0], actions[1..];
      assert actions == [a] + rest;
      StepKeepsInv(s, a);
      if a == Cancel {
        StepDrops(s, a);
        RunDrops(Step(s, a), rest, t);
      } else {
        StepServes(s, a);
        RunServes(Step(s, a), rest, t);
      }
    }
  }

  lemma {:induction false} RunDrops(s: State, actions: seq<Action>, t: State)
    requires Inv(s) && Dropped(s) && Leads(s, actions, t)
    ensures Inv(t) && Dropped(t)
    decreases |actions|
  {
    hide Inv, Step, Enabled, Dropped;
    if actions != [] {
      StepKeepsInv(s, actions[0]);
      StepDrops(s, actions[0]);
      RunDrops(Step(s, actions[0]), actions[1..], t);
    }
  }

  /** When both parties are through, the callback has been given what the thread found,
      unless the look-up was cancelled: then it has been given nothing. */
  lemma ServedUnlessCancelled(actions: seq<Action>, t: State)
    requires Leads(STARTED, actions, t) && Final(t)
    ensures t.answer.Some? && t.handed == if Cancel in actions then [] else [t.answer.value]
  {
    Invariant(STARTED) by {
      assert Leads(STARTED, [], STARTED);
    }
    assert Served(STARTED);
    RunServes(STARTED, actions, t);
    hide MutexInv, IntervalInv, HandleInv, Leads, Step;
  }

  // ------------------------------------------------------------------------ the back-off

  function Power2(k: nat): nat {
    if k == 0 then 1 else 2 * Power2(k - 1)
  }

  /** The interval after `k` polls that found nothing and whose interval had passed. */
  function BackOff(k: nat): nat {
    if k == 0 then 0 else if k > 8 then 250 else Power2(k - 1)
  }

  /** The lesser of a power of two and 250. */
  lemma {:induction false} BackOffIsCapped(k: nat)
    requires k > 0
    ensures BackOff(k) == if Power2(k - 1) > 250 then 250 else Power2(k - 1)
  {
    if k > 9 {
      BackOffIsCapped(k - 1);
    } else {
      assert Power2(0) == 1 && Power2(1) == 2 && Power2(2) == 4 && Power2(3) == 8 && Power2(4) == 16;
      assert Power2(5) == 32 && Power2(6) == 64 && Power2(7) == 128 && Power2(8) == 256;
    }
  }

  lemma BackOffGoesOn(k: nat)
    ensures NextInterval(BackOff(k), true) == BackOff(k + 1)
    ensures NextInterval(BackOff(k), false) == if k > 0 then BackOff(k) else BackOff(1)
    ensures BackOff(k) == 0 <==> k == 0
  {
    assert Power2(0) == 1 && Power2(1) == 2 && Power2(2) == 4 && Power2(3) == 8 && Power2(4) == 16;
    assert Power2(5) == 32 && Power2(6) == 64 && Power2(7) == 128;
  }

  /** How many polls of a run found nothing when their interval had passed, the first one included. */
  function Expired(s: State, actions: seq<Action>): nat
    decreases |actions|
  {
    if actions == [] || !Enabled(s, actions[0]) then 0
    else
      var a := actions[0];
      var expires :=
        s.owner == PollLeaving(false) && a.OwnerRelease? && (s.interval == 0 || a.elapsed >= s.intervalEnd);
      (if expires then 1 else 0)
      + Expired(Step(s, a), actions[1..])
  }

  lemma StepBacksOff(s: State, a: Action, k: nat)
    requires Enabled(s, a) && s.interval == BackOff(k)
    ensures Step(s, a).interval ==
            if s.owner == PollLeaving(false) && a.OwnerRelease? && (s.interval == 0 || a.elapsed >= s.intervalEnd)
            then BackOff(k + 1) else BackOff(k)
  {
    BackOffGoesOn(k);
    hide NextInterval, BackOff;
  }

  lemma {:induction false} RunBacksOff(s: State, actions: seq<Action>, t: State, k: nat)
    requires Leads(s, actions, t) && s.interval == BackOff(k)
    ensures t.interval == BackOff(k + Expired(s, actions))
    decreases |actions|
  {
    hide Step, Enabled, BackOff;
    if actions != [] {
      StepBacksOff(s, actions[0], k);
      RunBacksOff(Step(s, actions[0]), actions[1..], t,
                  if s.owner == PollLeaving(false) && actions[0].OwnerRelease?
                     && (s.interval == 0 || actions[0].elapsed >= s.intervalEnd) then k + 1 else k);
    }
  }

  /** The poll interval doubles with each poll that comes back after it has passed, from 1 ms
      up to 250 ms, and stays as it is otherwise. */
  lemma IntervalBacksOff(actions: seq<Action>, t: State)
    requires Leads(STARTED, actions, t)
    ensures t.interval == BackOff(Expired(STARTED, actions))
  {
    assert BackOff(0) == 0;
    hide Leads, Step;
    RunBacksOff(STARTED, actions, t, 0);
  }
}
