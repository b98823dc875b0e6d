/** The garbage collection of connection threads in SocketServer, as a step relation over the
    state that the acceptor, the connection threads, the collector and the owner share. A step
    is one atomic action: a read or write of an atomic, or a critical section that nothing can
    observe from inside. */
module ConnectionGc {

  type Id = nat

  /** A call of setTerminated that has written _terminated and not come to its end. Any thread may make
      one, also several at a time, and also after the thread of the connection has returned. */
  datatype Call =
    | ToSetFlag(id: Id)            // about to set _canContinueGC
    | ToNotify(id: Id)             // about to notify

  datatype Acceptor =
    | Accepting                    // about to look at _stop
    | Waiting                      // past its last look at _stop: about to lock _connectionsThreadsMutex
    | Registering(id: Id)          // the list is locked and the thread runs
    | Returned

  datatype Collector =
    | Start                        // about to lock _connectionsThreadsMutex
    | Scanning(at: nat)            // the list is locked and the iterator stands at this position
    | Joining(at: nat)             // ... and join has been called on the thread there
    | CheckStop                    // about to read _stopGc
    | Counting                     // _stopGc was set: about to lock the list and count
    | Decide                       // about to read _stopGc once more
    | Entering                     // _stopGc was clear: about to lock _conditionVariableMutexGC
    | Blocked(asleep: bool)        // inside wait; not asleep once a notification has come
    | Exited

  datatype Owner =
    | Idle                         // not started, or stopped and joined
    | Serving
    | JoiningAcceptor
    | SettingStopGc
    | SettingFlag                  // _stopGc is set
    | Notifying                    // _canContinueGC is set
    | JoiningCollector

  datatype State = State(
    started: set<Id>,              // every connection thread ever started
    terminated: set<Id>,           // _terminated
    flagged: set<Id>,              // those for which a call has set _canContinueGC
    finished: set<Id>,             // the threads that have returned
    calls: multiset<Call>,         // the calls of setTerminated under way
    list: seq<Id>,                 // _connectionsThreads
    joined: seq<Id>,               // the threads that have been joined, in order
    acceptor: Acceptor,
    collector: Collector,
    owner: Owner,
    stop: bool,
    stopGc: bool,
    canContinue: bool)

  datatype Step =
    | AcceptorReturns
    | AcceptorAccepts
    | AcceptorStarts(id: Id)
    | AcceptorPushes
    | SetsTerminated(id: Id)
    | SetsFlag(id: Id)
    | Notifies(id: Id)
    | Finishes(id: Id)
    | CollectorLocks
    | CollectorSkips
    | CollectorFinds
    | CollectorJoins
    | CollectorUnlocks
    | CollectorChecks
    | CollectorCounts
    | CollectorDecides
    | CollectorEnters
    | CollectorWakes
    | SpuriousWakeUp
    | OwnerStarts
    | OwnerStartsAgain
    | OwnerStopsAccepting
    | OwnerStops
    | OwnerJoinsAcceptor
    | OwnerSetsStopGc
    | OwnerSetsFlag
    | OwnerNotifies
    | OwnerJoinsCollector

  function Init(): State {
    State({}, {}, {}, {}, multiset{}, [], [], Returned, Exited, Idle, false, false, false)
  }

  predicate OfCollector(step: Step) {
    step.CollectorLocks? || step.CollectorSkips? || step.CollectorFinds? || step.CollectorJoins?
    || step.CollectorUnlocks? || step.CollectorChecks? || step.CollectorCounts? || step.CollectorDecides?
    || step.CollectorEnters? || step.CollectorWakes?
  }

  predicate OfOwner(step: Step) {
    step.OwnerStarts? || step.OwnerStartsAgain? || step.OwnerStopsAccepting? || step.OwnerStops?
    || step.OwnerJoinsAcceptor? || step.OwnerSetsStopGc? || step.OwnerSetsFlag? || step.OwnerNotifies?
    || step.OwnerJoinsCollector?
  }

  predicate OfAcceptor(step: Step) {
    step.AcceptorReturns? || step.AcceptorAccepts? || step.AcceptorStarts? || step.AcceptorPushes?
  }

  predicate ListFree(s: State) {
    !s.acceptor.Registering? && !s.collector.Scanning? && !s.collector.Joining?
  }

  /** The connection that the iterator of the collector stands on is one of these. */
  predicate Here(s: State, at: nat, ids: set<Id>) {
    at < |s.list| && s.list[at] in ids
  }

  predicate EnabledThread(s: State, step: Step) {
    match step
    case AcceptorReturns => s.acceptor.Accepting? && s.stop
    case AcceptorAccepts => s.acceptor.Accepting? && !s.stop
    case AcceptorStarts(id) => s.acceptor.Waiting? && ListFree(s) && id !in s.started
    case AcceptorPushes => s.acceptor.Registering?
    case SetsTerminated(id) => id in s.started
    case SetsFlag(id) => ToSetFlag(id) in s.calls
    case Notifies(id) => ToNotify(id) in s.calls
    case Finishes(id) => id in s.flagged && id !in s.finished   // its own call is over
    case SpuriousWakeUp => s.collector == Blocked(true)
    case _ => false
  }

  predicate EnabledCollector(s: State, step: Step) {
    match step
    case CollectorLocks => s.collector.Start? && ListFree(s)
    case CollectorSkips =>
      s.collector.Scanning? && s.collector.at < |s.list| && !Here(s, s.collector.at, s.terminated)
    case CollectorFinds => s.collector.Scanning? && Here(s, s.collector.at, s.terminated)
    case CollectorJoins => s.collector.Joining? && Here(s, s.collector.at, s.finished)
    case CollectorUnlocks => s.collector.Scanning? && s.collector.at >= |s.list|
    case CollectorChecks => s.collector.CheckStop?
    case CollectorCounts => s.collector.Counting? && ListFree(s)
    case CollectorDecides => s.collector.Decide?
    case CollectorEnters => s.collector.Entering?
    case CollectorWakes => s.collector == Blocked(false)
    case _ => false
  }

  predicate EnabledOwner(s: State, step: Step) {
    match step
    case OwnerStarts => s.owner.Idle?
    case OwnerStartsAgain => s.owner.Serving?
    case OwnerStopsAccepting => s.owner.Serving?
    case OwnerStops => s.owner.Serving?
    case OwnerJoinsAcceptor => s.owner.JoiningAcceptor? && s.acceptor.Returned?
    case OwnerSetsStopGc => s.owner.SettingStopGc?
    case OwnerSetsFlag => s.owner.SettingFlag?
    case OwnerNotifies => s.owner.Notifying?
    case OwnerJoinsCollector => s.owner.JoiningCollector? && s.collector.Exited?
    case _ => false
  }

  predicate Enabled(s: State, step: Step) {
    if OfCollector(step) then EnabledCollector(s, step)
    else if OfOwner(step) then EnabledOwner(s, step)
    else EnabledThread(s, step)
  }

  /** notify_one: wakes the collector if it waits, and is lost otherwise. */
  function NotifyOne(c: Collector): Collector {
    if c.Blocked? then Blocked(false) else c
  }

  /** The rest of the critical section of runGC once the predicate is looked at. */
  function TestFlag(s: State): State {
    if s.canContinue then s.(canContinue := false, collector := Start) else s.(collector := Blocked(true))
  }

  function Without(list: seq<Id>, at: nat): seq<Id>
    requires at < |list|
  {
    list[..at] + list[at + 1..]
  }

  /** What the acceptor, the connection threads and the callers of setTerminated do, and a spurious wake-up. */
  function ApplyThread(s: State, step: Step): State
    requires EnabledThread(s, step)
  {
    match step
    case AcceptorReturns => s.(acceptor := Returned)
    case AcceptorAccepts => s.(acceptor := Waiting)
    case AcceptorStarts(id) => s.(acceptor := Registering(id), started := s.started + {id})
    case AcceptorPushes => s.(acceptor := Accepting, list := s.list + [s.acceptor.id])
    case SetsTerminated(id) => s.(terminated := s.terminated + {id}, calls := s.calls + multiset{ToSetFlag(id)})
    case SetsFlag(id) =>
      s.(flagged := s.flagged + {id}, calls := s.calls - multiset{ToSetFlag(id)} + multiset{ToNotify(id)},
         canContinue := true)
    case Notifies(id) => s.(calls := s.calls - multiset{ToNotify(id)}, collector := NotifyOne(s.collector))
    case Finishes(id) => s.(finished := s.finished + {id})
    case SpuriousWakeUp => s.(collector := Blocked(false))
  }

  function ApplyCollector(s: State, step: Step): State
    requires EnabledCollector(s, step)
  {
    match step
    case CollectorLocks => s.(collector := Scanning(0))
    case CollectorSkips => s.(collector := Scanning(s.collector.at + 1))
    case CollectorFinds => s.(collector := Joining(s.collector.at))
    case CollectorJoins =>
      var at := s.collector.at;
      s.(collector := Scanning(at), joined := s.joined + [s.list[at]], list := Without(s.list, at))
    case CollectorUnlocks => s.(collector := CheckStop)
    case CollectorChecks => s.(collector := if s.stopGc then Counting else Decide)
    case CollectorCounts => s.(collector := if s.list == [] then Exited else Decide)
    case CollectorDecides => s.(collector := if s.stopGc then Start else Entering)
    case CollectorEnters => TestFlag(s)
    case CollectorWakes => TestFlag(s)
  }

  function ApplyOwner(s: State, step: Step): State
    requires EnabledOwner(s, step)
  {
    match step
    case OwnerStarts => s.(stop := false, acceptor := Accepting, collector := Start, owner := Serving)
    case OwnerStartsAgain => s.(stop := false)
    case OwnerStopsAccepting => s.(stop := true)
    case OwnerStops => s.(stop := true, owner := JoiningAcceptor)
    case OwnerJoinsAcceptor => s.(stop := false, owner := SettingStopGc)
    case OwnerSetsStopGc => s.(stopGc := true, owner := SettingFlag)
    case OwnerSetsFlag => s.(canContinue := true, owner := Notifying)
    case OwnerNotifies => s.(collector := NotifyOne(s.collector), owner := JoiningCollector)
    case OwnerJoinsCollector => s.(stopGc := false, owner := Idle)
  }

  function Apply(s: State, step: Step): State
    requires Enabled(s, step)
  {
    if OfCollector(step) then ApplyCollector(s, step)
    else if OfOwner(step) then ApplyOwner(s, step)
    else ApplyThread(s, step)
  }

  /** t can be reached from s by these steps, in this order. */
  ghost predicate Leads(s: State, steps: seq<Step>, t: State)
    decreases |steps|
  {
    if steps == [] then s == t
    else Enabled(s, steps[0]) && Leads(Apply(s, steps[0]), steps[1..], t)
  }

  // ----- Invariants.

  ghost predicate NoDuplicates(s: seq<Id>) {
    forall i, j | 0 <= i < j < |s| :: s[i] != s[j]
  }

  /** The list is locked by one thread at most, and the iterator stays inside it. */
  ghost predicate Locked(s: State) {
    && !(s.acceptor.Registering? && (s.collector.Scanning? || s.collector.Joining?))
    && (s.collector.Scanning? ==> s.collector.at <= |s.list|)
    && (s.collector.Joining? ==> Here(s, s.collector.at, s.terminated))
  }

  /** Every thread ever started is being registered, listed or joined, in one place only. */
  ghost predicate Accounted(s: State) {
    && NoDuplicates(s.list) && NoDuplicates(s.joined)
    && (forall id | id in s.list :: id in s.started && id !in s.joined)
    && (forall id | id in s.joined :: id in s.finished)
    && (s.acceptor.Registering? ==> s.acceptor.id in s.started
                                    && s.acceptor.id !in s.list && s.acceptor.id !in s.joined)
    && (forall id | id in s.started :: id in s.list || id in s.joined || s.acceptor == Registering(id))
  }

  /** A thread returns after a call for it has set the flag; a terminated connection for which none has
      still has a call on its way there. */
  ghost predicate Called(s: State) {
    && s.finished <= s.flagged <= s.terminated <= s.started
    && (forall id | id in s.terminated && id !in s.flagged :: ToSetFlag(id) in s.calls)
    && (forall call | call in s.calls :: call.id in s.terminated)
  }

  /** The owner has stopped the acceptor before it stops the collector, which leaves nothing behind. */
  ghost predicate Orderly(s: State) {
    && (s.stopGc <==> s.owner.SettingFlag? || s.owner.Notifying? || s.owner.JoiningCollector?)
    && (s.owner.Idle? || s.owner.SettingStopGc? || s.stopGc ==> s.acceptor.Returned?)
    && (s.owner.JoiningAcceptor? ==> s.stop)
    && (s.collector.Counting? ==> s.stopGc)
    && (s.owner.Idle? ==> s.collector.Exited?)
    && (s.collector.Exited? ==> s.list == [] && s.acceptor.Returned? && (s.owner.Idle? || s.stopGc))
  }

  /** The collector has not yet passed this position in the scan that it is making or about to make. */
  predicate WillScan(s: State, k: nat) {
    s.collector.Start? || ((s.collector.Scanning? || s.collector.Joining?) && s.collector.at <= k)
  }

  /** With the flag clear, every connection for which a call has set it is still ahead of the collector. */
  ghost predicate NothingForgotten(s: State) {
    && (forall k | 0 <= k < |s.list| && !s.canContinue :: s.list[k] in s.flagged ==> WillScan(s, k))
    && (s.acceptor.Registering? && s.acceptor.id in s.flagged && !s.canContinue ==> s.collector.Start?)
  }

  /** A collector that sleeps although the flag is set is about to be notified. */
  ghost predicate WakeUpComing(s: State) {
    s.collector == Blocked(true) && s.canContinue ==>
      s.owner.Notifying? || exists id :: ToNotify(id) in s.calls
  }

  /** A collector on its way into wait will see a stop request, and none sleeps once stop waits for it. */
  ghost predicate StopSeen(s: State) {
    && (s.stopGc && (s.collector.Entering? || s.collector.Blocked?) ==> s.canContinue || s.owner.SettingFlag?)
    && (s.owner.JoiningCollector? ==> s.collector != Blocked(true))
  }

  ghost predicate Inv(s: State) {
    Locked(s) && Accounted(s) && Called(s) && Orderly(s) && NothingForgotten(s) && WakeUpComing(s) && StopSeen(s)
  }

  lemma InitInv()
    ensures Inv(Init())
  {
  }

  lemma NoDuplicatesWithout(s: seq<Id>, at: nat)
    requires NoDuplicates(s) && at < |s|
    ensures NoDuplicates(Without(s, at)) && s[at] !in Without(s, at)
    ensures forall id :: id in s <==> id in Without(s, at) || id == s[at]
  {
    var t := Without(s, at);
    assert forall i | 0 <= i < |t| :: t[i] == s[if i < at then i else i + 1];
    forall id | id in s && id != s[at] ensures id in t {
      var i :| 0 <= i < |s| && s[i] == id;
      assert t[if i < at then i else i - 1] == id;
    }
  }

  lemma StepLocked(s: State, step: Step)
    requires Locked(s) && Orderly(s) && Enabled(s, step)
    ensures Locked(Apply(s, step))
  {
    hide Locked, Orderly, Enabled, Apply;
    if OfCollector(step) {
      CollectorStepLocked(s, step);
    } else if OfOwner(step) {
      OwnerStepLocked(s, step);
    } else {
      OtherStepLocked(s, step);
    }
  }

  lemma CollectorStepLocked(s: State, step: Step)
    requires Locked(s) && Orderly(s) && Enabled(s, step) && OfCollector(step)
    ensures Locked(Apply(s, step))
  {
    hide EnabledOwner, ApplyOwner, EnabledThread, ApplyThread;
  }

  lemma OwnerStepLocked(s: State, step: Step)
    requires Locked(s) && Orderly(s) && Enabled(s, step) && OfOwner(step)
    ensures Locked(Apply(s, step))
  {
    hide EnabledCollector, ApplyCollector, EnabledThread, ApplyThread;
  }

  lemma OtherStepLocked(s: State, step: Step)
    requires Locked(s) && Orderly(s) && Enabled(s, step) && !OfCollector(step) && !OfOwner(step)
    ensures Locked(Apply(s, step))
  {
    hide EnabledCollector, ApplyCollector, EnabledOwner, ApplyOwner;
  }

  lemma PushAccounted(s: State, t: State)
    requires Accounted(s) && s.acceptor.Registering?
    requires t.started == s.started && t.finished == s.finished && t.joined == s.joined
    requires t.acceptor == Accepting && t.list == s.list + [s.acceptor.id]
    ensures Accounted(t)
  {
  }

  lemma JoinAccounted(s: State, t: State, at: nat)
    requires Accounted(s) && Here(s, at, s.finished)
    requires t.started == s.started && t.finished == s.finished && t.acceptor == s.acceptor
    requires t.joined == s.joined + [s.list[at]] && t.list == Without(s.list, at)
    ensures Accounted(t)
  {
    hide Without;
    assert s.list[at] in s.list;
    NoDuplicatesWithout(s.list, at);
  }

  lemma StartAccounted(s: State, t: State, id: Id)
    requires Accounted(s) && !s.acceptor.Registering? && id !in s.started && s.finished <= s.started
    requires t.list == s.list && t.joined == s.joined && t.finished == s.finished && t.acceptor == Registering(id)
    requires t.started == s.started + {id}
    ensures Accounted(t)
  {
    hide NoDuplicates;
  }

  lemma SameAccounted(s: State, t: State)
    requires Accounted(s) && t.list == s.list && t.joined == s.joined
    requires t.started == s.started && s.finished <= t.finished
    requires t.acceptor == s.acceptor || (!s.acceptor.Registering? && !t.acceptor.Registering?)
    ensures Accounted(t)
  {
    hide NoDuplicates;
  }

  lemma StepAccounted(s: State, step: Step)
    requires Accounted(s) && Called(s) && Orderly(s) && Enabled(s, step)
    ensures Accounted(Apply(s, step))
  {
    hide Accounted, Called, Orderly, Enabled, Apply;
    if OfCollector(step) {
      CollectorStepAccounted(s, step);
    } else if OfOwner(step) {
      OwnerStepAccounted(s, step);
    } else {
      ThreadStepAccounted(s, step);
    }
  }

  lemma CollectorStepAccounted(s: State, step: Step)
    requires Accounted(s) && Enabled(s, step) && OfCollector(step)
    ensures Accounted(Apply(s, step))
  {
    hide Accounted, Without, EnabledOwner, ApplyOwner, EnabledThread, ApplyThread;
    if step.CollectorJoins? {
      JoinAccounted(s, Apply(s, step), s.collector.at);
    } else {
      SameAccounted(s, Apply(s, step));
    }
  }

  lemma OwnerStepAccounted(s: State, step: Step)
    requires Accounted(s) && Orderly(s) && Enabled(s, step) && OfOwner(step)
    ensures Accounted(Apply(s, step))
  {
    hide Accounted, EnabledCollector, ApplyCollector, EnabledThread, ApplyThread;
    SameAccounted(s, Apply(s, step));
  }

  lemma ThreadStepAccounted(s: State, step: Step)
    requires Accounted(s) && Called(s) && Enabled(s, step) && !OfCollector(step) && !OfOwner(step)
    ensures Accounted(Apply(s, step))
  {
    hide Accounted, EnabledCollector, ApplyCollector, EnabledOwner, ApplyOwner;
    var t := Apply(s, step);
    if step.AcceptorStarts? {
      StartAccounted(s, t, step.id);
    } else if step.AcceptorPushes? {
      PushAccounted(s, t);
    } else {
      SameAccounted(s, t);
    }
  }

  lemma BeginsCalled(s: State, t: State, id: Id)
    requires Called(s) && t.started == s.started && t.finished == s.finished && t.flagged == s.flagged
    requires id in s.started && t.terminated == s.terminated + {id} && t.calls == s.calls + multiset{ToSetFlag(id)}
    ensures Called(t)
  {
    forall x | x in t.terminated && x !in t.flagged ensures ToSetFlag(x) in t.calls {
      assert ToSetFlag(x) in s.calls || x == id;
    }
  }

  lemma FlagsCalled(s: State, t: State, id: Id)
    requires Called(s) && t.started == s.started && t.finished == s.finished && t.terminated == s.terminated
    requires ToSetFlag(id) in s.calls && t.flagged == s.flagged + {id}
    requires t.calls == s.calls - multiset{ToSetFlag(id)} + multiset{ToNotify(id)}
    ensures Called(t)
  {
    forall call | call in t.calls ensures call.id in t.terminated {
      assert call in s.calls || call == ToNotify(id);
    }
    forall x | x in t.terminated && x !in t.flagged ensures ToSetFlag(x) in t.calls {
      assert ToSetFlag(x) in s.calls;
    }
  }

  lemma NotifiesCalled(s: State, t: State, id: Id)
    requires Called(s) && t.started == s.started && t.finished == s.finished
    requires t.terminated == s.terminated && t.flagged == s.flagged && t.calls == s.calls - multiset{ToNotify(id)}
    ensures Called(t)
  {
    forall x | x in t.terminated && x !in t.flagged ensures ToSetFlag(x) in t.calls {
      assert ToSetFlag(x) in s.calls;
    }
  }

  lemma FinishesCalled(s: State, t: State, id: Id)
    requires Called(s) && id in s.flagged && t.finished == s.finished + {id} && t.started == s.started
    requires t.calls == s.calls && t.terminated == s.terminated && t.flagged == s.flagged
    ensures Called(t)
  {
  }

  lemma SameCalled(s: State, t: State)
    requires Called(s) && s.started <= t.started && t.finished == s.finished
    requires t.calls == s.calls && t.terminated == s.terminated && t.flagged == s.flagged
    ensures Called(t)
  {
  }

  lemma StepCalled(s: State, step: Step)
    requires Called(s) && Enabled(s, step)
    ensures Called(Apply(s, step))
  {
    hide Called, Enabled, Apply;
    if OfCollector(step) || OfOwner(step) {
      UncalledStepCalled(s, step);
    } else {
      ThreadStepCalled(s, step);
    }
  }

  lemma UncalledStepCalled(s: State, step: Step)
    requires Called(s) && Enabled(s, step) && (OfCollector(step) || OfOwner(step))
    ensures Called(Apply(s, step))
  {
    hide Called, EnabledThread, ApplyThread, Without;
    SameCalled(s, Apply(s, step));
  }

  lemma ThreadStepCalled(s: State, step: Step)
    requires Called(s) && Enabled(s, step) && !OfCollector(step) && !OfOwner(step)
    ensures Called(Apply(s, step))
  {
    hide Called, EnabledCollector, ApplyCollector, EnabledOwner, ApplyOwner;
    var t := Apply(s, step);
    if step.SetsTerminated? {
      BeginsCalled(s, t, step.id);
    } else if step.SetsFlag? {
      FlagsCalled(s, t, step.id);
    } else if step.Notifies? {
      NotifiesCalled(s, t, step.id);
    } else if step.Finishes? {
      FinishesCalled(s, t, step.id);
    } else {
      SameCalled(s, t);
    }
  }

  lemma StepOrderly(s: State, step: Step)
    requires Locked(s) && Orderly(s) && Enabled(s, step)
    ensures Orderly(Apply(s, step))
  {
    hide Locked, Orderly, Enabled, Apply;
    if OfCollector(step) {
      CollectorStepOrderly(s, step);
    } else if OfOwner(step) {
      OwnerStepOrderly(s, step);
    } else {
      OtherStepOrderly(s, step);
    }
  }

  lemma CollectorStepOrderly(s: State, step: Step)
    requires Locked(s) && Orderly(s) && Enabled(s, step) && OfCollector(step)
    ensures Orderly(Apply(s, step))
  {
    hide EnabledOwner, ApplyOwner, EnabledThread, ApplyThread;
  }

  lemma OwnerStepOrderly(s: State, step: Step)
    requires Locked(s) && Orderly(s) && Enabled(s, step) && OfOwner(step)
    ensures Orderly(Apply(s, step))
  {
    hide EnabledCollector, ApplyCollector, EnabledThread, ApplyThread;
  }

  lemma OtherStepOrderly(s: State, step: Step)
    requires Locked(s) && Orderly(s) && Enabled(s, step) && !OfCollector(step) && !OfOwner(step)
    ensures Orderly(Apply(s, step))
  {
    hide EnabledCollector, ApplyCollector, EnabledOwner, ApplyOwner;
  }

  lemma JoinNothingForgotten(s: State)
    requires Locked(s) && NothingForgotten(s) && Enabled(s, CollectorJoins)
    ensures NothingForgotten(Apply(s, CollectorJoins))
  {
    var t, at := Apply(s, CollectorJoins), s.collector.at;
    forall k | 0 <= k < |t.list| && !t.canContinue && t.list[k] in t.flagged ensures WillScan(t, k) {
      var j := if k < at then k else k + 1;
      assert t.list[k] == s.list[j];
      assert s.list[j] in s.flagged && WillScan(s, j);
    }
  }

  lemma PushNothingForgotten(s: State)
    requires NothingForgotten(s) && Enabled(s, AcceptorPushes)
    ensures NothingForgotten(Apply(s, AcceptorPushes))
  {
  }

  /** A step that leaves the list, and what is known of its members, as it is. */
  lemma SameNothingForgotten(s: State, t: State)
    requires NothingForgotten(s) && t.list == s.list && t.flagged == s.flagged
    requires t.acceptor == s.acceptor || !t.acceptor.Registering?
    requires !t.canContinue ==> !s.canContinue || t.collector.Start?
    requires forall k | 0 <= k < |s.list| && WillScan(s, k) :: WillScan(t, k) || s.list[k] !in s.flagged
    requires t.collector.Start? || s.collector == t.collector || !s.collector.Start? || !t.acceptor.Registering?
    requires s.acceptor.Registering? && s.collector.Start? ==> t.collector.Start?
    ensures NothingForgotten(t)
  {
    forall k | 0 <= k < |t.list| && !t.canContinue && t.list[k] in t.flagged ensures WillScan(t, k) {
      assert !s.canContinue ==> s.list[k] in s.flagged && WillScan(s, k);
    }
  }

  lemma CollectorNothingForgotten(s: State, step: Step)
    requires Locked(s) && Called(s) && NothingForgotten(s) && Enabled(s, step)
    requires OfCollector(step) && !step.CollectorJoins?
    ensures NothingForgotten(Apply(s, step))
  {
    hide NothingForgotten, EnabledOwner, ApplyOwner, EnabledThread, ApplyThread;
    SameNothingForgotten(s, Apply(s, step));
  }

  lemma OwnerNothingForgotten(s: State, step: Step)
    requires Orderly(s) && NothingForgotten(s) && Enabled(s, step) && OfOwner(step)
    ensures NothingForgotten(Apply(s, step))
  {
    hide NothingForgotten, EnabledCollector, ApplyCollector, EnabledThread, ApplyThread;
    SameNothingForgotten(s, Apply(s, step));
  }

  lemma ThreadNothingForgotten(s: State, step: Step)
    requires NothingForgotten(s) && Enabled(s, step) && !OfCollector(step) && !OfOwner(step)
    requires !step.AcceptorPushes? && !step.SetsFlag? && !step.AcceptorStarts?
    ensures NothingForgotten(Apply(s, step))
  {
    hide NothingForgotten, EnabledCollector, ApplyCollector, EnabledOwner, ApplyOwner;
    SameNothingForgotten(s, Apply(s, step));
  }

  lemma StartNothingForgotten(s: State, id: Id)
    requires Called(s) && NothingForgotten(s) && Enabled(s, AcceptorStarts(id))
    ensures NothingForgotten(Apply(s, AcceptorStarts(id)))
  {
  }

  lemma FlagNothingForgotten(s: State, id: Id)
    requires Enabled(s, SetsFlag(id))
    ensures NothingForgotten(Apply(s, SetsFlag(id)))
  {
  }

  lemma StepNothingForgotten(s: State, step: Step)
    requires Inv(s) && Enabled(s, step)
    ensures NothingForgotten(Apply(s, step))
  {
    hide Locked, Accounted, Called, Orderly, NothingForgotten, WakeUpComing, StopSeen, Enabled, Apply;
    if step.CollectorJoins? {
      JoinNothingForgotten(s);
    } else if OfCollector(step) {
      CollectorNothingForgotten(s, step);
    } else if OfOwner(step) {
      OwnerNothingForgotten(s, step);
    } else if step.AcceptorStarts? {
      StartNothingForgotten(s, step.id);
    } else if step.AcceptorPushes? {
      PushNothingForgotten(s);
    } else if step.SetsFlag? {
      FlagNothingForgotten(s, step.id);
    } else {
      ThreadNothingForgotten(s, step);
    }
  }

  lemma StepWakeUpComing(s: State, step: Step)
    requires WakeUpComing(s) && Enabled(s, step)
    ensures WakeUpComing(Apply(s, step))
  {
    hide WakeUpComing, Enabled, Apply;
    if OfCollector(step) {
      CollectorWakeUpComing(s, step);
    } else if OfOwner(step) {
      OwnerWakeUpComing(s, step);
    } else {
      ThreadWakeUpComing(s, step);
    }
  }

  lemma CollectorWakeUpComing(s: State, step: Step)
    requires WakeUpComing(s) && Enabled(s, step) && OfCollector(step)
    ensures WakeUpComing(Apply(s, step))
  {
    hide EnabledOwner, ApplyOwner, EnabledThread, ApplyThread;
  }

  lemma OwnerWakeUpComing(s: State, step: Step)
    requires WakeUpComing(s) && Enabled(s, step) && OfOwner(step)
    ensures WakeUpComing(Apply(s, step))
  {
    hide EnabledCollector, ApplyCollector, EnabledThread, ApplyThread;
    var t := Apply(s, step);
    if t.collector == Blocked(true) && t.canContinue && !t.owner.Notifying? {
      var id :| ToNotify(id) in s.calls;
      assert ToNotify(id) in t.calls;
    }
  }

  lemma ThreadWakeUpComing(s: State, step: Step)
    requires WakeUpComing(s) && Enabled(s, step) && !OfCollector(step) && !OfOwner(step)
    ensures WakeUpComing(Apply(s, step))
  {
    hide EnabledCollector, ApplyCollector, EnabledOwner, ApplyOwner;
    var t := Apply(s, step);
    if t.collector == Blocked(true) && t.canContinue && !t.owner.Notifying? {
      if step.SetsFlag? {
        assert ToNotify(step.id) in t.calls;
      } else {
        var id :| ToNotify(id) in s.calls;
        assert ToNotify(id) in t.calls;
      }
    }
  }

  lemma StepStopSeen(s: State, step: Step)
    requires Orderly(s) && StopSeen(s) && Enabled(s, step)
    ensures StopSeen(Apply(s, step))
  {
    hide Orderly, StopSeen, Enabled, Apply;
    if OfCollector(step) {
      CollectorStepStopSeen(s, step);
    } else if OfOwner(step) {
      OwnerStepStopSeen(s, step);
    } else {
      OtherStepStopSeen(s, step);
    }
  }

  lemma CollectorStepStopSeen(s: State, step: Step)
    requires Orderly(s) && StopSeen(s) && Enabled(s, step) && OfCollector(step)
    ensures StopSeen(Apply(s, step))
  {
    hide EnabledOwner, ApplyOwner, EnabledThread, ApplyThread;
  }

  lemma OwnerStepStopSeen(s: State, step: Step)
    requires Orderly(s) && StopSeen(s) && Enabled(s, step) && OfOwner(step)
    ensures StopSeen(Apply(s, step))
  {
    hide EnabledCollector, ApplyCollector, EnabledThread, ApplyThread;
  }

  lemma OtherStepStopSeen(s: State, step: Step)
    requires Orderly(s) && StopSeen(s) && Enabled(s, step) && !OfCollector(step) && !OfOwner(step)
    ensures StopSeen(Apply(s, step))
  {
    hide EnabledCollector, ApplyCollector, EnabledOwner, ApplyOwner;
  }

  /** The invariant holds after every step of every thread. */
  lemma StepInv(s: State, step: Step)
    requires Inv(s) && Enabled(s, step)
    ensures Inv(Apply(s, step))
  {
    hide Enabled, Apply, Locked, Accounted, Called, Orderly, NothingForgotten, WakeUpComing, StopSeen;
    StepLocked(s, step);
    StepAccounted(s, step);
    StepCalled(s, step);
    StepOrderly(s, step);
    StepNothingForgotten(s, step);
    StepWakeUpComing(s, step);
    StepStopSeen(s, step);
  }

  lemma {:induction false} LeadsInv(s: State, steps: seq<Step>, t: State)
    requires Inv(s) && Leads(s, steps, t)
    ensures Inv(t)
    decreases |steps|
  {
    hide Enabled, Apply, Inv;
    if steps != [] {
      StepInv(s, steps[0]);
      LeadsInv(Apply(s, steps[0]), steps[1..], t);
    }
  }

  ghost predicate Reachable(s: State) {
    exists steps :: Leads(Init(), steps, s)
  }

  lemma ReachableInv(s: State)
    requires Reachable(s)
    ensures Inv(s)
  {
    hide Enabled, Apply, Inv, Init;
    var steps :| Leads(Init(), steps, s);
    InitInv();
    LeadsInv(Init(), steps, s);
  }

  // ----- What holds over every interleaving.

  /** No wake-up is lost. A collector that sleeps with the flag clear has nothing to do: for no listed
      connection has a call set the flag, so that none has returned and a call is on its way for those that
      are terminated, and no stop has been asked for. A collector that sleeps with the flag set is about to
      be notified. */
  lemma NoLostWakeUp(s: State)
    requires Reachable(s) && s.collector == Blocked(true)
    ensures !s.canContinue ==> forall id | id in s.list || s.acceptor == Registering(id) ::
              id !in s.flagged && id !in s.finished && (id in s.terminated ==> ToSetFlag(id) in s.calls)
    ensures !s.canContinue ==> !s.stopGc || s.owner.SettingFlag?
    ensures s.canContinue ==> s.owner.Notifying? || exists id :: ToNotify(id) in s.calls
  {
    ReachableInv(s);
    if !s.canContinue {
      forall id | id in s.list ensures id !in s.flagged {
        var k :| 0 <= k < |s.list| && s.list[k] == id;
        assert !WillScan(s, k);
      }
    }
  }

  /** No thread is joined twice, or joined before it has finished, or listed after it was joined. */
  lemma JoinedOnce(s: State)
    requires Reachable(s)
    ensures NoDuplicates(s.joined) && NoDuplicates(s.list)
    ensures forall id | id in s.joined :: id in s.finished && id !in s.list
  {
    ReachableInv(s);
  }

  /** The collector exits only when the list is empty and the acceptor is gone, with every thread
      ever started joined; so does stop. */
  lemma ExitsEmpty(s: State)
    requires Reachable(s) && (s.collector.Exited? || s.owner.Idle?)
    ensures s.list == [] && s.acceptor.Returned?
    ensures forall id :: id in s.started <==> id in s.joined
  {
    ReachableInv(s);
  }

  // ----- What the collector gets done, whatever the other threads do.

  /** The step that the collector is about to take. */
  function NextStep(s: State): (step: Step)
    ensures OfCollector(step)
  {
    match s.collector
    case Start => CollectorLocks
    case Scanning(at) =>
      if at >= |s.list| then CollectorUnlocks else if Here(s, at, s.terminated) then CollectorFinds else CollectorSkips
    case Joining(_) => CollectorJoins
    case CheckStop => CollectorChecks
    case Counting => CollectorCounts
    case Decide => CollectorDecides
    case Entering => CollectorEnters
    case Blocked(_) => CollectorWakes
    case Exited => CollectorLocks
  }

  /** The collector cannot go on: it waits for the list, for a thread, or for a notification, or is gone. */
  predicate Stuck(s: State) {
    match s.collector
    case Start => s.acceptor.Registering?
    case Counting => s.acceptor.Registering?
    case Joining(at) => !Here(s, at, s.finished)
    case Blocked(asleep) => asleep
    case Exited => true
    case _ => false
  }

  /** The collector has one step at most, and none exactly when it is stuck. */
  lemma CollectorDeterministic(s: State, step: Step)
    requires Inv(s) && OfCollector(step)
    ensures Enabled(s, step) <==> step == NextStep(s) && !Stuck(s)
  {
    hide Accounted, Called, NothingForgotten, WakeUpComing, StopSeen;
  }

  /** How many of the steps are the collector's. */
  function Collected(steps: seq<Step>): (n: nat)
    ensures n <= |steps|
    decreases |steps|
  {
    if steps == [] then 0 else (if OfCollector(steps[0]) then 1 else 0) + Collected(steps[1..])
  }

  lemma {:induction false} Fits(list: seq<Id>, ids: set<Id>)
    requires NoDuplicates(list) && forall id | id in list :: id in ids
    ensures |list| <= |ids|
    decreases |list|
  {
    if list != [] {
      var n := |list| - 1;
      assert forall id | id in list[..n] :: id in ids - {list[n]};
      Fits(list[..n], ids - {list[n]});
    }
  }

  /** The connections that are listed or about to be. */
  function Handed(s: State): nat {
    |s.list| + if s.acceptor.Registering? then 1 else 0
  }

  lemma HandedFits(s: State)
    requires Accounted(s)
    ensures Handed(s) <= |s.started|
  {
    if s.acceptor.Registering? {
      Fits(s.list, s.started - {s.acceptor.id});
    } else {
      Fits(s.list, s.started);
    }
  }

  /** The steps that the collector of a running server has before it: to the end of its round, and one
      more round if the flag is set. */
  function Work(s: State): nat {
    (match s.collector
     case Start => 6 + 2 * Handed(s)
     case Scanning(at) => if at <= |s.list| then 5 + 2 * (|s.list| - at) else 0
     case Joining(at) => if at <= |s.list| then 4 + 2 * (|s.list| - at) else 0
     case CheckStop => 4
     case Counting => 0
     case Decide => 3
     case Entering => 2
     case Blocked(asleep) => if asleep then 0 else 1
     case Exited => 0) + if s.canContinue then 6 + 2 * Handed(s) else 0
  }

  /** Every step of the collector brings it nearer to its sleep. */
  lemma CollectorWorks(s: State, step: Step)
    requires Inv(s) && s.owner.Serving? && Enabled(s, step) && OfCollector(step)
    ensures Work(Apply(s, step)) < Work(s)
  {
    hide Accounted, Called, NothingForgotten, WakeUpComing, StopSeen, NoDuplicates;
  }

  /** A step of another thread, or a spurious wake-up, gives it one more round at most. */
  lemma OthersAddWork(s: State, step: Step)
    requires Inv(s) && s.owner.Serving? && Enabled(s, step) && !OfCollector(step) && !step.OwnerStops?
    ensures Work(Apply(s, step)) <= Work(s) + 8 + 2 * |Apply(s, step).started|
    ensures Apply(s, step).owner.Serving?
  {
    hide Inv, Work, Handed;
    HandedGrows(s, step);
    RoundsGrow(s, step);
  }

  lemma HandedGrows(s: State, step: Step)
    requires Inv(s) && Enabled(s, step)
    ensures Handed(Apply(s, step)) <= |Apply(s, step).started|
  {
    hide Enabled, Apply, Handed, Called, NothingForgotten, WakeUpComing, StopSeen;
    StepInv(s, step);
    HandedFits(Apply(s, step));
  }

  lemma RoundsGrow(s: State, step: Step)
    requires Inv(s) && s.owner.Serving? && Enabled(s, step) && !OfCollector(step) && !step.OwnerStops?
    ensures Work(Apply(s, step)) <= Work(s) + 8 + 2 * Handed(Apply(s, step))
  {
    hide Accounted, Called, Orderly, NothingForgotten, WakeUpComing, StopSeen, EnabledCollector, ApplyCollector;
  }

  lemma SubsetSize(a: set<Id>, b: set<Id>)
    requires a <= b
    ensures |a| <= |b|
  {
    assert b == a + (b - a);
  }

  lemma {:induction false} StartedGrows(s: State, steps: seq<Step>, t: State)
    requires Leads(s, steps, t)
    ensures |s.started| <= |t.started|
    decreases |steps|
  {
    if steps != [] {
      var u := Apply(s, steps[0]);
      assert s.started <= u.started;
      SubsetSize(s.started, u.started);
      StartedGrows(u, steps[1..], t);
    }
  }

  lemma OneMore(n: nat, b: nat)
    ensures (n + 1) * b == n * b + b
  {
  }

  /** The collector of a running server takes no more steps than it had before it and than the other
      threads give it, one round for each of their steps: over every interleaving it comes to rest once
      they do. */
  lemma {:induction false} WorkBounded(s: State, steps: seq<Step>, t: State)
    requires Inv(s) && s.owner.Serving? && Leads(s, steps, t) && forall step | step in steps :: !step.OwnerStops?
    ensures Inv(t) && t.owner.Serving?
    ensures Collected(steps) + Work(t) <= Work(s) + (|steps| - Collected(steps)) * (8 + 2 * |t.started|)
    decreases |steps|
  {
    hide Inv, Work, Enabled, Apply, OfCollector;
    if steps != [] {
      var step, rest := steps[0], steps[1..];
      var u := Apply(s, step);
      StepInv(s, step);
      StartedGrows(u, rest, t);
      assert forall x | x in rest :: x in steps;
      if OfCollector(step) {
        CollectorWorks(s, step);
        StillServing(s, step);
        WorkBounded(u, rest, t);
      } else {
        OthersAddWork(s, step);
        WorkBounded(u, rest, t);
        OneMore(|rest| - Collected(rest), 8 + 2 * |t.started|);
      }
    }
  }

  lemma StillServing(s: State, step: Step)
    requires s.owner.Serving? && Enabled(s, step) && OfCollector(step)
    ensures Apply(s, step).owner.Serving?
  {
    hide EnabledOwner, ApplyOwner, EnabledThread, ApplyThread, Without;
  }

  /** Every call has come to its end, every connection thread has returned or is not terminated, and none
      is being registered. */
  ghost predicate Quiet(s: State) {
    !s.acceptor.Registering? && s.calls == multiset{} && s.terminated == s.finished
  }

  /** In a quiet running server, a collector that cannot go on has joined exactly the threads that have returned. */
  lemma RestIsComplete(s: State)
    requires Inv(s) && s.owner.Serving? && Quiet(s) && Stuck(s)
    ensures s.collector == Blocked(true) && !s.canContinue
    ensures forall id | id in s.started :: id in s.joined <==> id in s.finished
  {
    forall k | 0 <= k < |s.list| ensures !s.canContinue ==> s.list[k] !in s.finished {
      assert s.collector == Blocked(true) ==> !WillScan(s, k);
    }
  }

  /** A terminated connection is collected without a stop, over every interleaving: in a running server,
      whatever has happened by the time the other threads are quiet, either every thread that has returned
      is joined, and none else, or the collector has a step to take; and the steps it takes are bounded. */
  lemma FinishedAreCollected(s: State, steps: seq<Step>, t: State)
    requires Reachable(s) && s.owner.Serving? && Leads(s, steps, t) && forall step | step in steps :: !step.OwnerStops?
    ensures Collected(steps) + Work(t) <= Work(s) + (|steps| - Collected(steps)) * (8 + 2 * |t.started|)
    ensures Quiet(t) ==> Enabled(t, NextStep(t)) || forall id | id in t.started :: id in t.joined <==> id in t.finished
  {
    hide Inv, Work, Enabled, Apply, Stuck;
    ReachableInv(s);
    WorkBounded(s, steps, t);
    CollectorDeterministic(t, NextStep(t));
    if Quiet(t) && Stuck(t) {
      RestIsComplete(t);
    }
  }

  // ----- One scan.

  /** The members of the list that are in the set, or those that are not, in order. */
  function Select(list: seq<Id>, ids: set<Id>, inside: bool): seq<Id>
    decreases |list|
  {
    if list == [] then []
    else (if (list[0] in ids) == inside then [list[0]] else []) + Select(list[1..], ids, inside)
  }

  /** The state after the rest of a scan: the finished threads joined in order, the others kept. */
  function Scanned(s: State): State
    requires s.collector.Scanning? || s.collector.Joining?
    requires s.collector.at <= |s.list|
  {
    var at := s.collector.at;
    s.(collector := CheckStop, list := s.list[..at] + Select(s.list[at..], s.finished, false),
       joined := s.joined + Select(s.list[at..], s.finished, true))
  }

  lemma ScannedEnd(s: State)
    requires s.collector.Scanning? && s.collector.at == |s.list|
    ensures Scanned(s) == s.(collector := CheckStop)
  {
    assert s.list[|s.list|..] == [] && s.list[..|s.list|] + [] == s.list && s.joined + [] == s.joined;
  }

  lemma SelectCons(list: seq<Id>, at: nat, ids: set<Id>, inside: bool)
    requires at < |list|
    ensures Select(list[at..], ids, inside) ==
      (if (list[at] in ids) == inside then [list[at]] else []) + Select(list[at + 1..], ids, inside)
  {
    assert list[at..][1..] == list[at + 1..];
  }

  lemma ScannedSkip(s: State, u: State)
    requires s.collector.Scanning? && s.collector.at < |s.list| && s.list[s.collector.at] !in s.finished
    requires u == s.(collector := Scanning(s.collector.at + 1))
    ensures Scanned(u) == Scanned(s)
  {
    hide Select;
    var at := s.collector.at;
    SelectCons(s.list, at, s.finished, true);
    SelectCons(s.list, at, s.finished, false);
    var rest := Select(s.list[at + 1..], s.finished, false);
    assert s.list[..at + 1] + rest == s.list[..at] + ([s.list[at]] + rest);
    assert [] + Select(s.list[at + 1..], s.finished, true) == Select(s.list[at + 1..], s.finished, true);
  }

  lemma ScannedJoin(s: State, u: State)
    requires s.collector.Joining? && Here(s, s.collector.at, s.finished)
    requires u == Apply(s, CollectorJoins)
    ensures Scanned(u) == Scanned(s)
  {
    hide Select;
    var at := s.collector.at;
    SelectCons(s.list, at, s.finished, true);
    SelectCons(s.list, at, s.finished, false);
    assert u.list[..at] == s.list[..at] && u.list[at..] == s.list[at + 1..];
    var rest := Select(s.list[at + 1..], s.finished, true);
    assert s.joined + [s.list[at]] + rest == s.joined + ([s.list[at]] + rest);
    assert [] + Select(s.list[at + 1..], s.finished, false) == Select(s.list[at + 1..], s.finished, false);
  }

  /** One step of a scan in a quiet state leaves its outcome as it is. */
  lemma ScanStep(s: State, step: Step)
    requires Locked(s) && Quiet(s) && (s.collector.Scanning? || s.collector.Joining?)
    requires Enabled(s, step) && OfCollector(step)
    ensures var u := Apply(s, step);
            if u.collector.CheckStop? then u == Scanned(s)
            else (u.collector.Scanning? || u.collector.Joining?) && u.collector.at <= |u.list|
                 && Quiet(u) && Scanned(u) == Scanned(s)
  {
    hide Scanned;
    match step
    case CollectorSkips => ScannedSkip(s, Apply(s, step));
    case CollectorJoins => ScannedJoin(s, Apply(s, step));
    case CollectorUnlocks => ScannedEnd(s);
    case CollectorFinds => FoundSame(s, Apply(s, step));
    case _ =>
  }

  lemma FoundSame(s: State, u: State)
    requires s.collector.Scanning? && s.collector.at <= |s.list| && u == s.(collector := Joining(s.collector.at))
    ensures Scanned(u) == Scanned(s)
  {
  }

  /** A scan that no other thread interferes with joins the finished threads in list order and keeps the others. */
  lemma {:induction false} ScanCollects(s: State, steps: seq<Step>, t: State)
    requires Inv(s) && Quiet(s) && (s.collector.Scanning? || s.collector.Joining?) && s.collector.at <= |s.list|
    requires Leads(s, steps, t) && forall step | step in steps :: OfCollector(step) && step != CollectorChecks
    requires t.collector.CheckStop?
    ensures t == Scanned(s)
    decreases |steps|
  {
    hide Accounted, Called, Orderly, NothingForgotten, WakeUpComing, StopSeen, Scanned, Enabled, Apply, Quiet,
         OfCollector;
    var u, rest := Apply(s, steps[0]), steps[1..];
    assert steps[0] in steps && forall step | step in rest :: step in steps;
    ScanStep(s, steps[0]);
    StepInv(s, steps[0]);
    if u.collector.CheckStop? {
      if rest != [] {
        assert rest[0] in rest;
        CollectorDeterministic(u, rest[0]);
      }
    } else {
      ScanCollects(u, rest, t);
    }
  }

  // ----- What can hold up the acceptor and stop.

  lemma FreshId(ids: set<Id>) returns (id: Id)
    ensures id !in ids
  {
    id := 0;
    var below: set<Id> := {};
    while id in ids
      invariant below <= ids && |below| == id && forall x | x in below :: x < id
      decreases |ids| - id
    {
      SubsetSize(below + {id}, ids);
      below := below + {id};
      id := id + 1;
    }
  }

  /** The collector has called join on a thread that has not returned, and holds the list. */
  predicate JoinsRunning(s: State) {
    s.collector.Joining? && !Here(s, s.collector.at, s.finished)
  }

  /** An acceptor about to register a connection is held up, with no step of the collector to wait for,
      exactly when the collector has called join on a thread that has not returned. */
  lemma AcceptorHeldUp(s: State, id: Id)
    requires Reachable(s) && s.acceptor.Waiting? && id !in s.started
    ensures !Enabled(s, AcceptorStarts(id)) && !Enabled(s, NextStep(s)) <==> JoinsRunning(s)
  {
    hide Inv;
    ReachableInv(s);
    CollectorDeterministic(s, NextStep(s));
  }

  /** Some step of the acceptor, of the collector or of the owner is possible. */
  ghost predicate Goes(s: State) {
    exists step :: Enabled(s, step) && (OfAcceptor(step) || OfCollector(step) || OfOwner(step))
  }

  /** A stop that waits for the acceptor is held up exactly when, besides, the acceptor is about to register:
      then it is up to a connection thread to return. */
  lemma StopHeldUp(s: State)
    requires Reachable(s) && s.owner.JoiningAcceptor?
    ensures !Goes(s) <==> s.acceptor.Waiting? && JoinsRunning(s)
  {
    ReachableInv(s);
    CollectorDeterministic(s, NextStep(s));
    if s.acceptor.Waiting? && JoinsRunning(s) {
      NothingGoes(s);
    } else {
      SomethingGoes(s);
    }
  }

  lemma NothingGoes(s: State)
    requires Inv(s) && s.owner.JoiningAcceptor? && s.acceptor.Waiting? && JoinsRunning(s)
    ensures !Goes(s)
  {
    hide Inv;
    forall step | OfAcceptor(step) || OfCollector(step) || OfOwner(step) ensures !Enabled(s, step) {
      if OfCollector(step) {
        CollectorDeterministic(s, step);
      }
    }
  }

  lemma SomethingGoes(s: State)
    requires Inv(s) && s.owner.JoiningAcceptor? && !(s.acceptor.Waiting? && JoinsRunning(s))
    ensures Goes(s)
  {
    hide Accounted, Called, NothingForgotten, WakeUpComing, StopSeen;
    match s.acceptor
    case Accepting => assert Enabled(s, AcceptorReturns);
    case Registering(_) => assert Enabled(s, AcceptorPushes);
    case Returned => assert Enabled(s, OwnerJoinsAcceptor);
    case Waiting =>
      if ListFree(s) {
        var id := FreshId(s.started);
        assert Enabled(s, AcceptorStarts(id));
      } else {
        assert Enabled(s, NextStep(s));
      }
  }

  lemma {:induction false} LeadsSnoc(s: State, steps: seq<Step>, t: State, step: Step)
    requires Leads(s, steps, t) && Enabled(t, step)
    ensures Leads(s, steps + [step], Apply(t, step))
    decreases |steps|
  {
    hide Enabled, Apply;
    if steps == [] {
      assert [step][1..] == [];
    } else {
      assert (steps + [step])[1..] == steps[1..] + [step];
      LeadsSnoc(Apply(s, steps[0]), steps[1..], t, step);
    }
  }

  lemma ReachableStep(s: State, step: Step, t: State)
    requires Reachable(s) && Enabled(s, step) && t == Apply(s, step)
    ensures Reachable(t)
  {
    hide Enabled, Apply, Leads;
    var steps :| Leads(Init(), steps, s);
    LeadsSnoc(Init(), steps, s, step);
  }

  /** A server with one connection, which another thread has just marked as terminated. */
  lemma OneMarked() returns (s: State)
    ensures s == State({0}, {0}, {}, {}, multiset{ToSetFlag(0)}, [0], [], Accepting, Start, Serving,
                       false, false, false)
    ensures Reachable(s)
  {
    hide Reachable;
    s := Init();
    InitReachable();
    var t := s.(acceptor := Accepting, collector := Start, owner := Serving);
    ReachableStep(s, OwnerStarts, t);
    s, t := t, t.(acceptor := Waiting);
    ReachableStep(s, AcceptorAccepts, t);
    s, t := t, t.(acceptor := Registering(0), started := {0});
    ReachableStep(s, AcceptorStarts(0), t);
    s, t := t, t.(acceptor := Accepting, list := [0]);
    ReachableStep(s, AcceptorPushes, t);
    s, t := t, t.(terminated := {0}, calls := multiset{ToSetFlag(0)});
    ReachableStep(s, SetsTerminated(0), t);
    s := t;
  }

  lemma InitReachable()
    ensures Reachable(Init())
  {
    var none: seq<Step> := [];
    assert Leads(Init(), none, Init());
  }

  /** Then the collector starts to join its thread, which runs on, the acceptor accepts one more connection,
      and stop is called. */
  lemma StopCanBeHeldUp() returns (s: State)
    ensures Reachable(s) && s.owner.JoiningAcceptor? && s.acceptor.Waiting? && JoinsRunning(s)
    ensures s.started == s.terminated == {0} && s.finished == {}
  {
    hide Reachable;
    s := OneMarked();
    var t := s.(collector := Scanning(0));
    ReachableStep(s, CollectorLocks, t);
    s, t := t, t.(collector := Joining(0));
    ReachableStep(s, CollectorFinds, t);
    s, t := t, t.(acceptor := Waiting);
    ReachableStep(s, AcceptorAccepts, t);
    s, t := t, t.(stop := true, owner := JoiningAcceptor);
    ReachableStep(s, OwnerStops, t);
    s := t;
  }

  // ----- The end of stop.

  /** stop waits for the collector and every connection thread has returned. */
  ghost predicate Ending(s: State) {
    Inv(s) && s.owner.JoiningCollector? && s.finished == s.started
  }

  /** The steps that the collector has before it when no thread is left running: to the end of its scan,
      and one more scan if something is left behind the iterator. */
  function StopWork(s: State): nat {
    match s.collector
    case Start => 6 + 2 * |s.list|
    case Scanning(at) => if at <= |s.list| then 1 + 2 * (|s.list| - at) + (if at == 0 then 2 else 9 + 2 * at) else 0
    case Joining(at) => if at <= |s.list| then 2 * (|s.list| - at) + (if at == 0 then 2 else 9 + 2 * at) else 0
    case CheckStop => if s.list == [] then 2 else 9 + 2 * |s.list|
    case Counting => if s.list == [] then 1 else 8 + 2 * |s.list|
    case Decide => 7 + 2 * |s.list|
    case Entering => 7 + 2 * |s.list|
    case Blocked(_) => 7 + 2 * |s.list|
    case Exited => 0
  }

  /** No other thread can give the collector work, and it gets on with every step. */
  lemma EndingStep(s: State, step: Step)
    requires Ending(s) && Enabled(s, step) && !step.OwnerJoinsCollector?
    ensures Ending(Apply(s, step))
    ensures StopWork(Apply(s, step)) + (if OfCollector(step) then 1 else 0) <= StopWork(s)
  {
    hide Inv, StopWork, Enabled, Apply, Locked;
    StepInv(s, step);
    EndingSees(s);
    EndingStays(s, step);
    EndingAdvances(s, step);
  }

  lemma EndingStays(s: State, step: Step)
    requires Enabled(s, step) && s.owner.JoiningCollector? && s.acceptor.Returned? && !step.OwnerJoinsCollector?
    requires s.finished == s.flagged == s.started
    ensures var t := Apply(s, step); t.owner.JoiningCollector? && t.started == s.started && t.finished == s.finished
  {
    hide Enabled, Apply;
    if OfCollector(step) {
      CollectorEndingStays(s, step);
    } else {
      OtherEndingStays(s, step);
    }
  }

  lemma CollectorEndingStays(s: State, step: Step)
    requires Enabled(s, step) && s.owner.JoiningCollector? && s.acceptor.Returned? && !step.OwnerJoinsCollector?
    requires s.finished == s.flagged == s.started
    requires OfCollector(step)
    ensures var t := Apply(s, step); t.owner.JoiningCollector? && t.started == s.started && t.finished == s.finished
  {
    hide EnabledOwner, ApplyOwner, EnabledThread, ApplyThread, Without;
  }

  lemma OtherEndingStays(s: State, step: Step)
    requires Enabled(s, step) && s.owner.JoiningCollector? && s.acceptor.Returned? && !step.OwnerJoinsCollector?
    requires s.finished == s.flagged == s.started
    requires !OfCollector(step)
    ensures var t := Apply(s, step); t.owner.JoiningCollector? && t.started == s.started && t.finished == s.finished
  {
    hide EnabledCollector, ApplyCollector;
  }

  lemma EndingAdvances(s: State, step: Step)
    requires Locked(s) && Enabled(s, step) && s.owner.JoiningCollector? && s.acceptor.Returned? && s.stopGc
    requires s.collector != Blocked(true) && (s.collector.Entering? || s.collector.Blocked? ==> s.canContinue)
    requires s.collector.Scanning? && s.collector.at < |s.list| ==> s.list[s.collector.at] in s.terminated
    ensures StopWork(Apply(s, step)) + (if OfCollector(step) then 1 else 0) <= StopWork(s)
  {
    hide Enabled, Apply, StopWork, Locked;
    if OfCollector(step) {
      CollectorAdvances(s, step);
    } else {
      OthersDoNotDelay(s, step);
    }
  }

  lemma CollectorAdvances(s: State, step: Step)
    requires Locked(s) && Enabled(s, step) && s.owner.JoiningCollector? && s.acceptor.Returned? && s.stopGc
    requires s.collector != Blocked(true) && (s.collector.Entering? || s.collector.Blocked? ==> s.canContinue)
    requires s.collector.Scanning? && s.collector.at < |s.list| ==> s.list[s.collector.at] in s.terminated
    requires OfCollector(step)
    ensures StopWork(Apply(s, step)) < StopWork(s)
  {
    hide EnabledOwner, ApplyOwner, EnabledThread, ApplyThread;
  }

  lemma OthersDoNotDelay(s: State, step: Step)
    requires Enabled(s, step) && s.owner.JoiningCollector? && s.acceptor.Returned? && !OfCollector(step)
    requires s.collector != Blocked(true)
    ensures StopWork(Apply(s, step)) <= StopWork(s)
  {
    hide EnabledCollector, ApplyCollector;
  }

  /** What the invariant says of a collector that is being waited for. */
  lemma EndingSees(s: State)
    requires Ending(s)
    ensures s.stopGc && s.acceptor.Returned? && Locked(s) && s.collector != Blocked(true)
    ensures s.collector.Entering? || s.collector.Blocked? ==> s.canContinue
    ensures s.finished == s.flagged == s.terminated == s.started
    ensures s.collector.Scanning? && s.collector.at < |s.list| ==> s.list[s.collector.at] in s.terminated
    ensures Stuck(s) ==> s.collector.Exited?
  {
    hide NoDuplicates;
    if (s.collector.Joining? || s.collector.Scanning?) && s.collector.at < |s.list| {
      assert s.list[s.collector.at] in s.list;
    }
  }

  lemma {:induction false} EndingSteps(s: State, steps: seq<Step>, t: State)
    requires Ending(s) && Leads(s, steps, t) && OwnerJoinsCollector !in steps
    ensures Ending(t) && Collected(steps) + StopWork(t) <= StopWork(s)
    decreases |steps|
  {
    hide Ending, StopWork, Enabled, Apply, OfCollector;
    if steps != [] {
      EndingStep(s, steps[0]);
      assert forall x | x in steps[1..] :: x in steps;
      EndingSteps(Apply(s, steps[0]), steps[1..], t);
    }
  }

  /** stop comes to an end, over every interleaving: once every connection thread has returned, the
      collector takes a bounded number of steps, and has one to take until it exits. */
  lemma StopCompletes(s: State, steps: seq<Step>, t: State)
    requires Reachable(s) && s.owner.JoiningCollector? && s.finished == s.started
    requires Leads(s, steps, t) && OwnerJoinsCollector !in steps
    ensures Collected(steps) + StopWork(t) <= StopWork(s)
    ensures t.collector.Exited? || Enabled(t, NextStep(t))
    ensures t.collector.Exited? ==> Enabled(t, OwnerJoinsCollector)
  {
    hide Inv, StopWork, Leads, Stuck;
    ReachableInv(s);
    EndingSteps(s, steps, t);
    CollectorDeterministic(t, NextStep(t));
    EndingSees(t);
  }
}
