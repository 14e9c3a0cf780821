/** Runs that show why each assumption of the protocol results is there. Each starts from any initial state. */
module Witnesses {
  import opened Store
  import opened Blocks
  import opened Protocol
  import Sums
  import opened Ledgers
  import opened Replies
  import opened Traffic

  /** Some run leads from s to t. */
  ghost predicate Reaches(s: State, t: State) {
    exists ls :: Runs(s, ls, t)
  }

  lemma Stay(s: State)
    ensures Reaches(s, s)
  {
    assert Runs(s, [], s);
  }

  lemma Go(s: State, t: State, l: Label)
    requires Reaches(s, t) && Enabled(t, l)
    ensures Reaches(s, Apply(t, l))
  {
    var ls :| Runs(s, ls, t);
    var u := Apply(t, l);
    assert Runs(u, [l][1..], u);
    RunsConcat(s, ls, t, [l], u);
  }

  lemma ReachesTransitive(s: State, t: State, u: State)
    requires Reaches(s, t) && Reaches(t, u)
    ensures Reaches(s, u)
  {
    var ls :| Runs(s, ls, t);
    var ms :| Runs(t, ms, u);
    RunsConcat(s, ls, t, ms, u);
  }

  predicate Quiet(s: State) {
    s.requests == [] && s.hand == None && s.replies == [] && s.callbacks == []
  }

  // ----- pieces of runs

  function AfterCopy(s: State, gotMemory: bool): History {
    if s.variant.PlanA? && !gotMemory then s.past.(voided := s.past.voided + 1) else s.past
  }

  /** The only callback finishes: it copies its message and gives a permit back. */
  lemma CallbackFinishes(s: State, m: Message, gotMemory: bool)
    requires s.callbacks == [Copying(m)]
    ensures Reaches(s, s.(callbacks := [], cbSem := s.cbSem + 1, past := AfterCopy(s, gotMemory),
                          buffer := Install(s.variant, s.buffer, m.data, gotMemory)))
  {
    Stay(s);
    Go(s, s, CallbackStep(0, gotMemory));
    var s1 := Apply(s, CallbackStep(0, gotMemory));
    assert s1.callbacks == [Releasing];
    Go(s, s1, CallbackStep(0, true));
    var s2 := Apply(s1, CallbackStep(0, true));
    assert s2.callbacks == [];
  }

  /** With a permit free, a waiting reader takes it, gives it back, and copies the buffer out. */
  lemma ReaderReturns(s: State, i: nat)
    requires i < |s.calls| && s.calls[i].request.ReadAt? && s.calls[i].pc.Wait? && s.cbSem > 0
    ensures Reaches(s, s.(calls := s.calls[i := s.calls[i].(pc := Copy)]))
    ensures Reaches(s, s.(calls := s.calls[i := s.calls[i].(pc := UpCn, got := Take(s.buffer, s.calls[i].request.count))]))
  {
    Stay(s);
    Go(s, s, Thread(i, 0));
    var s1 := Apply(s, Thread(i, 0));
    assert s1.requests == s.requests && s1.log == s.log;
    Go(s, s1, Thread(i, 0));
    var s2 := Apply(s1, Thread(i, 0));
    assert s2 == s.(calls := s.calls[i := s.calls[i].(pc := Copy)]) by {
      assert s2.requests == s.requests && s2.log == s.log;
    }
    Go(s, s2, Thread(i, 0));
    var s3 := Apply(s2, Thread(i, 0));
    assert s3 == s.(calls := s.calls[i := s.calls[i].(pc := UpCn, got := Take(s.buffer, s.calls[i].request.count))]) by {
      assert s3.requests == s.requests && s3.log == s.log;
    }
  }

  lemma Finish(s: State, i: nat)
    requires i < |s.calls| && s.calls[i].pc.Copy? && s.calls[i].request.ReadAt?
    ensures Reaches(s, s.(cnSem := s.cnSem + 1,
                          calls := s.calls[i := s.calls[i].(pc := Done, got := Take(s.buffer, s.calls[i].request.count))]))
  {
    Stay(s);
    Go(s, s, Thread(i, 0));
    var s1 := Apply(s, Thread(i, 0));
    assert s1 == s.(calls := s.calls[i := s.calls[i].(pc := UpCn, got := Take(s.buffer, s.calls[i].request.count))]) by {
      assert s.log + [] == s.log && s.requests + [] == s.requests;
    }
    Go(s, s1, Thread(i, 0));
    assert Apply(s1, Thread(i, 0)) ==
           s.(cnSem := s.cnSem + 1,
              calls := s.calls[i := s.calls[i].(pc := Done, got := Take(s.buffer, s.calls[i].request.count))]) by {
      assert s.log + [] == s.log && s.requests + [] == s.requests;
    }
  }

  /** The two unlocked steps of a kernel-module read: allocate, and take the number. */
  lemma Prepare(s: State, i: nat)
    requires s.variant.KernelModule? && i < |s.calls| && s.calls[i].pc.EarlyAlloc?
    ensures Reaches(s, s.(calls := s.calls[i := s.calls[i].(pc := DownCn, seqNo := s.counter)]))
  {
    Stay(s);
    Go(s, s, Thread(i, 0));
    var s1 := Apply(s, Thread(i, 0));
    assert s1 == s.(calls := s.calls[i := s.calls[i].(pc := EarlyStamp)]) by {
      assert s.log + [] == s.log && s.requests + [] == s.requests;
    }
    Go(s, s1, Thread(i, 0));
    assert Apply(s1, Thread(i, 0)) == s.(calls := s.calls[i := s.calls[i].(pc := DownCn, seqNo := s.counter)]) by {
      assert s.log + [] == s.log && s.requests + [] == s.requests;
    }
  }

  /** Both first downs, of either variant. */
  lemma Locks(s: State, i: nat)
    requires s.cnSem > 0 && s.cbSem > 0 && i < |s.calls| && s.calls[i].pc.DownCn? && s.calls[i].request.ReadAt?
    ensures Reaches(s, s.(calls := s.calls[i := s.calls[i].(pc := if s.variant.PlanA? then Alloc else Send)],
                          cnSem := s.cnSem - 1, cbSem := s.cbSem - 1))
  {
    Stay(s);
    Go(s, s, Thread(i, 0));
    var s1 := Apply(s, Thread(i, 0));
    assert s1.log == s.log && s1.requests == s.requests;
    Go(s, s1, Thread(i, 0));
    var s2 := Apply(s1, Thread(i, 0));
    assert s2.log == s.log && s2.requests == s.requests;
    assert s2.calls == s.calls[i := s.calls[i].(pc := if s.variant.PlanA? then Alloc else Send)];
  }

  /** Plan A allocates and takes its number under the lock. */
  lemma PreparesLate(s: State, i: nat)
    requires i < |s.calls| && s.calls[i].pc.Alloc?
    ensures Reaches(s, s.(calls := s.calls[i := s.calls[i].(pc := if s.calls[i].request.ReadAt? then Send else FromUser,
                                                            seqNo := s.counter)]))
  {
    Stay(s);
    Go(s, s, Thread(i, 0));
    var s1 := Apply(s, Thread(i, 0));
    assert s1.log == s.log && s1.requests == s.requests;
    Go(s, s1, Thread(i, 0));
    var s2 := Apply(s1, Thread(i, 0));
    assert s2.log == s.log && s2.requests == s.requests;
    assert s2.calls == s.calls[i := s.calls[i].(pc := if s.calls[i].request.ReadAt? then Send else FromUser, seqNo := s.counter)];
  }

  lemma Sends(s: State, i: nat)
    requires i < |s.calls| && s.calls[i].pc.Send? && s.requests == []
    ensures var c := s.calls[i];
            var e := Entry(i, c.outgoing, c.seqNo);
            Reaches(s, s.(calls := s.calls[i := c.(pc := Bump, sentAt := Some(|s.log|))],
                          requests := [e], log := s.log + [e]))
  {
    Stay(s);
    Go(s, s, Thread(i, 0));
    assert s.requests + Sent(s, i, 0) == Sent(s, i, 0);
  }

  lemma CountsUp(s: State, i: nat)
    requires i < |s.calls| && s.calls[i].pc.Bump?
    ensures Reaches(s, s.(calls := s.calls[i := s.calls[i].(pc := if s.calls[i].request.ReadAt? then Wait else UpCn)],
                          counter := s.counter + 1))
  {
    Stay(s);
    Go(s, s, Thread(i, 0));
    assert s.log + [] == s.log && s.requests + [] == s.requests;
  }

  lemma SendsAndBumps(s: State, i: nat)
    requires i < |s.calls| && s.calls[i].pc.Send? && s.requests == []
    ensures var c := s.calls[i];
            var e := Entry(i, c.outgoing, c.seqNo);
            Reaches(s, s.(calls := s.calls[i := c.(pc := if c.request.ReadAt? then Wait else UpCn, sentAt := Some(|s.log|))],
                          counter := s.counter + 1, requests := [e], log := s.log + [e]))
  {
    var c := s.calls[i];
    var e := Entry(i, c.outgoing, c.seqNo);
    Sends(s, i);
    var s1 := s.(calls := s.calls[i := c.(pc := Bump, sentAt := Some(|s.log|))], requests := [e], log := s.log + [e]);
    CountsUp(s1, i);
    var c2 := c.(pc := if c.request.ReadAt? then Wait else UpCn, sentAt := Some(|s.log|));
    ReachesTransitive(s, s1, s1.(calls := s1.calls[i := c2], counter := s.counter + 1));
    assert s1.calls[i := c2] == s.calls[i := c2];
  }

  /** Lock, send and bump, in the kernel module. */
  lemma SoloSend(s: State, i: nat)
    requires s.variant.KernelModule? && Quiet(s) && s.cnSem > 0 && s.cbSem > 0
    requires i < |s.calls| && s.calls[i].pc.DownCn? && s.calls[i].request.ReadAt?
    ensures Reaches(s, s.(calls := s.calls[i := s.calls[i].(pc := Wait, sentAt := Some(|s.log|))],
                          cnSem := s.cnSem - 1, cbSem := s.cbSem - 1, counter := s.counter + 1,
                          requests := [Entry(i, s.calls[i].outgoing, s.calls[i].seqNo)],
                          log := s.log + [Entry(i, s.calls[i].outgoing, s.calls[i].seqNo)]))
  {
    var c := s.calls[i];
    var e := Entry(i, c.outgoing, c.seqNo);
    Locks(s, i);
    var s2 := s.(calls := s.calls[i := c.(pc := Send)], cnSem := s.cnSem - 1, cbSem := s.cbSem - 1);
    SendsAndBumps(s2, i);
    var t := s2.(calls := s2.calls[i := s2.calls[i].(pc := Wait, sentAt := Some(|s.log|))],
                 counter := s.counter + 1, requests := [e], log := s.log + [e]);
    ReachesTransitive(s, s2, t);
    assert t.calls == s.calls[i := c.(pc := Wait, sentAt := Some(|s.log|))];
  }

  /** The helper answers the one request and the callback installs the reply. */
  lemma SoloReply(s: State, e: Entry)
    requires s.requests == [e] && s.hand == None && s.replies == [] && s.callbacks == []
    requires s.cbSem == 0 && e.request.ReadAt?
    ensures Reaches(s, s.(cbSem := 1, requests := [], served := s.served + 1,
                          buffer := Install(s.variant, s.buffer,
                                            Fetch(s.files, e.request.ino, e.request.pos, e.request.count), true)))
  {
    var m := Reply(e.call, Fetch(s.files, e.request.ino, e.request.pos, e.request.count));
    ReplyUnderWay(s, e);
    var s3 := s.(requests := [], served := s.served + 1, callbacks := [Copying(m)]);
    CallbackFinishes(s3, m, true);
    ReachesTransitive(s, s3, s3.(callbacks := [], cbSem := 1, buffer := Install(s.variant, s.buffer, m.data, true)));
  }

  lemma ReplyUnderWay(s: State, e: Entry)
    requires s.requests == [e] && s.hand == None && s.replies == [] && s.callbacks == []
    requires s.cbSem == 0 && e.request.ReadAt?
    ensures var m := Reply(e.call, Fetch(s.files, e.request.ino, e.request.pos, e.request.count));
            Reaches(s, s.(requests := [], served := s.served + 1, callbacks := [Copying(m)]))
  {
    var m := Reply(e.call, Fetch(s.files, e.request.ino, e.request.pos, e.request.count));
    Stay(s);
    Go(s, s, HelperTake);
    var s1 := Apply(s, HelperTake);
    assert s1.requests == [];
    Go(s, s1, HelperServe(true));
    var s2 := Apply(s1, HelperServe(true));
    assert s2.replies == [m];
    Go(s, s2, Deliver);
    var s3 := Apply(s2, Deliver);
    assert s3.replies == [] && s3.callbacks == [Copying(m)];
  }

  // ----- a read of either variant up to its wait

  predicate Startable(s: State, i: nat) {
    && Quiet(s) && s.cnSem > 0 && s.cbSem > 0 && i < |s.calls|
    && s.calls[i].request.ReadAt? && s.calls[i].outgoing == s.calls[i].request
    && s.calls[i].pc == FirstPc(s.variant, s.calls[i].request)
  }

  /** Call i has sent its request and waits; nothing else has happened. */
  function Waiting(s: State, i: nat): State
    requires Startable(s, i)
  {
    var c := s.calls[i];
    var e := Entry(i, c.request, s.counter);
    s.(calls := s.calls[i := c.(pc := Wait, seqNo := s.counter, sentAt := Some(|s.log|))],
       cnSem := s.cnSem - 1, cbSem := s.cbSem - 1, counter := s.counter + 1, requests := [e], log := s.log + [e])
  }

  /** Call i has the lock, the permit, its message and its number. */
  function AboutToSend(s: State, i: nat): State
    requires Startable(s, i)
  {
    s.(calls := s.calls[i := s.calls[i].(pc := Send, seqNo := s.counter)], cnSem := s.cnSem - 1, cbSem := s.cbSem - 1)
  }

  lemma ReadsUpToTheSend(s: State, i: nat)
    requires Startable(s, i)
    ensures Reaches(s, AboutToSend(s, i))
  {
    var c := s.calls[i];
    var t := AboutToSend(s, i);
    if s.variant.KernelModule? {
      Prepare(s, i);
      var s1 := s.(calls := s.calls[i := c.(pc := DownCn, seqNo := s.counter)]);
      Locks(s1, i);
      assert s1.calls[i := s1.calls[i].(pc := Send)] == t.calls;
      ReachesTransitive(s, s1, t);
    } else {
      Locks(s, i);
      var s1 := s.(calls := s.calls[i := c.(pc := Alloc)], cnSem := s.cnSem - 1, cbSem := s.cbSem - 1);
      PreparesLate(s1, i);
      assert s1.calls[i := s1.calls[i].(pc := Send, seqNo := s.counter)] == t.calls;
      ReachesTransitive(s, s1, t);
    }
  }

  lemma ReadsUpToTheWait(s: State, i: nat)
    requires Startable(s, i)
    ensures Reaches(s, Waiting(s, i))
  {
    var t, w := AboutToSend(s, i), Waiting(s, i);
    ReadsUpToTheSend(s, i);
    SendsAndBumps(t, i);
    assert t.calls[i := t.calls[i].(pc := Wait, sentAt := Some(|s.log|))] == w.calls;
    ReachesTransitive(s, t, w);
  }

  lemma InitiallyStartable(s: State, i: nat)
    requires Initial(s) && i < |s.calls| && s.calls[i].request.ReadAt?
    ensures Startable(s, i) && Admissible(s.variant, s.calls[i].request)
  {
  }

  // ----- what a witness shows

  /** Call i, in the lock, has copied got out of the buffer where the answer to its request is answer. */
  ghost predicate Returned(t: State, i: nat, got: Bytes, answer: Bytes) {
    && i < |t.calls| && t.calls[i].pc.UpCn? && !t.calls[i].unlocked
    && Answerable(t, i) && t.calls[i].got == got && Answer(t, i) == answer
  }

  function Direct(files: Files, r: Request): Bytes
    requires r.ReadAt?
  {
    Fetch(files, r.ino, r.pos, r.count)
  }

  /** The answer to the first message of a log, and to the second. */
  lemma EarlyAnswers(t: State, i: nat)
    requires Answerable(t, i)
    ensures t.calls[i].sentAt.value == 0 ==> Answer(t, i) == Direct(t.initial, t.calls[i].request)
    ensures t.calls[i].sentAt.value == 1 ==>
              Answer(t, i) == Direct(Perform(t.initial, t.log[0].request), t.calls[i].request)
  {
    if t.calls[i].sentAt.value == 0 {
      assert Before(t.log, 0) == [];
    } else if t.calls[i].sentAt.value == 1 {
      var rs := Before(t.log, 1);
      assert rs == [t.log[0].request] && rs[..0] == [];
      assert Replay(t.initial, rs[..0]) == t.initial;
    }
  }

  // ----- lost replies

  /** t is reached from s with reader i waiting for a reply that will not come. In plan A nothing but a stray message
      can happen in t. In every continuation without intrusion the reader is still before its reply, and in plan A
      every other call, writers included, still outside the lock. */
  ghost predicate Dead(s: State, t: State, i: nat) {
    && Reaches(s, t) && i < |t.calls| && t.calls[i].pc.Wait? && t.past == s.past.(lost := 1)
    && (t.variant.PlanA? ==> forall l :: Enabled(t, l) ==> l.Unsolicited?)
    && (forall ms, u :: Runs(t, ms, u) && u.past.intruded == 0 ==> StillWaits(s, u, i))
  }

  predicate StillWaits(s: State, u: State, i: nat) {
    i < |u.calls| && BeforeReply(u.calls[i].pc) && (u.variant.PlanA? ==> Shut(s, u, i))
  }

  /** What the ways of losing a reply have in common. */
  predicate Stalled(s: State, t: State, i: nat) {
    && i < |s.calls| && s.calls[i].request.ReadAt? && t.variant == s.variant && Quiet(t) && t.cnSem == 0 && t.cbSem == 0
    && |t.calls| == |s.calls| && t.calls == s.calls[i := t.calls[i]] && t.calls[i].pc.Wait? && t.calls[i].request.ReadAt?
    && t.past == s.past.(lost := 1)
  }

  lemma StalledIsStuck(s: State, t: State, i: nat)
    requires Initial(s) && Stalled(s, t, i) && s.variant.PlanA?
    ensures forall l :: Enabled(t, l) ==> l.Unsolicited?
  {
    assert forall j :: 0 <= j < |t.calls| && j != i ==> t.calls[j].pc.DownCn?;
  }

  lemma StalledStaysSo(s: State, t: State, i: nat, ms: seq<Label>, u: State)
    requires Initial(s) && Books(t) && Stalled(s, t, i) && Runs(t, ms, u) && u.past.intruded == 0
    ensures StillWaits(s, u, i)
  {
    LossIsForever(t, ms, u, i);
    Fixed(t, ms, u);
    if s.variant.PlanA? {
      forall j | 0 <= j < |u.calls| && j != i ensures u.calls[j].pc.DownCn? {
        assert t.calls[j] == s.calls[j] && t.calls[j].pc == FirstPc(PlanA, t.calls[j].request);
        LossClosesTheLock(t, ms, u, i, j);
      }
    }
  }

  lemma StalledIsDead(s: State, t: State, i: nat)
    requires Initial(s) && Reaches(s, t) && Stalled(s, t, i)
    ensures Dead(s, t, i)
  {
    var ls :| Runs(s, ls, t);
    BooksInitially(s);
    BooksKept(s, ls, t);
    if s.variant.PlanA? {
      StalledIsStuck(s, t, i);
    }
    forall ms, u | Runs(t, ms, u) && u.past.intruded == 0 ensures StillWaits(s, u, i) {
      StalledStaysSo(s, t, i, ms, u);
    }
  }

  /** Plan A, from every start with a reader: a failed allocation is a deadlock. */
  lemma PlanAFailureIsADeadlock(s: State, i: nat)
    requires Initial(s) && s.variant.PlanA? && i < |s.calls| && s.calls[i].request.ReadAt?
    ensures exists t :: Dead(s, t, i) && t.log == []
  {
    var c := s.calls[i];
    Locks(s, i);
    var s2 := s.(calls := s.calls[i := c.(pc := Alloc)], cnSem := 0, cbSem := 0);
    Go(s, s2, Thread(i, 1));
    var s3 := Apply(s2, Thread(i, 1));
    assert s3.requests == [] && s3.log == [];
    CountsUp(s3, i);
    var t := s3.(calls := s3.calls[i := s3.calls[i].(pc := Wait)], counter := s3.counter + 1);
    ReachesTransitive(s, s3, t);
    StalledIsDead(s, t, i);
  }

  /** Either variant, from every start with a reader: a send that fails is one too. */
  lemma FailedSendIsADeadlock(s: State, i: nat)
    requires Initial(s) && i < |s.calls| && s.calls[i].request.ReadAt?
    ensures exists t :: Dead(s, t, i) && t.log == []
  {
    InitiallyStartable(s, i);
    ReadsUpToTheSend(s, i);
    var s2 := AboutToSend(s, i);
    Go(s, s2, Thread(i, 1));
    var s3 := Apply(s2, Thread(i, 1));
    assert s3.requests == [] && s3.log == [];
    CountsUp(s3, i);
    var t := s3.(calls := s3.calls[i := s3.calls[i].(pc := Wait)], counter := s3.counter + 1);
    ReachesTransitive(s, s3, t);
    StalledIsDead(s, t, i);
  }

  /** Either variant, from every start with a reader: so is a file that the helper cannot open. */
  lemma UnopenedFileIsADeadlock(s: State, i: nat)
    requires Initial(s) && i < |s.calls| && s.calls[i].request.ReadAt?
    ensures exists t :: Dead(s, t, i) && t.log == [Entry(i, s.calls[i].request, s.counter)] && t.served == 1
  {
    InitiallyStartable(s, i);
    ReadsUpToTheWait(s, i);
    var s1 := Waiting(s, i);
    Go(s, s1, HelperTake);
    var s2 := Apply(s1, HelperTake);
    assert s2.requests == [];
    Go(s, s2, HelperServe(false));
    StalledIsDead(s, Apply(s2, HelperServe(false)), i);
  }

  predicate Shut(s: State, u: State, i: nat) {
    && |u.calls| == |s.calls| && i < |u.calls| && BeforeReply(u.calls[i].pc)
    && forall j :: 0 <= j < |u.calls| && j != i ==> u.calls[j].pc.DownCn?
  }

  // ----- overlapping callbacks

  lemma OverlappingDeliveries(s: State, data: Bytes)
    requires Quiet(s) && s.cbSem == 1
    ensures Reaches(s, s.(cbSem := 0, callbacks := [Dropping, Copying(Noise(data))],
                          past := s.past.(intruded := s.past.intruded + 1)))
  {
    Stay(s);
    Go(s, s, Unsolicited(data));
    var s1 := Apply(s, Unsolicited(data));
    assert s1 == s.(replies := [Noise(data)]);
    Go(s, s1, Deliver);
    var s2 := Apply(s1, Deliver);
    assert s2 == s.(cbSem := 0, callbacks := [Dropping]);
    Go(s, s2, Unsolicited(data));
    var s3 := Apply(s2, Unsolicited(data));
    assert s3 == s2.(replies := [Noise(data)]);
    Go(s, s3, Deliver);
    var s4 := Apply(s3, Deliver);
    assert s4.replies == [] && s4.callbacks == [Dropping, Copying(Noise(data))];
  }

  /** The race of the callback's own remark: two stray messages whose callbacks overlap leave cb_sem with two
      permits, from every start and in both variants. */
  lemma OverlappingCallbacksMakeAPermit(s: State, data: Bytes)
    requires Initial(s)
    ensures exists t :: Reaches(s, t) && Quiet(t) && t.cbSem == 2 && t.past.intruded == 1
  {
    OverlappingDeliveries(s, data);
    var s4 := s.(cbSem := 0, callbacks := [Dropping, Copying(Noise(data))],
                 past := s.past.(intruded := s.past.intruded + 1));
    Go(s, s4, CallbackStep(0, true));
    var s5 := Apply(s4, CallbackStep(0, true));
    assert s5.callbacks == [Copying(Noise(data))];
    CallbackFinishes(s5, Noise(data), true);
    var t := s5.(callbacks := [], cbSem := 2, buffer := Install(s.variant, s5.buffer, data, true));
    ReachesTransitive(s, s5, t);
  }

  // ----- a stray message while a reader waits

  /** A stray message comes in while no permit is free. */
  lemma StrayComesIn(s: State, data: Bytes)
    requires s.replies == [] && s.callbacks == [] && s.cbSem == 0
    ensures Reaches(s, s.(callbacks := [Copying(Noise(data))], past := s.past.(intruded := s.past.intruded + 1)))
  {
    Stay(s);
    Go(s, s, Unsolicited(data));
    var s1 := Apply(s, Unsolicited(data));
    assert s1 == s.(replies := [Noise(data)]);
    Go(s, s1, Deliver);
    var s2 := Apply(s1, Deliver);
    assert s2.replies == [] && s2.callbacks == [Copying(Noise(data))];
  }

  /** What a copy of count bytes out of the buffer shows after a message with this data has been handled over a
      buffer that held before: in the kernel module the first block of the data and, behind a short message, what was
      there before; in plan A the data alone. */
  predicate Shows(v: Variant, got: Bytes, data: Bytes, before: Bytes, count: nat) {
    match v
    case KernelModule =>
      |got| == 1024 && |before| == 1024 && forall k :: 0 <= k < 1024 ==> got[k] == if k < |data| then data[k] else before[k]
    case PlanA =>
      |got| == (if |data| < count then |data| else count) && forall k :: 0 <= k < |got| ==> got[k] == data[k]
  }

  lemma InstallShows(v: Variant, buffer: Bytes, data: Bytes, count: nat)
    requires v.KernelModule? ==> |buffer| == 1024 && count == 1024
    ensures Shows(v, Take(Install(v, buffer, data, true), count), data, buffer, count)
  {
  }

  /** From every start with a reader, either variant: one stray message handled while it waits is what it returns,
      with its own request still in the channel. */
  lemma StrayMessageIsTakenForTheReply(s: State, i: nat, data: Bytes)
    requires Initial(s) && i < |s.calls| && s.calls[i].request.ReadAt?
    ensures exists t :: Reaches(s, t) && t.past == s.past.(intruded := 1) && |t.requests| == 1 && t.requests[0].call == i
              && i < |t.calls| && Returned(t, i, t.calls[i].got, Direct(s.initial, s.calls[i].request))
              && Shows(s.variant, t.calls[i].got, data, s.buffer, s.calls[i].request.count)
  {
    InitiallyStartable(s, i);
    InstallShows(s.variant, s.buffer, data, s.calls[i].request.count);
    ReadsUpToTheWait(s, i);
    var s1 := Waiting(s, i);
    StrayComesIn(s1, data);
    var s2 := s1.(callbacks := [Copying(Noise(data))], past := s.past.(intruded := 1));
    ReachesTransitive(s, s1, s2);
    CallbackFinishes(s2, Noise(data), true);
    var s3 := s2.(callbacks := [], cbSem := 1, buffer := Install(s.variant, s.buffer, data, true));
    ReachesTransitive(s, s2, s3);
    ReaderReturns(s3, i);
    var t := s3.(calls := s3.calls[i := s3.calls[i].(pc := UpCn, got := Take(s3.buffer, s.calls[i].request.count))]);
    ReachesTransitive(s, s3, t);
    EarlyAnswers(t, i);
  }

  /** So own reply fails after one intrusion, from every start with a reader that asks for anything. */
  lemma OneIntrusionBreaksOwnReply(s: State, i: nat)
    requires Initial(s) && i < |s.calls| && s.calls[i].request.ReadAt? && s.calls[i].request.count > 0
    ensures exists t :: Reaches(s, t) && t.past == s.past.(intruded := 1) && i < |t.calls| && t.calls[i].pc.UpCn?
              && Answerable(t, i) && t.calls[i].got != Answer(t, i)
  {
    var answer := Direct(s.initial, s.calls[i].request);
    var x := answer[0] ^ 1;
    assert x != answer[0];
    StrayMessageIsTakenForTheReply(s, i, [x]);
  }

  /** Plan A, from every start with a reader: a callback that cannot allocate makes it return nothing. */
  lemma VoidedReplyIsEmpty(s: State, i: nat)
    requires Initial(s) && s.variant.PlanA? && i < |s.calls| && s.calls[i].request.ReadAt?
    ensures exists t :: Reaches(s, t) && t.past == s.past.(voided := 1)
              && Returned(t, i, [], Direct(s.initial, s.calls[i].request))
              && (t.calls[i].got != Answer(t, i) <==> s.calls[i].request.count > 0)
  {
    InitiallyStartable(s, i);
    ReadsUpToTheWait(s, i);
    var s1 := Waiting(s, i);
    var e := Entry(i, s.calls[i].request, s.counter);
    var m := Reply(i, Direct(s.files, s.calls[i].request));
    ReplyUnderWay(s1, e);
    var s2 := s1.(requests := [], served := s.served + 1, callbacks := [Copying(m)]);
    ReachesTransitive(s, s1, s2);
    CallbackFinishes(s2, m, false);
    var s3 := s2.(callbacks := [], cbSem := 1, buffer := [], past := s.past.(voided := 1));
    ReachesTransitive(s, s2, s3);
    ReaderReturns(s3, i);
    var t := s3.(calls := s3.calls[i := s3.calls[i].(pc := UpCn, got := [])]);
    ReachesTransitive(s, s3, t);
    EarlyAnswers(t, i);
  }

  // ----- a write whose file does not open

  /** Call w has written, its message has reached the helper, and the file did not open. */
  function Skipped(s: State, w: nat): State
    requires w < |s.calls|
  {
    var c := s.calls[w];
    s.(calls := s.calls[w := c.(pc := Done, seqNo := s.counter, sentAt := Some(|s.log|))], counter := s.counter + 1,
       log := s.log + [Entry(w, c.request, s.counter)], served := s.served + 1,
       past := s.past.(skipped := s.past.skipped + 1))
  }

  predicate Writer(s: State, w: nat) {
    Initial(s) && s.variant.PlanA? && w < |s.calls| && s.calls[w].request.WriteAt?
  }

  lemma WritesUpToTheFetch(s: State, w: nat)
    requires Writer(s, w)
    ensures Reaches(s, s.(calls := s.calls[w := s.calls[w].(pc := FromUser, seqNo := s.counter)], cnSem := 0))
  {
    var c := s.calls[w];
    WritesUpToTheAlloc(s, w);
    var s1 := s.(calls := s.calls[w := c.(pc := Alloc)], cnSem := 0);
    PreparesLate(s1, w);
    var s2 := s1.(calls := s1.calls[w := s1.calls[w].(pc := FromUser, seqNo := s.counter)]);
    ReachesTransitive(s, s1, s2);
    assert s2.calls == s.calls[w := c.(pc := FromUser, seqNo := s.counter)];
  }

  lemma WritesUpToTheAlloc(s: State, w: nat)
    requires Writer(s, w)
    ensures Reaches(s, s.(calls := s.calls[w := s.calls[w].(pc := Alloc)], cnSem := 0))
  {
    Stay(s);
    Go(s, s, Thread(w, 0));
    var s1 := Apply(s, Thread(w, 0));
    assert s1.requests == [] && s1.log == [];
  }

  /** The fault of the fetch with which a write goes out, and the data it then carries. */
  function Passing(test: CopyTest, data: Bytes): nat { if test.Intended? then 0 else |data| }

  function Carries(test: CopyTest, data: Bytes): Bytes { if test.Intended? then data else Zeros(|data|) }

  lemma WritesUpToTheSend(s: State, w: nat)
    requires Writer(s, w)
    ensures var c := s.calls[w];
            Reaches(s, s.(calls := s.calls[w := c.(pc := Send, seqNo := s.counter,
                                                   outgoing := c.request.(data := Carries(s.copyTest, c.request.data)))],
                          cnSem := 0))
  {
    var c := s.calls[w];
    WritesUpToTheFetch(s, w);
    var s2 := s.(calls := s.calls[w := c.(pc := FromUser, seqNo := s.counter)], cnSem := 0);
    var f := Passing(s.copyTest, c.request.data);
    Go(s, s2, Thread(w, f));
    var s3 := Apply(s2, Thread(w, f));
    assert CopiedIn(c.request.data, f) == Carries(s.copyTest, c.request.data);
    assert s3.requests == [] && s3.log == [];
    assert s3.calls == s.calls[w := s3.calls[w]];
  }

  /** A write past its message increments the counter and gives the lock back. */
  lemma WriteEnds(s: State, w: nat)
    requires w < |s.calls| && s.calls[w].pc.Bump? && s.calls[w].request.WriteAt?
    ensures Reaches(s, s.(calls := s.calls[w := s.calls[w].(pc := Done)], counter := s.counter + 1, cnSem := s.cnSem + 1))
  {
    CountsUp(s, w);
    var s1 := s.(calls := s.calls[w := s.calls[w].(pc := UpCn)], counter := s.counter + 1);
    Go(s, s1, Thread(w, 0));
    var s2 := Apply(s1, Thread(w, 0));
    assert s2.requests == s.requests && s2.log == s.log;
    assert s2.calls == s.calls[w := s.calls[w].(pc := Done)];
  }

  /** The outcomes of the steps of a write that can fail: allocation, fetch and send. */
  datatype Faults = Faults(alloc: nat, fetch: nat, send: nat)

  /** What write w puts on the wire. */
  function Wired(s: State, w: nat, f: Faults): seq<Entry>
    requires w < |s.calls| && s.calls[w].request.WriteAt?
  {
    var r := s.calls[w].request;
    if f.alloc == 0 && f.send == 0 && f.fetch == (if s.copyTest.Intended? then 0 else |r.data|)
    then [Entry(w, WriteAt(r.ino, r.pos, if s.copyTest.Intended? then r.data else Zeros(|r.data|)), s.counter)]
    else []
  }

  /** u is s with write w in the lock about to increment, after putting sent on the wire. */
  predicate Written(s: State, u: State, w: nat, sent: seq<Entry>) {
    && w < |u.calls| == |s.calls| && u.calls[w].pc.Bump? && u.calls[w].request == s.calls[w].request
    && u == s.(calls := s.calls[w := u.calls[w]], cnSem := 0, requests := sent, log := sent)
  }

  lemma WriteReachesBump(s: State, w: nat, f: Faults) returns (u: State)
    requires Writer(s, w) && f.fetch <= |s.calls[w].request.data|
    ensures Reaches(s, u) && Written(s, u, w, Wired(s, w, f))
  {
    var c := s.calls[w];
    if f.alloc != 0 {
      WritesUpToTheAlloc(s, w);
      var s1 := s.(calls := s.calls[w := c.(pc := Alloc)], cnSem := 0);
      Go(s, s1, Thread(w, f.alloc));
      u := Apply(s1, Thread(w, f.alloc));
    } else if f.fetch != Passing(s.copyTest, c.request.data) {
      WritesUpToTheFetch(s, w);
      var s1 := s.(calls := s.calls[w := c.(pc := FromUser, seqNo := s.counter)], cnSem := 0);
      Go(s, s1, Thread(w, f.fetch));
      u := Apply(s1, Thread(w, f.fetch));
    } else {
      WritesUpToTheSend(s, w);
      var s1 := s.(calls := s.calls[w := c.(pc := Send, seqNo := s.counter,
                                            outgoing := c.request.(data := Carries(s.copyTest, c.request.data)))], cnSem := 0);
      Go(s, s1, Thread(w, f.send));
      u := Apply(s1, Thread(w, f.send));
    }
    assert u.requests == Wired(s, w, f) && u.log == Wired(s, w, f);
    assert u.calls == s.calls[w := u.calls[w]];
  }

  /** Plan A, from every start with a writer and for every outcome of its allocation, fetch and send: a run in which
      the write finishes, and what is then on the wire. With the test as written that is a message of zeros when not
      one byte could be fetched, and nothing when one could. */
  lemma WriteOutcomes(s: State, w: nat, f: Faults)
    requires Writer(s, w) && f.fetch <= |s.calls[w].request.data|
    ensures exists t :: Reaches(s, t) && |t.calls| == |s.calls| && t.calls[w].pc.Done?
              && t.log == Wired(s, w, f) && t.requests == t.log && t.counter == s.counter + 1 && t.cnSem == 1
              && t.past == s.past && t.files == s.files && t.calls == s.calls[w := t.calls[w]]
  {
    var u := WriteReachesBump(s, w, f);
    WriteEnds(u, w);
    var t := u.(calls := u.calls[w := u.calls[w].(pc := Done)], counter := u.counter + 1, cnSem := u.cnSem + 1);
    ReachesTransitive(s, u, t);
    assert t.calls == s.calls[w := t.calls[w]];
  }

  lemma WriteIsSkipped(s: State, w: nat)
    requires Writer(s, w) && s.copyTest.Intended?
    ensures Reaches(s, Skipped(s, w))
  {
    var c := s.calls[w];
    var e := Entry(w, c.request, s.counter);
    WritesUpToTheSend(s, w);
    var s1 := s.(calls := s.calls[w := c.(pc := Send, seqNo := s.counter)], cnSem := 0);
    SendsAndBumps(s1, w);
    var s2 := s1.(calls := s1.calls[w := s1.calls[w].(pc := UpCn, sentAt := Some(|s.log|))],
                  counter := s.counter + 1, requests := [e], log := s.log + [e]);
    ReachesTransitive(s, s1, s2);
    Go(s, s2, Thread(w, 0));
    var s3 := Apply(s2, Thread(w, 0));
    assert s3 == s2.(calls := Skipped(s, w).calls, cnSem := 1) by {
      assert s3.requests == [e] && s3.log == s.log + [e];
    }
    Go(s, s3, HelperTake);
    var s4 := Apply(s3, HelperTake);
    assert s4.requests == [];
    Go(s, s4, HelperServe(false));
    assert Apply(s4, HelperServe(false)) == Skipped(s, w);
  }

  /** Plan A, from every start with a writer and a reader: a write whose file does not open is missing from a read
      sent after the write was over. */
  lemma SkippedWriteIsMissed(s: State, w: nat, i: nat)
    requires Initial(s) && s.variant.PlanA? && s.copyTest.Intended? && w < |s.calls| && i < |s.calls|
    requires s.calls[w].request.WriteAt? && s.calls[i].request.ReadAt?
    ensures exists t :: Reaches(s, t) && t.past == s.past.(skipped := 1) && |t.calls| == |s.calls| && t.calls[w].pc.Done?
              && Returned(t, i, Direct(s.initial, s.calls[i].request),
                          Direct(Perform(s.initial, s.calls[w].request), s.calls[i].request))
  {
    WriteIsSkipped(s, w);
    var s0 := Skipped(s, w);
    ReadsUpToTheWait(s0, i);
    var s1 := Waiting(s0, i);
    ReachesTransitive(s, s0, s1);
    var e := Entry(i, s.calls[i].request, s0.counter);
    SoloReply(s1, e);
    var s2 := s1.(cbSem := 1, requests := [], served := s1.served + 1, buffer := Direct(s.files, s.calls[i].request));
    ReachesTransitive(s, s1, s2);
    ReaderReturns(s2, i);
    var t := s2.(calls := s2.calls[i := s2.calls[i].(pc := UpCn, got := Take(s2.buffer, s.calls[i].request.count))]);
    ReachesTransitive(s, s2, t);
    EarlyAnswers(t, i);
  }

  // ----- a surplus permit

  /** Call i has read its block, while an extra message was handled between its second down and its up. */
  function AfterExtra(s: State, i: nat, data: Bytes): State
    requires i < |s.calls| && s.calls[i].request.ReadAt?
  {
    var c := s.calls[i];
    var own := Direct(s.files, c.request);
    s.(calls := s.calls[i := c.(pc := Done, seqNo := s.counter, sentAt := Some(|s.log|), got := own)],
       cbSem := 2, counter := s.counter + 1, log := s.log + [Entry(i, c.request, s.counter)], served := s.served + 1,
       buffer := Install(s.variant, Install(s.variant, s.buffer, own, true), data, true),
       past := s.past.(intruded := s.past.intruded + 1))
  }

  /** The reader holds the permit again, its reply is in the buffer, and the extra message is being handled. */
  lemma ExtraComesIn(s: State, i: nat, data: Bytes)
    requires Initial(s) && i < |s.calls| && s.calls[i].request.ReadAt?
    ensures var w := Waiting(s, i);
            Reaches(s, w.(calls := w.calls[i := w.calls[i].(pc := Release)], requests := [], served := s.served + 1,
                          buffer := Install(s.variant, s.buffer, Direct(s.files, s.calls[i].request), true),
                          callbacks := [Copying(Noise(data))], past := s.past.(intruded := 1)))
  {
    InitiallyStartable(s, i);
    ReadsUpToTheWait(s, i);
    var s1 := Waiting(s, i);
    SoloReply(s1, Entry(i, s.calls[i].request, s.counter));
    var s2 := s1.(cbSem := 1, requests := [], served := s.served + 1,
                  buffer := Install(s.variant, s.buffer, Direct(s.files, s.calls[i].request), true));
    ReachesTransitive(s, s1, s2);
    Go(s, s2, Thread(i, 0));
    var s3 := Apply(s2, Thread(i, 0));
    assert s3 == s2.(calls := s1.calls[i := s1.calls[i].(pc := Release)], cbSem := 0) by {
      assert s3.requests == [] && s3.log == s2.log;
    }
    StrayComesIn(s3, data);
    ReachesTransitive(s, s3, s3.(callbacks := [Copying(Noise(data))], past := s.past.(intruded := 1)));
  }

  /** From every start with a reader, either variant: one extra message in that window, and after the read, which
      still returns its own answer, cb_sem stands at two with nothing under way. */
  lemma ExtraReplyMakesAPermit(s: State, i: nat, data: Bytes)
    requires Initial(s) && i < |s.calls| && s.calls[i].request.ReadAt?
    ensures Reaches(s, AfterExtra(s, i, data))
    ensures Quiet(AfterExtra(s, i, data)) && AfterExtra(s, i, data).cbSem == 2 && AfterExtra(s, i, data).cnSem == 1
    ensures Shows(s.variant, AfterExtra(s, i, data).buffer, data, Direct(s.files, s.calls[i].request), |data|)
  {
    ExtraRun(s, i, data);
    ExtraBuffer(s.variant, s.buffer, Direct(s.files, s.calls[i].request), data);
    assert Admissible(s.variant, s.calls[i].request);
  }

  /** Two messages one after the other: of the first nothing stays in plan A, and in the kernel module what the second
      does not cover. */
  lemma ExtraBuffer(v: Variant, buffer: Bytes, own: Bytes, data: Bytes)
    requires v.KernelModule? ==> |buffer| == 1024 && |own| == 1024
    ensures Shows(v, Install(v, Install(v, buffer, own, true), data, true), data, own, |data|)
  {
    assert v.KernelModule? ==> Install(v, buffer, own, true) == own;
  }

  lemma ExtraRun(s: State, i: nat, data: Bytes)
    requires Initial(s) && i < |s.calls| && s.calls[i].request.ReadAt?
    ensures Reaches(s, AfterExtra(s, i, data))
  {
    ExtraComesIn(s, i, data);
    InitiallyStartable(s, i);
    var w := Waiting(s, i);
    var own := Direct(s.files, s.calls[i].request);
    var s4 := w.(calls := w.calls[i := w.calls[i].(pc := Release)], requests := [], served := s.served + 1,
                 buffer := Install(s.variant, s.buffer, own, true),
                 callbacks := [Copying(Noise(data))], past := s.past.(intruded := 1));
    Go(s, s4, Thread(i, 0));
    var s5 := Apply(s4, Thread(i, 0));
    assert s5.requests == [] && s5.log == s4.log && s5.cbSem == 1;
    Finish(s5, i);
    var s6 := s5.(cnSem := 1, calls := s5.calls[i := s5.calls[i].(pc := Done, got := Take(s5.buffer, s.calls[i].request.count))]);
    ReachesTransitive(s, s5, s6);
    CallbackFinishes(s6, Noise(data), true);
    var t := s6.(callbacks := [], cbSem := 2, buffer := Install(s.variant, s6.buffer, data, true));
    ReachesTransitive(s, s6, t);
    assert Take(s5.buffer, s.calls[i].request.count) == own;
    assert t.calls == AfterExtra(s, i, data).calls;
  }

  /** From every start with two readers, either variant, as one run: one extra message in that window, and the next
      read does not wait; it returns the extra bytes, in the kernel module followed by those of the first read if the
      extra message is short, while its own request is still in the channel. */
  lemma SurplusPermitSkipsTheWait(s: State, i: nat, j: nat, data: Bytes)
    requires Initial(s) && i < |s.calls| && j < |s.calls| && i != j
    requires s.calls[i].request.ReadAt? && s.calls[j].request.ReadAt?
    ensures exists t :: Reaches(s, t) && t.past == s.past.(intruded := 1)
              && |t.calls| == |s.calls| && t.calls[i].pc.Done? && t.calls[i].got == Direct(s.initial, s.calls[i].request)
              && |t.requests| == 1 && t.requests[0].call == j && t.served == 1
              && Returned(t, j, t.calls[j].got, Direct(s.initial, s.calls[j].request))
              && Shows(s.variant, t.calls[j].got, data, Direct(s.initial, s.calls[i].request), s.calls[j].request.count)
  {
    ExtraReplyMakesAPermit(s, i, data);
    var s1 := AfterExtra(s, i, data);
    ReadsUpToTheWait(s1, j);
    var s2 := Waiting(s1, j);
    ReachesTransitive(s, s1, s2);
    ReaderReturns(s2, j);
    var t := s2.(calls := s2.calls[j := s2.calls[j].(pc := UpCn, got := Take(s2.buffer, s.calls[j].request.count))]);
    ReachesTransitive(s, s2, t);
    EarlyAnswers(t, j);
  }

  // ----- an uncontended kernel-module read

  /** What one kernel-module read leaves behind when it runs alone from its lock to the release of cb_sem. */
  function AfterRelease(s: State, i: nat): State
    requires i < |s.calls| && s.calls[i].request.ReadAt?
  {
    var c := s.calls[i];
    s.(calls := s.calls[i := c.(pc := Copy, sentAt := Some(|s.log|))],
       cnSem := if s.cnSem > 0 then s.cnSem - 1 else 0, counter := s.counter + 1,
       buffer := Install(s.variant, s.buffer, Direct(s.files, c.request), true),
       log := s.log + [Entry(i, c.request, c.seqNo)], served := s.served + 1)
  }

  predicate Ready(s: State, i: nat) {
    && s.variant.KernelModule? && Quiet(s) && s.cnSem > 0 && s.cbSem == 1
    && i < |s.calls| && s.calls[i].pc.DownCn? && s.calls[i].request.ReadAt? && s.calls[i].outgoing == s.calls[i].request
  }

  lemma SoloRead(s: State, i: nat)
    requires Ready(s, i)
    ensures Reaches(s, AfterRelease(s, i))
  {
    var c := s.calls[i];
    var e := Entry(i, c.request, c.seqNo);
    SoloSend(s, i);
    var s1 := s.(calls := s.calls[i := c.(pc := Wait, sentAt := Some(|s.log|))],
                 cnSem := s.cnSem - 1, cbSem := 0, counter := s.counter + 1, requests := [e], log := s.log + [e]);
    SoloReply(s1, e);
    var s2 := s1.(cbSem := 1, requests := [], served := s.served + 1, buffer := AfterRelease(s, i).buffer);
    ReachesTransitive(s, s1, s2);
    ReaderReturns(s2, i);
    var s3 := s2.(calls := s2.calls[i := s2.calls[i].(pc := Copy)]);
    ReachesTransitive(s, s2, s3);
    assert s3.calls == AfterRelease(s, i).calls;
    assert s3 == AfterRelease(s, i);
  }

  function Prepared(s: State, i: nat, j: nat): State
    requires i < |s.calls| && j < |s.calls| && i != j
  {
    s.(calls := s.calls[i := s.calls[i].(pc := DownCn, seqNo := s.counter)]
                       [j := s.calls[j].(pc := DownCn, seqNo := s.counter)])
  }

  lemma PrepareTwo(s: State, i: nat, j: nat)
    requires s.variant.KernelModule? && i < |s.calls| && j < |s.calls| && i != j
    requires s.calls[i].pc.EarlyAlloc? && s.calls[j].pc.EarlyAlloc?
    ensures Reaches(s, Prepared(s, i, j))
  {
    Prepare(s, i);
    var s1 := s.(calls := s.calls[i := s.calls[i].(pc := DownCn, seqNo := s.counter)]);
    Prepare(s1, j);
    ReachesTransitive(s, s1, Prepared(s, i, j));
  }

  /** Kernel module, from every start with two readers: they can both read the counter before either locks, and
      then two requests go out under one number. */
  lemma ModuleNumbersCollide(s: State, i: nat, j: nat)
    requires Initial(s) && s.variant.KernelModule? && i < |s.calls| && j < |s.calls| && i != j
    requires s.calls[i].request.ReadAt? && s.calls[j].request.ReadAt?
    ensures exists t :: Reaches(s, t) && Clean(t) && |t.log| == 2 && t.log[0].call == i && t.log[1].call == j
              && WireSeq(t.log[0]) == WireSeq(t.log[1])
  {
    PrepareTwo(s, i, j);
    var s2 := Prepared(s, i, j);
    SoloRead(s2, i);
    var s3 := AfterRelease(s2, i);
    ReachesTransitive(s, s2, s3);
    Finish(s3, i);
    var s4 := s3.(cnSem := s3.cnSem + 1,
                  calls := s3.calls[i := s3.calls[i].(pc := Done, got := Take(s3.buffer, s3.calls[i].request.count))]);
    ReachesTransitive(s, s3, s4);
    SoloRead(s4, j);
    var t := AfterRelease(s4, j);
    ReachesTransitive(s, s4, t);
    Sums.SumZero(t.calls, FailedUpWeight);
  }

  // ----- a failed kernel-module allocation

  function FailedState(s: State, f: nat): State
    requires f < |s.calls|
  {
    s.(cnSem := 2, counter := s.counter + 1,
       calls := s.calls[f := s.calls[f].(pc := Done, unlocked := true, got := Take(s.buffer, BLOCK_SIZE))])
  }

  /** A kernel-module read whose allocation fails runs through without a message and gives cn_sem an up too many. */
  lemma FailedRead(s: State, f: nat)
    requires Initial(s) && s.variant.KernelModule? && f < |s.calls| && s.calls[f].request.ReadAt?
    ensures Reaches(s, FailedState(s, f))
  {
    var c := s.calls[f].(unlocked := true);
    Stay(s);
    Go(s, s, Thread(f, 1));
    var s1 := Apply(s, Thread(f, 1));
    assert s1 == s.(calls := s.calls[f := c.(pc := Bump)]);
    Go(s, s1, Thread(f, 0));
    var s2 := Apply(s1, Thread(f, 0));
    assert s2 == s.(counter := s.counter + 1, calls := s.calls[f := c.(pc := Wait)]);
    ReaderReturns(s2, f);
    var s4 := s.(counter := s.counter + 1, calls := s.calls[f := c.(pc := Copy)]);
    assert s2.calls[f := s2.calls[f].(pc := Copy)] == s4.calls;
    ReachesTransitive(s, s2, s4);
    Finish(s4, f);
    var d := c.(pc := Done, got := Take(s.buffer, BLOCK_SIZE));
    assert s4.calls[f := d] == s.calls[f := d];
    ReachesTransitive(s, s4, FailedState(s, f));
  }

  /** Kernel module, from every start with a reader: if its allocation fails it finishes all the same, at once and
      without a message, returns what the buffer held, and leaves cn_sem at two. */
  lemma FailedReadReturnsTheOldBuffer(s: State, f: nat)
    requires Initial(s) && s.variant.KernelModule? && f < |s.calls| && s.calls[f].request.ReadAt?
    ensures exists t :: Reaches(s, t) && |t.calls| == |s.calls| && t.calls[f].pc.Done? && t.calls[f].got == s.buffer
              && t.log == [] && t.cnSem == 2 && t.cbSem == 1 && t.counter == s.counter + 1 && t.past == s.past
  {
    FailedRead(s, f);
    assert FailedState(s, f).calls[f].got == s.buffer;
  }

  function Mixed(s: State, f: nat, i: nat, j: nat): State
    requires f < |s.calls| && i < |s.calls| && j < |s.calls| && i != j
    requires s.calls[i].request.ReadAt? && s.calls[j].request.ReadAt? && f != i && f != j
  {
    var s4 := AfterRelease(AfterRelease(Prepared(FailedState(s, f), i, j), i), j);
    s4.(cnSem := s4.cnSem + 1,
        calls := s4.calls[i := s4.calls[i].(pc := Done, got := Take(s4.buffer, s4.calls[i].request.count))])
  }

  lemma MixedRun(s: State, f: nat, i: nat, j: nat)
    requires Initial(s) && s.variant.KernelModule?
    requires f < |s.calls| && i < |s.calls| && j < |s.calls| && f != i && f != j && i != j
    requires s.calls[f].request.ReadAt? && s.calls[i].request.ReadAt? && s.calls[j].request.ReadAt?
    ensures Reaches(s, Mixed(s, f, i, j))
  {
    FailedRead(s, f);
    var s0 := FailedState(s, f);
    PrepareTwo(s0, i, j);
    var s2 := Prepared(s0, i, j);
    ReachesTransitive(s, s0, s2);
    SoloRead(s2, i);
    var s3 := AfterRelease(s2, i);
    ReachesTransitive(s, s2, s3);
    SoloRead(s3, j);
    var s4 := AfterRelease(s3, j);
    ReachesTransitive(s, s3, s4);
    Finish(s4, i);
    ReachesTransitive(s, s4, Mixed(s, f, i, j));
  }

  /** Kernel module, from every start with three readers: one failed allocation, one final up too many, and two calls
      are inside the critical section at once; one of them returns the other one's block. */
  lemma ModuleFailureMixesReplies(s: State, f: nat, i: nat, j: nat)
    requires Initial(s) && s.variant.KernelModule?
    requires f < |s.calls| && i < |s.calls| && j < |s.calls| && f != i && f != j && i != j
    requires s.calls[f].request.ReadAt? && s.calls[i].request.ReadAt? && s.calls[j].request.ReadAt?
    ensures exists t :: Reaches(s, t) && |t.calls| == |s.calls| && Holds(t.calls[j])
              && t.calls[i].pc.Done? && !t.calls[i].unlocked && t.past == s.past && FailedUps(t) == 1
              && t.calls[i].got == Direct(s.initial, s.calls[j].request)
              && Answerable(t, i) && Answer(t, i) == Direct(s.initial, s.calls[i].request)
  {
    MixedRun(s, f, i, j);
    var t := Mixed(s, f, i, j);
    MixedReply(s, AfterRelease(Prepared(FailedState(s, f), i, j), i), j);
    Sums.SumOne(t.calls, f, FailedUpWeight);
    EarlyAnswers(t, i);
  }

  lemma MixedReply(s: State, s3: State, j: nat)
    requires s3.variant.KernelModule? && j < |s3.calls| && s3.calls[j].request.ReadAt? && s3.calls[j].request.count == BLOCK_SIZE
    requires s3.files == s.files && |s3.buffer| == BLOCK_SIZE
    ensures Take(AfterRelease(s3, j).buffer, BLOCK_SIZE) == Direct(s.files, s3.calls[j].request)
  {
  }
}
