/** Liveness of the protocol: a measure that every step lowers, and no stuck state while a permit exists. */
module Progress {
  import opened Store
  import opened Protocol
  import opened Sums
  import opened Ledgers

  /** Steps a call can still cause, its own and those of the helper and the callback on its behalf. */
  function CallWork(c: Call): nat {
    var isRead := c.request.ReadAt?;
    match c.pc
    case EarlyAlloc => 17
    case EarlyStamp => 16
    case DownCn => if isRead then 15 else 9
    case DownCb => 14
    case Alloc => if isRead then 13 else 8
    case Stamp => if isRead then 12 else 7
    case FromUser => 6
    case Send => if isRead then 11 else 5
    case Bump => if isRead then 5 else 2
    case Wait => 4
    case Release => 3
    case Copy => 2
    case UpCn => 1
    case Done => 0
  }

  function EntryWork(e: Entry): nat { if e.request.ReadAt? then 5 else 2 }

  function HandWork(s: State): nat { if s.hand.Some? then EntryWork(s.hand.value) - 1 else 0 }

  function MessageWork(m: Message): nat { 3 }

  function CallbackWork(b: Callback): nat { if b.Copying? then 2 else 1 }

  function Work(s: State): nat {
    Sum(s.calls, CallWork) + Sum(s.requests, EntryWork) + HandWork(s)
    + Sum(s.replies, MessageWork) + Sum(s.callbacks, CallbackWork)
  }

  lemma CallWorkNext(s: State, i: nat, fault: nat)
    requires CallEnabled(s, i, fault) && Sane(s.variant, s.calls[i])
    ensures var c := s.calls[i];
            CallWork(NextCall(s, i, fault)) + (if Sent(s, i, fault) != [] then EntryWork(Entry(i, c.outgoing, c.seqNo)) else 0)
            < CallWork(c)
  {
  }

  lemma WorkFallsCall(s: State, i: nat, fault: nat)
    requires CallEnabled(s, i, fault) && Sane(s.variant, s.calls[i])
    ensures Work(StepCall(s, i, fault)) < Work(s)
  {
    var c := s.calls[i];
    CallWorkNext(s, i, fault);
    SumUpdate(s.calls, i, NextCall(s, i, fault), CallWork);
    SumAppend(s.requests, Entry(i, c.outgoing, c.seqNo), EntryWork);
    assert s.requests + [] == s.requests;
  }

  lemma WorkFallsServe(s: State, opens: bool)
    requires s.hand.Some?
    ensures Work(StepServe(s, opens)) < Work(s)
  {
    var e := s.hand.value;
    if e.request.ReadAt? && opens {
      SumAppend(s.replies, Reply(e.call, Fetch(s.files, e.request.ino, e.request.pos, e.request.count)), MessageWork);
    }
  }

  lemma WorkFallsDeliver(s: State)
    requires s.replies != []
    ensures Work(StepDeliver(s)) < Work(s)
  {
    SumAppend(s.callbacks, Dropping, CallbackWork);
    SumAppend(s.callbacks, Copying(s.replies[0]), CallbackWork);
  }

  lemma WorkFallsCallback(s: State, k: nat, gotMemory: bool)
    requires k < |s.callbacks|
    ensures Work(StepCallback(s, k, gotMemory)) < Work(s)
  {
    SumUpdate(s.callbacks, k, Releasing, CallbackWork);
    SumRemove(s.callbacks, k, CallbackWork);
  }

  lemma WorkFalls(s: State, l: Label)
    requires AllSane(s) && Enabled(s, l) && !l.Unsolicited?
    ensures Work(Apply(s, l)) < Work(s)
  {
    match l
    case Thread(i, fault) => WorkFallsCall(s, i, fault);
    case HelperServe(opens) => WorkFallsServe(s, opens);
    case Deliver => WorkFallsDeliver(s);
    case CallbackStep(k, gotMemory) => WorkFallsCallback(s, k, gotMemory);
    case HelperTake =>
  }

  /** Every run without unsolicited messages is finite, with a bound known at the start. */
  lemma {:induction false} RunsAreBounded(s: State, ls: seq<Label>, t: State)
    requires AllSane(s) && Runs(s, ls, t) && NoiseFree(ls)
    ensures |ls| + Work(t) <= Work(s)
    decreases |ls|
  {
    if ls != [] {
      assert !ls[0].Unsolicited?;
      AllSaneStep(s, ls[0]);
      WorkFalls(s, ls[0]);
      RunsAreBounded(Apply(s, ls[0]), ls[1..], t);
    }
  }

  lemma {:induction false} InitialWork(calls: seq<Call>)
    requires forall i :: 0 <= i < |calls| ==> CallWork(calls[i]) <= 17
    ensures Sum(calls, CallWork) <= 17 * |calls|
  {
    if calls != [] {
      InitialWork(calls[1..]);
    }
  }

  predicate AllDone(s: State) {
    forall i :: 0 <= i < |s.calls| ==> s.calls[i].pc.Done?
  }

  /** A step of the system itself in which nothing fails. */
  predicate Good(l: Label) {
    match l
    case Thread(_, fault) => fault == 0
    case HelperServe(opens) => opens
    case CallbackStep(_, gotMemory) => gotMemory
    case Unsolicited(_) => false
    case _ => true
  }

  predicate Idle(s: State) {
    s.callbacks == [] && s.replies == [] && s.hand == None && s.requests == []
  }

  /** With all queues empty, a call inside the lock can step: either it has the permit or the permit is free. */
  lemma HolderMoves(s: State, i: nat) returns (l: Label)
    requires Books(s) && Permits(s) > 0 && Idle(s)
    requires i < |s.calls| && InLock(s.calls[i].pc)
    ensures Enabled(s, l) && Good(l)
  {
    if s.cbSem > 0 || !(s.calls[i].pc.DownCb? || s.calls[i].pc.Wait?) {
      l := Thread(i, 0);
    } else {
      var j := SumPositive(s.calls, PermitWeight);
      l := Thread(j, 0);
    }
  }

  /** No reachable state is stuck while a permit exists and some call is unfinished. */
  lemma NeverStuck(s: State) returns (l: Label)
    requires Books(s) && Permits(s) > 0 && !AllDone(s)
    ensures Enabled(s, l) && Good(l)
  {
    if s.callbacks != [] {
      l := CallbackStep(0, true);
    } else if s.replies != [] {
      l := Deliver;
    } else if s.hand.Some? {
      l := HelperServe(true);
    } else if s.requests != [] {
      l := HelperTake;
    } else {
      var i :| 0 <= i < |s.calls| && !s.calls[i].pc.Done?;
      if InLock(s.calls[i].pc) {
        l := HolderMoves(s, i);
      } else if s.calls[i].pc.DownCn? && s.cnSem == 0 {
        var j := SumPositive(s.calls, HoldWeight);
        l := HolderMoves(s, j);
      } else {
        l := Thread(i, 0);
      }
    }
  }

  /** From any start and after any run with no lost read and no intrusion, kernel-module allocation failures
      included: a state with no good step left is a state in which every call has finished. Together with
      RunsAreBounded this is termination of every maximal run. */
  lemma MaximalRunsFinish(s: State, ls: seq<Label>, t: State)
    requires Initial(s) && Runs(s, ls, t)
    requires t.past.lost == 0 && t.past.intruded == 0
    requires forall l :: Enabled(t, l) ==> !Good(l)
    ensures AllDone(t)
  {
    BooksInitially(s);
    BooksKept(s, ls, t);
    NothingDiscarded(s, ls, t);
    if !AllDone(t) {
      var l := NeverStuck(t);
      assert false;
    }
  }

  lemma RunLengthBound(s: State, ls: seq<Label>, t: State)
    requires Initial(s) && Runs(s, ls, t) && NoiseFree(ls)
    ensures |ls| <= 17 * |s.calls|
  {
    BooksInitially(s);
    RunsAreBounded(s, ls, t);
    InitialWork(s.calls);
  }

  // ----- a helper that does not answer

  predicate NoAnswers(ls: seq<Label>) {
    forall k :: 0 <= k < |ls| ==> !ls[k].Unsolicited? && ls[k] != HelperServe(true)
  }

  function Outstanding(s: State): nat {
    Sum(s.requests, ReadWeight) + HandReads(s) + s.past.lost
  }

  predicate Sending(c: Call) {
    c.request.ReadAt? && !c.unlocked && InLock(c.pc)
    && !(c.pc.DownCb? || c.pc.Alloc? || c.pc.Stamp? || c.pc.Send?)
  }

  /** Nothing ever comes back, and a read that has been sent or lost stays so. */
  ghost predicate Silent(s: State) {
    && s.replies == [] && s.callbacks == [] && s.past.intruded == 0 && s.past.discarded == 0
    && (forall i :: 0 <= i < |s.calls| ==>
          && (s.calls[i].request.ReadAt? && !s.calls[i].unlocked ==> BeforeReply(s.calls[i].pc))
          && (Sending(s.calls[i]) ==> Outstanding(s) > 0))
  }

  /** A call becomes a sending one only by sending or by losing its read, and passes the wait only with a permit. */
  lemma SilentNext(s: State, i: nat, fault: nat)
    requires CallEnabled(s, i, fault) && Sane(s.variant, s.calls[i])
    ensures var c, c', s' := s.calls[i], NextCall(s, i, fault), StepCall(s, i, fault);
            && (Sending(c') && !Sending(c) ==> s'.past.lost > s.past.lost || (Sent(s, i, fault) != [] && c.outgoing.ReadAt?))
            && (c'.request.ReadAt? && !c'.unlocked && BeforeReply(c.pc) && !BeforeReply(c'.pc) ==> s.cbSem > 0 && Sending(c))
            && (c.request.ReadAt? && !c'.unlocked ==> c'.request.ReadAt? && !c.unlocked)
  {
  }

  lemma OutstandingAfterCall(s: State, i: nat, fault: nat)
    requires CallEnabled(s, i, fault)
    ensures var c, s' := s.calls[i], StepCall(s, i, fault);
            && Outstanding(s') >= Outstanding(s)
            && (s'.past.lost > s.past.lost || (Sent(s, i, fault) != [] && c.outgoing.ReadAt?) ==> Outstanding(s') > 0)
  {
    var c := s.calls[i];
    SumAppend(s.requests, Entry(i, c.outgoing, c.seqNo), ReadWeight);
    assert s.requests + [] == s.requests;
  }

  lemma SilentCall(s: State, i: nat, fault: nat)
    requires Books(s) && Silent(s) && CallEnabled(s, i, fault)
    ensures Silent(StepCall(s, i, fault))
  {
    assert Sane(s.variant, s.calls[i]);
    SilentNext(s, i, fault);
    OutstandingAfterCall(s, i, fault);
    assert Sending(s.calls[i]) ==> Outstanding(s) > 0;
  }

  lemma SilentStep(s: State, l: Label)
    requires Books(s) && Silent(s) && Enabled(s, l) && !l.Unsolicited? && l != HelperServe(true)
    ensures Silent(Apply(s, l))
  {
    match l
    case Thread(i, fault) => SilentCall(s, i, fault);
    case HelperTake => assert Outstanding(StepTake(s)) == Outstanding(s);
    case HelperServe(_) => assert Outstanding(StepServe(s, false)) == Outstanding(s);
    case _ =>
  }

  lemma {:induction false} SilentKept(s: State, ls: seq<Label>, t: State)
    requires Books(s) && Silent(s) && Runs(s, ls, t) && NoAnswers(ls)
    ensures Silent(t)
    decreases |ls|
  {
    if ls != [] {
      assert !ls[0].Unsolicited? && ls[0] != HelperServe(true);
      BooksStep(s, ls[0]);
      SilentStep(s, ls[0]);
      SilentKept(Apply(s, ls[0]), ls[1..], t);
    }
  }

  /** Under a helper that never answers, no read whose request could be allocated ever returns, in any
      interleaving. The shipped receive loop is such a helper: its call of do_work cannot be reached. */
  lemma SilentHelperStarvesReaders(s: State, ls: seq<Label>, t: State, i: nat)
    requires Initial(s) && Runs(s, ls, t) && NoAnswers(ls)
    requires i < |t.calls| && t.calls[i].request.ReadAt? && !t.calls[i].unlocked
    ensures BeforeReply(t.calls[i].pc)
  {
    BooksInitially(s);
    SilentKept(s, ls, t);
  }
}
