/** Own-reply safety and linearizability: what a finished read returned. */
module Replies {
  import opened Store
  import opened Blocks
  import opened Protocol
  import opened Sums
  import opened Ledgers

  // ----- the send log

  predicate PreSend(pc: Pc) {
    pc.EarlyAlloc? || pc.EarlyStamp? || pc.DownCn? || pc.DownCb? || pc.Alloc? || pc.Stamp? || pc.FromUser? || pc.Send?
  }

  predicate Logged(s: State, i: nat)
    requires i < |s.calls|
  {
    var c := s.calls[i];
    && (PreSend(c.pc) ==> c.sentAt.None?)
    && (c.sentAt.Some? ==> c.sentAt.value < |s.log| && s.log[c.sentAt.value].call == i)
  }

  predicate Filed(s: State, k: nat)
    requires k < |s.log|
  {
    && s.log[k].call < |s.calls|
    && s.calls[s.log[k].call].sentAt == Some(k)
    && s.log[k].request == s.calls[s.log[k].call].outgoing
    && s.log[k].seqNo == s.calls[s.log[k].call].seqNo
  }

  /** The channel is the unserved end of the log, and log and calls agree on who sent what and when. */
  ghost predicate Journal(s: State) {
    && s.served <= |s.log|
    && (s.hand.None? ==> s.requests == s.log[s.served..])
    && (s.hand.Some? ==> s.served < |s.log| && s.hand.value == s.log[s.served] && s.requests == s.log[s.served + 1..])
    && (forall k :: 0 <= k < |s.log| ==> Filed(s, k))
    && (forall i :: 0 <= i < |s.calls| ==> Logged(s, i))
  }

  lemma JournalCall(s: State, i: nat, fault: nat)
    requires Journal(s) && CallEnabled(s, i, fault)
    ensures Journal(StepCall(s, i, fault))
  {
    var s' := StepCall(s, i, fault);
    assert Logged(s, i);
    assert Sent(s, i, fault) != [] || (s'.log == s.log && s'.requests == s.requests);
    forall k | 0 <= k < |s'.log| ensures Filed(s', k) {
      if k < |s.log| {
        assert Filed(s, k) && s'.log[k] == s.log[k];
      }
    }
    forall j | 0 <= j < |s'.calls| ensures Logged(s', j) {
      assert Logged(s, j);
    }
  }

  lemma JournalSame(s: State, s': State)
    requires Journal(s) && s'.calls == s.calls && s'.log == s.log
    ensures forall k :: 0 <= k < |s'.log| ==> Filed(s', k)
    ensures forall i :: 0 <= i < |s'.calls| ==> Logged(s', i)
  {
    forall k | 0 <= k < |s'.log| ensures Filed(s', k) { assert Filed(s, k); }
    forall i | 0 <= i < |s'.calls| ensures Logged(s', i) { assert Logged(s, i); }
  }

  lemma JournalStep(s: State, l: Label)
    requires Journal(s) && Enabled(s, l)
    ensures Journal(Apply(s, l))
  {
    match l
    case Thread(i, fault) => JournalCall(s, i, fault);
    case _ => JournalSame(s, Apply(s, l));
  }

  function Before(log: seq<Entry>, k: nat): seq<Request>
    requires k <= |log|
  {
    Requests(log[..k])
  }

  lemma BeforeStable(log: seq<Entry>, more: seq<Entry>, k: nat)
    requires k <= |log|
    ensures Before(log + more, k) == Before(log, k)
  {
    assert (log + more)[..k] == log[..k];
  }

  /** The helper has performed exactly the served prefix of the log. */
  ghost predicate Replayed(s: State) {
    s.served <= |s.log| && s.files == Replay(s.initial, Before(s.log, s.served))
  }

  lemma ReplayedCall(s: State, i: nat, fault: nat)
    requires Replayed(s) && CallEnabled(s, i, fault)
    ensures Replayed(StepCall(s, i, fault))
  {
    BeforeStable(s.log, Sent(s, i, fault), s.served);
  }

  lemma ReplayedServe(s: State, opens: bool)
    requires Journal(s) && Replayed(s) && s.hand.Some?
    requires StepServe(s, opens).past.skipped == s.past.skipped
    ensures Replayed(StepServe(s, opens))
  {
    var rs := Before(s.log, s.served + 1);
    assert rs[..|rs| - 1] == Before(s.log, s.served);
    assert rs[|rs| - 1] == s.hand.value.request;
  }

  lemma ReplayedStep(s: State, l: Label)
    requires Journal(s) && Replayed(s) && Enabled(s, l)
    requires Apply(s, l).past.skipped == s.past.skipped
    ensures Replayed(Apply(s, l))
  {
    match l
    case Thread(i, fault) => ReplayedCall(s, i, fault);
    case HelperServe(opens) => ReplayedServe(s, opens);
    case _ =>
  }

  // ----- replies

  /** What the files held for call i's request after exactly the writes sent before it. */
  function Answer(s: State, i: nat): Bytes
    requires i < |s.calls| && s.calls[i].request.ReadAt?
    requires s.calls[i].sentAt.Some? && s.calls[i].sentAt.value <= |s.log|
  {
    var r := s.calls[i].request;
    Fetch(Replay(s.initial, Before(s.log, s.calls[i].sentAt.value)), r.ino, r.pos, r.count)
  }

  predicate Answerable(s: State, i: nat) {
    && i < |s.calls| && s.calls[i].request.ReadAt?
    && s.calls[i].sentAt.Some? && s.calls[i].sentAt.value < |s.log|
  }

  predicate Awaiting(s: State, i: nat) {
    Answerable(s, i) && (s.calls[i].pc.Bump? || s.calls[i].pc.Wait?)
  }

  function CopyWeight(b: Callback): nat { if b.Copying? then 1 else 0 }

  /** Reads whose reply has not reached the shared buffer. */
  function Undelivered(s: State): nat {
    Sum(s.requests, ReadWeight) + HandReads(s) + Sum(s.replies, ReplyWeight) + Sum(s.callbacks, CopyWeight)
  }

  ghost predicate OwnMessage(s: State, m: Message) {
    m.Reply? ==> Awaiting(s, m.call) && m.data == Answer(s, m.call)
  }

  ghost predicate OwnBuffer(s: State, i: nat)
    requires i < |s.calls|
  {
    var c := s.calls[i];
    if c.unlocked then c.sentAt.None?
    else c.request.ReadAt? ==>
      && (c.pc.Bump? || c.pc.Wait? ==> s.past.lost > 0 || Awaiting(s, i))
      && (c.pc.Bump? || c.pc.Wait? ==> s.past.lost > 0 || Undelivered(s) > 0 || s.buffer == Answer(s, i))
      && (c.pc.Release? || c.pc.Copy? ==> Answerable(s, i) && s.buffer == Answer(s, i))
      && (c.pc.UpCn? || c.pc.Done? ==> Answerable(s, i) && c.got == Answer(s, i))
  }

  ghost predicate Faithful(s: State) {
    && (s.variant.KernelModule? ==> |s.buffer| == BLOCK_SIZE)
    && (forall k :: s.served <= k < |s.log| && s.log[k].request.ReadAt? ==> Awaiting(s, s.log[k].call))
    && (forall k :: 0 <= k < |s.replies| ==> OwnMessage(s, s.replies[k]))
    && (forall k :: 0 <= k < |s.callbacks| && s.callbacks[k].Copying? ==>
          s.callbacks[k].message.Reply? && OwnMessage(s, s.callbacks[k].message))
    && (forall i :: 0 <= i < |s.calls| ==> OwnBuffer(s, i))
  }

  /** Nothing went wrong that the protocol does not survive. A lost read, a failed send, a failed allocation of a
      plan-A request are absent from this list: those are harmless to safety. So is a failed allocation of a
      kernel-module read up to the moment that read performs its final up. */
  predicate Clean(s: State) {
    s.past.intruded == 0 && s.past.voided == 0 && s.past.skipped == 0 && FailedUps(s) == 0
  }

  ghost predicate Safe(s: State) {
    && Books(s) && s.past.discarded == 0 && Clean(s)
    && Journal(s) && Replayed(s) && Faithful(s)
  }

  lemma SoleHolder(s: State, i: nat, j: nat)
    requires Safe(s) && i < |s.calls| && j < |s.calls| && Holds(s.calls[i]) && Holds(s.calls[j])
    ensures i == j
  {
    OneHolder(s, i, j);
  }

  lemma CleanBackwards(s: State, l: Label)
    requires Enabled(s, l) && Clean(Apply(s, l))
    ensures Clean(s)
  {
    PastGrows(s, l);
    if l.Thread? {
      SumUpdate(s.calls, l.i, NextCall(s, l.i, l.fault), FailedUpWeight);
    }
  }

  /** A free permit means no reply is on its way and none is lost. */
  lemma FreePermit(s: State)
    requires Books(s) && s.past.intruded == 0 && s.cbSem > 0
    ensures Undelivered(s) == 0 && s.past.lost == 0 && s.callbacks == []
  {
  }

  lemma AnswerKept(s: State, s': State, i: nat, more: seq<Entry>)
    requires Answerable(s, i) && i < |s'.calls|
    requires s'.log == s.log + more && s'.initial == s.initial
    requires s'.calls[i].request == s.calls[i].request && s'.calls[i].sentAt == s.calls[i].sentAt
    ensures Answerable(s', i) && Answer(s', i) == Answer(s, i)
  {
    BeforeStable(s.log, more, s.calls[i].sentAt.value);
  }

  lemma UndeliveredAfterCall(s: State, i: nat, fault: nat)
    requires CallEnabled(s, i, fault)
    ensures Undelivered(StepCall(s, i, fault)) ==
            Undelivered(s) + if Sent(s, i, fault) != [] && s.calls[i].outgoing.ReadAt? then 1 else 0
  {
    var c := s.calls[i];
    SumAppend(s.requests, Entry(i, c.outgoing, c.seqNo), ReadWeight);
    assert s.requests + [] == s.requests;
  }

  /** The stepping call itself keeps its part of the buffer invariant. */
  lemma OwnBufferSend(s: State, i: nat, fault: nat)
    requires Safe(s) && CallEnabled(s, i, fault) && s.calls[i].pc.Send?
    ensures OwnBuffer(StepCall(s, i, fault), i)
  {
    assert Sane(s.variant, s.calls[i]) && OwnBuffer(s, i) && Logged(s, i);
    UndeliveredAfterCall(s, i, fault);
  }

  lemma OwnBufferSelf(s: State, i: nat, fault: nat)
    requires Safe(s) && CallEnabled(s, i, fault)
    ensures OwnBuffer(StepCall(s, i, fault), i)
  {
    var c, s' := s.calls[i], StepCall(s, i, fault);
    if c.pc.Send? {
      OwnBufferSend(s, i, fault);
    } else {
      assert Sane(s.variant, c) && OwnBuffer(s, i) && Logged(s, i);
      UndeliveredAfterCall(s, i, fault);
      if Answerable(s, i) {
        AnswerKept(s, s', i, []);
      }
      if c.pc.Wait? {
        FreePermit(s);
      }
    }
  }

  lemma OwnBufferOther(s: State, i: nat, fault: nat, j: nat)
    requires Safe(s) && CallEnabled(s, i, fault)
    requires j < |s.calls| && j != i
    ensures OwnBuffer(StepCall(s, i, fault), j)
  {
    var s' := StepCall(s, i, fault);
    assert OwnBuffer(s, j);
    UndeliveredAfterCall(s, i, fault);
    if Answerable(s, j) {
      AnswerKept(s, s', j, Sent(s, i, fault));
    }
  }

  lemma InFlightKept(s: State, i: nat, fault: nat, j: nat)
    requires Safe(s) && CallEnabled(s, i, fault) && Awaiting(s, j) && Undelivered(s) > 0
    ensures Awaiting(StepCall(s, i, fault), j) && Answer(StepCall(s, i, fault), j) == Answer(s, j)
  {
    var s' := StepCall(s, i, fault);
    if s.calls[j].pc.Wait? && i == j {
      FreePermit(s);
      assert false;
    }
    AnswerKept(s, s', j, Sent(s, i, fault));
  }

  lemma FaithfulCall(s: State, i: nat, fault: nat)
    requires Safe(s) && CallEnabled(s, i, fault)
    ensures Faithful(StepCall(s, i, fault))
  {
    var s' := StepCall(s, i, fault);
    var c := s.calls[i];
    assert Sane(s.variant, c);
    forall j | 0 <= j < |s'.calls| ensures OwnBuffer(s', j) {
      if j == i { OwnBufferSelf(s, i, fault); } else { OwnBufferOther(s, i, fault, j); }
    }
    forall k | s'.served <= k < |s'.log| && s'.log[k].request.ReadAt? ensures Awaiting(s', s'.log[k].call) {
      if k < |s.log| {
        assert Filed(s, k);
        InTransit(s, k);
        InFlightKept(s, i, fault, s.log[k].call);
      }
    }
    forall k | 0 <= k < |s'.replies| ensures OwnMessage(s', s'.replies[k]) {
      assert OwnMessage(s, s.replies[k]);
      SumAtLeast(s.replies, k, ReplyWeight);
      if s.replies[k].Reply? { InFlightKept(s, i, fault, s.replies[k].call); }
    }
    forall k | 0 <= k < |s'.callbacks| && s'.callbacks[k].Copying?
      ensures s'.callbacks[k].message.Reply? && OwnMessage(s', s'.callbacks[k].message)
    {
      SumAtLeast(s.callbacks, k, CopyWeight);
      InFlightKept(s, i, fault, s.callbacks[k].message.call);
    }
  }

  lemma InTransit(s: State, k: nat)
    requires Journal(s) && s.served <= k < |s.log| && s.log[k].request.ReadAt?
    ensures Undelivered(s) > 0
  {
    var first := if s.hand.Some? then s.served + 1 else s.served;
    if k >= first {
      SumAtLeast(s.requests, k - first, ReadWeight);
    }
  }

  /** Steps of the helper and the callback change neither calls nor log, so a call keeps its answer. */
  lemma SameCallsSameAnswers(s: State, s': State)
    requires s'.calls == s.calls && s'.log == s.log && s'.initial == s.initial
    ensures forall i :: Answerable(s, i) == Answerable(s', i)
    ensures forall i :: Awaiting(s, i) == Awaiting(s', i)
    ensures forall i :: Answerable(s, i) ==> Answer(s', i) == Answer(s, i)
    ensures forall m :: OwnMessage(s, m) == OwnMessage(s', m)
  {
  }

  /** Such a step also keeps the buffer invariant, if it does not touch the buffer and loses no reply silently. */
  lemma OwnBuffersSame(s: State, s': State)
    requires s'.calls == s.calls && s'.log == s.log && s'.initial == s.initial && s'.buffer == s.buffer
    requires s'.past.lost >= s.past.lost && (s'.past.lost > 0 || Undelivered(s') == Undelivered(s))
    requires forall i :: 0 <= i < |s.calls| ==> OwnBuffer(s, i)
    ensures forall i :: 0 <= i < |s'.calls| ==> OwnBuffer(s', i)
  {
    forall i | 0 <= i < |s'.calls| ensures OwnBuffer(s', i) { assert OwnBuffer(s, i); }
  }

  lemma FaithfulTake(s: State)
    requires Safe(s) && s.hand == None && s.requests != []
    ensures Faithful(StepTake(s))
  {
    var s' := StepTake(s);
    SameCallsSameAnswers(s, s');
    assert Undelivered(s') == Undelivered(s);
    OwnBuffersSame(s, s');
  }

  lemma FaithfulServe(s: State, opens: bool)
    requires Safe(s) && s.hand.Some?
    ensures Faithful(StepServe(s, opens))
  {
    var s' := StepServe(s, opens);
    SameCallsSameAnswers(s, s');
    var e := s.hand.value;
    assert Filed(s, s.served);
    if e.request.ReadAt? && opens {
      var m := Reply(e.call, Fetch(s.files, e.request.ino, e.request.pos, e.request.count));
      assert Sane(s.variant, s.calls[e.call]);
      assert m.data == Answer(s, e.call);
      SumAppend(s.replies, m, ReplyWeight);
    }
    assert s'.past.lost > 0 || Undelivered(s') == Undelivered(s);
    OwnBuffersSame(s, s');
  }

  lemma FaithfulDeliver(s: State)
    requires Safe(s) && s.replies != []
    requires StepDeliver(s).past.intruded == 0
    ensures Faithful(StepDeliver(s)) && StepDeliver(s).past.discarded == 0
  {
    var s' := StepDeliver(s);
    SameCallsSameAnswers(s, s');
    var m := s.replies[0];
    assert OwnMessage(s, m);
    SumAtLeast(s.replies, 0, ReplyWeight);
    if s.cbSem > 0 {
      FreePermit(s);
      SumAppend(s.callbacks, Dropping, CopyWeight);
    } else {
      SumAppend(s.callbacks, Copying(m), CopyWeight);
    }
    assert Undelivered(s') == Undelivered(s);
    OwnBuffersSame(s, s');
  }

  /** Overwriting the shared buffer harms nobody: whoever else relies on it would be a second holder. */
  lemma OwnBufferAfterCopy(s: State, k: nat, gotMemory: bool, j: nat)
    requires Safe(s) && k < |s.callbacks| && s.callbacks[k].Copying? && j < |s.calls|
    requires StepCallback(s, k, gotMemory).past.voided == 0
    ensures OwnBuffer(StepCallback(s, k, gotMemory), j)
  {
    var s' := StepCallback(s, k, gotMemory);
    SameCallsSameAnswers(s, s');
    var m := s.callbacks[k].message;
    var i := m.call;
    assert OwnMessage(s, m) && Sane(s.variant, s.calls[i]);
    assert m.data == Answer(s, i) && s'.buffer == m.data;
    assert OwnBuffer(s, j) && OwnBuffer(s, i);
    if j != i && s.calls[j].request.ReadAt? && Holds(s.calls[j]) {
      SoleHolder(s, i, j);
    }
  }

  lemma FaithfulCallback(s: State, k: nat, gotMemory: bool)
    requires Safe(s) && k < |s.callbacks|
    requires StepCallback(s, k, gotMemory).past.voided == 0
    ensures Faithful(StepCallback(s, k, gotMemory))
  {
    var s' := StepCallback(s, k, gotMemory);
    SameCallsSameAnswers(s, s');
    match s.callbacks[k]
    case Copying(m) =>
      assert s.variant.KernelModule? ==> |s'.buffer| == BLOCK_SIZE;
      forall j | 0 <= j < |s'.calls| ensures OwnBuffer(s', j) {
        OwnBufferAfterCopy(s, k, gotMemory, j);
      }
    case _ =>
      SumRemove(s.callbacks, k, CopyWeight);
      assert Undelivered(s') == Undelivered(s);
      OwnBuffersSame(s, s');
  }

  lemma FaithfulNoise(s: State, data: Bytes)
    requires Safe(s)
    ensures Faithful(s.(replies := s.replies + [Noise(data)]))
  {
    var s' := s.(replies := s.replies + [Noise(data)]);
    SameCallsSameAnswers(s, s');
    SumAppend(s.replies, Noise(data), ReplyWeight);
    OwnBuffersSame(s, s');
  }

  lemma FaithfulStep(s: State, l: Label)
    requires Safe(s) && Enabled(s, l) && Clean(Apply(s, l))
    ensures Faithful(Apply(s, l)) && Apply(s, l).past.discarded == 0
  {
    match l
    case Thread(i, fault) => FaithfulCall(s, i, fault);
    case HelperTake => FaithfulTake(s);
    case HelperServe(opens) => FaithfulServe(s, opens);
    case Deliver => FaithfulDeliver(s);
    case CallbackStep(k, gotMemory) => FaithfulCallback(s, k, gotMemory);
    case Unsolicited(data) => FaithfulNoise(s, data);
  }

  lemma SafeStep(s: State, l: Label)
    requires Safe(s) && Enabled(s, l) && Clean(Apply(s, l))
    ensures Safe(Apply(s, l))
  {
    BooksStep(s, l);
    JournalStep(s, l);
    ReplayedStep(s, l);
    FaithfulStep(s, l);
  }

  lemma SafeInitially(s: State)
    requires Initial(s)
    ensures Safe(s)
  {
    BooksInitially(s);
    SumZero(s.calls, FailedUpWeight);
    assert Before(s.log, 0) == [];
  }

  lemma {:induction false} CleanAllAlong(s: State, ls: seq<Label>, t: State)
    requires Runs(s, ls, t) && Clean(t)
    ensures Clean(s)
    decreases |ls|
  {
    if ls != [] {
      CleanAllAlong(Apply(s, ls[0]), ls[1..], t);
      CleanBackwards(s, ls[0]);
    }
  }

  lemma {:induction false} SafeKept(s: State, ls: seq<Label>, t: State)
    requires Safe(s) && Runs(s, ls, t) && Clean(t)
    ensures Safe(t)
    decreases |ls|
  {
    if ls != [] {
      CleanAllAlong(Apply(s, ls[0]), ls[1..], t);
      SafeStep(s, ls[0]);
      SafeKept(Apply(s, ls[0]), ls[1..], t);
    }
  }

  // ----- main results

  /** Own reply: in every interleaving of any number of readers and writers, a locked read that has copied the
      shared buffer out holds the answer to its own request, taken at the point where that request was sent.
      Stray messages may arrive, as long as none is handled while no permit is free; sends and plan-A allocations
      may fail; kernel-module allocations may fail too, as long as none of those reads has done its final up. */
  lemma OwnReply(s: State, ls: seq<Label>, t: State, i: nat)
    requires Initial(s) && Runs(s, ls, t) && Clean(t)
    requires i < |t.calls| && t.calls[i].request.ReadAt? && !t.calls[i].unlocked
    requires t.calls[i].pc.UpCn? || t.calls[i].pc.Done?
    ensures Answerable(t, i) && t.calls[i].got == Answer(t, i)
    ensures t.log[t.calls[i].sentAt.value].call == i && t.log[t.calls[i].sentAt.value].request == t.calls[i].request
  {
    SafeInitially(s);
    SafeKept(s, ls, t);
    assert OwnBuffer(t, i) && Logged(t, i) && Sane(t.variant, t.calls[i]);
    assert Filed(t, t.calls[i].sentAt.value);
  }

  /** Linearizability: every byte of a finished read is the byte written last by a write sent before the read was
      sent, or the initial byte if there is none, although no write is ever acknowledged. */
  lemma ReadsAreLinearizable(s: State, ls: seq<Label>, t: State, i: nat, k: nat)
    requires Initial(s) && Runs(s, ls, t) && Clean(t)
    requires i < |t.calls| && t.calls[i].request.ReadAt? && t.calls[i].pc.Done?
    requires k < t.calls[i].request.count
    ensures t.calls[i].sentAt.Some? && t.calls[i].sentAt.value < |t.log|
    ensures |t.calls[i].got| == t.calls[i].request.count
    ensures t.calls[i].got[k] == ByteAfter(s.initial, Before(t.log, t.calls[i].sentAt.value),
                                           t.calls[i].request.ino, t.calls[i].request.pos + k)
  {
    BooksInitially(s);
    BooksKept(s, ls, t);
    SumAtLeast(t.calls, i, FailedUpWeight);
    OwnReply(s, ls, t, i);
    Fixed(s, ls, t);
    var r := t.calls[i].request;
    ReplayCell(s.initial, Before(t.log, t.calls[i].sentAt.value), r.ino, r.pos + k);
    SafeInitially(s);
    SafeKept(s, ls, t);
    assert Logged(t, i);
  }

  lemma {:induction false} SendTimes(s: State, ls: seq<Label>, t: State, i: nat)
    requires Runs(s, ls, t) && i < |s.calls|
    ensures i < |t.calls| && |s.log| <= |t.log|
    ensures t.calls[i].sentAt != s.calls[i].sentAt ==> t.calls[i].sentAt.Some? && |s.log| <= t.calls[i].sentAt.value
    decreases |ls|
  {
    if ls != [] {
      SendTimes(Apply(s, ls[0]), ls[1..], t, i);
    }
  }

  lemma {:induction false} JournalKept(s: State, ls: seq<Label>, t: State)
    requires Journal(s) && Runs(s, ls, t)
    ensures Journal(t)
    decreases |ls|
  {
    if ls != [] {
      JournalStep(s, ls[0]);
      JournalKept(Apply(s, ls[0]), ls[1..], t);
    }
  }

  /** The send order respects real time: a call that was over before another one was sent precedes it in the log,
      in every run of every environment. */
  lemma RealTimeOrder(s: State, ls: seq<Label>, m: State, ms: seq<Label>, t: State, i: nat, j: nat)
    requires Initial(s) && Runs(s, ls, m) && Runs(m, ms, t)
    requires i < |m.calls| && j < |m.calls|
    requires m.calls[i].pc.Done? && m.calls[i].sentAt.Some?
    requires m.calls[j].sentAt.None? && j < |t.calls| && t.calls[j].sentAt.Some?
    ensures i < |t.calls| && t.calls[i].sentAt == m.calls[i].sentAt
    ensures t.calls[i].sentAt.value < t.calls[j].sentAt.value
  {
    JournalKept(s, ls, m);
    SendTimes(m, ms, t, j);
    DoneStays(m, ms, t, i);
    assert Logged(m, i);
  }

  lemma {:induction false} DoneStays(s: State, ls: seq<Label>, t: State, i: nat)
    requires Runs(s, ls, t) && i < |s.calls| && s.calls[i].pc.Done?
    ensures i < |t.calls| && t.calls[i] == s.calls[i]
    decreases |ls|
  {
    if ls != [] {
      DoneStays(Apply(s, ls[0]), ls[1..], t, i);
    }
  }
}
