/** Conservation laws of the protocol that hold in every run, whatever the environment does, and what follows
    from them: mutual exclusion, no overlapping callbacks, starvation after a lost permit. */
module Ledgers {
  import opened Store
  import opened Protocol
  import opened Sums

  // ----- cn_sem

  predicate InLock(pc: Pc) {
    !(pc.EarlyAlloc? || pc.EarlyStamp? || pc.DownCn? || pc.Done?)
  }

  predicate Holds(c: Call) {
    InLock(c.pc) && !c.unlocked
  }

  function HoldWeight(c: Call): nat { if Holds(c) then 1 else 0 }

  /** A failed kernel-module read that has performed its final up without ever having taken the semaphore. */
  function FailedUpWeight(c: Call): nat { if c.unlocked && c.pc.Done? then 1 else 0 }

  function Holders(s: State): nat { Sum(s.calls, HoldWeight) }

  function FailedUps(s: State): nat { Sum(s.calls, FailedUpWeight) }

  predicate CnLaw(s: State) {
    s.cnSem + Holders(s) == 1 + FailedUps(s)
  }

  /** What the program text fixes about a call at each program point. */
  predicate Sane(v: Variant, c: Call) {
    && (c.unlocked ==> v.KernelModule? && c.request.ReadAt? &&
                       (c.pc.Bump? || c.pc.Wait? || c.pc.Release? || c.pc.Copy? || c.pc.UpCn? || c.pc.Done?))
    && (c.pc.EarlyAlloc? || c.pc.EarlyStamp? ==> v.KernelModule? && c.request.ReadAt?)
    && (c.pc.DownCb? || c.pc.Wait? || c.pc.Release? || c.pc.Copy? ==> c.request.ReadAt?)
    && (c.pc.FromUser? ==> c.request.WriteAt? && v.PlanA?)
    && (c.pc.Alloc? || c.pc.Stamp? ==> v.PlanA?)
    && ((c.pc.Send? || c.pc.Bump?) && v.KernelModule? ==> c.request.ReadAt?)
    && Admissible(v, c.request)
    && (c.request.ReadAt? ==> c.outgoing == c.request)
    && (c.request.WriteAt? ==> c.outgoing.WriteAt?)
  }

  predicate SaneEntry(calls: seq<Call>, e: Entry) {
    e.call < |calls| && (e.request.ReadAt? ==> calls[e.call].request == e.request)
  }

  predicate AllSane(s: State) {
    && (forall i :: 0 <= i < |s.calls| ==> Sane(s.variant, s.calls[i]))
    && (forall k :: 0 <= k < |s.requests| ==> SaneEntry(s.calls, s.requests[k]))
    && (s.hand.Some? ==> SaneEntry(s.calls, s.hand.value))
  }

  lemma SaneNext(s: State, i: nat, fault: nat)
    requires CallEnabled(s, i, fault) && Sane(s.variant, s.calls[i])
    ensures Sane(s.variant, NextCall(s, i, fault))
    ensures NextCall(s, i, fault).request == s.calls[i].request
  {
  }

  lemma AllSaneStep(s: State, l: Label)
    requires AllSane(s) && Enabled(s, l)
    ensures AllSane(Apply(s, l))
  {
    match l
    case Thread(i, fault) => SaneNext(s, i, fault);
    case _ =>
  }

  /** One step of a call moves a cn_sem permit between the count, the holder and the surplus. */
  lemma CnNext(s: State, i: nat, fault: nat)
    requires CallEnabled(s, i, fault) && Sane(s.variant, s.calls[i])
    ensures var c, c' := s.calls[i], NextCall(s, i, fault);
            StepCall(s, i, fault).cnSem + HoldWeight(c') + FailedUpWeight(c)
            == s.cnSem + HoldWeight(c) + FailedUpWeight(c')
  {
  }

  lemma CnLawStep(s: State, l: Label)
    requires CnLaw(s) && AllSane(s) && Enabled(s, l)
    ensures CnLaw(Apply(s, l))
  {
    match l
    case Thread(i, fault) =>
      CnNext(s, i, fault);
      SumUpdate(s.calls, i, NextCall(s, i, fault), HoldWeight);
      SumUpdate(s.calls, i, NextCall(s, i, fault), FailedUpWeight);
    case _ =>
  }

  // ----- cb_sem

  /** The permit a call holds itself: a reader between its first down and its send, or between its second down
      and the release. In between, the permit is on its way: it is the request, the reply, the callback. */
  predicate HasPermit(c: Call) {
    || c.pc.Release?
    || (c.request.ReadAt? && !c.unlocked && (c.pc.Alloc? || c.pc.Stamp? || c.pc.Send?))
  }

  function PermitWeight(c: Call): nat { if HasPermit(c) then 1 else 0 }

  function ReadWeight(e: Entry): nat { if e.request.ReadAt? then 1 else 0 }

  function ReplyWeight(m: Message): nat { if m.Reply? then 1 else 0 }

  function HandReads(s: State): nat { if s.hand.Some? then ReadWeight(s.hand.value) else 0 }

  function Permits(s: State): nat {
    s.cbSem + Sum(s.calls, PermitWeight) + Sum(s.requests, ReadWeight) + HandReads(s)
    + Sum(s.replies, ReplyWeight) + |s.callbacks|
  }

  predicate CbLaw(s: State) {
    Permits(s) + s.past.lost + s.past.discarded == 1 + s.past.intruded
  }

  lemma CbNext(s: State, i: nat, fault: nat)
    requires CallEnabled(s, i, fault) && Sane(s.variant, s.calls[i])
    ensures var c, c', s' := s.calls[i], NextCall(s, i, fault), StepCall(s, i, fault);
            s'.cbSem + PermitWeight(c') + (if Sent(s, i, fault) != [] then ReadWeight(Entry(i, c.outgoing, c.seqNo)) else 0) + s'.past.lost
            == s.cbSem + PermitWeight(c) + s.past.lost
  {
  }

  lemma CbLawCall(s: State, i: nat, fault: nat)
    requires CbLaw(s) && CallEnabled(s, i, fault) && Sane(s.variant, s.calls[i])
    ensures CbLaw(StepCall(s, i, fault))
  {
    CbNext(s, i, fault);
    SumUpdate(s.calls, i, NextCall(s, i, fault), PermitWeight);
    var c := s.calls[i];
    SumAppend(s.requests, Entry(i, c.outgoing, c.seqNo), ReadWeight);
    assert s.requests + [] == s.requests;
  }

  lemma CbLawServe(s: State, opens: bool)
    requires CbLaw(s) && s.hand.Some?
    ensures CbLaw(StepServe(s, opens))
  {
    var e := s.hand.value;
    if e.request.ReadAt? && opens {
      SumAppend(s.replies, Reply(e.call, Fetch(s.files, e.request.ino, e.request.pos, e.request.count)), ReplyWeight);
    }
  }

  lemma CbLawDeliver(s: State)
    requires CbLaw(s) && s.replies != []
    ensures CbLaw(StepDeliver(s))
  {
    SumHead(s.replies, ReplyWeight);
    var s' := StepDeliver(s);
    assert s'.calls == s.calls && s'.requests == s.requests && s'.hand == s.hand && s'.replies == s.replies[1..];
    assert |s'.callbacks| == |s.callbacks| + 1;
  }

  lemma CbLawCallback(s: State, k: nat, gotMemory: bool)
    requires CbLaw(s) && k < |s.callbacks|
    ensures CbLaw(StepCallback(s, k, gotMemory))
  {
    var s' := StepCallback(s, k, gotMemory);
    assert s'.calls == s.calls && s'.requests == s.requests && s'.hand == s.hand && s'.replies == s.replies;
    assert |s'.callbacks| + s'.cbSem == |s.callbacks| + s.cbSem;
  }

  lemma CbLawStep(s: State, l: Label)
    requires CbLaw(s) && AllSane(s) && Enabled(s, l)
    ensures CbLaw(Apply(s, l))
  {
    match l
    case Thread(i, fault) => CbLawCall(s, i, fault);
    case HelperServe(opens) => CbLawServe(s, opens);
    case Unsolicited(data) => SumAppend(s.replies, Noise(data), ReplyWeight);
    case Deliver => CbLawDeliver(s);
    case CallbackStep(k, gotMemory) => CbLawCallback(s, k, gotMemory);
    case HelperTake =>
  }

  // ----- every run

  predicate Books(s: State) {
    AllSane(s) && CnLaw(s) && CbLaw(s)
  }

  lemma BooksInitially(s: State)
    requires Initial(s)
    ensures Books(s)
  {
    SumZero(s.calls, HoldWeight);
    SumZero(s.calls, FailedUpWeight);
    SumZero(s.calls, PermitWeight);
  }

  lemma BooksStep(s: State, l: Label)
    requires Books(s) && Enabled(s, l)
    ensures Books(Apply(s, l))
  {
    AllSaneStep(s, l);
    CnLawStep(s, l);
    CbLawStep(s, l);
  }

  lemma {:induction false} BooksKept(s: State, ls: seq<Label>, t: State)
    requires Books(s) && Runs(s, ls, t)
    ensures Books(t)
    decreases |ls|
  {
    if ls != [] {
      BooksStep(s, ls[0]);
      BooksKept(Apply(s, ls[0]), ls[1..], t);
    }
  }

  lemma Fixed(s: State, ls: seq<Label>, t: State)
    requires Runs(s, ls, t)
    ensures t.variant == s.variant && t.copyTest == s.copyTest && t.initial == s.initial
    ensures |t.calls| == |s.calls|
    ensures forall i :: 0 <= i < |s.calls| ==> t.calls[i].request == s.calls[i].request
    decreases |ls|
  {
    if ls != [] {
      Fixed(Apply(s, ls[0]), ls[1..], t);
    }
  }

  /** cn_sem, every run of every environment: the count plus the holders is one plus the number of failed
      kernel-module reads that have performed their final up. Plan A has none, so there it is always one. */
  lemma CnPermitLaw(s: State, ls: seq<Label>, t: State)
    requires Initial(s) && Runs(s, ls, t)
    ensures t.cnSem + Holders(t) == 1 + FailedUps(t)
    ensures t.variant.PlanA? ==> FailedUps(t) == 0 && t.cnSem + Holders(t) == 1
  {
    BooksInitially(s);
    BooksKept(s, ls, t);
    if t.variant.PlanA? {
      SumZero(t.calls, FailedUpWeight);
    }
  }

  lemma OneHolder(s: State, i: nat, j: nat)
    requires CnLaw(s) && FailedUps(s) == 0
    requires i < |s.calls| && j < |s.calls| && Holds(s.calls[i]) && Holds(s.calls[j])
    ensures i == j
  {
    if i < j {
      SumAtLeastTwo(s.calls, i, j, HoldWeight);
    } else if j < i {
      SumAtLeastTwo(s.calls, j, i, HoldWeight);
    }
  }

  /** Plan A excludes two calls from its critical section in every run, failures and stray messages included. */
  lemma PlanAMutualExclusion(s: State, ls: seq<Label>, t: State, i: nat, j: nat)
    requires Initial(s) && Runs(s, ls, t) && t.variant.PlanA?
    requires i < |t.calls| && j < |t.calls| && Holds(t.calls[i]) && Holds(t.calls[j])
    ensures i == j
  {
    CnPermitLaw(s, ls, t);
    OneHolder(t, i, j);
  }

  /** cb_sem, every run of every environment: permits are neither made nor destroyed except by a lost read or a
      discarded reply (one gone) and by an unsolicited message handled while none was free (one made). */
  lemma CbPermitLaw(s: State, ls: seq<Label>, t: State)
    requires Initial(s) && Runs(s, ls, t)
    ensures Permits(t) + t.past.lost + t.past.discarded == 1 + t.past.intruded
  {
    BooksInitially(s);
    BooksKept(s, ls, t);
  }

  // ----- runs without intrusion

  lemma PastGrows(s: State, l: Label)
    requires Enabled(s, l)
    ensures var p, p' := s.past, Apply(s, l).past;
            && p.lost <= p'.lost && p.intruded <= p'.intruded && p.discarded <= p'.discarded
            && p.voided <= p'.voided && p.skipped <= p'.skipped
  {
  }

  /** While nothing has intruded, a reply is never discarded: it is itself the one permit, so none is free. */
  lemma {:induction false} NothingDiscarded(s: State, ls: seq<Label>, t: State)
    requires Books(s) && Runs(s, ls, t)
    requires s.past.discarded == 0 && t.past.intruded == 0
    ensures t.past.discarded == 0 && s.past.intruded == 0
    decreases |ls|
  {
    if ls != [] {
      var u := Apply(s, ls[0]);
      BooksStep(s, ls[0]);
      PastGrows(s, ls[0]);
      IntrudedGrows(u, ls[1..], t);
      if ls[0].Deliver? {
        SumAtLeast(s.replies, 0, ReplyWeight);
      }
      NothingDiscarded(u, ls[1..], t);
    }
  }

  lemma {:induction false} IntrudedGrows(s: State, ls: seq<Label>, t: State)
    requires Runs(s, ls, t)
    ensures s.past.intruded <= t.past.intruded && s.past.lost <= t.past.lost
    decreases |ls|
  {
    if ls != [] {
      PastGrows(s, ls[0]);
      IntrudedGrows(Apply(s, ls[0]), ls[1..], t);
    }
  }

  /** Callbacks are serialised by the protocol itself: two can only overlap after an intrusion. */
  lemma CallbacksNeverOverlap(s: State, ls: seq<Label>, t: State)
    requires Initial(s) && Runs(s, ls, t) && t.past.intruded == 0
    ensures |t.callbacks| <= 1 && t.cbSem <= 1
  {
    CbPermitLaw(s, ls, t);
  }

  predicate NoiseFree(ls: seq<Label>) {
    forall k :: 0 <= k < |ls| ==> !ls[k].Unsolicited?
  }

  /** The assumption in terms of labels: without unsolicited messages there is no intrusion. */
  lemma {:induction false} NoiseFreeNeverIntrudes(s: State, ls: seq<Label>, t: State)
    requires Runs(s, ls, t) && NoiseFree(ls)
    requires forall k :: 0 <= k < |s.replies| ==> s.replies[k].Reply?
    ensures t.past.intruded == s.past.intruded
    decreases |ls|
  {
    if ls != [] {
      assert !ls[0].Unsolicited?;
      NoiseFreeNeverIntrudes(Apply(s, ls[0]), ls[1..], t);
    }
  }

  // ----- starvation

  predicate BeforeReply(pc: Pc) {
    !(pc.Release? || pc.Copy? || pc.UpCn? || pc.Done?)
  }

  lemma NoPermitNoReply(s: State, l: Label, i: nat)
    requires Enabled(s, l) && s.cbSem == 0
    requires i < |s.calls| && s.calls[i].request.ReadAt? && BeforeReply(s.calls[i].pc)
    ensures var c := Apply(s, l).calls[i]; c.request.ReadAt? && BeforeReply(c.pc)
  {
  }

  /** One lost read stops the world: from then on, as long as nothing intrudes, no read that has not yet taken
      its reply ever takes one, in either variant, whatever the other threads and the helper do. */
  lemma {:induction false} LossIsForever(s: State, ls: seq<Label>, t: State, i: nat)
    requires Books(s) && Runs(s, ls, t)
    requires s.past.lost > 0 && t.past.intruded == 0
    requires i < |s.calls| && s.calls[i].request.ReadAt? && BeforeReply(s.calls[i].pc)
    ensures i < |t.calls| && BeforeReply(t.calls[i].pc)
    decreases |ls|
  {
    if ls != [] {
      var u := Apply(s, ls[0]);
      BooksStep(s, ls[0]);
      IntrudedGrows(s, ls, t);
      PastGrows(s, ls[0]);
      NoPermitNoReply(s, ls[0], i);
      LossIsForever(u, ls[1..], t, i);
    }
  }

  /** A plan-A reader that can never pass its wait never gives the lock back: whoever has not got in stays out. */
  lemma {:induction false} LossClosesTheLock(s: State, ls: seq<Label>, t: State, i: nat, j: nat)
    requires Books(s) && s.variant.PlanA? && Runs(s, ls, t)
    requires s.past.lost > 0 && t.past.intruded == 0
    requires i < |s.calls| && s.calls[i].request.ReadAt? && (s.calls[i].pc.Bump? || s.calls[i].pc.Wait?)
    requires j < |s.calls| && s.calls[j].pc.DownCn?
    ensures i < |t.calls| && (t.calls[i].pc.Bump? || t.calls[i].pc.Wait?)
    ensures j < |t.calls| && t.calls[j] == s.calls[j] && t.cnSem == 0
    decreases |ls|
  {
    NoPermitAfterLoss(s, ls, t);
    LockTaken(s, i);
    if ls != [] {
      BooksStep(s, ls[0]);
      PastGrows(s, ls[0]);
      HeldLock(s, ls[0], i, j);
      LossClosesTheLock(Apply(s, ls[0]), ls[1..], t, i, j);
    }
  }

  lemma NoPermitAfterLoss(s: State, ls: seq<Label>, t: State)
    requires Books(s) && Runs(s, ls, t) && s.past.lost > 0 && t.past.intruded == 0
    ensures s.cbSem == 0
  {
    IntrudedGrows(s, ls, t);
  }

  lemma LockTaken(s: State, i: nat)
    requires Books(s) && s.variant.PlanA? && i < |s.calls| && (s.calls[i].pc.Bump? || s.calls[i].pc.Wait?)
    ensures s.cnSem == 0
  {
    assert Sane(s.variant, s.calls[i]);
    SumZero(s.calls, FailedUpWeight);
    SumAtLeast(s.calls, i, HoldWeight);
  }

  lemma HeldLock(s: State, l: Label, i: nat, j: nat)
    requires Enabled(s, l) && s.cnSem == 0 && s.cbSem == 0
    requires i < |s.calls| && s.calls[i].request.ReadAt? && (s.calls[i].pc.Bump? || s.calls[i].pc.Wait?)
    requires j < |s.calls| && s.calls[j].pc.DownCn?
    ensures var s' := Apply(s, l);
            && s'.variant == s.variant && s'.calls[j] == s.calls[j]
            && s'.calls[i].request.ReadAt? && (s'.calls[i].pc.Bump? || s'.calls[i].pc.Wait?)
  {
  }
}
