/** What is on the wire in every run: sequence numbers and write payloads. */
module Traffic {
  import opened Store
  import opened Protocol
  import opened Sums
  import opened Ledgers
  import opened Replies

  const COUNTER_RANGE := 0x1_0000_0000

  /** The 32-bit number a message carries. */
  function WireSeq(e: Entry): nat { e.seqNo % COUNTER_RANGE }

  predicate Stamped(c: Call) { c.pc.FromUser? || c.pc.Send? }

  /** Numbers rise along the log, and only the message of a call about to bump the counter bears its value. */
  ghost predicate Numbered(s: State) {
    && (forall k, m :: 0 <= k < m < |s.log| ==> s.log[k].seqNo < s.log[m].seqNo)
    && (forall k :: 0 <= k < |s.log| ==>
          && s.log[k].seqNo <= s.counter
          && s.log[k].call < |s.calls|
          && (s.log[k].seqNo == s.counter ==> s.calls[s.log[k].call].pc.Bump?))
    && (forall i :: 0 <= i < |s.calls| && Stamped(s.calls[i]) ==> s.calls[i].seqNo == s.counter)
  }

  lemma PlanAOneHolder(s: State, i: nat, j: nat)
    requires Books(s) && s.variant.PlanA?
    requires i < |s.calls| && j < |s.calls| && Holds(s.calls[i]) && Holds(s.calls[j])
    ensures i == j
  {
    SumZero(s.calls, FailedUpWeight);
    OneHolder(s, i, j);
  }

  lemma NumberedCall(s: State, i: nat, fault: nat)
    requires Books(s) && s.variant.PlanA? && Numbered(s) && CallEnabled(s, i, fault)
    ensures Numbered(StepCall(s, i, fault))
  {
    var c, s' := s.calls[i], StepCall(s, i, fault);
    assert Sane(s.variant, c);
    forall j | 0 <= j < |s.calls| && Holds(s.calls[j]) && Holds(c) ensures j == i {
      PlanAOneHolder(s, i, j);
    }
    forall j | 0 <= j < |s.calls| && (Stamped(s.calls[j]) || s.calls[j].pc.Bump?) ensures Holds(s.calls[j]) {
      assert Sane(s.variant, s.calls[j]);
    }
    assert forall k :: 0 <= k < |s.log| ==> s'.log[k] == s.log[k];
  }

  lemma NumberedStep(s: State, l: Label)
    requires Books(s) && s.variant.PlanA? && Numbered(s) && Enabled(s, l)
    ensures Numbered(Apply(s, l))
  {
    match l
    case Thread(i, fault) => NumberedCall(s, i, fault);
    case _ =>
      var s' := Apply(s, l);
      assert s'.calls == s.calls && s'.log == s.log && s'.counter == s.counter;
  }

  lemma {:induction false} NumberedKept(s: State, ls: seq<Label>, t: State)
    requires Books(s) && s.variant.PlanA? && Numbered(s) && Runs(s, ls, t)
    ensures Numbered(t)
    decreases |ls|
  {
    if ls != [] {
      BooksStep(s, ls[0]);
      NumberedStep(s, ls[0]);
      NumberedKept(Apply(s, ls[0]), ls[1..], t);
    }
  }

  /** Plan A, every run, failures included: sequence numbers strictly rise in send order, so two messages can
      share a 32-bit number only if the counter went all the way round between them. */
  lemma PlanASequenceNumbers(s: State, ls: seq<Label>, t: State, k: nat, m: nat)
    requires Initial(s) && s.variant.PlanA? && Runs(s, ls, t) && k < m < |t.log|
    ensures t.log[k].seqNo < t.log[m].seqNo
    ensures WireSeq(t.log[k]) == WireSeq(t.log[m]) ==> t.log[m].seqNo - t.log[k].seqNo >= COUNTER_RANGE
  {
    BooksInitially(s);
    NumberedKept(s, ls, t);
  }

  // ----- how far the counter has come

  function ReadBump(c: Call): nat {
    if c.request.ReadAt? && (c.pc.Wait? || c.pc.Release? || c.pc.Copy? || c.pc.UpCn? || c.pc.Done?) then 1 else 0
  }

  function WriteBump(c: Call): nat {
    if c.request.WriteAt? && (c.pc.UpCn? || c.pc.Done?) then 1 else 0
  }

  /** Calls past their increment. The kernel module's writes have none. */
  function Bumps(s: State): nat {
    Sum(s.calls, ReadBump) + if s.variant.PlanA? then Sum(s.calls, WriteBump) else 0
  }

  lemma BumpNext(s: State, i: nat, fault: nat)
    requires CallEnabled(s, i, fault) && Sane(s.variant, s.calls[i])
    ensures var c, c' := s.calls[i], NextCall(s, i, fault);
            && StepCall(s, i, fault).counter + ReadBump(c) + (if s.variant.PlanA? then WriteBump(c) else 0)
               == s.counter + ReadBump(c') + (if s.variant.PlanA? then WriteBump(c') else 0)
  {
  }

  lemma BumpsStep(s: State, l: Label)
    requires AllSane(s) && Enabled(s, l)
    ensures Apply(s, l).counter + Bumps(s) == s.counter + Bumps(Apply(s, l))
  {
    match l
    case Thread(i, fault) =>
      BumpNext(s, i, fault);
      SumUpdate(s.calls, i, NextCall(s, i, fault), ReadBump);
      SumUpdate(s.calls, i, NextCall(s, i, fault), WriteBump);
    case _ =>
      assert Apply(s, l).calls == s.calls;
  }

  lemma {:induction false} BumpsKept(s: State, ls: seq<Label>, t: State)
    requires AllSane(s) && Runs(s, ls, t)
    ensures t.counter + Bumps(s) == s.counter + Bumps(t)
    decreases |ls|
  {
    if ls != [] {
      AllSaneStep(s, ls[0]);
      BumpsStep(s, ls[0]);
      BumpsKept(Apply(s, ls[0]), ls[1..], t);
    }
  }

  /** Every run: the counter has moved by one for each call past its increment, whether or not its allocation
      succeeded and whether or not anything was sent. */
  lemma CounterLaw(s: State, ls: seq<Label>, t: State)
    requires Initial(s) && Runs(s, ls, t)
    ensures t.counter == s.counter + Bumps(t)
  {
    BooksInitially(s);
    BumpsKept(s, ls, t);
    SumZero(s.calls, ReadBump);
    SumZero(s.calls, WriteBump);
  }

  // ----- payloads of writes

  predicate Payload(test: CopyTest, asked: Bytes, sent: Bytes) {
    match test
    case Intended => sent == asked
    case AsWritten => sent == Zeros(|asked|)
  }

  predicate Carried(s: State, i: nat)
    requires i < |s.calls|
  {
    var c := s.calls[i];
    c.request.WriteAt? && (c.pc.Send? || c.sentAt.Some?) ==>
      && c.outgoing.WriteAt? && c.outgoing.ino == c.request.ino && c.outgoing.pos == c.request.pos
      && Payload(s.copyTest, c.request.data, c.outgoing.data)
  }

  ghost predicate AllCarried(s: State) {
    forall i :: 0 <= i < |s.calls| ==> Carried(s, i)
  }

  lemma CarriedNext(s: State, i: nat, fault: nat)
    requires CallEnabled(s, i, fault) && Sane(s.variant, s.calls[i]) && Carried(s, i) && Logged(s, i)
    ensures Carried(StepCall(s, i, fault), i)
  {
    var c := s.calls[i];
    if c.pc.FromUser? && Transmits(s.copyTest, fault, |c.request.data|) {
      assert CopiedIn(c.request.data, 0) == c.request.data;
      assert CopiedIn(c.request.data, |c.request.data|) == Zeros(|c.request.data|);
    }
  }

  lemma CarriedStep(s: State, l: Label)
    requires AllSane(s) && Journal(s) && AllCarried(s) && Enabled(s, l)
    ensures AllCarried(Apply(s, l))
  {
    var s' := Apply(s, l);
    match l
    case Thread(i, fault) =>
      assert Carried(s, i) && Logged(s, i);
      CarriedNext(s, i, fault);
      forall j | 0 <= j < |s'.calls| && j != i ensures Carried(s', j) { assert Carried(s, j); }
    case _ =>
      assert s'.calls == s.calls && s'.copyTest == s.copyTest;
      forall j | 0 <= j < |s'.calls| ensures Carried(s', j) { assert Carried(s, j); }
  }

  lemma {:induction false} CarriedKept(s: State, ls: seq<Label>, t: State)
    requires AllSane(s) && Journal(s) && AllCarried(s) && Runs(s, ls, t)
    ensures AllCarried(t) && Journal(t)
    decreases |ls|
  {
    if ls != [] {
      AllSaneStep(s, ls[0]);
      JournalStep(s, ls[0]);
      CarriedStep(s, ls[0]);
      CarriedKept(Apply(s, ls[0]), ls[1..], t);
    }
  }

  /** Every write that reaches the log: with the intended test it carries the caller's bytes; with the test as
      written it carries as many zeros, because only a copy that moved nothing passes. */
  lemma WritesOnTheWire(s: State, ls: seq<Label>, t: State, k: nat)
    requires Initial(s) && Runs(s, ls, t) && k < |t.log| && t.log[k].request.WriteAt?
    ensures t.log[k].call < |t.calls|
    ensures var asked := t.calls[t.log[k].call].request;
            && asked.WriteAt? && t.log[k].request.ino == asked.ino && t.log[k].request.pos == asked.pos
            && t.log[k].request.data == match t.copyTest
                                        case Intended => asked.data
                                        case AsWritten => Zeros(|asked.data|)
  {
    BooksInitially(s);
    BooksKept(s, ls, t);
    CarriedKept(s, ls, t);
    assert Filed(t, k);
    var i := t.log[k].call;
    assert Carried(t, i) && Sane(t.variant, t.calls[i]);
  }

  // ----- which writes are sent

  predicate FaultFree(ls: seq<Label>) {
    forall k :: 0 <= k < |ls| ==> ls[k].Thread? ==> ls[k].fault == 0
  }

  /** A write that succeeds in fetching its bytes goes out with the intended test, and, unless it is empty, does
      not with the test as written. */
  predicate GoesOut(s: State, r: Request) {
    r.WriteAt? && (s.copyTest.Intended? || r.data == [])
  }

  predicate Decided(s: State, i: nat)
    requires i < |s.calls|
  {
    var c := s.calls[i];
    c.request.WriteAt? ==>
      && (c.pc.Send? ==> GoesOut(s, c.request))
      && (c.pc.Bump? || c.pc.UpCn? || c.pc.Done? ==> (c.sentAt.Some? <==> GoesOut(s, c.request)))
  }

  lemma DecidedNext(s: State, i: nat)
    requires CallEnabled(s, i, 0) && s.variant.PlanA?
    requires Sane(s.variant, s.calls[i]) && Logged(s, i) && Decided(s, i)
    ensures Decided(StepCall(s, i, 0), i)
  {
  }

  ghost predicate AllDecided(s: State) {
    forall i :: 0 <= i < |s.calls| ==> Decided(s, i)
  }

  lemma DecidedStep(s: State, l: Label)
    requires AllSane(s) && Journal(s) && s.variant.PlanA? && AllDecided(s)
    requires Enabled(s, l) && (l.Thread? ==> l.fault == 0)
    ensures AllDecided(Apply(s, l))
  {
    var s' := Apply(s, l);
    match l
    case Thread(i, fault) =>
      assert Decided(s, i) && Logged(s, i);
      DecidedNext(s, i);
      forall j | 0 <= j < |s'.calls| && j != i ensures Decided(s', j) { assert Decided(s, j); }
    case _ =>
      assert s'.calls == s.calls && s'.copyTest == s.copyTest;
      forall j | 0 <= j < |s'.calls| ensures Decided(s', j) { assert Decided(s, j); }
  }

  lemma {:induction false} DecidedKept(s: State, ls: seq<Label>, t: State)
    requires AllSane(s) && Journal(s) && s.variant.PlanA? && Runs(s, ls, t) && FaultFree(ls)
    requires AllDecided(s)
    ensures AllDecided(t)
    decreases |ls|
  {
    if ls != [] {
      assert ls[0].Thread? ==> ls[0].fault == 0;
      AllSaneStep(s, ls[0]);
      JournalStep(s, ls[0]);
      DecidedStep(s, ls[0]);
      DecidedKept(Apply(s, ls[0]), ls[1..], t);
    }
  }

  /** Plan A without faults: a finished write was sent if and only if the copy test is the intended one or there
      was nothing to write. So the shipped test loses every write that has bytes. */
  lemma FaultFreeWritesSent(s: State, ls: seq<Label>, t: State, i: nat)
    requires Initial(s) && s.variant.PlanA? && Runs(s, ls, t) && FaultFree(ls)
    requires i < |t.calls| && t.calls[i].request.WriteAt? && t.calls[i].pc.Done?
    ensures t.calls[i].sentAt.Some? <==> t.copyTest.Intended? || t.calls[i].request.data == []
  {
    BooksInitially(s);
    DecidedKept(s, ls, t);
    assert Decided(t, i);
  }

  // ----- the same with faults

  /** Step k is call i's allocation of its message, and it succeeds. */
  predicate AllocOk(s: State, ls: seq<Label>, t: State, k: nat, i: nat)
    requires Runs(s, ls, t)
  {
    Takes(s, ls, t, k, i, if s.variant.PlanA? then Alloc else EarlyAlloc) && ls[k].fault == 0
  }

  /** Step k is call i's fetch of count bytes from user space, and passes the copy test: with the intended one if no
      byte failed to arrive, with the one as written if none arrived. */
  predicate FetchOk(s: State, ls: seq<Label>, t: State, k: nat, i: nat, count: nat)
    requires Runs(s, ls, t)
  {
    Takes(s, ls, t, k, i, FromUser) && ls[k].fault == if s.copyTest.Intended? then 0 else count
  }

  /** Step k is call i's send, and it succeeds. */
  predicate SendOk(s: State, ls: seq<Label>, t: State, k: nat, i: nat)
    requires Runs(s, ls, t)
  {
    Takes(s, ls, t, k, i, Send) && ls[k].fault == 0
  }

  lemma {:induction false} AtFixed(s: State, ls: seq<Label>, t: State, i: nat, k: nat)
    requires AllSane(s) && Runs(s, ls, t) && i < |s.calls| && k <= |ls|
    ensures var u := At(s, ls, t, k);
            AllSane(u) && u.variant == s.variant && u.copyTest == s.copyTest
            && |u.calls| == |s.calls| && u.calls[i].request == s.calls[i].request
    decreases k
  {
    if k > 0 {
      AllSaneStep(s, ls[0]);
      AtFixed(Apply(s, ls[0]), ls[1..], t, i, k - 1);
    }
  }

  predicate PastAlloc(v: Variant, c: Call) {
    || c.pc.EarlyStamp? || c.pc.Stamp? || c.pc.FromUser? || c.pc.Send? || c.sentAt.Some?
    || (v.KernelModule? && c.request.ReadAt? && (c.pc.DownCn? || c.pc.DownCb?))
  }

  predicate PastFetch(c: Call) { c.request.WriteAt? && (c.pc.Send? || c.sentAt.Some?) }

  /** Each stage of a request is entered only through the success of the one before, and what is sent stays sent. */
  lemma StageStep(s: State, l: Label, i: nat)
    requires AllSane(s) && Enabled(s, l) && i < |s.calls|
    ensures var c, c' := s.calls[i], Apply(s, l).calls[i];
            var own := l.Thread? && l.i == i;
            && (PastAlloc(s.variant, c') ==>
                  PastAlloc(s.variant, c) || (own && l.fault == 0 && c.pc == if s.variant.PlanA? then Alloc else EarlyAlloc))
            && (PastFetch(c') ==>
                  PastFetch(c) || (own && c.pc.FromUser? && l.fault == if s.copyTest.Intended? then 0 else |c.request.data|))
            && (c'.sentAt.Some? <==> c.sentAt.Some? || (own && c.pc.Send? && l.fault == 0))
  {
    assert Sane(s.variant, s.calls[i]);
  }

  lemma StageExtends(s: State, ls: seq<Label>, t: State, i: nat, k: nat)
    requires AllSane(s) && Runs(s, ls, t) && 0 < k <= |ls| && i < |s.calls|
    ensures i < |At(s, ls, t, k - 1).calls|
    ensures var c := At(s, ls, t, k - 1).calls[i];
            var own := ls[k - 1].Thread? && ls[k - 1].i == i;
            && (own && ls[k - 1].fault == 0 && c.pc == (if s.variant.PlanA? then Alloc else EarlyAlloc) <==> AllocOk(s, ls, t, k - 1, i))
            && (own && c.pc.Send? && ls[k - 1].fault == 0 <==> SendOk(s, ls, t, k - 1, i))
  {
    AtFixed(s, ls, t, i, k - 1);
  }

  lemma {:induction false} RequestPath(s: State, ls: seq<Label>, t: State, i: nat, k: nat)
    requires AllSane(s) && Runs(s, ls, t) && k <= |ls|
    requires i < |s.calls| && !PastAlloc(s.variant, s.calls[i])
    ensures i < |At(s, ls, t, k).calls|
    ensures PastAlloc(s.variant, At(s, ls, t, k).calls[i]) ==> exists a: nat :: a < k && AllocOk(s, ls, t, a, i)
    ensures At(s, ls, t, k).calls[i].sentAt.Some? <==> exists a: nat :: a < k && SendOk(s, ls, t, a, i)
    decreases k
  {
    if k > 0 {
      RequestPath(s, ls, t, i, k - 1);
      AtFixed(s, ls, t, i, k - 1);
      AtStep(s, ls, t, k - 1);
      StageStep(At(s, ls, t, k - 1), ls[k - 1], i);
      StageExtends(s, ls, t, i, k);
    }
  }

  lemma {:induction false} FetchPath(s: State, ls: seq<Label>, t: State, i: nat, k: nat)
    requires AllSane(s) && Runs(s, ls, t) && k <= |ls|
    requires i < |s.calls| && s.calls[i].request.WriteAt? && !PastFetch(s.calls[i])
    ensures i < |At(s, ls, t, k).calls|
    ensures PastFetch(At(s, ls, t, k).calls[i]) ==> exists a: nat :: a < k && FetchOk(s, ls, t, a, i, |s.calls[i].request.data|)
    decreases k
  {
    if k > 0 {
      FetchPath(s, ls, t, i, k - 1);
      AtFixed(s, ls, t, i, k - 1);
      AtStep(s, ls, t, k - 1);
      StageStep(At(s, ls, t, k - 1), ls[k - 1], i);
      if PastFetch(At(s, ls, t, k).calls[i]) && !PastFetch(At(s, ls, t, k - 1).calls[i]) {
        assert FetchOk(s, ls, t, k - 1, i, |s.calls[i].request.data|);
      }
    }
  }

  /** Every run, both variants: a request is in the log if and only if its allocation succeeded, its send succeeded
      and, for a write, its fetch from user space passed the copy test. A plan-A write returns the full count in
      every case. */
  lemma RequestsSentExactly(s: State, ls: seq<Label>, t: State, i: nat)
    requires Initial(s) && Runs(s, ls, t) && i < |t.calls|
    ensures t.calls[i].sentAt.Some? <==>
              && (exists a: nat :: AllocOk(s, ls, t, a, i))
              && (t.calls[i].request.WriteAt? ==> exists b: nat :: FetchOk(s, ls, t, b, i, |t.calls[i].request.data|))
              && (exists c: nat :: SendOk(s, ls, t, c, i))
  {
    BooksInitially(s);
    Fixed(s, ls, t);
    AtEnd(s, ls, t);
    RequestPath(s, ls, t, i, |ls|);
    if s.calls[i].request.WriteAt? {
      FetchPath(s, ls, t, i, |ls|);
    }
  }
}
