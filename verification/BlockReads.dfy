/** The kernel module's block reads end to end: wire format, protocol and disk image together. */
module BlockReads {
  import opened Store
  import opened Blocks
  import opened Wire
  import opened Protocol
  import opened Ledgers
  import opened Replies
  import Sums

  /** The one file behind the kernel module: the disk image. */
  const IMAGE := 0

  /** What the helper gets to see of a read of this address: an offset of address times block size in the image,
      after the address has been through the five-byte message. */
  function BlockRequest(address: nat): Request {
    ReadAt(IMAGE, WireAddress(address) * BLOCK_SIZE, BLOCK_SIZE)
  }

  predicate OnlyReads(s: State) {
    forall k :: 0 <= k < |s.log| ==> s.log[k].request.ReadAt?
  }

  /** The kernel module never puts a write on the wire: its write routine locks, does nothing, and unlocks. */
  lemma {:induction false} ModuleSendsNoWrites(s: State, ls: seq<Label>, t: State)
    requires AllSane(s) && s.variant.KernelModule? && OnlyReads(s) && Runs(s, ls, t)
    ensures OnlyReads(t)
    decreases |ls|
  {
    if ls != [] {
      var u := Apply(s, ls[0]);
      if ls[0].Thread? {
        assert Sane(s.variant, s.calls[ls[0].i]);
      }
      AllSaneStep(s, ls[0]);
      ModuleSendsNoWrites(u, ls[1..], t);
    }
  }

  lemma {:induction false} ReadsLeaveFiles(files: Files, rs: seq<Request>)
    requires forall k :: 0 <= k < |rs| ==> rs[k].ReadAt?
    ensures Replay(files, rs) == files
    decreases |rs|
  {
    if rs != [] {
      ReadsLeaveFiles(files, rs[..|rs| - 1]);
    }
  }

  /** In every clean run, whatever else goes on, a finished block read returns block WireAddress(address) of the
      mounted image. That is the block asked for exactly for addresses below 1000; no data-bitmap address
      is, and each is answered with a block of a three-digit address. */
  lemma BlockReadReturns(s: State, ls: seq<Label>, t: State, i: nat, address: nat)
    requires Initial(s) && s.variant.KernelModule? && Runs(s, ls, t) && Clean(t)
    requires i < |t.calls| && t.calls[i].request == BlockRequest(address) && t.calls[i].pc.Done?
    ensures |t.calls[i].got| == 1024
    ensures forall k :: 0 <= k < 1024 ==> t.calls[i].got[k] == Cell(s.initial, IMAGE, WireAddress(address) * 1024 + k)
    ensures WireAddress(address) == address <==> address < 1000
    ensures address >= DATA_BITMAP_OFFSET ==> 100 <= WireAddress(address) < 1000
  {
    Sums.SumAtLeast(t.calls, i, FailedUpWeight);
    OwnReply(s, ls, t, i);
    BooksInitially(s);
    ModuleSendsNoWrites(s, ls, t);
    Fixed(s, ls, t);
    ReadsLeaveFiles(s.initial, Before(t.log, t.calls[i].sentAt.value));
    FaithfulRange(0, address);
  }

  // ----- reads under any failures

  function Wanted(s: State, r: Request): Bytes
    requires r.ReadAt?
  {
    Fetch(s.initial, r.ino, r.pos, r.count)
  }

  /** Some call has asked for exactly these bytes. */
  ghost predicate SomebodysBlock(s: State, b: Bytes) {
    exists j :: 0 <= j < |s.calls| && s.calls[j].request.ReadAt? && s.calls[j].sentAt.Some? && b == Wanted(s, s.calls[j].request)
  }

  /** The block the buffer held first, or one some call has asked for. */
  ghost predicate Whole(s: State, first: Bytes, b: Bytes) {
    |b| == BLOCK_SIZE && (b == first || SomebodysBlock(s, b))
  }

  predicate AskedFor(s: State, e: Entry) {
    e.request.ReadAt? && e.call < |s.calls| && s.calls[e.call].sentAt.Some? && s.calls[e.call].request == e.request
  }

  ghost predicate MessageWhole(s: State, m: Message) {
    m.Reply? ==> |m.data| == BLOCK_SIZE && SomebodysBlock(s, m.data)
  }

  predicate PastCopy(pc: Pc) { pc.UpCn? || pc.Done? }

  ghost predicate AllWhole(s: State, first: Bytes) {
    && s.files == s.initial && Whole(s, first, s.buffer)
    && (forall k :: 0 <= k < |s.requests| ==> AskedFor(s, s.requests[k]))
    && (s.hand.Some? ==> AskedFor(s, s.hand.value))
    && (forall k :: 0 <= k < |s.replies| ==> MessageWhole(s, s.replies[k]))
    && (forall k :: 0 <= k < |s.callbacks| && s.callbacks[k].Copying? ==>
          s.callbacks[k].message.Reply? && MessageWhole(s, s.callbacks[k].message))
    && (forall i :: 0 <= i < |s.calls| && s.calls[i].request.ReadAt? && PastCopy(s.calls[i].pc) ==>
          Whole(s, first, s.calls[i].got))
  }

  /** Nothing asked for is ever taken back. */
  lemma SomebodysStays(s: State, l: Label, b: Bytes)
    requires Enabled(s, l) && SomebodysBlock(s, b)
    ensures SomebodysBlock(Apply(s, l), b)
  {
    var j :| 0 <= j < |s.calls| && s.calls[j].request.ReadAt? && s.calls[j].sentAt.Some? && b == Wanted(s, s.calls[j].request);
    var c := Apply(s, l).calls[j];
    assert c.request == s.calls[j].request && c.sentAt.Some?;
  }

  lemma WholeStays(s: State, l: Label, first: Bytes)
    requires Enabled(s, l)
    ensures forall b :: Whole(s, first, b) ==> Whole(Apply(s, l), first, b)
    ensures forall m :: MessageWhole(s, m) ==> MessageWhole(Apply(s, l), m)
  {
    forall b | SomebodysBlock(s, b) ensures SomebodysBlock(Apply(s, l), b) {
      SomebodysStays(s, l, b);
    }
  }

  lemma AskedForStays(s: State, l: Label)
    requires Enabled(s, l)
    ensures forall e :: AskedFor(s, e) ==> AskedFor(Apply(s, l), e)
  {
    forall e | AskedFor(s, e) ensures AskedFor(Apply(s, l), e) {
      var c := Apply(s, l).calls[e.call];
      assert c.request == s.calls[e.call].request && c.sentAt.Some?;
    }
  }

  lemma AllWholeCall(s: State, i: nat, fault: nat, first: Bytes)
    requires AllSane(s) && s.variant.KernelModule? && AllWhole(s, first) && CallEnabled(s, i, fault)
    ensures AllWhole(StepCall(s, i, fault), first)
  {
    var l := Thread(i, fault);
    var s' := Apply(s, l);
    WholeStays(s, l, first);
    AskedForStays(s, l);
    assert Sane(s.variant, s.calls[i]);
    forall k | 0 <= k < |s'.requests| ensures AskedFor(s', s'.requests[k]) {
      if k < |s.requests| {
        assert AskedFor(s, s.requests[k]);
      }
    }
    forall j | 0 <= j < |s'.calls| && s'.calls[j].request.ReadAt? && PastCopy(s'.calls[j].pc)
      ensures Whole(s', first, s'.calls[j].got)
    {
      if s.calls[j].pc.Copy? {
        assert j == i ==> s'.calls[j].got == s.buffer;
      }
    }
  }

  lemma AllWholeServe(s: State, opens: bool, first: Bytes)
    requires AllSane(s) && s.variant.KernelModule? && AllWhole(s, first) && s.hand.Some?
    ensures AllWhole(StepServe(s, opens), first)
  {
    var l := HelperServe(opens);
    var s' := Apply(s, l);
    WholeStays(s, l, first);
    AskedForStays(s, l);
    var e := s.hand.value;
    assert Sane(s.variant, s.calls[e.call]);
    assert SomebodysBlock(s, Wanted(s, e.request));
    forall k | 0 <= k < |s'.replies| ensures MessageWhole(s', s'.replies[k]) {
      if k < |s.replies| {
        assert MessageWhole(s, s.replies[k]);
      } else {
        assert MessageWhole(s, s'.replies[k]);
      }
    }
  }

  lemma AllWholeCallback(s: State, k: nat, gotMemory: bool, first: Bytes)
    requires s.variant.KernelModule? && AllWhole(s, first) && k < |s.callbacks|
    ensures AllWhole(StepCallback(s, k, gotMemory), first)
  {
    var l := CallbackStep(k, gotMemory);
    WholeStays(s, l, first);
    AskedForStays(s, l);
    if s.callbacks[k].Copying? {
      assert Apply(s, l).buffer == s.callbacks[k].message.data;
    }
  }

  lemma AllWholeStep(s: State, l: Label, first: Bytes)
    requires AllSane(s) && s.variant.KernelModule? && AllWhole(s, first) && Enabled(s, l)
    requires s.past.intruded == 0 && Apply(s, l).past.intruded == 0
    ensures AllWhole(Apply(s, l), first)
  {
    match l
    case Thread(i, fault) => AllWholeCall(s, i, fault, first);
    case HelperServe(opens) => AllWholeServe(s, opens, first);
    case CallbackStep(k, gotMemory) => AllWholeCallback(s, k, gotMemory, first);
    case Deliver =>
      WholeStays(s, l, first);
      AskedForStays(s, l);
      assert MessageWhole(s, s.replies[0]);
    case _ =>
      WholeStays(s, l, first);
      AskedForStays(s, l);
  }

  lemma {:induction false} AllWholeKept(s: State, ls: seq<Label>, t: State, first: Bytes)
    requires AllSane(s) && s.variant.KernelModule? && AllWhole(s, first) && Runs(s, ls, t) && t.past.intruded == 0
    ensures AllWhole(t, first)
    decreases |ls|
  {
    if ls != [] {
      var u := Apply(s, ls[0]);
      AllSaneStep(s, ls[0]);
      IntrudedGrows(u, ls[1..], t);
      PastGrows(s, ls[0]);
      AllWholeStep(s, ls[0], first);
      AllWholeKept(u, ls[1..], t, first);
    }
  }

  /** In every kernel-module run without intrusion, whatever else fails and however many calls share the lock after
      failed allocations, a read that has copied its block holds either what the buffer held at the start or a whole
      block of the image that some call has asked for: never a mixture. */
  lemma ReadsReturnWholeBlocks(s: State, ls: seq<Label>, t: State, i: nat)
    requires Initial(s) && s.variant.KernelModule? && Runs(s, ls, t) && t.past.intruded == 0
    requires i < |t.calls| && t.calls[i].request.ReadAt? && PastCopy(t.calls[i].pc)
    ensures t.calls[i].got == s.buffer || SomebodysBlock(t, t.calls[i].got)
  {
    BooksInitially(s);
    AllWholeKept(s, ls, t, s.buffer);
  }
}
