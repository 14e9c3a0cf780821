/** The two-semaphore request/reply protocol between the kernel side and the helper, as a labelled
    transition system: one step per semaphore operation, allocation, copy, send or counter update.

    KernelModule is kernel_space_module/sjfs.c, PlanA is backup_plans/a/sjfs.c. A state holds any number of
    calls, each with its own program counter; a call that has not taken a step yet stands for a call not made
    yet, so the runs of a state cover every interleaving of any number of threads making any number of calls. */
module Protocol {
  import opened Store
  import opened Blocks

  datatype Variant = KernelModule | PlanA

  /** How a plan-A write reads the result of copy_from_user, which counts the bytes NOT copied. */
  datatype CopyTest = Intended | AsWritten

  /** The next action of a call. */
  datatype Pc =
    | EarlyAlloc   // kernel module: allocate the message before any lock
    | EarlyStamp   // kernel module: read the sequence counter before any lock
    | DownCn       // take cn_sem
    | DownCb       // take cb_sem, first time
    | Alloc        // plan A: allocate the message under the lock
    | Stamp        // plan A: read the sequence counter under the lock
    | FromUser     // plan A write: fetch the data from user space
    | Send
    | Bump         // increment the sequence counter
    | Wait         // take cb_sem, second time
    | Release      // give cb_sem back at once
    | Copy         // copy the shared buffer out
    | UpCn         // give cn_sem back
    | Done

  /** request is what the caller asked; outgoing is what goes on the wire; unlocked marks a kernel-module read
      whose allocation failed, which skips both first downs; sentAt is the place of its message in the send log. */
  datatype Call = Call(request: Request, outgoing: Request, pc: Pc, unlocked: bool,
                       seqNo: nat, sentAt: Option<nat>, got: Bytes)

  datatype Entry = Entry(call: nat, request: Request, seqNo: nat)

  /** A message for the callback. The callback cannot tell the two kinds apart. */
  datatype Message = Reply(call: nat, data: Bytes) | Noise(data: Bytes)

  /** A running callback: it took a free permit and is about to return it, or it is about to copy its message,
      or it has copied and is about to release. */
  datatype Callback = Dropping | Copying(message: Message) | Releasing

  /** What went out of the ordinary so far: reads that took a permit and will get no reply; unsolicited messages
      handled while no permit was free; replies thrown away because one was; replies whose plan-A buffer could
      not be allocated; writes whose file the helper could not open. */
  datatype History = History(lost: nat, intruded: nat, discarded: nat, voided: nat, skipped: nat)

  /** The last three fields are history and steer nothing: everything sent, how many of these the helper has
      dealt with, and what went wrong. */
  datatype State = State(
    variant: Variant, copyTest: CopyTest, initial: Files,
    calls: seq<Call>, cnSem: nat, cbSem: nat, counter: nat,
    requests: seq<Entry>, hand: Option<Entry>, files: Files,
    replies: seq<Message>, callbacks: seq<Callback>, buffer: Bytes,
    log: seq<Entry>, served: nat, past: History)

  /** fault is the outcome of a step that can fail: nonzero for a failed allocation or a failed send, whose result
      no caller looks at, and the number of bytes not copied for FromUser. */
  datatype Label =
    | Thread(i: nat, fault: nat)
    | HelperTake
    | HelperServe(opens: bool)
    | Deliver
    | CallbackStep(k: nat, gotMemory: bool)
    | Unsolicited(data: Bytes)

  function Requests(log: seq<Entry>): (rs: seq<Request>)
    ensures |rs| == |log|
  {
    seq(|log|, k requires 0 <= k < |log| => log[k].request)
  }

  function FirstPc(v: Variant, r: Request): Pc {
    if v.KernelModule? && r.ReadAt? then EarlyAlloc else DownCn
  }

  /** The shape of a request each variant can make: the kernel module reads whole blocks only. */
  predicate Admissible(v: Variant, r: Request) {
    v.KernelModule? && r.ReadAt? ==> r.count == BLOCK_SIZE
  }

  predicate Initial(s: State) {
    && s.cnSem == 1 && s.cbSem == 1
    && s.requests == [] && s.hand == None && s.replies == [] && s.callbacks == []
    && s.log == [] && s.served == 0 && s.past == History(0, 0, 0, 0, 0)
    && s.files == s.initial
    && (s.variant.KernelModule? ==> |s.buffer| == BLOCK_SIZE)
    && forall i :: 0 <= i < |s.calls| ==>
         && Admissible(s.variant, s.calls[i].request)
         && s.calls[i] == Call(s.calls[i].request, s.calls[i].request, FirstPc(s.variant, s.calls[i].request),
                               false, s.calls[i].seqNo, None, s.calls[i].got)
  }

  predicate CallEnabled(s: State, i: nat, fault: nat) {
    && i < |s.calls|
    && match s.calls[i].pc
       case Done => false
       case DownCn => s.cnSem > 0 && fault == 0
       case DownCb => s.cbSem > 0 && fault == 0
       case Wait => s.cbSem > 0 && fault == 0
       case EarlyAlloc => true
       case Alloc => true
       case Send => true
       case FromUser => s.calls[i].request.WriteAt? && fault <= |s.calls[i].request.data|
       case _ => fault == 0
  }

  predicate Transmits(t: CopyTest, notCopied: nat, count: nat) {
    match t
    case Intended => notCopied == 0
    case AsWritten => notCopied == count
  }

  /** What copy_from_user leaves in a zeroed buffer. */
  function CopiedIn(data: Bytes, notCopied: nat): Bytes
    requires notCopied <= |data|
  {
    data[..|data| - notCopied] + Zeros(notCopied)
  }

  function Take(buffer: Bytes, count: nat): Bytes {
    if count <= |buffer| then buffer[..count] else buffer
  }

  function NextCall(s: State, i: nat, fault: nat): Call
    requires CallEnabled(s, i, fault)
  {
    var c := s.calls[i];
    var isRead := c.request.ReadAt?;
    match c.pc
    case EarlyAlloc => if fault == 0 then c.(pc := EarlyStamp) else c.(pc := Bump, unlocked := true)
    case EarlyStamp => c.(pc := DownCn, seqNo := s.counter)
    case DownCn => c.(pc := if isRead then DownCb else if s.variant.PlanA? then Alloc else UpCn)
    case DownCb => c.(pc := if s.variant.PlanA? then Alloc else Send)
    case Alloc => if fault == 0 then c.(pc := Stamp) else c.(pc := Bump)
    case Stamp => c.(pc := if isRead then Send else FromUser, seqNo := s.counter)
    case FromUser =>
      if Transmits(s.copyTest, fault, |c.request.data|)
      then c.(pc := Send, outgoing := c.request.(data := CopiedIn(c.request.data, fault)))
      else c.(pc := Bump)
    case Send => if fault == 0 then c.(pc := Bump, sentAt := Some(|s.log|)) else c.(pc := Bump)
    case Bump => c.(pc := if isRead then Wait else UpCn)
    case Wait => c.(pc := Release)
    case Release => c.(pc := Copy)
    case Copy => c.(pc := UpCn, got := Take(s.buffer, if isRead then c.request.count else 0))
    case UpCn => c.(pc := Done)
  }

  /** What this step of a call puts on the wire. */
  function Sent(s: State, i: nat, fault: nat): seq<Entry>
    requires i < |s.calls|
  {
    var c := s.calls[i];
    if c.pc.Send? && fault == 0 then [Entry(i, c.outgoing, c.seqNo)] else []
  }

  function StepCall(s: State, i: nat, fault: nat): State
    requires CallEnabled(s, i, fault)
  {
    var c := s.calls[i];
    var sent := Sent(s, i, fault);
    s.(calls := s.calls[i := NextCall(s, i, fault)],
       cnSem := if c.pc.DownCn? then s.cnSem - 1 else if c.pc.UpCn? then s.cnSem + 1 else s.cnSem,
       cbSem := if c.pc.DownCb? || c.pc.Wait? then s.cbSem - 1 else if c.pc.Release? then s.cbSem + 1 else s.cbSem,
       counter := if c.pc.Bump? then s.counter + 1 else s.counter,
       requests := s.requests + sent,
       log := s.log + sent,
       past := if (c.pc.Alloc? || c.pc.Send?) && fault != 0 && c.request.ReadAt? then s.past.(lost := s.past.lost + 1) else s.past)
  }

  function StepTake(s: State): State
    requires s.hand == None && s.requests != []
  {
    s.(hand := Some(s.requests[0]), requests := s.requests[1..])
  }

  /** The helper deals with the request in hand: a read is answered, a write is stored and not answered; when the
      file does not open it gives up without a word, and the reader's reply is lost. */
  function StepServe(s: State, opens: bool): State
    requires s.hand.Some?
  {
    var e := s.hand.value;
    match e.request
    case ReadAt(ino, pos, count) =>
      if opens
      then s.(hand := None, served := s.served + 1, replies := s.replies + [Reply(e.call, Fetch(s.files, ino, pos, count))])
      else s.(hand := None, served := s.served + 1, past := s.past.(lost := s.past.lost + 1))
    case WriteAt(_, _, _) =>
      if opens
      then s.(hand := None, served := s.served + 1, files := Perform(s.files, e.request))
      else s.(hand := None, served := s.served + 1, past := s.past.(skipped := s.past.skipped + 1))
  }

  /** The callback starts on the oldest message: a free permit means nobody waits and the message is dropped. */
  function StepDeliver(s: State): State
    requires s.replies != []
  {
    var m := s.replies[0];
    if s.cbSem > 0 then
      s.(replies := s.replies[1..], cbSem := s.cbSem - 1, callbacks := s.callbacks + [Dropping],
         past := if m.Reply? then s.past.(discarded := s.past.discarded + 1) else s.past)
    else
      s.(replies := s.replies[1..], callbacks := s.callbacks + [Copying(m)],
         past := if m.Noise? then s.past.(intruded := s.past.intruded + 1) else s.past)
  }

  /** The kernel module copies at most a block over the front of its fixed buffer; plan A allocates a fresh
      buffer, which is left null when that fails. */
  function Install(v: Variant, buffer: Bytes, data: Bytes, gotMemory: bool): Bytes {
    match v
    case KernelModule =>
      var n := if |data| > BLOCK_SIZE then BLOCK_SIZE else |data|;
      data[..n] + (if n <= |buffer| then buffer[n..] else [])
    case PlanA => if gotMemory then data else []
  }

  function StepCallback(s: State, k: nat, gotMemory: bool): State
    requires k < |s.callbacks|
  {
    match s.callbacks[k]
    case Copying(m) =>
      s.(callbacks := s.callbacks[k := Releasing], buffer := Install(s.variant, s.buffer, m.data, gotMemory),
         past := if s.variant.PlanA? && !gotMemory then s.past.(voided := s.past.voided + 1) else s.past)
    case _ =>
      s.(callbacks := s.callbacks[..k] + s.callbacks[k + 1..], cbSem := s.cbSem + 1)
  }

  predicate Enabled(s: State, l: Label) {
    match l
    case Thread(i, fault) => CallEnabled(s, i, fault)
    case HelperTake => s.hand == None && s.requests != []
    case HelperServe(_) => s.hand.Some?
    case Deliver => s.replies != []
    case CallbackStep(k, _) => k < |s.callbacks|
    case Unsolicited(_) => true
  }

  function Apply(s: State, l: Label): State
    requires Enabled(s, l)
  {
    match l
    case Thread(i, fault) => StepCall(s, i, fault)
    case HelperTake => StepTake(s)
    case HelperServe(opens) => StepServe(s, opens)
    case Deliver => StepDeliver(s)
    case CallbackStep(k, gotMemory) => StepCallback(s, k, gotMemory)
    case Unsolicited(data) => s.(replies := s.replies + [Noise(data)])
  }

  /** ls is a run from s to t. */
  predicate Runs(s: State, ls: seq<Label>, t: State)
    decreases |ls|
  {
    if ls == [] then s == t
    else Enabled(s, ls[0]) && Runs(Apply(s, ls[0]), ls[1..], t)
  }

  /** The state of a run after its first k steps. */
  function At(s: State, ls: seq<Label>, t: State, k: nat): State
    requires Runs(s, ls, t) && k <= |ls|
    decreases k
  {
    if k == 0 then s else At(Apply(s, ls[0]), ls[1..], t, k - 1)
  }

  /** Step k of the run is the step of call i at program point p. */
  predicate Takes(s: State, ls: seq<Label>, t: State, k: nat, i: nat, p: Pc)
    requires Runs(s, ls, t)
  {
    && k < |ls| && ls[k].Thread? && ls[k].i == i
    && i < |At(s, ls, t, k).calls| && At(s, ls, t, k).calls[i].pc == p
  }

  lemma {:induction false} AtStep(s: State, ls: seq<Label>, t: State, k: nat)
    requires Runs(s, ls, t) && k < |ls|
    ensures Enabled(At(s, ls, t, k), ls[k]) && At(s, ls, t, k + 1) == Apply(At(s, ls, t, k), ls[k])
    decreases k
  {
    if k > 0 {
      AtStep(Apply(s, ls[0]), ls[1..], t, k - 1);
    }
  }

  lemma {:induction false} AtEnd(s: State, ls: seq<Label>, t: State)
    requires Runs(s, ls, t)
    ensures At(s, ls, t, |ls|) == t
    decreases |ls|
  {
    if ls != [] {
      AtEnd(Apply(s, ls[0]), ls[1..], t);
    }
  }

  lemma {:induction false} RunsConcat(s: State, ls: seq<Label>, t: State, ms: seq<Label>, u: State)
    requires Runs(s, ls, t) && Runs(t, ms, u)
    ensures Runs(s, ls + ms, u)
    decreases |ls|
  {
    if ls == [] {
      assert ls + ms == ms;
    } else {
      RunsConcat(Apply(s, ls[0]), ls[1..], t, ms, u);
      assert (ls + ms)[1..] == ls[1..] + ms;
    }
  }
}
