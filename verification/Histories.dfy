/** What the history record means, in terms of the steps of a run alone, and the runs in which it stays empty. */
module Histories {
  import opened Store
  import opened Protocol
  import opened Sums
  import opened Ledgers
  import opened Progress
  import opened Replies

  // ----- exact accounting

  datatype Mishap = Lost | Intruded | Discarded | Voided | Skipped

  function Entered(h: History, m: Mishap): nat {
    match m
    case Lost => h.lost
    case Intruded => h.intruded
    case Discarded => h.discarded
    case Voided => h.voided
    case Skipped => h.skipped
  }

  /** Is this step, in this state, a mishap of this kind? */
  predicate Happens(s: State, l: Label, m: Mishap) {
    match m
    case Lost =>
      || (l.Thread? && l.fault != 0 && l.i < |s.calls| && s.calls[l.i].request.ReadAt?
          && (s.calls[l.i].pc.Alloc? || s.calls[l.i].pc.Send?))
      || (l == HelperServe(false) && s.hand.Some? && s.hand.value.request.ReadAt?)
    case Intruded => l.Deliver? && s.cbSem == 0 && s.replies != [] && s.replies[0].Noise?
    case Discarded => l.Deliver? && s.cbSem > 0 && s.replies != [] && s.replies[0].Reply?
    case Voided =>
      s.variant.PlanA? && l.CallbackStep? && !l.gotMemory && l.k < |s.callbacks| && s.callbacks[l.k].Copying?
    case Skipped => l == HelperServe(false) && s.hand.Some? && s.hand.value.request.WriteAt?
  }

  /** How often it happens in the first k steps of a run. */
  function Tally(s: State, ls: seq<Label>, t: State, m: Mishap, k: nat): nat
    requires Runs(s, ls, t) && k <= |ls|
  {
    if k == 0 then 0
    else Tally(s, ls, t, m, k - 1) + if Happens(At(s, ls, t, k - 1), ls[k - 1], m) then 1 else 0
  }

  lemma EnteredStep(s: State, l: Label, m: Mishap)
    requires Enabled(s, l)
    ensures Entered(Apply(s, l).past, m) == Entered(s.past, m) + if Happens(s, l, m) then 1 else 0
  {
  }

  lemma {:induction false} EnteredAt(s: State, ls: seq<Label>, t: State, m: Mishap, k: nat)
    requires Runs(s, ls, t) && k <= |ls|
    ensures Entered(At(s, ls, t, k).past, m) == Entered(s.past, m) + Tally(s, ls, t, m, k)
    decreases k
  {
    if k > 0 {
      EnteredAt(s, ls, t, m, k - 1);
      AtStep(s, ls, t, k - 1);
      EnteredStep(At(s, ls, t, k - 1), ls[k - 1], m);
    }
  }

  /** Every run: the history records each kind of mishap exactly as often as it happened. */
  lemma HistoryExact(s: State, ls: seq<Label>, t: State, m: Mishap)
    requires Initial(s) && Runs(s, ls, t)
    ensures Entered(t.past, m) == Tally(s, ls, t, m, |ls|)
  {
    EnteredAt(s, ls, t, m, |ls|);
    AtEnd(s, ls, t);
  }

  // ----- order of messages

  /** What this step puts into the queue before the callback: an answer of the helper, or a stray message. */
  function Arrival(s: State, l: Label): seq<Message> {
    match l
    case Unsolicited(data) => [Noise(data)]
    case HelperServe(true) =>
      if s.hand.Some? && s.hand.value.request.ReadAt?
      then var e := s.hand.value; [Reply(e.call, Fetch(s.files, e.request.ino, e.request.pos, e.request.count))]
      else []
    case _ => []
  }

  function Arrivals(s: State, ls: seq<Label>, t: State, k: nat): seq<Message>
    requires Runs(s, ls, t) && k <= |ls|
  {
    if k == 0 then [] else Arrivals(s, ls, t, k - 1) + Arrival(At(s, ls, t, k - 1), ls[k - 1])
  }

  function Deliveries(s: State, ls: seq<Label>, t: State, k: nat): nat
    requires Runs(s, ls, t) && k <= |ls|
  {
    if k == 0 then 0 else Deliveries(s, ls, t, k - 1) + if ls[k - 1].Deliver? then 1 else 0
  }

  lemma QueueStep(s: State, l: Label)
    requires Enabled(s, l)
    ensures Apply(s, l).replies == (if l.Deliver? then s.replies[1..] else s.replies) + Arrival(s, l)
  {
    assert s.replies + [] == s.replies;
    if l.Deliver? {
      assert s.replies[1..] + [] == s.replies[1..];
    }
  }

  lemma {:induction false} QueueAt(s: State, ls: seq<Label>, t: State, k: nat)
    requires Runs(s, ls, t) && k <= |ls| && s.replies == []
    ensures Deliveries(s, ls, t, k) <= |Arrivals(s, ls, t, k)|
    ensures At(s, ls, t, k).replies == Arrivals(s, ls, t, k)[Deliveries(s, ls, t, k)..]
    decreases k
  {
    if k > 0 {
      QueueAt(s, ls, t, k - 1);
      AtStep(s, ls, t, k - 1);
      QueueStep(At(s, ls, t, k - 1), ls[k - 1]);
    }
  }

  /** Every run: messages, stray ones included, are handled in the order in which they came, none twice and none left
      out; what waits is what came and has not been handled. */
  lemma MessagesInOrder(s: State, ls: seq<Label>, t: State)
    requires Initial(s) && Runs(s, ls, t)
    ensures Deliveries(s, ls, t, |ls|) <= |Arrivals(s, ls, t, |ls|)|
    ensures t.replies == Arrivals(s, ls, t, |ls|)[Deliveries(s, ls, t, |ls|)..]
  {
    QueueAt(s, ls, t, |ls|);
    AtEnd(s, ls, t);
  }

  // ----- clean runs

  /** The steps that end cleanness: a stray message handled while no permit is free, a plan-A callback without memory,
      a write whose file does not open, and the final up of a kernel-module read that has no message. */
  predicate Spoils(s: State, l: Label) {
    || Happens(s, l, Intruded) || Happens(s, l, Voided) || Happens(s, l, Skipped)
    || (l.Thread? && l.i < |s.calls| && s.calls[l.i].unlocked && s.calls[l.i].pc.UpCn?)
  }

  lemma FailedUpStep(s: State, l: Label)
    requires AllSane(s) && Enabled(s, l)
    ensures FailedUps(Apply(s, l)) ==
            FailedUps(s) + if l.Thread? && s.calls[l.i].unlocked && s.calls[l.i].pc.UpCn? then 1 else 0
  {
    if l.Thread? {
      assert Sane(s.variant, s.calls[l.i]);
      SumUpdate(s.calls, l.i, NextCall(s, l.i, l.fault), FailedUpWeight);
    }
  }

  lemma CleanStep(s: State, l: Label)
    requires AllSane(s) && Enabled(s, l)
    ensures Clean(Apply(s, l)) <==> Clean(s) && !Spoils(s, l)
  {
    EnteredStep(s, l, Intruded);
    EnteredStep(s, l, Voided);
    EnteredStep(s, l, Skipped);
    FailedUpStep(s, l);
  }

  predicate Unspoilt(s: State, ls: seq<Label>, t: State, n: nat)
    requires Runs(s, ls, t) && n <= |ls|
  {
    forall k :: 0 <= k < n ==> !Spoils(At(s, ls, t, k), ls[k])
  }

  lemma {:induction false} CleanAt(s: State, ls: seq<Label>, t: State, n: nat)
    requires AllSane(s) && Runs(s, ls, t) && n <= |ls|
    ensures AllSane(At(s, ls, t, n)) && (Clean(At(s, ls, t, n)) <==> Clean(s) && Unspoilt(s, ls, t, n))
    decreases n
  {
    if n > 0 {
      CleanAt(s, ls, t, n - 1);
      AtStep(s, ls, t, n - 1);
      AllSaneStep(At(s, ls, t, n - 1), ls[n - 1]);
      CleanStep(At(s, ls, t, n - 1), ls[n - 1]);
      assert Unspoilt(s, ls, t, n) <==> Unspoilt(s, ls, t, n - 1) && !Spoils(At(s, ls, t, n - 1), ls[n - 1]);
    }
  }

  /** A run is clean if and only if none of its steps is one of the four. */
  lemma CleanExact(s: State, ls: seq<Label>, t: State)
    requires Initial(s) && Runs(s, ls, t)
    ensures Clean(t) <==> Unspoilt(s, ls, t, |ls|)
  {
    BooksInitially(s);
    SumZero(s.calls, FailedUpWeight);
    CleanAt(s, ls, t, |ls|);
    AtEnd(s, ls, t);
  }

  // ----- runs in which nothing fails

  /** No failed allocation, no stray message, nothing on record. */
  predicate Pristine(s: State) {
    && Books(s) && s.past == History(0, 0, 0, 0, 0)
    && (forall i :: 0 <= i < |s.calls| ==> !s.calls[i].unlocked)
    && (forall k :: 0 <= k < |s.replies| ==> s.replies[k].Reply?)
  }

  lemma PristineInitially(s: State)
    requires Initial(s)
    ensures Pristine(s)
  {
    BooksInitially(s);
  }

  lemma PristineStep(s: State, l: Label)
    requires Pristine(s) && Enabled(s, l) && Good(l)
    ensures Pristine(Apply(s, l))
  {
    BooksStep(s, l);
    if l.Deliver? {
      SumAtLeast(s.replies, 0, ReplyWeight);
    }
  }

  predicate AllGood(ls: seq<Label>) {
    forall k :: 0 <= k < |ls| ==> Good(ls[k])
  }

  /** Every run in which nothing fails is clean and has an empty history, in every interleaving. */
  lemma {:induction false} GoodRunsAreClean(s: State, ls: seq<Label>, t: State)
    requires Pristine(s) && Runs(s, ls, t) && AllGood(ls)
    ensures Pristine(t) && Clean(t)
    decreases |ls|
  {
    if ls == [] {
      SumZero(t.calls, FailedUpWeight);
    } else {
      assert Good(ls[0]);
      PristineStep(s, ls[0]);
      GoodRunsAreClean(Apply(s, ls[0]), ls[1..], t);
    }
  }

  lemma {:induction false} PristineFinishes(s: State) returns (ls: seq<Label>, t: State)
    requires Pristine(s)
    ensures Runs(s, ls, t) && AllGood(ls) && AllDone(t)
    decreases Work(s)
  {
    if AllDone(s) {
      ls, t := [], s;
    } else {
      var l := NeverStuck(s);
      WorkFalls(s, l);
      PristineStep(s, l);
      var rest, u := PristineFinishes(Apply(s, l));
      ls, t := [l] + rest, u;
      assert ls[1..] == rest;
    }
  }

  /** From every start all calls can be finished in a run in which nothing fails, and that run is clean. */
  lemma EveryStartFinishes(s: State)
    requires Initial(s)
    ensures exists ls, t :: Runs(s, ls, t) && AllGood(ls) && AllDone(t) && Clean(t) && t.past == s.past
  {
    PristineInitially(s);
    var ls, t := PristineFinishes(s);
    GoodRunsAreClean(s, ls, t);
  }

  /** There is a start for any calls at all, the kernel module's reads being of whole blocks. */
  lemma AnyCallsCanStart(v: Variant, test: CopyTest, files: Files, rs: seq<Request>, counter: nat, buffer: Bytes)
    requires v.KernelModule? ==> |buffer| == 1024 && forall i :: 0 <= i < |rs| && rs[i].ReadAt? ==> rs[i].count == 1024
    ensures exists s :: Initial(s) && s.variant == v && s.copyTest == test && s.initial == files && s.counter == counter
              && s.buffer == buffer && |s.calls| == |rs| && forall i :: 0 <= i < |rs| ==> s.calls[i].request == rs[i]
  {
    var calls := seq(|rs|, i requires 0 <= i < |rs| => Call(rs[i], rs[i], FirstPc(v, rs[i]), false, 0, None, []));
    var s := State(v, test, files, calls, 1, 1, counter, [], None, files, [], [], buffer, [], 0, History(0, 0, 0, 0, 0));
    assert forall i :: 0 <= i < |rs| ==> s.calls[i].request == rs[i];
    assert Initial(s);
  }
}
