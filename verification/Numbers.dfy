/** When two requests bear the same sequence number, exactly, in both variants. */
module Numbers {
  import opened Protocol
  import opened Ledgers
  import opened Replies
  import opened Traffic

  /** Step k of the run is the one in which call i reads the counter. */
  predicate Stamps(s: State, ls: seq<Label>, t: State, k: nat, i: nat)
    requires Runs(s, ls, t)
  {
    Takes(s, ls, t, k, i, EarlyStamp) || Takes(s, ls, t, k, i, Stamp)
  }

  /** Step k of the run increments the counter. */
  predicate Increments(s: State, ls: seq<Label>, t: State, k: nat)
    requires Runs(s, ls, t)
  {
    k < |ls| && ls[k].Thread? && Takes(s, ls, t, k, ls[k].i, Bump)
  }

  predicate NoIncrement(s: State, ls: seq<Label>, t: State, a: nat, b: nat)
    requires Runs(s, ls, t)
  {
    forall k :: a <= k < b ==> !Increments(s, ls, t, k)
  }

  lemma {:induction false} AtSane(s: State, ls: seq<Label>, t: State, k: nat)
    requires AllSane(s) && Runs(s, ls, t) && k <= |ls|
    ensures AllSane(At(s, ls, t, k)) && At(s, ls, t, k).variant == s.variant && |At(s, ls, t, k).calls| == |s.calls|
    decreases k
  {
    if k > 0 {
      AllSaneStep(s, ls[0]);
      AtSane(Apply(s, ls[0]), ls[1..], t, k - 1);
    }
  }

  /** The counter never falls, and stands still over a stretch of a run exactly if nothing in it increments. */
  lemma {:induction false} CounterOver(s: State, ls: seq<Label>, t: State, a: nat, b: nat)
    requires Runs(s, ls, t) && a <= b <= |ls|
    ensures At(s, ls, t, a).counter <= At(s, ls, t, b).counter
    ensures At(s, ls, t, a).counter == At(s, ls, t, b).counter <==> NoIncrement(s, ls, t, a, b)
    decreases b
  {
    if a < b {
      CounterOver(s, ls, t, a, b - 1);
      AtStep(s, ls, t, b - 1);
      CounterAfter(At(s, ls, t, b - 1), ls[b - 1]);
      assert Increments(s, ls, t, b - 1) <==> ls[b - 1].Thread? && At(s, ls, t, b - 1).calls[ls[b - 1].i].pc.Bump?;
      assert NoIncrement(s, ls, t, a, b) <==> NoIncrement(s, ls, t, a, b - 1) && !Increments(s, ls, t, b - 1);
    }
  }

  lemma CounterAfter(s: State, l: Label)
    requires Enabled(s, l)
    ensures Apply(s, l).counter == s.counter + if l.Thread? && s.calls[l.i].pc.Bump? then 1 else 0
  {
  }

  // ----- a call draws one number

  /** No stamp lies ahead of this call. */
  predicate Settled(v: Variant, c: Call) {
    && !(c.pc.EarlyAlloc? || c.pc.EarlyStamp? || c.pc.Alloc? || c.pc.Stamp?)
    && (v.PlanA? ==> !(c.pc.DownCn? || c.pc.DownCb?))
  }

  lemma SettledStep(s: State, l: Label, i: nat)
    requires AllSane(s) && Enabled(s, l) && i < |s.calls|
    ensures var c, c' := s.calls[i], Apply(s, l).calls[i];
            && (Settled(s.variant, c) ==> Settled(s.variant, c') && c'.seqNo == c.seqNo)
            && (l.Thread? && l.i == i && (c.pc.EarlyStamp? || c.pc.Stamp?) ==> Settled(s.variant, c') && c'.seqNo == s.counter)
  {
    assert Sane(s.variant, s.calls[i]);
  }

  /** The number of a call is the value of the counter at its stamp, from then on. */
  lemma {:induction false} StampFixes(s: State, ls: seq<Label>, t: State, i: nat, a: nat, b: nat)
    requires AllSane(s) && Runs(s, ls, t) && a < b <= |ls| && Stamps(s, ls, t, a, i)
    ensures i < |At(s, ls, t, b).calls| && Settled(s.variant, At(s, ls, t, b).calls[i])
    ensures At(s, ls, t, b).calls[i].seqNo == At(s, ls, t, a).counter
    decreases b
  {
    AtSane(s, ls, t, b - 1);
    AtSane(s, ls, t, b);
    AtStep(s, ls, t, b - 1);
    if a + 1 < b {
      StampFixes(s, ls, t, i, a, b - 1);
    }
    SettledStep(At(s, ls, t, b - 1), ls[b - 1], i);
  }

  /** Calls that have drawn a number and may use it, or have. */
  predicate HasNumber(v: Variant, c: Call) {
    || c.sentAt.Some?
    || (v.KernelModule? && c.request.ReadAt? && !c.unlocked && !(c.pc.EarlyAlloc? || c.pc.EarlyStamp?))
    || (v.PlanA? && (c.pc.FromUser? || c.pc.Send?))
  }

  lemma HasNumberStep(s: State, l: Label, i: nat)
    requires AllSane(s) && Enabled(s, l) && i < |s.calls|
    ensures var c, c' := s.calls[i], Apply(s, l).calls[i];
            HasNumber(s.variant, c') ==>
              HasNumber(s.variant, c) || (l.Thread? && l.i == i && (c.pc.EarlyStamp? || c.pc.Stamp?))
  {
    assert Sane(s.variant, s.calls[i]);
  }

  lemma {:induction false} StampExists(s: State, ls: seq<Label>, t: State, i: nat, b: nat)
    requires Initial(s) && Runs(s, ls, t) && i < |s.calls| && b <= |ls|
    requires AllSane(s)
    requires i < |At(s, ls, t, b).calls| && HasNumber(s.variant, At(s, ls, t, b).calls[i])
    ensures exists a: nat :: a < b && Stamps(s, ls, t, a, i)
    decreases b
  {
    assert b > 0;
    AtSane(s, ls, t, b - 1);
    AtStep(s, ls, t, b - 1);
    HasNumberStep(At(s, ls, t, b - 1), ls[b - 1], i);
    if HasNumber(s.variant, At(s, ls, t, b - 1).calls[i]) {
      StampExists(s, ls, t, i, b - 1);
    } else {
      assert Stamps(s, ls, t, b - 1, i);
    }
  }

  // ----- main results

  function Min(a: nat, b: nat): nat { if a <= b then a else b }

  function Max(a: nat, b: nat): nat { if a <= b then b else a }

  /** Every run of either variant, for any two calls and their stamps: the numbers are equal if and only if nothing
      incremented the counter between the two stamps, and the earlier stamp never has the greater number. */
  lemma EqualNumbers(s: State, ls: seq<Label>, t: State, i: nat, j: nat, a: nat, b: nat)
    requires Initial(s) && Runs(s, ls, t) && a <= b && Stamps(s, ls, t, a, i) && Stamps(s, ls, t, b, j)
    ensures i < |t.calls| && j < |t.calls| && t.calls[i].seqNo <= t.calls[j].seqNo
    ensures t.calls[i].seqNo == t.calls[j].seqNo <==> NoIncrement(s, ls, t, a, b)
  {
    BooksInitially(s);
    AtEnd(s, ls, t);
    StampFixes(s, ls, t, i, a, |ls|);
    StampFixes(s, ls, t, j, b, |ls|);
    CounterOver(s, ls, t, a, b);
  }

  /** The number on the wire is this counter value, all of it while it is below two to the 32. */
  predicate Bears(e: Entry, counter: nat) {
    WireSeq(e) == counter % 4294967296 && (counter < 4294967296 ==> WireSeq(e) == counter)
  }

  /** A message of the log has its stamp in the run and carries, in 32 bits, what the counter was at that step. */
  lemma LoggedStamp(s: State, ls: seq<Label>, t: State, k: nat)
    requires Initial(s) && Runs(s, ls, t) && k < |t.log|
    ensures t.log[k].call < |t.calls| && t.log[k].seqNo == t.calls[t.log[k].call].seqNo
    ensures exists a: nat :: a < |ls| && Stamps(s, ls, t, a, t.log[k].call) && Bears(t.log[k], At(s, ls, t, a).counter)
  {
    BooksInitially(s);
    JournalKept(s, ls, t);
    assert Filed(t, k);
    AtEnd(s, ls, t);
    Fixed(s, ls, t);
    StampExists(s, ls, t, t.log[k].call, |ls|);
    var a: nat :| a < |ls| && Stamps(s, ls, t, a, t.log[k].call);
    StampFixes(s, ls, t, t.log[k].call, a, |ls|);
    assert Bears(t.log[k], At(s, ls, t, a).counter);
  }

  /** The same for any two messages of the log: their stamps are in the run, and decide. */
  lemma NumbersExact(s: State, ls: seq<Label>, t: State, k: nat, m: nat)
    requires Initial(s) && Runs(s, ls, t) && k < |t.log| && m < |t.log|
    ensures exists a: nat, b: nat :: Stamps(s, ls, t, a, t.log[k].call) && Stamps(s, ls, t, b, t.log[m].call)
              && (t.log[k].seqNo == t.log[m].seqNo <==> NoIncrement(s, ls, t, Min(a, b), Max(a, b)))
  {
    var i, j := t.log[k].call, t.log[m].call;
    LoggedStamp(s, ls, t, k);
    LoggedStamp(s, ls, t, m);
    var a: nat :| Stamps(s, ls, t, a, i);
    var b: nat :| Stamps(s, ls, t, b, j);
    if a <= b {
      EqualNumbers(s, ls, t, i, j, a, b);
    } else {
      EqualNumbers(s, ls, t, j, i, b, a);
    }
  }

  predicate PastBump(pc: Pc) {
    pc.Wait? || pc.Release? || pc.Copy? || pc.UpCn? || pc.Done?
  }

  /** A drawn number is at most the counter, and below it once its call has incremented. */
  predicate Below(s: State, i: nat)
    requires i < |s.calls|
  {
    var c := s.calls[i];
    && (PreSend(c.pc) ==> c.sentAt.None?)
    && (HasNumber(s.variant, c) ==> c.seqNo <= s.counter && (PastBump(c.pc) ==> c.seqNo < s.counter))
  }

  lemma BelowStep(s: State, l: Label, i: nat)
    requires AllSane(s) && Enabled(s, l) && i < |s.calls| && Below(s, i)
    ensures Below(Apply(s, l), i)
  {
    assert Sane(s.variant, s.calls[i]);
    if l.Thread? && l.i == i {
      BelowNext(s, i, l.fault);
    } else {
      CounterAfter(s, l);
      assert Apply(s, l).calls[i] == s.calls[i];
    }
  }

  lemma BelowNext(s: State, i: nat, fault: nat)
    requires CallEnabled(s, i, fault) && Sane(s.variant, s.calls[i]) && Below(s, i)
    ensures Below(StepCall(s, i, fault), i)
  {
  }

  lemma {:induction false} BelowAt(s: State, ls: seq<Label>, t: State, i: nat, k: nat)
    requires AllSane(s) && Runs(s, ls, t) && i < |s.calls| && Below(s, i) && k <= |ls|
    ensures i < |At(s, ls, t, k).calls| && Below(At(s, ls, t, k), i)
    decreases k
  {
    if k > 0 {
      AllSaneStep(s, ls[0]);
      BelowStep(s, ls[0], i);
      BelowAt(Apply(s, ls[0]), ls[1..], t, i, k - 1);
    }
  }

  /** In particular: a call that has sent and incremented before another one stamps has the smaller number. */
  lemma PastIncrementIsSmaller(s: State, ls: seq<Label>, t: State, i: nat, j: nat, b: nat)
    requires Initial(s) && Runs(s, ls, t) && i < |s.calls| && Stamps(s, ls, t, b, j)
    requires i < |At(s, ls, t, b).calls| && At(s, ls, t, b).calls[i].sentAt.Some? && PastBump(At(s, ls, t, b).calls[i].pc)
    ensures i < |t.calls| && j < |t.calls| && t.calls[i].seqNo < t.calls[j].seqNo
  {
    BooksInitially(s);
    BelowAt(s, ls, t, i, b);
    StampExists(s, ls, t, i, b);
    var a: nat :| a < b && Stamps(s, ls, t, a, i);
    StampFixes(s, ls, t, i, a, b);
    AtEnd(s, ls, t);
    StampFixes(s, ls, t, i, a, |ls|);
    StampFixes(s, ls, t, j, b, |ls|);
  }
}
