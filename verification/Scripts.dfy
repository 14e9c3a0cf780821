/** The order of a call's steps: in every run each call goes through the sequence of operations its source has,
    with the short cuts its own failures take and no others. */
module Scripts {
  import opened Protocol
  import opened Ledgers

  /** How far a call gets with its message: all the way, no memory for it, or no data for it. */
  datatype Path = Full | NoMemory | NoData

  /** The operations of one call in program order, read off the source of each variant. */
  function Script(v: Variant, isRead: bool, p: Path): seq<Pc> {
    match (v, isRead)
    case (KernelModule, true) =>
      if p.NoMemory? then [EarlyAlloc, Bump, Wait, Release, Copy, UpCn]
      else [EarlyAlloc, EarlyStamp, DownCn, DownCb, Send, Bump, Wait, Release, Copy, UpCn]
    case (KernelModule, false) => [DownCn, UpCn]
    case (PlanA, true) =>
      if p.NoMemory? then [DownCn, DownCb, Alloc, Bump, Wait, Release, Copy, UpCn]
      else [DownCn, DownCb, Alloc, Stamp, Send, Bump, Wait, Release, Copy, UpCn]
    case (PlanA, false) =>
      match p
      case NoMemory => [DownCn, Alloc, Bump, UpCn]
      case NoData => [DownCn, Alloc, Stamp, FromUser, Bump, UpCn]
      case Full => [DownCn, Alloc, Stamp, FromUser, Send, Bump, UpCn]
  }

  predicate IsStepOf(l: Label, i: nat) { l.Thread? && l.i == i }

  /** The operations call i performs in the first k steps of a run. */
  function Trace(s: State, ls: seq<Label>, t: State, i: nat, k: nat): seq<Pc>
    requires Runs(s, ls, t) && k <= |ls|
  {
    if k == 0 then []
    else
      var u := At(s, ls, t, k - 1);
      Trace(s, ls, t, i, k - 1) + if IsStepOf(ls[k - 1], i) && i < |u.calls| then [u.calls[i].pc] else []
  }

  /** The path a step of call c with this fault puts it on. */
  function NextPath(test: CopyTest, c: Call, fault: nat, p: Path): Path {
    if c.pc.EarlyAlloc? || c.pc.Alloc? then (if fault == 0 then p else NoMemory)
    else if c.pc.FromUser? && c.request.WriteAt? && fault != (if test.Intended? then 0 else |c.request.data|) then NoData
    else p
  }

  /** The path call i has taken, decided by the outcomes of its allocation and its fetch. */
  function Taken(s: State, ls: seq<Label>, t: State, i: nat, k: nat): Path
    requires Runs(s, ls, t) && k <= |ls|
  {
    if k == 0 then Full
    else
      var u := At(s, ls, t, k - 1);
      var p := Taken(s, ls, t, i, k - 1);
      if IsStepOf(ls[k - 1], i) && i < |u.calls| then NextPath(u.copyTest, u.calls[i], ls[k - 1].fault, p) else p
  }

  /** The trace is the part of the script before pc. */
  predicate Upto(script: seq<Pc>, pc: Pc, trace: seq<Pc>) {
    |trace| <= |script| && trace == script[..|trace|] && pc == if |trace| == |script| then Done else script[|trace|]
  }

  lemma UptoNext(script: seq<Pc>, script': seq<Pc>, pc: Pc, pc': Pc, trace: seq<Pc>)
    requires Upto(script, pc, trace) && |trace| < |script| && |trace| < |script'|
    requires script'[..|trace| + 1] == script[..|trace| + 1]
    requires pc' == if |trace| + 1 == |script'| then Done else script'[|trace| + 1]
    ensures Upto(script', pc', trace + [pc])
  {
    assert script[..|trace| + 1] == trace + [pc];
  }

  lemma UptoDone(v: Variant, isRead: bool, p: Path, trace: seq<Pc>)
    requires Upto(Script(v, isRead, p), Done, trace)
    ensures trace == Script(v, isRead, p)
  {
    var script := Script(v, isRead, p);
    assert script[..|script|] == script;
  }

  /** Short cuts branch off where the failing operation is: up to there the scripts are the same. */
  lemma Branch(v: Variant, isRead: bool, test: CopyTest, c: Call, fault: nat, p: Path, j: nat)
    requires j < |Script(v, isRead, p)| && Script(v, isRead, p)[j] == c.pc && p.Full?
    ensures var q := NextPath(test, c, fault, p);
            j < |Script(v, isRead, q)| && Script(v, isRead, q)[..j + 1] == Script(v, isRead, p)[..j + 1]
  {
  }

  /** No script comes back to an operation, so the operation says how far the call is. */
  function Position(v: Variant, isRead: bool, p: Path, pc: Pc): int {
    var script := Script(v, isRead, p);
    match pc
    case EarlyAlloc => 0
    case EarlyStamp => 1
    case DownCn => if v.KernelModule? && isRead then 2 else 0
    case DownCb => if v.KernelModule? then 3 else 1
    case Alloc => if isRead then 2 else 1
    case Stamp => if isRead then 3 else 2
    case FromUser => 3
    case Send => 4
    case Bump => |script| - (if isRead then 5 else 2)
    case Wait => |script| - 4
    case Release => |script| - 3
    case Copy => |script| - 2
    case UpCn => |script| - 1
    case Done => |script|
  }

  lemma PositionExact(v: Variant, isRead: bool, p: Path, j: nat)
    requires j < |Script(v, isRead, p)|
    ensures Position(v, isRead, p, Script(v, isRead, p)[j]) == j
  {
    assert j == 0 || j == 1 || j == 2 || j == 3 || j == 4 || j == 5 || j == 6 || j == 7 || j == 8 || j == 9;
  }

  /** Before its increment a call is still on the full path: a failure sends it straight there. */
  predicate Open(pc: Pc) {
    || pc.EarlyAlloc? || pc.EarlyStamp? || pc.DownCn? || pc.DownCb? || pc.Alloc? || pc.Stamp? || pc.FromUser? || pc.Send?
  }

  /** One operation later the call is one place on in the script of its path. */
  lemma NextOnScript(s: State, i: nat, fault: nat, p: Path, j: nat)
    requires CallEnabled(s, i, fault) && Sane(s.variant, s.calls[i])
    requires var c := s.calls[i]; var script := Script(s.variant, c.request.ReadAt?, p);
             j < |script| && script[j] == c.pc && (Open(c.pc) ==> p.Full?)
    ensures var c := s.calls[i]; var q := NextPath(s.copyTest, c, fault, p);
            var script := Script(s.variant, c.request.ReadAt?, q); var pc := NextCall(s, i, fault).pc;
            && j < |script| && pc == (if j + 1 == |script| then Done else script[j + 1])
            && (Open(pc) ==> q.Full?)
  {
    PositionExact(s.variant, s.calls[i].request.ReadAt?, p, j);
  }

  predicate Follows(v: Variant, c: Call, p: Path, trace: seq<Pc>) {
    Upto(Script(v, c.request.ReadAt?, p), c.pc, trace) && (Open(c.pc) ==> p.Full?)
  }

  lemma FollowsNext(s: State, i: nat, fault: nat, p: Path, trace: seq<Pc>)
    requires CallEnabled(s, i, fault) && Sane(s.variant, s.calls[i]) && Follows(s.variant, s.calls[i], p, trace)
    ensures Follows(s.variant, NextCall(s, i, fault), NextPath(s.copyTest, s.calls[i], fault, p), trace + [s.calls[i].pc])
  {
    var c := s.calls[i];
    var isRead, j := c.request.ReadAt?, |trace|;
    var q := NextPath(s.copyTest, c, fault, p);
    NextOnScript(s, i, fault, p, j);
    SaneNext(s, i, fault);
    if q != p {
      Branch(s.variant, isRead, s.copyTest, c, fault, p, j);
    }
    UptoNext(Script(s.variant, isRead, p), Script(s.variant, isRead, q), c.pc, NextCall(s, i, fault).pc, trace);
  }

  lemma FollowsStep(s: State, l: Label, i: nat, p: Path, trace: seq<Pc>)
    requires AllSane(s) && Enabled(s, l) && i < |s.calls| && Follows(s.variant, s.calls[i], p, trace)
    ensures var s' := Apply(s, l);
            && AllSane(s') && s'.variant == s.variant && i < |s'.calls|
            && Follows(s.variant, s'.calls[i], if IsStepOf(l, i) then NextPath(s.copyTest, s.calls[i], l.fault, p) else p,
                       trace + if IsStepOf(l, i) then [s.calls[i].pc] else [])
  {
    AllSaneStep(s, l);
    if IsStepOf(l, i) {
      FollowsNext(s, i, l.fault, p, trace);
    } else {
      assert Apply(s, l).calls[i] == s.calls[i] && trace + [] == trace;
    }
  }

  lemma {:induction false} FollowsAt(s: State, ls: seq<Label>, t: State, i: nat, k: nat)
    requires AllSane(s) && Runs(s, ls, t) && k <= |ls| && i < |s.calls|
    requires Follows(s.variant, s.calls[i], Full, [])
    ensures AllSane(At(s, ls, t, k)) && i < |At(s, ls, t, k).calls| && At(s, ls, t, k).variant == s.variant
    ensures Follows(s.variant, At(s, ls, t, k).calls[i], Taken(s, ls, t, i, k), Trace(s, ls, t, i, k))
    decreases k
  {
    if k > 0 {
      FollowsAt(s, ls, t, i, k - 1);
      AtStep(s, ls, t, k - 1);
      FollowsStep(At(s, ls, t, k - 1), ls[k - 1], i, Taken(s, ls, t, i, k - 1), Trace(s, ls, t, i, k - 1));
    }
  }

  lemma StartsOnScript(s: State, i: nat)
    requires Initial(s) && i < |s.calls|
    ensures Follows(s.variant, s.calls[i], Full, [])
  {
  }

  /** Every run, both variants: what a call has done so far is the beginning of the script of its path, and what it
      does next is the next operation in it. A finished call has performed its script, the whole of it, in order. */
  lemma CallsFollowTheirScripts(s: State, ls: seq<Label>, t: State, i: nat)
    requires Initial(s) && Runs(s, ls, t) && i < |t.calls|
    ensures Upto(Script(s.variant, t.calls[i].request.ReadAt?, Taken(s, ls, t, i, |ls|)), t.calls[i].pc, Trace(s, ls, t, i, |ls|))
    ensures t.calls[i].pc.Done? ==>
              Trace(s, ls, t, i, |ls|) == Script(s.variant, t.calls[i].request.ReadAt?, Taken(s, ls, t, i, |ls|))
  {
    BooksInitially(s);
    Fixed(s, ls, t);
    AtEnd(s, ls, t);
    StartsOnScript(s, i);
    FollowsAt(s, ls, t, i, |ls|);
    if t.calls[i].pc.Done? {
      UptoDone(s.variant, t.calls[i].request.ReadAt?, Taken(s, ls, t, i, |ls|), Trace(s, ls, t, i, |ls|));
    }
  }
}
