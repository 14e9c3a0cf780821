/** The user-space helper of plan A as the program it is: files changed in place, requests served one by one. */
module Helper {
  import opened Store

  /** A request and whether its file opens when the helper gets to it. */
  datatype Job = Job(request: Request, opens: bool)

  /** What a reply-or-nothing answer to request r is when the files are these. */
  function AnswerTo(files: Files, r: Request): Option<Bytes> {
    if r.ReadAt? then Some(Fetch(files, r.ino, r.pos, r.count)) else None
  }

  /** The requests that had an effect. */
  function Opened(jobs: seq<Job>): seq<Request> {
    if jobs == [] then []
    else
      var last := jobs[|jobs| - 1];
      Opened(jobs[..|jobs| - 1]) + (if last.opens then [last.request] else [])
  }

  lemma ReplayStep(files: Files, jobs: seq<Job>, i: nat)
    requires i < |jobs|
    ensures var now := Replay(files, Opened(jobs[..i]));
            Replay(files, Opened(jobs[..i + 1])) == if jobs[i].opens then Perform(now, jobs[i].request) else now
  {
    var rs := Opened(jobs[..i]);
    assert jobs[..i + 1][..i] == jobs[..i];
    assert (rs + [jobs[i].request])[..|rs|] == rs && rs + [] == rs;
  }

  class Server {
    var files: Files

    constructor (files: Files)
      ensures this.files == files
    {
      this.files := files;
    }

    /** do_work as its comments describe it: seek to pos; a read is answered, a write is stored and not answered;
        a file that does not open ends the work. Byte by byte: exactly the bytes the write covers become its data,
        and a file grows exactly as far as that takes. */
    method DoWork(r: Request, opens: bool) returns (reply: Option<Bytes>)
      modifies this
      ensures forall ino, off: nat :: Cell(files, ino, off) ==
                if opens && Covers(r, ino, off) then r.data[off - r.pos] else old(Cell(files, ino, off))
      ensures forall ino :: var len := old(|Contents(files, ino)|);
                |Contents(files, ino)| ==
                if opens && r.WriteAt? && r.ino == ino && r.data != [] && len < r.pos + |r.data| then r.pos + |r.data| else len
      ensures reply.Some? <==> opens && r.ReadAt?
      ensures reply.Some? ==> |reply.value| == r.count
      ensures reply.Some? ==> forall k :: 0 <= k < r.count ==> reply.value[k] == old(Cell(files, r.ino, r.pos + k))
      ensures files == if opens then Perform(old(files), r) else old(files)
    {
      reply := None;
      if !opens {
        return;
      }
      match r
      case ReadAt(ino, pos, count) => reply := Some(Fetch(files, ino, pos, count));
      case WriteAt(ino, pos, data) => files := Put(files, ino, pos, data);
      forall ino, off: nat ensures Cell(files, ino, off) == if Covers(r, ino, off) then r.data[off - r.pos] else old(Cell(files, ino, off)) {
        PerformCell(old(files), r, ino, off);
      }
    }

    /** The receive loop over the messages of a run: every byte of every reply, and every byte stored in the end, is
        that of the last covering write among the requests whose file opened; only an opened read is answered. */
    method Serve(jobs: seq<Job>) returns (replies: seq<Option<Bytes>>)
      modifies this
      ensures files == Replay(old(files), Opened(jobs))
      ensures forall ino, off: nat :: Cell(files, ino, off) == ByteAfter(old(files), Opened(jobs), ino, off)
      ensures |replies| == |jobs|
      ensures forall k :: 0 <= k < |jobs| ==> Answers(old(files), jobs, k, replies[k])
    {
      replies := [];
      var i := 0;
      while i < |jobs|
        invariant 0 <= i <= |jobs| && |replies| == i
        invariant files == Replay(old(files), Opened(jobs[..i]))
        invariant forall k :: 0 <= k < i ==> Answers(old(files), jobs, k, replies[k])
      {
        ghost var before := files;
        var reply := DoWork(jobs[i].request, jobs[i].opens);
        AnswersFromReplay(old(files), before, jobs, i, reply);
        ReplayStep(old(files), jobs, i);
        replies := replies + [reply];
        i := i + 1;
      }
      assert jobs[..|jobs|] == jobs;
      forall ino, off: nat ensures Cell(files, ino, off) == ByteAfter(old(files), Opened(jobs), ino, off) {
        ReplayCell(old(files), Opened(jobs), ino, off);
      }
    }
  }

  /** A reply to job k, in terms of the initial files and the requests before it alone. */
  predicate Answers(files: Files, jobs: seq<Job>, k: nat, reply: Option<Bytes>)
    requires k < |jobs|
  {
    var r := jobs[k].request;
    && (reply.Some? <==> jobs[k].opens && r.ReadAt?)
    && (reply.Some? ==> |reply.value| == r.count)
    && (reply.Some? ==> forall off :: 0 <= off < r.count ==> reply.value[off] == ByteAfter(files, Opened(jobs[..k]), r.ino, r.pos + off))
  }

  lemma AnswersFromReplay(files: Files, now: Files, jobs: seq<Job>, k: nat, reply: Option<Bytes>)
    requires k < |jobs| && now == Replay(files, Opened(jobs[..k]))
    requires reply.Some? <==> jobs[k].opens && jobs[k].request.ReadAt?
    requires reply.Some? ==> |reply.value| == jobs[k].request.count
    requires reply.Some? ==> forall off :: 0 <= off < |reply.value| ==>
               reply.value[off] == Cell(now, jobs[k].request.ino, jobs[k].request.pos + off)
    ensures Answers(files, jobs, k, reply)
  {
    if reply.Some? {
      var r := jobs[k].request;
      forall off | 0 <= off < r.count
        ensures reply.value[off] == ByteAfter(files, Opened(jobs[..k]), r.ino, r.pos + off)
      {
        ReplayCell(files, Opened(jobs[..k]), r.ino, r.pos + off);
      }
    }
  }

  // ----- the shipped do_work against the documented one

  /** Both leave every file with the same contents and give the same reply. */
  ghost predicate AgreesAsWritten(files: Files, r: Request, opens: bool, seekOk: bool) {
    var (files', reply) := DoWorkAsWritten(files, r, opens, seekOk);
    && (forall ino :: Contents(files', ino) == Contents(if opens then Perform(files, r) else files, ino))
    && reply == if opens then AnswerTo(files, r) else None
  }

  /** When the shipped do_work does what its comments say, in terms of the request and the length of its file. */
  predicate Harmless(files: Files, r: Request, opens: bool, seekOk: bool) {
    var len := |Contents(files, r.ino)|;
    || !opens
    || (r.ReadAt? && !seekOk && len == 0)
    || (r.WriteAt? && r.data == [] && len == 0)
    || (r.WriteAt? && r.data != [] && !seekOk && r.pos == 0 && len <= |r.data|)
  }

  lemma ReadAgreement(files: Files, r: Request, seekOk: bool)
    requires r.ReadAt?
    ensures AgreesAsWritten(files, r, true, seekOk) <==> Harmless(files, r, true, seekOk)
  {
    DoWorkAsWrittenExact(files, r, true, seekOk);
    var (files', reply) := DoWorkAsWritten(files, r, true, seekOk);
    if Harmless(files, r, true, seekOk) {
      assert Fetch(files, r.ino, r.pos, r.count) == Zeros(r.count);
    } else {
      assert reply == None || Contents(files', r.ino) != Contents(files, r.ino);
    }
  }

  lemma WriteAgreement(files: Files, r: Request, seekOk: bool)
    requires r.WriteAt?
    ensures AgreesAsWritten(files, r, true, seekOk) <==> Harmless(files, r, true, seekOk)
  {
    DoWorkAsWrittenExact(files, r, true, seekOk);
    var (files', reply) := DoWorkAsWritten(files, r, true, seekOk);
    var documented := Contents(Perform(files, r), r.ino);
    if Harmless(files, r, true, seekOk) {
      assert Contents(files', r.ino) == documented;
    } else {
      assert |Contents(files', r.ino)| != |documented|;
    }
  }

  /** The shipped do_work agrees with the documented one exactly in the harmless cases. */
  lemma DoWorkAgreement(files: Files, r: Request, opens: bool, seekOk: bool)
    ensures AgreesAsWritten(files, r, opens, seekOk) <==> Harmless(files, r, opens, seekOk)
  {
    if opens && r.ReadAt? {
      ReadAgreement(files, r, seekOk);
    } else if opens {
      WriteAgreement(files, r, seekOk);
    }
  }

  /** The bytes such an answer holds, in terms of the requests alone. */
  lemma AnswersAreLastWrites(files: Files, rs: seq<Request>, k: nat, off: nat)
    requires k < |rs| && rs[k].ReadAt? && off < rs[k].count
    ensures AnswerTo(Replay(files, rs[..k]), rs[k]).value[off] == ByteAfter(files, rs[..k], rs[k].ino, rs[k].pos + off)
  {
    ReplayCell(files, rs[..k], rs[k].ino, rs[k].pos + off);
  }
}
