/** The helper's per-inode byte files and the requests that reach it (backup_plans/a/sjfs_helper.c). */
module Store {

  type Bytes = seq<bv8>
  type Files = map<nat, Bytes>

  datatype Option<T> = None | Some(value: T)

  datatype Request =
    | ReadAt(ino: nat, pos: nat, count: nat)
    | WriteAt(ino: nat, pos: nat, data: Bytes)

  function Zeros(n: nat): (z: Bytes)
    ensures |z| == n && forall k :: 0 <= k < n ==> z[k] == 0
  {
    seq(n, _ => 0)
  }

  function Contents(files: Files, ino: nat): Bytes {
    if ino in files then files[ino] else []
  }

  /** The byte a file shows at an offset; a missing file and a hole both show zero. */
  function Cell(files: Files, ino: nat, off: nat): bv8 {
    var f := Contents(files, ino);
    if off < |f| then f[off] else 0
  }

  /** Seek to pos and read into a zeroed reply buffer of count bytes; a short read leaves zeros behind it. */
  function Fetch(files: Files, ino: nat, pos: nat, count: nat): (r: Bytes)
    ensures |r| == count
    ensures forall k :: 0 <= k < count ==> r[k] == Cell(files, ino, pos + k)
  {
    var f := Contents(files, ino);
    var got := if pos >= |f| then [] else if pos + count <= |f| then f[pos..pos + count] else f[pos..];
    got + Zeros(count - |got|)
  }

  /** Seek to pos and write; a seek past the end leaves a zero-filled gap, an empty write changes nothing. */
  function Put(files: Files, ino: nat, pos: nat, data: Bytes): Files {
    if data == [] then files
    else
      var f := Contents(files, ino);
      var padded := if |f| < pos then f + Zeros(pos - |f|) else f;
      var tail := if pos + |data| < |padded| then padded[pos + |data|..] else [];
      files[ino := padded[..pos] + data + tail]
  }

  function Perform(files: Files, r: Request): Files {
    match r
    case ReadAt(_, _, _) => files
    case WriteAt(ino, pos, data) => Put(files, ino, pos, data)
  }

  /** The files after a sequence of requests has been performed in order. */
  function Replay(files: Files, rs: seq<Request>): Files {
    if rs == [] then files
    else Perform(Replay(files, rs[..|rs| - 1]), rs[|rs| - 1])
  }

  /** Does this request overwrite byte off of file ino? */
  predicate Covers(r: Request, ino: nat, off: nat) {
    r.WriteAt? && r.ino == ino && r.pos <= off < r.pos + |r.data|
  }

  /** Reference meaning of a byte, with no files in it: the last covering write decides, else the initial byte. */
  function ByteAfter(files: Files, rs: seq<Request>, ino: nat, off: nat): bv8 {
    if rs == [] then Cell(files, ino, off)
    else
      var last := rs[|rs| - 1];
      if Covers(last, ino, off) then last.data[off - last.pos]
      else ByteAfter(files, rs[..|rs| - 1], ino, off)
  }

  lemma PerformCell(files: Files, r: Request, ino: nat, off: nat)
    ensures Cell(Perform(files, r), ino, off) ==
            if Covers(r, ino, off) then r.data[off - r.pos] else Cell(files, ino, off)
  {
  }

  lemma {:induction false} ReplayCell(files: Files, rs: seq<Request>, ino: nat, off: nat)
    ensures Cell(Replay(files, rs), ino, off) == ByteAfter(files, rs, ino, off)
  {
    if rs != [] {
      ReplayCell(files, rs[..|rs| - 1], ino, off);
      PerformCell(Replay(files, rs[..|rs| - 1]), rs[|rs| - 1], ino, off);
    }
  }

  /** do_work as it stands: opened for truncation, sought to count, and abandoned when the seek SUCCEEDS.
      Only a failed seek reaches the opcode switch, with the position still at the start of an empty file. */
  function DoWorkAsWritten(files: Files, r: Request, opens: bool, seekOk: bool): (Files, Option<Bytes>) {
    if !opens then (files, None)
    else
      var truncated := files[r.ino := []];
      if seekOk then (truncated, None)
      else
        match r
        case ReadAt(ino, _, count) => (truncated, Some(Fetch(truncated, ino, 0, count)))
        case WriteAt(ino, _, data) => (Put(truncated, ino, 0, data), None)
  }

  /** The shipped do_work answers exactly the reads whose seek failed, always with zeros; whenever the file opens,
      everything it held is gone, and the bytes of a write survive only if its seek failed. */
  lemma DoWorkAsWrittenExact(files: Files, r: Request, opens: bool, seekOk: bool)
    ensures var (files', reply) := DoWorkAsWritten(files, r, opens, seekOk);
            && (reply.Some? <==> opens && !seekOk && r.ReadAt?)
            && (reply.Some? ==> reply.value == Zeros(r.count))
            && (forall ino :: ino != r.ino ==> Contents(files', ino) == Contents(files, ino))
            && (opens ==> Contents(files', r.ino) == if r.WriteAt? && !seekOk then r.data else [])
  {
    var (files', reply) := DoWorkAsWritten(files, r, opens, seekOk);
    if opens && !seekOk && r.ReadAt? {
      assert Contents(files[r.ino := []], r.ino) == [];
      assert reply.value == Zeros(r.count);
    }
    if opens && !seekOk && r.WriteAt? && r.data != [] {
      var e: Bytes := [];
      assert e[..0] + r.data + [] == r.data;
    }
  }
}
