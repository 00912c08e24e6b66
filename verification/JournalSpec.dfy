/** The write-coalescing buffer of the VFS as functions on values, and what it guarantees over whole runs.

    A handle with a buffer collects sequential writes and sends them to the file in blocks. The results here:
    it answers every call like a handle without a buffer and leaves the same file (`BufferedRunsAgree`), what
    reaches the medium is at every moment a byte-exact prefix of what was written (`CrashPrefix`), and a gap-free
    run of writes costs one physical write per block (`CoalescedRun`). */
module JournalSpec {
  import opened Posix

  const BUFFER_SIZE: nat := 8192

  const SQLITE_OK: int := 0
  const SQLITE_IOERR_READ: int := 266
  const SQLITE_IOERR_SHORT_READ: int := 522
  const SQLITE_IOERR_WRITE: int := 778
  const SQLITE_IOERR_FSYNC: int := 1034
  const SQLITE_IOERR_FSTAT: int := 1802

  /** An open file: the file itself, whether the handle owns a buffer, the buffered bytes and where they belong. */
  datatype Handle = Handle(file: File, buffered: bool, buf: seq<byte>, ofst: int)

  ghost predicate ValidHandle(h: Handle) {
    |h.buf| <= BUFFER_SIZE && (!h.buffered ==> h.buf == [])
  }

  // ----- the operations -----

  function DirectWrite(h: Handle, data: seq<byte>, off: int): (Handle, int) {
    var (f1, r1) := SysLseek(h.file, off);
    if r1 != off then (h.(file := f1), SQLITE_IOERR_WRITE) else
      var (f2, n) := SysWrite(f1, data);
      (h.(file := f2), if n != |data| then SQLITE_IOERR_WRITE else SQLITE_OK)
  }

  /** The buffer is emptied even when the physical write fails. */
  function Flush(h: Handle): (Handle, int) {
    if h.buf == [] then (h, SQLITE_OK) else
      var (h1, rc) := DirectWrite(h, h.buf, h.ofst);
      (h1.(buf := []), rc)
  }

  function FlushIfStuck(h: Handle, off: int): (Handle, int) {
    if |h.buf| == BUFFER_SIZE || h.ofst + |h.buf| != off then Flush(h) else (h, SQLITE_OK)
  }

  function Room(h: Handle, n: nat): nat
    requires |h.buf| <= BUFFER_SIZE
  {
    Min(BUFFER_SIZE - |h.buf|, n)
  }

  /** One turn of the copying loop: the new handle, its result code, and how many bytes it took. */
  function Turn(h: Handle, data: seq<byte>, off: int): (r: (Handle, int, nat))
    requires |h.buf| <= BUFFER_SIZE && data != []
    ensures |r.0.buf| <= BUFFER_SIZE && r.0.buffered == h.buffered
    ensures r.1 == SQLITE_OK || r.1 == SQLITE_IOERR_WRITE
    ensures r.1 == SQLITE_OK ==> 0 < r.2 <= |data|
  {
    var (h1, rc) := FlushIfStuck(h, off);
    if rc != SQLITE_OK then (h1, rc, 0) else
      var k := Room(h1, |data|);
      (h1.(ofst := off - |h1.buf|, buf := h1.buf + data[..k]), SQLITE_OK, k)
  }

  function BufferWrite(h: Handle, data: seq<byte>, off: int): (r: (Handle, int))
    requires |h.buf| <= BUFFER_SIZE
    ensures |r.0.buf| <= BUFFER_SIZE && r.0.buffered == h.buffered
    ensures r.1 == SQLITE_OK || r.1 == SQLITE_IOERR_WRITE
    decreases |data|
  {
    if data == [] then (h, SQLITE_OK) else
      var (h1, rc, k) := Turn(h, data, off);
      if rc != SQLITE_OK then (h1, rc) else BufferWrite(h1, data[k..], off + k)
  }

  lemma BufferWriteTurn(h: Handle, data: seq<byte>, off: int, h1: Handle, k: nat)
    requires |h.buf| <= BUFFER_SIZE && data != [] && k <= |data|
    requires Turn(h, data, off) == (h1, SQLITE_OK, k)
    ensures BufferWrite(h, data, off) == BufferWrite(h1, data[k..], off + k)
  {
  }

  function WriteOp(h: Handle, data: seq<byte>, off: int): (r: (Handle, int))
    requires |h.buf| <= BUFFER_SIZE
    ensures |r.0.buf| <= BUFFER_SIZE
    ensures r.1 == SQLITE_OK || r.1 == SQLITE_IOERR_WRITE
  {
    if h.buffered then BufferWrite(h, data, off) else DirectWrite(h, data, off)
  }

  /** The third component is what lands in the caller's buffer: nothing on an I/O error, else exactly `n` bytes. */
  function ReadOp(h: Handle, n: nat, off: int): (Handle, int, seq<byte>) {
    var (h1, rc) := Flush(h);
    if rc != SQLITE_OK then (h1, rc, []) else
      var (f2, r2) := SysLseek(h1.file, off);
      if r2 != off then (h1.(file := f2), SQLITE_IOERR_READ, []) else
        var (f3, got, d) := SysRead(f2, n);
        var h3 := h1.(file := f3);
        if got == n then (h3, SQLITE_OK, d)
        else if got >= 0 then (h3, SQLITE_IOERR_SHORT_READ, d + Zeros(n - |d|))
        else (h3, SQLITE_IOERR_READ, [])
  }

  function SyncOp(h: Handle): (Handle, int) {
    var (h1, rc) := Flush(h);
    if rc != SQLITE_OK then (h1, rc) else
      var (f2, r) := SysFsync(h1.file);
      (h1.(file := f2), if r == 0 then SQLITE_OK else SQLITE_IOERR_FSYNC)
  }

  /** The third component is the size stored for the caller; -1 when none is stored. */
  function FileSizeOp(h: Handle): (Handle, int, int) {
    var (h1, rc) := Flush(h);
    if rc != SQLITE_OK then (h1, rc, -1) else
      var (f2, r) := SysFileSize(h1.file);
      if r == -1 then (h1.(file := f2), SQLITE_IOERR_FSTAT, -1) else (h1.(file := f2), SQLITE_OK, r)
  }

  // ----- traces -----

  datatype Op = Write(data: seq<byte>, off: int) | Read(n: nat, off: int) | Sync | FileSize | Close

  datatype Reply = Reply(rc: int, bytes: seq<byte>, size: int)

  function Step(h: Handle, op: Op): (r: (Handle, Reply))
    requires |h.buf| <= BUFFER_SIZE
    ensures |r.0.buf| <= BUFFER_SIZE
  {
    match op
    case Write(data, off) => var (h1, rc) := WriteOp(h, data, off); (h1, Reply(rc, [], -1))
    case Read(n, off) => var (h1, rc, d) := ReadOp(h, n, off); (h1, Reply(rc, d, -1))
    case Sync => var (h1, rc) := SyncOp(h); (h1, Reply(rc, [], -1))
    case FileSize => var (h1, rc, n) := FileSizeOp(h); (h1, Reply(rc, [], n))
    case Close => var (h1, rc) := Flush(h); (h1, Reply(rc, [], -1))
  }

  function Run(h: Handle, ops: seq<Op>): (r: (Handle, seq<Reply>))
    requires |h.buf| <= BUFFER_SIZE
    ensures |r.0.buf| <= BUFFER_SIZE && |r.1| == |ops|
    decreases |ops|
  {
    if ops == [] then (h, []) else
      var (h1, reply) := Step(h, ops[0]);
      var (h2, replies) := Run(h1, ops[1..]);
      (h2, [reply] + replies)
  }

  function Opened(content: seq<byte>, script: seq<Outcome>, buffered: bool): Handle {
    Handle(File(content, 0, script, []), buffered, [], 0)
  }

  // ----- agreement with a handle that has no buffer -----

  /** What the file will be once the buffer is flushed. */
  ghost function Overlay(h: Handle): seq<byte> {
    if h.buf == [] || h.ofst < 0 then h.file.content else WriteAt(h.file.content, h.ofst, h.buf)
  }

  /** A buffered handle and an unbuffered one that a caller cannot tell apart; no system call fails. */
  ghost predicate Agree(hb: Handle, hu: Handle) {
    && hb.buffered && !hu.buffered
    && |hb.buf| <= BUFFER_SIZE && hu.buf == []
    && hb.file.script == [] && hu.file.script == []
    && (hb.buf != [] ==> hb.ofst >= 0)
    && Overlay(hb) == hu.file.content
  }

  /** lseek reports failure as -1, and the handle only compares its result with the offset, so at offset -1 a
      failing lseek goes unnoticed (see `MinusOneUnnoticed`). The results below are about all other offsets. */
  predicate Addressable(op: Op) {
    (op.Write? || op.Read?) ==> op.off != -1
  }

  /** The writes the buffer answers differently: lseek would reject the offset at once, but the buffer takes the
      data because it all fits. */
  predicate HidesError(op: Op) {
    op.Write? && op.off < 0 && |op.data| <= BUFFER_SIZE
  }

  lemma {:induction false} FlushAgrees(hb: Handle, hu: Handle)
    requires Agree(hb, hu)
    ensures var (h1, rc) := Flush(hb);
      rc == SQLITE_OK && h1.buf == [] && h1.file.content == hu.file.content && Agree(h1, hu)
  {
    if hb.buf != [] {
      assert hb.buf[..|hb.buf|] == hb.buf;
    }
  }

  ghost function Written(hu: Handle, off: nat, data: seq<byte>): Handle {
    hu.(file := hu.file.(content := WriteAt(hu.file.content, off, data)))
  }

  lemma FillAgrees(hb: Handle, hu: Handle, chunk: seq<byte>, off: nat)
    requires Agree(hb, hu) && |hb.buf| + |chunk| <= BUFFER_SIZE && chunk != []
    requires hb.buf == [] || hb.ofst + |hb.buf| == off
    ensures Agree(hb.(ofst := off - |hb.buf|, buf := hb.buf + chunk), Written(hu, off, chunk))
  {
    if hb.buf == [] {
      assert hb.buf + chunk == chunk;
    } else {
      WriteAtSplit(hb.file.content, hb.ofst, hb.buf, chunk);
    }
  }

  lemma TurnAgrees(hb: Handle, hu: Handle, data: seq<byte>, off: nat)
    requires Agree(hb, hu) && data != []
    ensures var (h1, rc, k) := Turn(hb, data, off);
      rc == SQLITE_OK && Agree(h1, Written(hu, off, data[..k]))
  {
    FlushAgrees(hb, hu);
    var (h1, rc) := FlushIfStuck(hb, off);
    FillAgrees(h1, hu, data[..Room(h1, |data|)], off);
  }

  /** At non-negative offsets the copying loop succeeds and behaves like one write to the overlay. */
  lemma {:induction false} BufferWriteAgrees(hb: Handle, hu: Handle, data: seq<byte>, off: nat)
    requires Agree(hb, hu)
    ensures var (h1, rc) := BufferWrite(hb, data, off);
      rc == SQLITE_OK && Agree(h1, Written(hu, off, data))
    decreases |data|
  {
    if data != [] {
      TurnAgrees(hb, hu, data, off);
      var (h1, rc, k) := Turn(hb, data, off);
      BufferWriteAgrees(h1, Written(hu, off, data[..k]), data[k..], off + k);
      WriteAtSplit(hu.file.content, off, data[..k], data[k..]);
      assert data[..k] + data[k..] == data;
    }
  }

  /** At a negative offset the buffer accepts what fits and fails exactly when the data does not fit. */
  lemma {:induction false} BufferWriteNegative(hb: Handle, hu: Handle, data: seq<byte>, off: int)
    requires Agree(hb, hu) && off < -1 && data != []
    ensures var (h1, rc) := BufferWrite(hb, data, off);
      if |data| <= BUFFER_SIZE then rc == SQLITE_OK
      else rc == SQLITE_IOERR_WRITE && Agree(h1, hu)
  {
    FlushAgrees(hb, hu);
    var (h1, rc, k) := Turn(hb, data, off);
    assert h1.buf == data[..k];
    if |data| > BUFFER_SIZE {
      var (h2, rc2, _) := Turn(h1, data[k..], off + k);
      assert rc2 == SQLITE_IOERR_WRITE && h2.buf == [];
    } else {
      assert data[k..] == [];
    }
  }

  lemma ReadAgrees(hb: Handle, hu: Handle, n: nat, off: int)
    requires Agree(hb, hu) && off != -1
    ensures var ((h1, rc1, d1), (h2, rc2, d2)) := (ReadOp(hb, n, off), ReadOp(hu, n, off));
      rc1 == rc2 && d1 == d2 && Agree(h1, h2)
  {
    FlushAgrees(hb, hu);
  }

  lemma StepAgrees(hb: Handle, hu: Handle, op: Op)
    requires Agree(hb, hu) && Addressable(op)
    ensures !HidesError(op) ==> Step(hb, op).1 == Step(hu, op).1 && Agree(Step(hb, op).0, Step(hu, op).0)
    ensures HidesError(op) ==> Step(hb, op).1.rc == SQLITE_OK && Step(hu, op).1.rc == SQLITE_IOERR_WRITE
  {
    match op
    case Write(data, off) =>
      if off >= 0 {
        BufferWriteAgrees(hb, hu, data, off);
        assert data[..|data|] == data;
      } else if data != [] {
        BufferWriteNegative(hb, hu, data, off);
      }
    case Read(n, off) => ReadAgrees(hb, hu, n, off);
    case Sync => FlushAgrees(hb, hu);
    case FileSize => FlushAgrees(hb, hu);
    case Close => FlushAgrees(hb, hu);
  }

  lemma RunHead(h: Handle, ops: seq<Op>, h1: Handle, reply: Reply)
    requires |h.buf| <= BUFFER_SIZE && |h1.buf| <= BUFFER_SIZE && ops != [] && (h1, reply) == Step(h, ops[0])
    ensures Run(h, ops).0 == Run(h1, ops[1..]).0
    ensures Run(h, ops).1[0] == reply && Run(h, ops).1[1..] == Run(h1, ops[1..]).1
  {
  }

  predicate NoneHidesError(ops: seq<Op>) {
    forall i :: 0 <= i < |ops| ==> !HidesError(ops[i])
  }

  lemma NoneHidesHead(ops: seq<Op>)
    requires ops != []
    ensures NoneHidesError(ops) <==> !HidesError(ops[0]) && NoneHidesError(ops[1..])
  {
    assert forall i :: 0 < i < |ops| ==> ops[i] == ops[1..][i - 1];
  }

  lemma SameReplies(a: seq<Reply>, b: seq<Reply>)
    requires |a| == |b| && a != []
    ensures a == b <==> a[0] == b[0] && a[1..] == b[1..]
  {
    assert a == [a[0]] + a[1..] && b == [b[0]] + b[1..];
  }

  /** Over any run of calls that the file carries out, the buffered handle returns the same codes, bytes and sizes
      as the unbuffered one if and only if no write puts data that fits the buffer at a negative offset. */
  lemma {:induction false} AgreementFrom(hb: Handle, hu: Handle, ops: seq<Op>)
    requires Agree(hb, hu)
    requires forall i :: 0 <= i < |ops| ==> Addressable(ops[i])
    ensures Run(hb, ops).1 == Run(hu, ops).1 <==> NoneHidesError(ops)
    ensures Run(hb, ops).1 == Run(hu, ops).1 ==> Agree(Run(hb, ops).0, Run(hu, ops).0)
    decreases |ops|
  {
    if ops != [] {
      StepAgrees(hb, hu, ops[0]);
      var ((b1, rb), (u1, ru)) := (Step(hb, ops[0]), Step(hu, ops[0]));
      RunHead(hb, ops, b1, rb);
      RunHead(hu, ops, u1, ru);
      SameReplies(Run(hb, ops).1, Run(hu, ops).1);
      NoneHidesHead(ops);
      if !HidesError(ops[0]) {
        AgreementFrom(b1, u1, ops[1..]);
      }
    }
  }

  lemma {:induction false} RunSnoc(h: Handle, ops: seq<Op>, op: Op)
    requires |h.buf| <= BUFFER_SIZE
    ensures
      var (h1, replies) := Run(h, ops);
      Run(h, ops + [op]) == (Step(h1, op).0, replies + [Step(h1, op).1])
    decreases |ops|
  {
    var all := ops + [op];
    if ops == [] {
      assert all[1..] == [] && all[0] == op;
      assert Run(h, all) == (Step(h, op).0, [Step(h, op).1] + Run(Step(h, op).0, []).1);
      assert [] + [Step(h, op).1] == [Step(h, op).1] + [];
    } else {
      assert all[0] == ops[0] && all[1..] == ops[1..] + [op];
      var (h1, reply) := Step(h, ops[0]);
      RunSnoc(h1, ops[1..], op);
      var (h2, replies) := Run(h1, ops[1..]);
      assert [reply] + (replies + [Step(h2, op).1]) == [reply] + replies + [Step(h2, op).1];
    }
  }

  lemma NoneHidesClose(ops: seq<Op>)
    ensures NoneHidesError(ops + [Close]) <==> NoneHidesError(ops)
  {
    var all := ops + [Close];
    assert forall i :: 0 <= i < |ops| ==> all[i] == ops[i];
    assert all[|ops|] == Close;
  }

  lemma CloseAgrees(hb: Handle, hu: Handle, ops: seq<Op>)
    requires Agree(hb, hu) && NoneHidesError(ops)
    requires forall i :: 0 <= i < |ops| ==> Addressable(ops[i])
    ensures Run(hb, ops + [Close]).0.file.content == Run(hu, ops + [Close]).0.file.content
  {
    AgreementFrom(hb, hu, ops);
    RunSnoc(hb, ops, Close);
    RunSnoc(hu, ops, Close);
    FlushAgrees(Run(hb, ops).0, Run(hu, ops).0);
  }

  /** The same, from open to close: equal answers throughout, and the file left behind is the same. */
  lemma BufferedRunsAgree(content: seq<byte>, ops: seq<Op>, hb: Handle, hu: Handle)
    requires forall i :: 0 <= i < |ops| ==> Addressable(ops[i])
    requires hb == Opened(content, [], true) && hu == Opened(content, [], false)
    ensures
      Run(hb, ops + [Close]).1 == Run(hu, ops + [Close]).1 <==> NoneHidesError(ops)
    ensures
      NoneHidesError(ops) ==> Run(hb, ops + [Close]).0.file.content == Run(hu, ops + [Close]).0.file.content
  {
    AgreementFrom(hb, hu, ops + [Close]);
    NoneHidesClose(ops);
    if NoneHidesError(ops) {
      CloseAgrees(hb, hu, ops);
    }
  }

  /** A failing lseek is overlooked, so that the write lands at the old position and reports success, exactly at
      offset -1. */
  lemma MinusOneUnnoticed(h: Handle, data: seq<byte>, off: int)
    ensures
      var (f1, r1) := SysLseek(h.file, off);
      r1 == -1 && DirectWrite(h, data, off).1 == SQLITE_OK
      <==> off == -1 && SysWrite(f1, data).1 == |data|
    ensures h.file.script == [] && off == -1 ==>
      DirectWrite(h, data, off).0.file.content == WriteAt(h.file.content, h.file.pos, data)
  {
    assert data[..|data|] == data;
  }

  /** Offset -1 has to be left out: here all answers are equal and yet the files differ, because the write at -1 lands
      where the file is positioned, and the buffered handle sends it together with the next one. */
  lemma {:induction false} MinusOneDiverges(hb: Handle, hu: Handle, ops: seq<Op>)
    requires hb == Opened([], [], true) && hu == Opened([], [], false)
    requires ops == [Write([1], -1), Write([2], 0), Close]
    ensures Run(hb, ops).1 == Run(hu, ops).1
    ensures Run(hb, ops).0.file.content == [1, 2] && Run(hu, ops).0.file.content == [2]
  {
    assert [1][..1] == [1] && [2][..1] == [2] && [1, 2][..2] == [1, 2] && [1] + [2] == [1, 2] && [] + [1] == [1];
    var ok := Reply(SQLITE_OK, [], -1);
    var b1, b2 := hb.(ofst := -1, buf := [1]), hb.(ofst := -1, buf := [1, 2]);
    assert BufferWrite(hb, [1], -1) == (b1, SQLITE_OK) && BufferWrite(b1, [2], 0) == (b2, SQLITE_OK);
    var u1, u2 := hu.(file := SysWrite(hu.file, [1]).0), Step(hu.(file := SysWrite(hu.file, [1]).0), ops[1]).0;
    assert Step(hu, ops[0]) == (u1, ok) && Step(u1, ops[1]) == (u2, ok) && u2.file.content == [2];
    assert ops[1..] == [ops[1], Close] && ops[1..][1..] == [Close] && [Close][1..] == [];
    RunHead(hb, ops, b1, ok);
    RunHead(hu, ops, u1, ok);
    RunHead(b1, ops[1..], b2, ok);
    RunHead(u1, ops[1..], u2, ok);
    RunHead(b2, [Close], Step(b2, Close).0, ok);
    RunHead(u2, [Close], u2, ok);
    SameReplies(Run(hb, ops).1, Run(hu, ops).1);
    SameReplies(Run(b1, ops[1..]).1, Run(u1, ops[1..]).1);
    SameReplies(Run(b2, [Close]).1, Run(u2, [Close]).1);
  }

  // ----- order of the bytes on the medium, whatever the system calls do -----

  /** The byte writes a run has asked for. */
  function History(ops: seq<Op>): seq<ByteWrite> {
    if ops == [] then [] else History(ops[..|ops| - 1]) + Asked(ops[|ops| - 1])
  }

  function Asked(op: Op): seq<ByteWrite> {
    if op.Write? then Bytes(op.off, op.data) else []
  }

  /** The file is the replay of its log over what it held at open. */
  ghost predicate LogFaithful(h: Handle, init: seq<byte>) {
    h.file.content == Replay(init, LogBytes(h.file.log))
  }

  /** What has landed, followed by what waits in the buffer, is exactly what was asked for, in order. */
  ghost predicate Fifo(h: Handle, init: seq<byte>, asked: seq<ByteWrite>) {
    && ValidHandle(h) && LogFaithful(h, init)
    && (h.buf != [] ==> h.ofst != -1)
    && LogBytes(h.file.log) + Bytes(h.ofst, h.buf) == asked
  }

  /** What has landed is a prefix of what was asked for; this is what survives a failing call. */
  ghost predicate Landed(h: Handle, init: seq<byte>, asked: seq<ByteWrite>) {
    LogFaithful(h, init) && LogBytes(h.file.log) <= asked
  }

  /** The one answer after which written bytes may be missing; a failed read, fsync or size call loses nothing. */
  predicate WriteFailed(reply: Reply) {
    reply.rc == SQLITE_IOERR_WRITE
  }

  ghost predicate NoWriteFailed(replies: seq<Reply>) {
    forall reply :: reply in replies ==> !WriteFailed(reply)
  }

  /** Writes anywhere but at offset -1; reads do not matter for the order. */
  predicate Seekable(op: Op) {
    op.Write? ==> op.off != -1
  }

  lemma BytesSplit(off: int, a: seq<byte>, b: seq<byte>)
    ensures Bytes(off, a + b) == Bytes(off, a) + Bytes(off + |a|, b)
  {
  }

  lemma {:induction false} SysWriteLands(f: File, data: seq<byte>, init: seq<byte>)
    requires f.content == Replay(init, LogBytes(f.log)) && !Next(f).Fail?
    ensures var f1 := SysWrite(f, data).0;
      && LogBytes(f1.log) == LogBytes(f.log) + Bytes(f.pos, data[..Moved(Next(f), |data|)])
      && f1.content == Replay(init, LogBytes(f1.log))
  {
    var landed := data[..Moved(Next(f), |data|)];
    LogBytesSnoc(f.log, Extent(f.pos, landed));
    ReplayBytes(init, LogBytes(f.log), f.pos, landed);
  }

  lemma PartOfWrite(landed: seq<ByteWrite>, off: int, data: seq<byte>, n: nat)
    requires n <= |data|
    ensures landed <= landed + Bytes(off, data[..n]) <= landed + Bytes(off, data)
    ensures landed <= landed + Bytes(off, data)
    ensures n == |data| ==> Bytes(off, data[..n]) == Bytes(off, data)
  {
    assert data == data[..n] + data[n..];
    BytesSplit(off, data[..n], data[n..]);
  }

  /** A physical write either leaves content and log as they were and fails, or performs a part of the write from the
      file `f1` that the seek leaves, all of it when it succeeds. */
  lemma DirectWriteCases(h: Handle, data: seq<byte>, off: int) returns (f1: File, moved: bool)
    requires off != -1
    ensures f1.content == h.file.content && f1.log == h.file.log
    ensures var (h1, rc) := DirectWrite(h, data, off);
      if moved then
        && f1.pos == off && !Next(f1).Fail? && h1.file == SysWrite(f1, data).0
        && (rc == SQLITE_OK ==> Moved(Next(f1), |data|) == |data|)
      else rc != SQLITE_OK && h1.file.content == h.file.content && h1.file.log == h.file.log
  {
    var (f, r) := SysLseek(h.file, off);
    f1, moved := f, r == off && !Next(f).Fail?;
  }

  /** A physical write adds to the log the bytes that land, all of them when it succeeds. */
  lemma {:induction false} DirectWriteLands(h: Handle, data: seq<byte>, off: int, init: seq<byte>)
    requires LogFaithful(h, init) && off != -1
    ensures var (h1, rc) := DirectWrite(h, data, off);
      && LogFaithful(h1, init)
      && LogBytes(h.file.log) <= LogBytes(h1.file.log) <= LogBytes(h.file.log) + Bytes(off, data)
      && (rc == SQLITE_OK ==> off >= 0 && LogBytes(h1.file.log) == LogBytes(h.file.log) + Bytes(off, data))
  {
    var f1, moved := DirectWriteCases(h, data, off);
    if moved {
      SysWriteLands(f1, data, init);
      PartOfWrite(LogBytes(h.file.log), off, data, Moved(Next(f1), |data|));
    } else {
      PartOfWrite(LogBytes(h.file.log), off, data, 0);
    }
  }

  lemma {:induction false} FlushLands(h: Handle, init: seq<byte>, asked: seq<ByteWrite>)
    requires Fifo(h, init, asked)
    ensures var (h1, rc) := Flush(h);
      && Landed(h1, init, asked) && h1.buf == []
      && (rc == SQLITE_OK ==> Fifo(h1, init, asked) && (h.buf != [] ==> h.ofst >= 0))
  {
    assert Bytes(h.ofst, []) == [];
    if h.buf != [] {
      DirectWriteLands(h, h.buf, h.ofst, init);
    }
  }

  /** Only a chunk that follows a full buffer at a still lower offset can start at offset -1. */
  ghost predicate ChunkAt(h: Handle, data: seq<byte>, off: int) {
    data != [] && off == -1 ==> |h.buf| == BUFFER_SIZE && h.ofst < 0
  }

  lemma FlushIfStuckLands(h: Handle, off: int, init: seq<byte>, asked: seq<ByteWrite>)
    requires Fifo(h, init, asked) && h.buffered
    requires off == -1 ==> |h.buf| == BUFFER_SIZE && h.ofst < 0
    ensures var (h1, rc) := FlushIfStuck(h, off);
      && (rc == SQLITE_OK ==> Fifo(h1, init, asked) && Ready(h1, off))
      && (rc != SQLITE_OK ==> Landed(h1, init, asked))
  {
    FlushLands(h, init, asked);
  }

  /** The buffer has room and the next byte to store belongs right behind it. */
  ghost predicate Ready(h: Handle, off: int) {
    h.buffered && |h.buf| < BUFFER_SIZE && off != -1 && (h.buf == [] || h.ofst + |h.buf| == off)
  }

  lemma FillLands(h: Handle, chunk: seq<byte>, off: int, init: seq<byte>, asked: seq<ByteWrite>)
    requires Fifo(h, init, asked) && Ready(h, off) && |h.buf| + |chunk| <= BUFFER_SIZE
    ensures Fifo(h.(ofst := off - |h.buf|, buf := h.buf + chunk), init, asked + Bytes(off, chunk))
  {
    var log := LogBytes(h.file.log);
    BytesSplit(off - |h.buf|, h.buf, chunk);
    assert Bytes(h.ofst, h.buf) == Bytes(off - |h.buf|, h.buf);
    assert log + (Bytes(h.ofst, h.buf) + Bytes(off, chunk)) == log + Bytes(h.ofst, h.buf) + Bytes(off, chunk);
  }

  lemma TurnLands(h: Handle, data: seq<byte>, off: int, init: seq<byte>, asked: seq<ByteWrite>)
    requires Fifo(h, init, asked) && h.buffered && data != [] && ChunkAt(h, data, off)
    ensures var (h1, rc, k) := Turn(h, data, off);
      && (rc == SQLITE_OK ==> Fifo(h1, init, asked + Bytes(off, data[..k])) && ChunkAt(h1, data[k..], off + k))
      && (rc != SQLITE_OK ==> Landed(h1, init, asked))
  {
    FlushIfStuckLands(h, off, init, asked);
    var (h1, rc) := FlushIfStuck(h, off);
    if rc == SQLITE_OK {
      FillLands(h1, data[..Room(h1, |data|)], off, init, asked);
    }
  }

  lemma LandedMore(h: Handle, init: seq<byte>, asked: seq<ByteWrite>, more: seq<ByteWrite>)
    requires Landed(h, init, asked)
    ensures Landed(h, init, asked + more)
  {
  }

  lemma AskedSplit(asked: seq<ByteWrite>, off: int, data: seq<byte>, k: nat)
    requires k <= |data|
    ensures asked + Bytes(off, data[..k]) + Bytes(off + k, data[k..]) == asked + Bytes(off, data)
  {
    assert data == data[..k] + data[k..];
    BytesSplit(off, data[..k], data[k..]);
  }

  /** Inside the copying loop the order is kept at every turn, and after a failing turn what landed is a prefix. */
  lemma {:induction false} BufferWriteLands(h: Handle, data: seq<byte>, off: int, init: seq<byte>, asked: seq<ByteWrite>,
                                            want: seq<ByteWrite>)
    requires Fifo(h, init, asked) && h.buffered && ChunkAt(h, data, off)
    requires want == asked + Bytes(off, data)
    ensures var (h1, rc) := BufferWrite(h, data, off);
      if rc == SQLITE_OK then Fifo(h1, init, want) else Landed(h1, init, want)
    decreases |data|
  {
    hide Turn, LogFaithful, LogBytes, ChunkAt;
    if data == [] {
      assert want == asked;
    } else {
      TurnLands(h, data, off, init, asked);
      var (h1, rc, k) := Turn(h, data, off);
      if rc == SQLITE_OK {
        AskedSplit(asked, off, data, k);
        BufferWriteLands(h1, data[k..], off + k, init, asked + Bytes(off, data[..k]), want);
      } else {
        LandedMore(h1, init, asked, Bytes(off, data));
      }
    }
  }

  lemma WriteLands(h: Handle, data: seq<byte>, off: int, init: seq<byte>, asked: seq<ByteWrite>)
    requires Fifo(h, init, asked) && off != -1
    ensures var (h1, rc) := WriteOp(h, data, off);
      && Landed(h1, init, asked + Bytes(off, data))
      && (rc == SQLITE_OK ==> Fifo(h1, init, asked + Bytes(off, data)))
  {
    if h.buffered {
      BufferWriteLands(h, data, off, init, asked, asked + Bytes(off, data));
    } else {
      assert asked == LogBytes(h.file.log) by {
        assert Bytes(h.ofst, []) == [];
      }
      DirectWriteLands(h, data, off, init);
      DirectWriteKeeps(h, data, off);
      assert Bytes(h.ofst, []) == [];
    }
  }

  lemma DirectWriteKeeps(h: Handle, data: seq<byte>, off: int)
    ensures var h1 := DirectWrite(h, data, off).0;
      h1.buf == h.buf && h1.ofst == h.ofst && h1.buffered == h.buffered
  {
  }

  /** The same file and buffer, up to the position and the system calls still to come. */
  ghost predicate SameData(h1: Handle, h2: Handle) {
    && h1.file.content == h2.file.content && h1.file.log == h2.file.log
    && h1.buf == h2.buf && h1.buffered == h2.buffered && h1.ofst == h2.ofst
  }

  /** The calls that are not writes flush first and then leave the data alone. */
  lemma ReadKeeps(h: Handle, n: nat, off: int)
    ensures var ((h1, rc1, _), (h2, rc2)) := (ReadOp(h, n, off), Flush(h));
      SameData(h1, h2) && (rc2 != SQLITE_OK ==> rc1 == rc2)
  {
  }

  lemma FlushFails(h: Handle)
    ensures Flush(h).1 == SQLITE_OK || Flush(h).1 == SQLITE_IOERR_WRITE
  {
  }

  lemma OthersLand(h: Handle, op: Op)
    requires |h.buf| <= BUFFER_SIZE && !op.Write?
    ensures var ((h1, reply), (h2, rc)) := (Step(h, op), Flush(h));
      SameData(h1, h2) && (!WriteFailed(reply) ==> rc == SQLITE_OK)
  {
    FlushFails(h);
    match op
    case Read(n, off) => ReadKeeps(h, n, off);
    case Sync =>
    case FileSize =>
    case Close =>
  }

  /** One call: unless a write or flush fails the order is kept; and even then what landed is still a prefix. */
  lemma {:induction false} StepLands(h: Handle, op: Op, init: seq<byte>, asked: seq<ByteWrite>)
    requires Fifo(h, init, asked) && Seekable(op)
    ensures var (h1, reply) := Step(h, op);
      && Landed(h1, init, asked + Asked(op))
      && (!WriteFailed(reply) ==> Fifo(h1, init, asked + Asked(op)))
      && (op.Sync? && !WriteFailed(reply) ==> h1.buf == [] && LogBytes(h1.file.log) == asked)
  {
    if op.Write? {
      WriteLands(h, op.data, op.off, init, asked);
    } else {
      assert asked + [] == asked;
      FlushLands(h, init, asked);
      OthersLand(h, op);
      assert Bytes(Flush(h).0.ofst, []) == [];
    }
  }

  lemma {:induction false} FifoRun(content: seq<byte>, script: seq<Outcome>, buffered: bool, ops: seq<Op>)
    requires forall op :: op in ops ==> Seekable(op)
    requires NoWriteFailed(Run(Opened(content, script, buffered), ops).1)
    ensures Fifo(Run(Opened(content, script, buffered), ops).0, content, History(ops))
    decreases |ops|
  {
    var h := Opened(content, script, buffered);
    if ops != [] {
      var most, op := ops[..|ops| - 1], ops[|ops| - 1];
      assert ops == most + [op];
      RunSnoc(h, most, op);
      FifoRun(content, script, buffered, most);
      StepLands(Run(h, most).0, op, content, History(most));
    }
  }

  lemma RunLands(content: seq<byte>, script: seq<Outcome>, buffered: bool, ops: seq<Op>, op: Op)
    requires Seekable(op) && forall o :: o in ops ==> Seekable(o)
    requires NoWriteFailed(Run(Opened(content, script, buffered), ops).1)
    ensures Landed(Run(Opened(content, script, buffered), ops + [op]).0, content, History(ops + [op]))
  {
    var h := Opened(content, script, buffered);
    RunSnoc(h, ops, op);
    FifoRun(content, script, buffered, ops);
    StepLands(Run(h, ops).0, op, content, History(ops));
    HistorySnoc(ops, op);
  }

  lemma HistorySnoc(ops: seq<Op>, op: Op)
    ensures History(ops + [op]) == History(ops) + Asked(op)
  {
    assert (ops + [op])[..|ops|] == ops;
  }

  /** Crash safety. Run any calls, with any outcomes of the system calls, in which no write or flush before the last
      call fails, and stop the machine after any number `k` of bytes has landed: the file then holds exactly the
      first `k` bytes that were written, in the order they were written. */
  lemma {:induction false} CrashPrefix(content: seq<byte>, script: seq<Outcome>, buffered: bool,
                                       ops: seq<Op>, op: Op, h1: Handle, k: nat)
    requires Seekable(op) && forall o :: o in ops ==> Seekable(o)
    requires NoWriteFailed(Run(Opened(content, script, buffered), ops).1)
    requires h1 == Run(Opened(content, script, buffered), ops + [op]).0
    requires k <= |LogBytes(h1.file.log)|
    ensures k <= |History(ops + [op])|
    ensures LogBytes(h1.file.log)[..k] == History(ops + [op])[..k]
    ensures Replay(content, LogBytes(h1.file.log)[..k]) == Replay(content, History(ops + [op])[..k])
    ensures h1.file.content == Replay(content, LogBytes(h1.file.log))
  {
    RunLands(content, script, buffered, ops, op);
  }

  /** After a sync whose flush succeeds everything written so far has landed, so nothing written later can precede it. */
  lemma SyncDrains(content: seq<byte>, script: seq<Outcome>, buffered: bool, ops: seq<Op>)
    requires forall op :: op in ops ==> Seekable(op)
    requires NoWriteFailed(Run(Opened(content, script, buffered), ops + [Sync]).1)
    ensures var h1 := Run(Opened(content, script, buffered), ops + [Sync]).0;
      && LogBytes(h1.file.log) == History(ops)
      && h1.file.content == Replay(content, History(ops))
      && h1.buf == []
  {
    var h := Opened(content, script, buffered);
    RunSnoc(h, ops, Sync);
    FifoRun(content, script, buffered, ops);
    StepLands(Run(h, ops).0, Sync, content, History(ops));
  }

  /** After a failed flush the buffer is gone, so a caller that carries on does lose the order: here the write at
      offset 0 is lost and the later write at offset 5 lands. */
  lemma OrderLostAfterFailure()
    ensures
      var h1 := Step(Opened([], [Full, Fail], true), Write([1], 0)).0;
      var (h2, r2) := Step(h1, Sync);
      var h3 := Step(h2, Write([2], 5)).0;
      var (h4, r4) := Step(h3, Sync);
      && r2.rc == SQLITE_IOERR_WRITE && r4.rc == SQLITE_OK
      && !(LogBytes(h4.file.log) <= Bytes(0, [1]) + Bytes(5, [2]))
  {
    var h0 := Opened([], [Full, Fail], true);
    FirstByte(h0, 1, 0);
    var h2 := Handle(File([], 0, [], []), true, [], 0);
    assert SyncOp(h0.(buf := [1])) == (h2, SQLITE_IOERR_WRITE);
    FirstByte(h2, 2, 5);
    var h3 := h2.(ofst := 5, buf := [2]);
    var h4 := SyncOp(h3).0;
    assert [2][..1] == [2];
    assert h4.file.log == [] + [Extent(5, [2])] && SyncOp(h3).1 == SQLITE_OK;
    LogBytesSnoc([], Extent(5, [2]));
    assert LogBytes(h4.file.log)[0] == ByteWrite(5, 2);
    assert (Bytes(0, [1]) + Bytes(5, [2]))[0] == ByteWrite(0, 1);
  }

  lemma FirstByte(h: Handle, b: byte, off: nat)
    requires h.buffered && h.buf == []
    ensures BufferWrite(h, [b], off) == (h.(ofst := off, buf := [b]), SQLITE_OK)
  {
    assert [b][..1] == [b] && [] + [b] == [b] && [b][1..] == [];
  }

  // ----- how many physical writes a sequential run costs -----

  /** `data` at `off` cut into blocks of the buffer size; only the last may be shorter. */
  function Blocks(off: nat, data: seq<byte>): seq<Extent>
    decreases |data|
  {
    if data == [] then []
    else if |data| <= BUFFER_SIZE then [Extent(off, data)]
    else [Extent(off, data[..BUFFER_SIZE])] + Blocks(off + BUFFER_SIZE, data[BUFFER_SIZE..])
  }

  lemma {:induction false} BlocksShape(off: nat, data: seq<byte>)
    ensures var bs := Blocks(off, data);
      && |bs| == (|data| + BUFFER_SIZE - 1) / BUFFER_SIZE
      && forall k :: 0 <= k < |bs| ==>
        && BUFFER_SIZE * k < |data|
        && bs[k] == Extent(off + BUFFER_SIZE * k, data[BUFFER_SIZE * k..Min(BUFFER_SIZE * (k + 1), |data|)])
    decreases |data|
  {
    if |data| > BUFFER_SIZE {
      var rest := data[BUFFER_SIZE..];
      BlocksShape(off + BUFFER_SIZE, rest);
      var (bs, cs) := (Blocks(off, data), Blocks(off + BUFFER_SIZE, rest));
      forall k | 0 <= k < |bs|
        ensures BUFFER_SIZE * k < |data|
        ensures bs[k] == Extent(off + BUFFER_SIZE * k, data[BUFFER_SIZE * k..Min(BUFFER_SIZE * (k + 1), |data|)])
      {
        if k > 0 {
          assert bs[k] == cs[k - 1];
        }
      }
    } else if data != [] {
      assert data[0..|data|] == data;
    }
  }

  /** Appending to a run either fills up its last block or, when that is full, starts a new one. */
  lemma {:induction false} BlocksAppend(off: nat, data: seq<byte>, more: seq<byte>)
    requires data != [] && more != []
    requires var last := Blocks(off, data)[|Blocks(off, data)| - 1].data;
      |more| <= if |last| == BUFFER_SIZE then BUFFER_SIZE else BUFFER_SIZE - |last|
    ensures
      var bs := Blocks(off, data);
      var last := bs[|bs| - 1];
      Blocks(off, data + more) ==
        if |last.data| == BUFFER_SIZE then bs + [Extent(off + |data|, more)]
        else bs[..|bs| - 1] + [Extent(last.off, last.data + more)]
    decreases |data|
  {
    var all := data + more;
    if |data| > BUFFER_SIZE {
      assert all[..BUFFER_SIZE] == data[..BUFFER_SIZE] && all[BUFFER_SIZE..] == data[BUFFER_SIZE..] + more;
      BlocksAppend(off + BUFFER_SIZE, data[BUFFER_SIZE..], more);
    } else if |data| == BUFFER_SIZE {
      assert all[..BUFFER_SIZE] == data && all[BUFFER_SIZE..] == more;
    }
  }

  /** Mid-run: the blocks sent so far together with the buffer are the blocks of everything written. */
  ghost predicate Coalescing(h: Handle, log0: seq<Extent>, off: nat, data: seq<byte>) {
    && h.buffered && h.file.script == [] && |h.buf| <= BUFFER_SIZE
    && (data == [] ==> h.buf == [])
    && (data != [] ==> h.buf != [] && h.ofst + |h.buf| == off + |data|)
    && h.file.log + (if h.buf == [] then [] else [Extent(h.ofst, h.buf)]) == log0 + Blocks(off, data)
  }

  lemma CoalescingLast(h: Handle, log0: seq<Extent>, off: nat, data: seq<byte>)
    requires Coalescing(h, log0, off, data) && data != []
    ensures var bs := Blocks(off, data);
      && bs != [] && bs[|bs| - 1] == Extent(h.ofst, h.buf) && h.ofst >= off
      && h.file.log == log0 + bs[..|bs| - 1]
  {
    BlocksShape(off, data);
    var bs := Blocks(off, data);
    var all := log0 + bs;
    assert all[|all| - 1] == Extent(h.ofst, h.buf);
    assert all[..|all| - 1] == log0 + bs[..|bs| - 1] && all[..|all| - 1] == h.file.log;
  }

  lemma FlushCoalesced(h: Handle, log0: seq<Extent>, off: nat, data: seq<byte>)
    requires Coalescing(h, log0, off, data) && data != []
    ensures var (h1, rc) := Flush(h);
      rc == SQLITE_OK && h1.file.log == log0 + Blocks(off, data) && h1.buf == [] && h1.file.script == [] && h1.buffered
  {
    CoalescingLast(h, log0, off, data);
    assert h.buf[..|h.buf|] == h.buf;
  }

  lemma CoalescingTurn(h: Handle, log0: seq<Extent>, off: nat, data: seq<byte>, more: seq<byte>)
    requires Coalescing(h, log0, off, data) && more != []
    ensures var (h1, rc, k) := Turn(h, more, off + |data|);
      rc == SQLITE_OK && Coalescing(h1, log0, off, data + more[..k])
  {
    var (h1, _, k) := Turn(h, more, off + |data|);
    if data == [] {
      assert data + more[..k] == more[..k] && [] + more[..k] == more[..k];
      assert log0 + Blocks(off, data) == log0 && h.file.log == h.file.log + [];
    } else {
      CoalescingLast(h, log0, off, data);
      FlushCoalesced(h, log0, off, data);
      BlocksAppend(off, data, more[..k]);
      assert [] + more[..k] == more[..k];
      var bs := Blocks(off, data);
      assert log0 + (bs + [Extent(off + |data|, more[..k])]) == log0 + bs + [Extent(off + |data|, more[..k])];
      assert log0 + (bs[..|bs| - 1] + [Extent(h.ofst, h.buf + more[..k])])
          == log0 + bs[..|bs| - 1] + [Extent(h.ofst, h.buf + more[..k])];
    }
  }

  lemma {:induction false} CoalescingWrite(h: Handle, log0: seq<Extent>, off: nat, data: seq<byte>, more: seq<byte>)
    requires Coalescing(h, log0, off, data)
    ensures var (h1, rc) := BufferWrite(h, more, off + |data|);
      rc == SQLITE_OK && Coalescing(h1, log0, off, data + more)
    decreases |more|
  {
    if more == [] {
      assert data + more == data;
    } else {
      CoalescingTurn(h, log0, off, data, more);
      var (h1, _, k) := Turn(h, more, off + |data|);
      CoalescingWrite(h1, log0, off, data + more[..k], more[k..]);
      assert data + more[..k] + more[k..] == data + more;
    }
  }

  /** The calls that write the pieces one after the other, starting at `off`. */
  function Sequential(off: nat, pieces: seq<seq<byte>>): seq<Op>
    decreases |pieces|
  {
    if pieces == [] then [] else [Write(pieces[0], off)] + Sequential(off + |pieces[0]|, pieces[1..])
  }

  function Concat(pieces: seq<seq<byte>>): seq<byte> {
    if pieces == [] then [] else pieces[0] + Concat(pieces[1..])
  }

  lemma RunWrite(h: Handle, data: seq<byte>, off: int, ops: seq<Op>)
    requires h.buffered && |h.buf| <= BUFFER_SIZE
    ensures Run(h, [Write(data, off)] + ops).0 == Run(BufferWrite(h, data, off).0, ops).0
  {
    var all := [Write(data, off)] + ops;
    assert all[0] == Write(data, off) && all[1..] == ops;
    assert Step(h, all[0]).0 == BufferWrite(h, data, off).0;
  }

  function WriteAll(h: Handle, off: int, pieces: seq<seq<byte>>): (r: Handle)
    requires |h.buf| <= BUFFER_SIZE
    ensures |r.buf| <= BUFFER_SIZE
    decreases |pieces|
  {
    if pieces == [] then h else WriteAll(BufferWrite(h, pieces[0], off).0, off + |pieces[0]|, pieces[1..])
  }

  lemma {:induction false} RunSequential(h: Handle, off: nat, pieces: seq<seq<byte>>)
    requires h.buffered && |h.buf| <= BUFFER_SIZE
    ensures Run(h, Sequential(off, pieces)).0 == WriteAll(h, off, pieces)
    decreases |pieces|
  {
    if pieces != [] {
      RunWrite(h, pieces[0], off, Sequential(off + |pieces[0]|, pieces[1..]));
      RunSequential(BufferWrite(h, pieces[0], off).0, off + |pieces[0]|, pieces[1..]);
    }
  }

  lemma {:induction false} CoalescingAll(h: Handle, log0: seq<Extent>, off: nat, data: seq<byte>, pieces: seq<seq<byte>>)
    requires Coalescing(h, log0, off, data)
    ensures Coalescing(WriteAll(h, off + |data|, pieces), log0, off, data + Concat(pieces))
    decreases |pieces|
  {
    hide BufferWrite, Blocks;
    if pieces == [] {
      assert data + Concat(pieces) == data;
    } else {
      CoalescingWrite(h, log0, off, data, pieces[0]);
      CoalescingAll(BufferWrite(h, pieces[0], off + |data|).0, log0, off, data + pieces[0], pieces[1..]);
      assert data + pieces[0] + Concat(pieces[1..]) == data + Concat(pieces);
    }
  }

  lemma CoalescedSync(h: Handle, log0: seq<Extent>, off: nat, data: seq<byte>)
    requires Coalescing(h, log0, off, data)
    ensures Step(h, Sync).0.file.log == log0 + Blocks(off, data)
  {
    OthersLand(h, Sync);
    if data != [] {
      FlushCoalesced(h, log0, off, data);
    }
    assert h.file.log + [] == h.file.log;
  }

  lemma CoalescedAll(h: Handle, off: nat, pieces: seq<seq<byte>>)
    requires h.buffered && h.buf == [] && h.file.script == []
    ensures Coalescing(WriteAll(h, off, pieces), h.file.log, off, Concat(pieces))
  {
    assert h.file.log + [] == h.file.log && Blocks(off, []) == [];
    assert Coalescing(h, h.file.log, off, []);
    CoalescingAll(h, h.file.log, off, [], pieces);
    assert [] + Concat(pieces) == Concat(pieces);
  }

  lemma RunThenSync(h: Handle, off: nat, pieces: seq<seq<byte>>, h1: Handle)
    requires h.buffered && |h.buf| <= BUFFER_SIZE && h1 == WriteAll(h, off, pieces)
    ensures Run(h, Sequential(off, pieces) + [Sync]).0 == Step(h1, Sync).0
  {
    RunSequential(h, off, pieces);
    RunSnoc(h, Sequential(off, pieces), Sync);
  }

  /** A gap-free run of writes of any sizes, started on an empty buffer and ended by a sync, reaches the file in
      ceil(T / 8192) physical writes: the k-th at offset off + 8192 * k, each full except possibly the last. */
  lemma {:induction false} CoalescedRun(h: Handle, off: nat, pieces: seq<seq<byte>>,
                                        data: seq<byte>, sent: seq<Extent>)
    requires h.buffered && h.buf == [] && h.file.script == []
    requires data == Concat(pieces) && sent == Blocks(off, data)
    ensures Run(h, Sequential(off, pieces) + [Sync]).0.file.log == h.file.log + sent
    ensures |sent| == (|data| + BUFFER_SIZE - 1) / BUFFER_SIZE
    ensures forall k :: 0 <= k < |sent| ==>
      && BUFFER_SIZE * k < |data|
      && sent[k] == Extent(off + BUFFER_SIZE * k, data[BUFFER_SIZE * k..Min(BUFFER_SIZE * (k + 1), |data|)])
  {
    BlocksShape(off, data);
    var h1 := WriteAll(h, off, pieces);
    RunThenSync(h, off, pieces, h1);
    CoalescedAll(h, off, pieces);
    CoalescedSync(h1, h.file.log, off, data);
  }
}
