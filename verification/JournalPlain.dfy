/** What a handle answers, in terms of a plain sequence of bytes.

    JournalSpec compares a handle that has a buffer with one that has none. Here both are compared with something that
    has no handle at all: the bytes that result from performing every byte written so far, one by one, on what the file
    held at open. Every answer of a run is what these bytes call for (`AnswersOfPlainFile`), and when a system call
    fails the answer names the kind of call (`FailureAnswers`). */
module JournalPlain {
  import opened Posix
  import opened JournalSpec

  /** The answer to reading `n` bytes at `off`: the bytes that are there, zeros behind them, and a code that tells
      whether all of them were there. */
  predicate ReadAnswer(plain: seq<byte>, n: nat, off: nat, reply: Reply) {
    && |reply.bytes| == n && reply.size == -1
    && (forall i :: 0 <= i < n ==> reply.bytes[i] == if off + i < |plain| then plain[off + i] else 0)
    && reply.rc == if n == 0 || off + n <= |plain| then SQLITE_OK else SQLITE_IOERR_SHORT_READ
  }

  predicate RightAnswer(plain: seq<byte>, op: Op, reply: Reply) {
    match op
    case Write(_, _) => reply == Reply(SQLITE_OK, [], -1)
    case Read(n, off) =>
      if off >= 0 then ReadAnswer(plain, n, off, reply) else reply == Reply(SQLITE_IOERR_READ, [], -1)
    case Sync => reply == Reply(SQLITE_OK, [], -1)
    case FileSize => reply == Reply(SQLITE_OK, [], |plain|)
    case Close => reply == Reply(SQLITE_OK, [], -1)
  }

  /** Writes inside the file, and reads anywhere but at offset -1. */
  predicate Ordinary(op: Op) {
    match op
    case Write(_, off) => off >= 0
    case Read(_, off) => off != -1
    case _ => true
  }

  /** The handle stands for the bytes `plain`, and no system call fails any more. */
  ghost predicate StandsFor(h: Handle, plain: seq<byte>) {
    && ValidHandle(h) && h.file.script == []
    && (h.buf != [] ==> h.ofst >= 0)
    && Overlay(h) == plain
  }

  lemma FlushStands(h: Handle, plain: seq<byte>)
    requires StandsFor(h, plain)
    ensures var (h1, rc) := Flush(h);
      rc == SQLITE_OK && h1.buf == [] && h1.file.content == plain && StandsFor(h1, plain)
  {
    assert h.buf[..|h.buf|] == h.buf;
  }

  lemma {:induction false} WriteStands(h: Handle, plain: seq<byte>, data: seq<byte>, off: nat)
    requires StandsFor(h, plain)
    ensures var (h1, rc) := WriteOp(h, data, off);
      rc == SQLITE_OK && StandsFor(h1, WriteAt(plain, off, data))
  {
    if h.buffered {
      BufferWriteAgrees(h, Handle(File(plain, 0, [], []), false, [], 0), data, off);
    } else {
      assert data[..|data|] == data;
    }
  }

  lemma ReadAnswers(h: Handle, plain: seq<byte>, n: nat, off: int)
    requires StandsFor(h, plain) && off != -1
    ensures var (h1, rc, d) := ReadOp(h, n, off);
      StandsFor(h1, plain) && RightAnswer(plain, Read(n, off), Reply(rc, d, -1))
  {
    FlushStands(h, plain);
  }

  function PlainAfter(plain: seq<byte>, op: Op): seq<byte> {
    if op.Write? && op.off >= 0 then WriteAt(plain, op.off, op.data) else plain
  }

  lemma StepStands(h: Handle, plain: seq<byte>, op: Op)
    requires StandsFor(h, plain) && Ordinary(op)
    ensures StandsFor(Step(h, op).0, PlainAfter(plain, op)) && RightAnswer(plain, op, Step(h, op).1)
  {
    match op
    case Write(data, off) => WriteStands(h, plain, data, off);
    case Read(n, off) => ReadAnswers(h, plain, n, off);
    case Sync => FlushStands(h, plain);
    case FileSize => FlushStands(h, plain);
    case Close => FlushStands(h, plain);
  }

  /** The bytes after a run: every byte written, performed in order on what the file held. */
  function Plain(content: seq<byte>, ops: seq<Op>): seq<byte> {
    Replay(content, History(ops))
  }

  lemma PlainSnoc(content: seq<byte>, ops: seq<Op>, op: Op)
    requires Ordinary(op)
    ensures Plain(content, ops + [op]) == PlainAfter(Plain(content, ops), op)
  {
    HistorySnoc(ops, op);
    if op.Write? {
      ReplayBytes(content, History(ops), op.off, op.data);
    } else {
      assert History(ops) + [] == History(ops);
    }
  }

  lemma OpenedStands(content: seq<byte>, buffered: bool)
    ensures StandsFor(Opened(content, [], buffered), Plain(content, []))
  {
  }

  /** Each answer is what the plain bytes call for at that moment. */
  ghost predicate AllRight(content: seq<byte>, ops: seq<Op>, replies: seq<Reply>) {
    && |replies| == |ops|
    && forall i :: 0 <= i < |ops| ==> RightAnswer(Plain(content, ops[..i]), ops[i], replies[i])
  }

  lemma AllRightSnoc(content: seq<byte>, ops: seq<Op>, op: Op, replies: seq<Reply>, reply: Reply)
    requires AllRight(content, ops, replies) && RightAnswer(Plain(content, ops), op, reply)
    ensures AllRight(content, ops + [op], replies + [reply])
  {
    hide RightAnswer, Plain;
    var all, allReplies := ops + [op], replies + [reply];
    forall i | 0 <= i < |all|
      ensures RightAnswer(Plain(content, all[..i]), all[i], allReplies[i])
    {
      if i < |ops| {
        assert all[..i] == ops[..i] && all[i] == ops[i];
      } else {
        assert all[..i] == ops;
      }
    }
  }

  /** Every answer of a run, with or without a buffer, is what the plain bytes call for at that moment; and these are
      the bytes that the handle stands for in the end. */
  lemma {:induction false} AnswersOfPlainFile(content: seq<byte>, buffered: bool, ops: seq<Op>,
                                              h: Handle, replies: seq<Reply>)
    requires forall i :: 0 <= i < |ops| ==> Ordinary(ops[i])
    requires (h, replies) == Run(Opened(content, [], buffered), ops)
    ensures StandsFor(h, Plain(content, ops)) && AllRight(content, ops, replies)
    decreases |ops|
  {
    var h0 := Opened(content, [], buffered);
    if ops == [] {
      OpenedStands(content, buffered);
    } else {
      var most, op := ops[..|ops| - 1], ops[|ops| - 1];
      var (h1, replies1) := Run(h0, most);
      assert ops == most + [op];
      hide StandsFor, RightAnswer, Step, PlainAfter, Plain, AllRight, Run;
      RunSnoc(h0, most, op);
      AnswersOfPlainFile(content, buffered, most, h1, replies1);
      PlainSnoc(content, most, op);
      HandleFits(h1, Plain(content, most));
      StepStands(h1, Plain(content, most), op);
      AllRightSnoc(content, most, op, replies1, Step(h1, op).1);
    }
  }

  lemma HandleFits(h: Handle, plain: seq<byte>)
    requires StandsFor(h, plain)
    ensures |h.buf| <= BUFFER_SIZE
  {
  }

  /** And after the last of them, when it is a close or a sync, the file holds these bytes. */
  lemma {:induction false} LeavesPlainFile(content: seq<byte>, buffered: bool, ops: seq<Op>, last: Op)
    requires forall i :: 0 <= i < |ops| ==> Ordinary(ops[i])
    requires last == Close || last == Sync
    ensures Run(Opened(content, [], buffered), ops + [last]).0.file.content == Plain(content, ops)
  {
    var (h, replies) := Run(Opened(content, [], buffered), ops);
    AnswersOfPlainFile(content, buffered, ops, h, replies);
    RunSnoc(Opened(content, [], buffered), ops, last);
    FlushStands(h, Plain(content, ops));
    OthersLand(h, last);
  }

  // ----- failing system calls -----

  /** The code for the kind of call that failed. */
  function CodeOf(op: Op): int {
    match op
    case Write(_, _) => SQLITE_IOERR_WRITE
    case Read(_, _) => SQLITE_IOERR_READ
    case Sync => SQLITE_IOERR_FSYNC
    case FileSize => SQLITE_IOERR_FSTAT
    case Close => SQLITE_OK
  }

  /** How many system calls the operation itself makes on an unbuffered handle; a write or read seeks first. */
  function CallsOf(op: Op): nat {
    match op
    case Write(_, _) => 2
    case Read(_, _) => 2
    case Sync => 1
    case FileSize => 1
    case Close => 0
  }

  /** One of the next `k` system calls fails. */
  predicate FailsWithin(script: seq<Outcome>, k: nat) {
    exists i :: 0 <= i < k && i < |script| && script[i].Fail?
  }

  /** With nothing to flush, an operation answers with the code of its kind, and nothing else, if one of the system
      calls it makes fails; and only then, as far as it is not a matter of moving too few bytes. */
  lemma FailureAnswers(h: Handle, op: Op)
    requires h.buf == [] && (op.Write? ==> !h.buffered) && (op.Write? || op.Read? ==> op.off >= 0)
    ensures var reply := Step(h, op).1;
      && (FailsWithin(h.file.script, CallsOf(op)) ==> reply == Reply(CodeOf(op), [], -1))
      && (!FailsWithin(h.file.script, CallsOf(op)) ==>
          reply.rc == SQLITE_OK || (op.Read? && reply.rc == SQLITE_IOERR_SHORT_READ)
          || (op.Write? && reply.rc == SQLITE_IOERR_WRITE && |h.file.script| > 1 && h.file.script[1].Short?))
  {
    var script := h.file.script;
    assert script != [] && script[0].Fail? ==> CallsOf(op) > 0 ==> FailsWithin(script, CallsOf(op));
    assert |script| > 1 && script[1].Fail? ==> CallsOf(op) > 1 ==> FailsWithin(script, CallsOf(op));
  }

  /** With something to flush, a failing flush is what every operation but a write answers. */
  lemma FlushFailureAnswers(h: Handle, op: Op)
    requires h.buf != [] && |h.buf| <= BUFFER_SIZE && h.ofst >= 0 && !op.Write?
    ensures FailsWithin(h.file.script, 2) ==> Step(h, op).1 == Reply(SQLITE_IOERR_WRITE, [], -1)
  {
  }
}
