/** Exactly when the order of the written bytes is kept for good.

    JournalSpec shows that the log of a handle stays a prefix of what was written as long as no write or flush fails.
    Here is the other half: a buffered handle that has answered a single call with SQLITE_IOERR_WRITE has lost bytes
    that it never makes up for, and some continuation in which every system call succeeds brings that to light
    (`OrderKeptExactly`). */
module JournalOrder {
  import opened Posix
  import opened JournalSpec

  // ----- bytes are never made up for -----

  /** The bytes that have landed and those that wait. */
  function Kept(h: Handle): nat {
    |LogBytes(h.file.log)| + |h.buf|
  }

  lemma DirectWriteCount(h: Handle, data: seq<byte>, off: int)
    ensures var (h1, rc) := DirectWrite(h, data, off);
      && |LogBytes(h1.file.log)| <= |LogBytes(h.file.log)| + |data|
      && (rc != SQLITE_OK && data != [] ==> |LogBytes(h1.file.log)| < |LogBytes(h.file.log)| + |data|)
  {
    var (f1, r1) := SysLseek(h.file, off);
    if r1 == off && !Next(f1).Fail? {
      LogBytesSnoc(f1.log, Extent(f1.pos, data[..Moved(Next(f1), |data|)]));
    }
  }

  /** A failed flush loses at least one byte. */
  lemma FlushCount(h: Handle)
    ensures var (h1, rc) := Flush(h);
      && h1.buffered == h.buffered && h1.buf == []
      && Kept(h1) <= Kept(h) && (rc != SQLITE_OK ==> Kept(h1) < Kept(h))
  {
    DirectWriteCount(h, h.buf, h.ofst);
    DirectWriteKeeps(h, h.buf, h.ofst);
  }

  lemma TurnCount(h: Handle, data: seq<byte>, off: int)
    requires |h.buf| <= BUFFER_SIZE && data != []
    ensures var (h1, rc, k) := Turn(h, data, off);
      if rc == SQLITE_OK then Kept(h1) <= Kept(h) + k else Kept(h1) < Kept(h)
  {
    FlushCount(h);
  }

  lemma {:induction false} BufferWriteCount(h: Handle, data: seq<byte>, off: int)
    requires |h.buf| <= BUFFER_SIZE
    ensures var (h1, rc) := BufferWrite(h, data, off);
      Kept(h1) <= Kept(h) + |data| && (rc != SQLITE_OK ==> Kept(h1) < Kept(h) + |data|)
    decreases |data|
  {
    if data != [] {
      TurnCount(h, data, off);
      var (h1, rc, k) := Turn(h, data, off);
      if rc == SQLITE_OK {
        BufferWriteTurn(h, data, off, h1, k);
        BufferWriteCount(h1, data[k..], off + k);
      }
    }
  }

  lemma {:induction false} StepCount(h: Handle, op: Op)
    requires |h.buf| <= BUFFER_SIZE && h.buffered
    ensures var (h1, reply) := Step(h, op);
      && h1.buffered && Kept(h1) <= Kept(h) + |Asked(op)|
      && (WriteFailed(reply) ==> Kept(h1) < Kept(h) + |Asked(op)|)
  {
    if op.Write? {
      BufferWriteCount(h, op.data, op.off);
    } else {
      FlushCount(h);
      FlushFails(h);
      OthersLand(h, op);
    }
  }

  /** Once a buffered handle has answered that a write failed, it has fewer bytes than were written, for good. */
  lemma {:induction false} LostForGood(content: seq<byte>, script: seq<Outcome>, ops: seq<Op>)
    ensures var (h, replies) := Run(Opened(content, script, true), ops);
      && h.buffered && Kept(h) <= |History(ops)|
      && (!NoWriteFailed(replies) ==> Kept(h) < |History(ops)|)
    decreases |ops|
  {
    var h0 := Opened(content, script, true);
    if ops != [] {
      var most, op := ops[..|ops| - 1], ops[|ops| - 1];
      assert ops == most + [op];
      RunSnoc(h0, most, op);
      LostForGood(content, script, most);
      StepCount(Run(h0, most).0, op);
    }
  }

  // ----- a loss comes to light -----

  lemma {:induction false} HistoryConcat(a: seq<Op>, b: seq<Op>)
    ensures History(a + b) == History(a) + History(b)
    decreases |b|
  {
    if b == [] {
      assert a + b == a;
    } else {
      var most, op := b[..|b| - 1], b[|b| - 1];
      assert b == most + [op];
      HistoryConcat(a, most);
      HistoryConcatSnoc(a, most, op);
    }
  }

  lemma {:induction false} HistoryConcatSnoc(a: seq<Op>, most: seq<Op>, op: Op)
    requires History(a + most) == History(a) + History(most)
    ensures History(a + (most + [op])) == History(a) + History(most + [op])
  {
    HistorySnoc(a + most, op);
    HistorySnoc(most, op);
    Associative(a, most, [op]);
    Associative(History(a), History(most), Asked(op));
  }

  lemma Associative<T>(a: seq<T>, b: seq<T>, c: seq<T>)
    ensures a + (b + c) == a + b + c
  {
  }

  /** After `more`, what has landed is a prefix of all that was written. */
  ghost predicate InOrder(h: Handle, ops: seq<Op>, more: seq<Op>)
    requires |h.buf| <= BUFFER_SIZE
  {
    LogBytes(Run(h, more).0.file.log) <= History(ops + more)
  }

  /** Calls that a file with no failing system calls carries out. */
  predicate Placeable(op: Op) {
    op.Write? ==> op.off >= 0
  }

  ghost predicate OrderKept(h: Handle, ops: seq<Op>)
    requires |h.buf| <= BUFFER_SIZE
  {
    forall more: seq<Op> :: (forall op :: op in more ==> Placeable(op)) ==> InOrder(h, ops, more)
  }

  /** Writes one byte at offset 0 to an empty buffer and syncs. */
  lemma {:induction false} OneMore(h: Handle, b: byte)
    requires h.buffered && h.buf == [] && h.file.script == []
    ensures LogBytes(Run(h, [Write([b], 0), Sync]).0.file.log) == LogBytes(h.file.log) + [ByteWrite(0, b)]
  {
    FirstByte(h, b, 0);
    var h1 := h.(ofst := 0, buf := [b]);
    RunWrite(h, [b], 0, [Sync]);
    assert [Write([b], 0)] + [Sync] == [Write([b], 0), Sync];
    assert Run(h1, [Sync]).0 == Step(h1, Sync).0 by {
      RunSnoc(h1, [], Sync);
      assert [] + [Sync] == [Sync];
    }
    assert [b][..1] == [b];
    LogBytesSnoc(h.file.log, Extent(0, [b]));
    assert Bytes(0, [b]) == [ByteWrite(0, b)];
  }

  /** When a sync leaves fewer bytes than were written, the sync or a write after it is out of order. */
  lemma {:induction false} SyncShows(h: Handle, ops: seq<Op>)
    requires h.buffered && |h.buf| <= BUFFER_SIZE && h.file.script == []
    requires Kept(Step(h, Sync).0) < |History(ops)|
    ensures !OrderKept(h, ops)
  {
    SyncLeaves(h);
    var h1, asked := Step(h, Sync).0, History(ops);
    if LogBytes(h1.file.log) <= asked {
      NextWriteShows(h, h1, ops);
    } else {
      SyncThen(h, []);
      HistorySnoc(ops, Sync);
      assert asked + [] == asked && [Sync] + [] == [Sync];
      assert !InOrder(h, ops, [Sync]);
    }
  }

  lemma NextWriteShows(h: Handle, h1: Handle, ops: seq<Op>)
    requires |h.buf| <= BUFFER_SIZE && h1 == Step(h, Sync).0
    requires h1.buffered && h1.buf == [] && h1.file.script == []
    requires |LogBytes(h1.file.log)| < |History(ops)|
    ensures !OrderKept(h, ops)
  {
    var landed, asked := LogBytes(h1.file.log), History(ops);
    var b := if asked[|landed|].b == 0 then 1 else 0;
    var more := [Sync] + [Write([b], 0), Sync];
    SyncThen(h, [Write([b], 0), Sync]);
    OneMore(h1, b);
    HistoryConcat(ops, more);
    Differ(landed, ByteWrite(0, b), asked, History(more));
    assert forall op :: op in more ==> Placeable(op);
    assert !InOrder(h, ops, more);
  }

  lemma Differ(landed: seq<ByteWrite>, w: ByteWrite, asked: seq<ByteWrite>, more: seq<ByteWrite>)
    requires |landed| < |asked| && asked[|landed|] != w
    ensures !(landed + [w] <= asked + more)
  {
    assert (landed + [w])[|landed|] == w && (asked + more)[|landed|] == asked[|landed|];
  }

  lemma SyncThen(h: Handle, more: seq<Op>)
    requires |h.buf| <= BUFFER_SIZE
    ensures Run(h, [Sync] + more).0 == Run(Step(h, Sync).0, more).0
  {
    var all := [Sync] + more;
    assert all[0] == Sync && all[1..] == more;
    RunHead(h, all, Step(h, Sync).0, Step(h, Sync).1);
  }

  lemma SyncLeaves(h: Handle)
    requires h.file.script == [] && |h.buf| <= BUFFER_SIZE
    ensures var h1 := Step(h, Sync).0;
      h1.file.script == [] && h1.buf == [] && h1.buffered == h.buffered
  {
  }

  // ----- without a loss the order is kept -----

  /** No system call fails any more, and what waits has its place in the file. */
  ghost predicate Calm(h: Handle) {
    && h.buffered && h.file.script == [] && |h.buf| <= BUFFER_SIZE
    && (h.buf != [] ==> h.ofst >= 0)
  }

  lemma {:induction false} StepCalm(h: Handle, op: Op)
    requires Calm(h) && Placeable(op)
    ensures Calm(Step(h, op).0) && !WriteFailed(Step(h, op).1)
  {
    var hu := Handle(File(Overlay(h), 0, [], []), false, [], 0);
    if op.Write? {
      BufferWriteAgrees(h, hu, op.data, op.off);
    } else {
      FlushAgrees(h, hu);
    }
  }

  lemma {:induction false} RunCalm(h: Handle, init: seq<byte>, asked: seq<ByteWrite>, more: seq<Op>)
    requires Calm(h) && Fifo(h, init, asked) && forall op :: op in more ==> Placeable(op)
    ensures Calm(Run(h, more).0) && Fifo(Run(h, more).0, init, asked + History(more))
    decreases |more|
  {
    if more == [] {
      assert asked + [] == asked;
    } else {
      var most, op := more[..|more| - 1], more[|more| - 1];
      assert more == most + [op];
      RunCalm(h, init, asked, most);
      var h1 := Run(h, most).0;
      assert Run(h, more).0 == Step(h1, op).0 by {
        RunSnoc(h, most, op);
      }
      CalmLands(h1, op, init, asked + History(most));
      HistorySnoc(most, op);
      Associative(asked, History(most), Asked(op));
    }
  }

  lemma CalmLands(h: Handle, op: Op, init: seq<byte>, asked: seq<ByteWrite>)
    requires Calm(h) && Fifo(h, init, asked) && Placeable(op)
    ensures Calm(Step(h, op).0) && Fifo(Step(h, op).0, init, asked + Asked(op))
  {
    StepCalm(h, op);
    StepLands(h, op, init, asked);
  }

  lemma FifoInOrder(h: Handle, init: seq<byte>, asked: seq<ByteWrite>)
    requires Fifo(h, init, asked)
    ensures LogBytes(h.file.log) <= asked
  {
  }

  /** A flush that has no place in the file fails. */
  lemma NoPlace(h: Handle)
    requires |h.buf| <= BUFFER_SIZE && h.buf != [] && h.ofst < -1
    ensures Step(h, Sync).1.rc == SQLITE_IOERR_WRITE
  {
  }

  // ----- the theorem -----

  /** After any run, with any outcomes of the system calls up to there and success from there on: every continuation
      leaves a prefix of what was written if and only if no answer so far was SQLITE_IOERR_WRITE and what waits in the
      buffer does not begin before the start of the file. */
  lemma {:induction false} OrderKeptExactly(content: seq<byte>, script: seq<Outcome>, ops: seq<Op>,
                                            h: Handle, replies: seq<Reply>)
    requires forall op :: op in ops ==> Seekable(op)
    requires (h, replies) == Run(Opened(content, script, true), ops) && h.file.script == []
    ensures OrderKept(h, ops) <==> NoWriteFailed(replies) && (h.buf != [] ==> h.ofst >= 0)
  {
    LostForGood(content, script, ops);
    StepCount(h, Sync);
    if !NoWriteFailed(replies) {
      SyncShows(h, ops);
    } else {
      FifoRun(content, script, true, ops);
      if h.buf != [] && h.ofst < 0 {
        NoPlace(h);
        SyncShows(h, ops);
      } else {
        forall more: seq<Op> | forall op :: op in more ==> Placeable(op)
          ensures InOrder(h, ops, more)
        {
          RunCalm(h, content, History(ops), more);
          FifoInOrder(Run(h, more).0, content, History(ops) + History(more));
          HistoryConcat(ops, more);
        }
      }
    }
  }

  /** The condition on what waits is needed: here nothing has failed yet, but the byte at offset -2 will never land. */
  lemma {:induction false} WaitingBeforeStart(h0: Handle, ops: seq<Op>)
    requires h0 == Opened([], [], true) && ops == [Write([1], -2)]
    ensures NoWriteFailed(Run(h0, ops).1) && !OrderKept(Run(h0, ops).0, ops)
  {
    assert [1][..1] == [1] && [] + [1] == [1] && [1][1..] == [] && ops[1..] == [];
    var h1 := h0.(ofst := -2, buf := [1]);
    assert BufferWrite(h0, [1], -2) == (h1, SQLITE_OK);
    RunHead(h0, ops, h1, Reply(SQLITE_OK, [], -1));
    OrderKeptExactly([], [], ops, Run(h0, ops).0, Run(h0, ops).1);
  }

  /** When all writes are at offsets in the file, what waits has its place, whatever the system calls do. */
  lemma {:induction false} PlacedRun(h: Handle, ops: seq<Op>)
    requires |h.buf| <= BUFFER_SIZE && (h.buf != [] ==> h.ofst >= 0)
    requires forall op :: op in ops ==> Placeable(op)
    ensures var h1 := Run(h, ops).0; h1.buf != [] ==> h1.ofst >= 0
    decreases |ops|
  {
    if ops != [] {
      var op := ops[0];
      var (h1, reply) := Step(h, op);
      assert op in ops;
      if op.Write? && h.buffered {
        PlacedWrite(h, op.data, op.off);
      }
      RunHead(h, ops, h1, reply);
      PlacedRun(h1, ops[1..]);
    }
  }

  lemma {:induction false} PlacedWrite(h: Handle, data: seq<byte>, off: nat)
    requires |h.buf| <= BUFFER_SIZE && (h.buf != [] ==> h.ofst >= 0)
    ensures var h1 := BufferWrite(h, data, off).0; h1.buf != [] ==> h1.ofst >= 0
    decreases |data|
  {
    if data != [] {
      var (h1, rc, k) := Turn(h, data, off);
      if rc == SQLITE_OK {
        BufferWriteTurn(h, data, off, h1, k);
        PlacedWrite(h1, data[k..], off + k);
      }
    }
  }

  /** For runs that write inside the file: the order is kept for good if and only if no answer was
      SQLITE_IOERR_WRITE. */
  lemma OrderKeptUnlessWriteFailed(content: seq<byte>, script: seq<Outcome>, ops: seq<Op>,
                                   h: Handle, replies: seq<Reply>)
    requires forall op :: op in ops ==> Placeable(op)
    requires (h, replies) == Run(Opened(content, script, true), ops) && h.file.script == []
    ensures OrderKept(h, ops) <==> NoWriteFailed(replies)
  {
    PlacedRun(Opened(content, script, true), ops);
    OrderKeptExactly(content, script, ops, h, replies);
  }
}
