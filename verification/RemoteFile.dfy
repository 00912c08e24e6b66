/** The VFS handle on top of the forwarded calls: buffer, remote procedure call, shared memory, supplicant and file in
    one. With a driver that grants every request for memory, a run of calls on it gives the answers of the handle of
    JournalSpec on the file itself (`RunCalls`), and so those of a handle without a buffer and of a plain sequence of
    bytes (`RunToClose`). */
module RemoteFile {
  import opened Posix
  import opened Words
  import opened Wrappers
  import opened ShmList
  import opened Rpc
  import opened JournalSpec
  import JournalPlain

  /** The driver serves the request; which identifier it gives, and how much more memory than needed, is open. */
  method ServedGrant(n: nat) returns (grant: Grant)
    ensures Served(grant, n)
  {
    grant := Granted(0, n);
  }

  /** A descriptor of the supplicant, used from the secure world. Its calls are those of a descriptor that is at hand,
      for sizes that are ints and offsets of type `off_t`. */
  class RemoteDescriptor {
    const supp: Supplicant
    const fd: i32

    constructor (supp: Supplicant, fd: i32)
      ensures this.supp == supp && this.fd == fd
    {
      this.supp, this.fd := supp, fd;
    }

    ghost predicate Valid()
      reads supp, supp.shm, supp.shm.nodes
    {
      supp.Valid() && fd in supp.files
    }

    ghost function TheFile(): File
      requires fd in supp.files
      reads supp
    {
      supp.files[fd]
    }

    method Lseek(off: i64) returns (r: int)
      requires Valid()
      modifies supp`files
      ensures Valid() && (TheFile(), r) == SysLseek(old(TheFile()), off)
    {
      r := SyscallVfsLseek(supp, fd, off, SEEK_SET);
    }

    method Write(data: seq<byte>) returns (r: int)
      requires Valid() && |data| < TWO_31
      modifies supp`files, supp.shm, (set t | t in supp.shm.nodes)`next
      ensures Valid() && supp.shm.nodes == old(supp.shm.nodes)
      ensures (TheFile(), r) == SysWrite(old(TheFile()), data)
    {
      var buf := new byte[|data|](i requires 0 <= i < |data| => data[i]);
      var grant := ServedGrant(|data|);
      assert buf[..|data|] == data;
      r := SyscallVfsWrite(supp, fd, buf, |data|, grant);
    }

    method Read(n: nat) returns (r: int, d: seq<byte>)
      requires Valid() && n < TWO_31
      modifies supp`files, supp.shm, (set t | t in supp.shm.nodes)`next
      ensures Valid() && supp.shm.nodes == old(supp.shm.nodes)
      ensures (TheFile(), r, d) == SysRead(old(TheFile()), n)
    {
      var buf := new byte[n](_ => 0);
      var grant := ServedGrant(n);
      ghost var (_, _, bytes) := ReadOn(supp.files, fd, n);
      r := SyscallVfsRead(supp, fd, buf, n, grant);
      d := if r < 0 then [] else buf[..r];
      assert d == bytes;
    }

    method Fsync() returns (r: int)
      requires Valid()
      modifies supp`files
      ensures Valid() && (TheFile(), r) == SysFsync(old(TheFile()))
    {
      r := SyscallVfsFsync(supp, fd);
    }

    method FileSize() returns (r: int)
      requires Valid() && |TheFile().content| < TWO_63
      modifies supp`files
      ensures Valid() && (TheFile(), r) == SysFileSize(old(TheFile()))
    {
      r := SyscallVfsFilesize(supp, fd);
    }
  }

  // ----- the handle on top -----

  /** The arguments are of the types that the VFS and the forwarded calls give them. */
  predicate OpFits(op: Op) {
    match op
    case Write(data, off) => |data| < TWO_31 && -TWO_63 <= off && off + |data| < TWO_63
    case Read(n, off) => n < TWO_31 && -TWO_63 <= off < TWO_63
    case _ => true
  }

  /** The handle of the VFS; what it buffers is held by value here, JournalFile has it in place. */
  class RemoteHandle {
    const file: RemoteDescriptor
    const buffered: bool
    var buf: seq<byte>
    var ofst: int

    ghost predicate Valid()
      reads this, file, file.supp, file.supp.shm, file.supp.shm.nodes
    {
      && file.Valid() && |buf| <= BUFFER_SIZE && (!buffered ==> buf == [])
      && (buf != [] ==> -TWO_63 <= ofst < TWO_63)
    }

    ghost function View(): Handle
      requires file.fd in file.supp.files
      reads this, file.supp
    {
      Handle(file.TheFile(), buffered, buf, ofst)
    }

    constructor (file: RemoteDescriptor, buffered: bool)
      requires file.Valid()
      ensures Valid() && this.file == file && View() == Handle(file.TheFile(), buffered, [], 0)
    {
      this.file, this.buffered, buf, ofst := file, buffered, [], 0;
    }

    method RemoteWrite(data: seq<byte>, off: i64) returns (rc: int)
      requires Valid() && |data| < TWO_31
      modifies file.supp`files, file.supp.shm, (set t | t in file.supp.shm.nodes)`next
      ensures Valid() && file.supp.shm.nodes == old(file.supp.shm.nodes)
      ensures (View(), rc) == DirectWrite(old(View()), data, off)
    {
      var at := file.Lseek(off);
      if at != off {
        return SQLITE_IOERR_WRITE;
      }
      var n := file.Write(data);
      return if n != |data| then SQLITE_IOERR_WRITE else SQLITE_OK;
    }

    method FlushBuffer() returns (rc: int)
      requires Valid()
      modifies `buf, file.supp`files, file.supp.shm, (set t | t in file.supp.shm.nodes)`next
      ensures Valid() && file.supp.shm.nodes == old(file.supp.shm.nodes)
      ensures (View(), rc) == Flush(old(View()))
    {
      rc := SQLITE_OK;
      if buf != [] {
        rc := RemoteWrite(buf, ofst);
        buf := [];
      }
    }

    /** One turn of the copying loop. */
    method WriteTurn(data: seq<byte>, off: int) returns (rc: int, k: nat)
      requires Valid() && buffered && data != [] && -TWO_63 <= off < TWO_63
      modifies `buf, `ofst, file.supp`files, file.supp.shm, (set t | t in file.supp.shm.nodes)`next
      ensures Valid() && file.supp.shm.nodes == old(file.supp.shm.nodes)
      ensures (View(), rc, k) == Turn(old(View()), data, off)
    {
      hide DirectWrite;
      rc, k := SQLITE_OK, 0;
      if |buf| == BUFFER_SIZE || ofst + |buf| != off {
        rc := FlushBuffer();
      }
      if rc == SQLITE_OK {
        k := Min(BUFFER_SIZE - |buf|, |data|);
        ofst := off - |buf|;
        buf := buf + data[..k];
      }
    }

    method WriteData(data: seq<byte>, off: int) returns (rc: int)
      requires Valid() && OpFits(Op.Write(data, off))
      modifies `buf, `ofst, file.supp`files, file.supp.shm, (set t | t in file.supp.shm.nodes)`next
      ensures Valid() && file.supp.shm.nodes == old(file.supp.shm.nodes)
      ensures (View(), rc) == WriteOp(old(View()), data, off)
    {
      hide Turn, DirectWrite;
      rc := SQLITE_OK;
      if !buffered {
        rc := RemoteWrite(data, off);
        return;
      }
      var done := 0;
      ghost var h0, nodes0 := View(), file.supp.shm.nodes;
      assert data[0..] == data;
      while done < |data|
        invariant Valid() && file.supp.shm.nodes == nodes0 && rc == SQLITE_OK && 0 <= done <= |data|
        invariant BufferWrite(h0, data, off) == BufferWrite(View(), data[done..], off + done)
        decreases |data| - done
      {
        ghost var h := View();
        var k;
        rc, k := WriteTurn(data[done..], off + done);
        if rc != SQLITE_OK {
          return;
        }
        BufferWriteTurn(h, data[done..], off + done, View(), k);
        assert data[done..][k..] == data[done + k..];
        done := done + k;
      }
      assert data[done..] == [];
    }

    method ReadData(n: nat, off: int) returns (rc: int, d: seq<byte>)
      requires Valid() && OpFits(Op.Read(n, off))
      modifies `buf, file.supp`files, file.supp.shm, (set t | t in file.supp.shm.nodes)`next
      ensures Valid() && file.supp.shm.nodes == old(file.supp.shm.nodes)
      ensures (View(), rc, d) == ReadOp(old(View()), n, off)
    {
      hide Flush;
      d := [];
      rc := FlushBuffer();
      if rc != SQLITE_OK {
        return;
      }
      var at := file.Lseek(off);
      if at != off {
        return SQLITE_IOERR_READ, [];
      }
      var got, bytes := file.Read(n);
      if got == n {
        return SQLITE_OK, bytes;
      } else if got >= 0 {
        return SQLITE_IOERR_SHORT_READ, bytes + Zeros(n - |bytes|);
      }
      return SQLITE_IOERR_READ, [];
    }

    /** Any call of the VFS. */
    method Call(op: Op) returns (reply: Reply)
      requires Valid() && OpFits(op)
      requires |Step(View(), op).0.file.content| < TWO_63
      modifies `buf, `ofst, file.supp`files, file.supp.shm, (set t | t in file.supp.shm.nodes)`next
      ensures Valid() && file.supp.shm.nodes == old(file.supp.shm.nodes)
      ensures (View(), reply) == Step(old(View()), op)
    {
      hide Flush, WriteOp, ReadOp;
      match op
      case Write(data, off) =>
        var rc := WriteData(data, off);
        return Reply(rc, [], -1);
      case Read(n, off) =>
        var rc, d := ReadData(n, off);
        return Reply(rc, d, -1);
      case Sync =>
        var rc := FlushBuffer();
        if rc == SQLITE_OK {
          var r := file.Fsync();
          rc := if r == 0 then SQLITE_OK else SQLITE_IOERR_FSYNC;
        }
        return Reply(rc, [], -1);
      case FileSize =>
        var rc := FlushBuffer();
        if rc != SQLITE_OK {
          return Reply(rc, [], -1);
        }
        var size := file.FileSize();
        return Reply(if size == -1 then SQLITE_IOERR_FSTAT else SQLITE_OK, [], size);
      case Close =>
        var rc := FlushBuffer();
        return Reply(rc, [], -1);
    }

    /** A run of calls gives the answers and the handle of the run on the file itself. */
    method RunCalls(ops: seq<Op>) returns (replies: seq<Reply>)
      requires Valid() && forall i :: 0 <= i < |ops| ==> OpFits(ops[i])
      requires SizesFit(View(), ops)
      modifies `buf, `ofst, file.supp`files, file.supp.shm, (set t | t in file.supp.shm.nodes)`next
      ensures Valid() && file.supp.shm.nodes == old(file.supp.shm.nodes)
      ensures (View(), replies) == Run(old(View()), ops)
    {
      hide Step;
      replies := [];
      ghost var h0, nodes0 := View(), file.supp.shm.nodes;
      for i := 0 to |ops|
        invariant Valid() && file.supp.shm.nodes == nodes0
        invariant (View(), replies) == Run(h0, ops[..i])
      {
        assert ops[..i + 1] == ops[..i] + [ops[i]];
        RunSnoc(h0, ops[..i], ops[i]);
        assert |Run(h0, ops[..i + 1]).0.file.content| < TWO_63;
        var reply := Call(ops[i]);
        replies := replies + [reply];
      }
      assert ops[..|ops|] == ops;
    }
  }

  /** The file stays below 2^63 bytes throughout the run. */
  ghost predicate SizesFit(h: Handle, ops: seq<Op>)
    requires |h.buf| <= BUFFER_SIZE
  {
    forall i :: 0 <= i <= |ops| ==> |Run(h, ops[..i]).0.file.content| < TWO_63
  }

  /** The whole stack, from open to close, on a file whose calls succeed: the answers of an unbuffered handle on the file
      itself, the same file in the end, and no shared buffer left over, exactly when no write puts data that fits the
      buffer at a negative offset. */
  method RunToClose(fd: RemoteDescriptor, ops: seq<Op>) returns (replies: seq<Reply>)
    requires fd.Valid() && fd.TheFile() == File(fd.TheFile().content, 0, [], [])
    requires forall i :: 0 <= i < |ops| ==> OpFits(ops[i]) && Addressable(ops[i])
    requires SizesFit(Opened(fd.TheFile().content, [], true), ops + [Close])
    modifies fd.supp`files, fd.supp.shm, (set t | t in fd.supp.shm.nodes)`next
    ensures fd.Valid() && fd.supp.shm.nodes == old(fd.supp.shm.nodes)
    ensures var (hu, direct) := Run(Opened(old(fd.TheFile().content), [], false), ops + [Close]);
      && (replies == direct <==> NoneHidesError(ops))
      && (NoneHidesError(ops) ==> fd.TheFile().content == hu.file.content)
    ensures (forall i :: 0 <= i < |ops| ==> JournalPlain.Ordinary(ops[i])) ==>
      var content := old(fd.TheFile().content);
      && |replies| == |ops| + 1 && fd.TheFile().content == JournalPlain.Plain(content, ops)
      && JournalPlain.AllRight(content, ops, replies[..|ops|])
  {
    ghost var content := fd.TheFile().content;
    var p := new RemoteHandle(fd, true);
    BufferedRunsAgree(content, ops, Opened(content, [], true), Opened(content, [], false));
    replies := p.RunCalls(ops + [Close]);
    if forall i :: 0 <= i < |ops| ==> JournalPlain.Ordinary(ops[i]) {
      AnswersPlainly(content, ops);
    }
  }

  lemma AnswersPlainly(content: seq<byte>, ops: seq<Op>)
    requires forall i :: 0 <= i < |ops| ==> JournalPlain.Ordinary(ops[i])
    ensures var (h, replies) := Run(Opened(content, [], true), ops + [Close]);
      && |replies| == |ops| + 1 && h.file.content == JournalPlain.Plain(content, ops)
      && JournalPlain.AllRight(content, ops, replies[..|ops|])
  {
    var (h, replies) := Run(Opened(content, [], true), ops);
    JournalPlain.AnswersOfPlainFile(content, true, ops, h, replies);
    JournalPlain.LeavesPlainFile(content, true, ops, Close);
    RunSnoc(Opened(content, [], true), ops, Close);
  }
}
