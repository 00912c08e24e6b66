/** The VFS file handle as the program has it: an object over a file descriptor, with a buffer that is filled and
    flushed in place. Every method is tied to its function in JournalSpec, whose results therefore hold of it. */
module JournalFile {
  import opened Posix
  import opened JournalSpec

  /** An open file descriptor. */
  class Descriptor {
    var file: File

    constructor (file: File)
      ensures this.file == file
    {
      this.file := file;
    }

    method Lseek(off: int) returns (r: int)
      modifies this
      ensures (file, r) == SysLseek(old(file), off)
    {
      var (f, res) := SysLseek(file, off);
      file, r := f, res;
    }

    method Write(data: seq<byte>) returns (r: int)
      modifies this
      ensures (file, r) == SysWrite(old(file), data)
    {
      var (f, res) := SysWrite(file, data);
      file, r := f, res;
    }

    /** Fills the front of `zBuf` with the bytes read and leaves the rest of it alone. */
    method Read(zBuf: array<byte>, n: nat) returns (r: int)
      requires n <= zBuf.Length
      modifies this, zBuf
      ensures -1 <= r <= n
      ensures (file, r, zBuf[..if r < 0 then 0 else r]) == SysRead(old(file), n)
      ensures forall i :: (if r < 0 then 0 else r) <= i < zBuf.Length ==> zBuf[i] == old(zBuf[i])
    {
      var (f, res, d) := SysRead(file, n);
      forall i | 0 <= i < |d| {
        zBuf[i] := d[i];
      }
      assert zBuf[..|d|] == d;
      file, r := f, res;
    }

    method Fsync() returns (r: int)
      modifies this
      ensures (file, r) == SysFsync(old(file))
    {
      var (f, res) := SysFsync(file);
      file, r := f, res;
    }

    method FileSize() returns (r: int)
      modifies this
      ensures (file, r) == SysFileSize(old(file))
    {
      var (f, res) := SysFileSize(file);
      file, r := f, res;
    }
  }

  const SQLITE_NOMEM: int := 7
  const SQLITE_IOERR: int := 10
  const SQLITE_CANTOPEN: int := 14

  class DemoFile {
    const fd: Descriptor
    const aBuffer: array?<byte>
    var nBuffer: nat
    var iBufferOfst: int

    ghost predicate Valid()
      reads this
    {
      if aBuffer == null then nBuffer == 0 else aBuffer.Length == BUFFER_SIZE && nBuffer <= BUFFER_SIZE
    }

    /** The handle as a value. */
    ghost function View(): (h: Handle)
      requires Valid()
      reads this, fd, aBuffer
      ensures |h.buf| <= BUFFER_SIZE
    {
      Handle(fd.file, aBuffer != null, if aBuffer == null then [] else aBuffer[..nBuffer], iBufferOfst)
    }

    /** Only a main journal gets a buffer. */
    constructor (fd: Descriptor, mainJournal: bool)
      ensures Valid() && this.fd == fd && (aBuffer != null ==> fresh(aBuffer))
      ensures View() == Handle(fd.file, mainJournal, [], 0)
    {
      this.fd := fd;
      nBuffer, iBufferOfst := 0, 0;
      if mainJournal {
        aBuffer := new byte[BUFFER_SIZE];
      } else {
        aBuffer := null;
      }
    }

    /** Opens a file: `named` tells whether there is a name, `memory` whether there is room for a buffer, and `fd` is the
        descriptor that the system gives, if it gives one. */
    static method DemoOpen(named: bool, mainJournal: bool, memory: bool, fd: Descriptor?)
      returns (rc: int, p: DemoFile?)
      ensures !named ==> rc == SQLITE_IOERR
      ensures named && mainJournal && !memory ==> rc == SQLITE_NOMEM
      ensures named && (mainJournal ==> memory) ==> rc == if fd == null then SQLITE_CANTOPEN else SQLITE_OK
      ensures p != null <==> rc == SQLITE_OK
      ensures p != null ==> fresh(p) && p.Valid() && p.fd == fd && p.View() == Handle(fd.file, mainJournal, [], 0)
    {
      if !named {
        return SQLITE_IOERR, null;
      }
      if mainJournal && !memory {
        return SQLITE_NOMEM, null;
      }
      if fd == null {
        return SQLITE_CANTOPEN, null;
      }
      p := new DemoFile(fd, mainJournal);
      return SQLITE_OK, p;
    }

    method DemoDirectWrite(zBuf: seq<byte>, iOfst: int) returns (rc: int)
      requires Valid()
      modifies fd
      ensures Valid() && (View(), rc) == DirectWrite(old(View()), zBuf, iOfst)
    {
      var ofst := fd.Lseek(iOfst);
      if ofst != iOfst {
        return SQLITE_IOERR_WRITE;
      }
      var nWrite := fd.Write(zBuf);
      if nWrite != |zBuf| {
        return SQLITE_IOERR_WRITE;
      }
      return SQLITE_OK;
    }

    method DemoFlushBuffer() returns (rc: int)
      requires Valid()
      modifies fd, `nBuffer
      ensures Valid() && (View(), rc) == Flush(old(View()))
    {
      rc := SQLITE_OK;
      if nBuffer != 0 {
        rc := DemoDirectWrite(aBuffer[..nBuffer], iBufferOfst);
        nBuffer := 0;
      }
    }

    /** Closing flushes; the descriptor is then given back and not used again. */
    method DemoClose() returns (rc: int)
      requires Valid()
      modifies fd, `nBuffer
      ensures Valid() && (View(), Reply(rc, [], -1)) == Step(old(View()), Close)
    {
      rc := DemoFlushBuffer();
    }

    method DemoRead(zBuf: array<byte>, iAmt: nat, iOfst: int) returns (rc: int)
      requires Valid() && iAmt <= zBuf.Length && zBuf != aBuffer
      modifies fd, `nBuffer, zBuf
      ensures Valid()
      ensures var (h1, rc1, d) := ReadOp(old(View()), iAmt, iOfst);
        && View() == h1 && rc == rc1
        && |d| <= zBuf.Length && zBuf[..|d|] == d
        && forall i :: |d| <= i < zBuf.Length ==> zBuf[i] == old(zBuf[i])
    {
      hide Flush;
      rc := DemoFlushBuffer();
      if rc != SQLITE_OK {
        return;
      }
      var ofst := fd.Lseek(iOfst);
      if ofst != iOfst {
        return SQLITE_IOERR_READ;
      }
      var nRead := fd.Read(zBuf, iAmt);
      if nRead == iAmt {
        return SQLITE_OK;
      } else if nRead >= 0 {
        ghost var d := zBuf[..nRead];
        forall i | nRead <= i < iAmt {
          zBuf[i] := 0;
        }
        assert zBuf[..iAmt] == d + Zeros(iAmt - nRead);
        return SQLITE_IOERR_SHORT_READ;
      }
      return SQLITE_IOERR_READ;
    }

    /** The copy into the buffer, and the offset that goes with it. */
    method Fill(chunk: seq<byte>, i: int)
      requires Valid() && aBuffer != null && nBuffer + |chunk| <= BUFFER_SIZE
      modifies this, aBuffer
      ensures Valid() && View() == old(View()).(ofst := i - old(nBuffer), buf := old(View().buf) + chunk)
    {
      iBufferOfst := i - nBuffer;
      forall j | 0 <= j < |chunk| {
        aBuffer[nBuffer + j] := chunk[j];
      }
      assert aBuffer[..nBuffer + |chunk|] == old(aBuffer[..nBuffer]) + chunk;
      nBuffer := nBuffer + |chunk|;
    }

    /** One turn of the copying loop for the `rest` of the data, which belongs at `i`. */
    method WriteTurn(rest: seq<byte>, i: int) returns (rc: int, nCopy: nat)
      requires Valid() && aBuffer != null && rest != []
      modifies fd, this, aBuffer
      ensures Valid() && (View(), rc, nCopy) == Turn(old(View()), rest, i)
    {
      nCopy := 0;
      if nBuffer == BUFFER_SIZE || iBufferOfst + nBuffer != i {
        rc := DemoFlushBuffer();
        if rc != SQLITE_OK {
          return;
        }
      }
      assert nBuffer == 0 || iBufferOfst + nBuffer == i;
      nCopy := BUFFER_SIZE - nBuffer;
      if nCopy > |rest| {
        nCopy := |rest|;
      }
      Fill(rest[..nCopy], i);
      rc := SQLITE_OK;
    }

    method DemoWrite(zBuf: seq<byte>, iOfst: int) returns (rc: int)
      requires Valid()
      modifies fd, this, aBuffer
      ensures Valid() && (View(), rc) == WriteOp(old(View()), zBuf, iOfst)
    {
      if aBuffer == null {
        rc := DemoDirectWrite(zBuf, iOfst);
        return;
      }
      var z, i := zBuf, iOfst;
      while |z| > 0
        invariant Valid()
        invariant BufferWrite(View(), z, i) == old(BufferWrite(View(), zBuf, iOfst))
      {
        ghost var h := View();
        var nCopy;
        rc, nCopy := WriteTurn(z, i);
        if rc != SQLITE_OK {
          return;
        }
        BufferWriteTurn(h, z, i, View(), nCopy);
        z, i := z[nCopy..], i + nCopy;
      }
      return SQLITE_OK;
    }

    method DemoSync() returns (rc: int)
      requires Valid()
      modifies fd, `nBuffer
      ensures Valid() && (View(), rc) == SyncOp(old(View()))
    {
      rc := DemoFlushBuffer();
      if rc != SQLITE_OK {
        return;
      }
      var r := fd.Fsync();
      return if r == 0 then SQLITE_OK else SQLITE_IOERR_FSYNC;
    }

    /** `pSize` is -1 when no size is stored for the caller. */
    method DemoFileSize() returns (rc: int, pSize: int)
      requires Valid()
      modifies fd, `nBuffer
      ensures Valid() && (View(), rc, pSize) == FileSizeOp(old(View()))
    {
      pSize := -1;
      rc := DemoFlushBuffer();
      if rc != SQLITE_OK {
        return;
      }
      var r := fd.FileSize();
      if r == -1 {
        rc := SQLITE_IOERR_FSTAT;
        return;
      }
      return SQLITE_OK, r;
    }
  }
}
