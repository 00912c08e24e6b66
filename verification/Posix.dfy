/** The part of a POSIX regular file that the database stack relies on.

    A file is its bytes, a position, and two things no caller can see: a `script` that says how the coming
    system calls turn out, and a `log` of the bytes that physical writes have put on the medium, in order.
    A call consumes the head of the script; an empty script means that every call succeeds. */
module Posix {

  type byte = x: int | 0 <= x < 256

  /** How one system call turns out. `Short(k)` lets a read or write move at most `k` bytes. */
  datatype Outcome = Full | Short(k: nat) | Fail

  /** Bytes that one physical write put at an offset. */
  datatype Extent = Extent(off: int, data: seq<byte>)

  datatype File = File(content: seq<byte>, pos: nat, script: seq<Outcome>, log: seq<Extent>)

  function Min(a: int, b: int): int {
    if a < b then a else b
  }

  function Max(a: int, b: int): int {
    if a < b then b else a
  }

  function Zeros(n: nat): (z: seq<byte>)
    ensures |z| == n && forall i :: 0 <= i < n ==> z[i] == 0
  {
    seq(n, _ => 0)
  }

  /** The bytes after writing `data` at `off`: a gap is filled with zeros, an empty write changes nothing. */
  function WriteAt(s: seq<byte>, off: nat, data: seq<byte>): seq<byte> {
    if data == [] then s else
      var head := if off <= |s| then s[..off] else s + Zeros(off - |s|);
      head + data + if off + |data| < |s| then s[off + |data|..] else []
  }

  /** What each byte is after a write. */
  lemma WriteAtBytes(s: seq<byte>, off: nat, data: seq<byte>)
    ensures var r := WriteAt(s, off, data);
      && |r| == (if data == [] then |s| else Max(|s|, off + |data|))
      && forall i :: 0 <= i < |r| ==>
        r[i] == if off <= i < off + |data| then data[i - off] else if i < |s| then s[i] else 0
  {
  }

  function ReadAt(s: seq<byte>, off: nat, n: nat): seq<byte> {
    if off <= |s| then s[off..off + Min(n, |s| - off)] else []
  }

  // ----- the system calls -----

  function Next(f: File): Outcome {
    if f.script == [] then Full else f.script[0]
  }

  function Advance(f: File): File {
    if f.script == [] then f else f.(script := f.script[1..])
  }

  /** lseek(fd, off, SEEK_SET): a negative offset is an error. */
  function SysLseek(f: File, off: int): (File, int) {
    if off < 0 || Next(f).Fail? then (Advance(f), -1) else (Advance(f).(pos := off), off)
  }

  /** How many of `n` bytes a read or write that does not fail moves. */
  function Moved(o: Outcome, n: nat): nat {
    if o.Short? then Min(o.k, n) else n
  }

  function SysWrite(f: File, data: seq<byte>): (File, int) {
    if Next(f).Fail? then (Advance(f), -1) else
      var d := data[..Moved(Next(f), |data|)];
      (Advance(f).(content := WriteAt(f.content, f.pos, d), pos := f.pos + |d|, log := f.log + [Extent(f.pos, d)]), |d|)
  }

  /** The third component is the bytes read; it is empty when the call fails. */
  function SysRead(f: File, n: nat): (File, int, seq<byte>) {
    if Next(f).Fail? then (Advance(f), -1, []) else
      var d := ReadAt(f.content, f.pos, Moved(Next(f), n));
      (Advance(f).(pos := f.pos + |d|), |d|, d)
  }

  function SysFsync(f: File): (File, int) {
    (Advance(f), if Next(f).Fail? then -1 else 0)
  }

  function SysFileSize(f: File): (File, int) {
    (Advance(f), if Next(f).Fail? then -1 else |f.content|)
  }

  // ----- replaying writes byte by byte -----

  datatype ByteWrite = ByteWrite(off: int, b: byte)

  /** The byte writes, in order, that make up one write. */
  function Bytes(off: int, data: seq<byte>): seq<ByteWrite> {
    seq(|data|, i requires 0 <= i < |data| => ByteWrite(off + i, data[i]))
  }

  function LogBytes(log: seq<Extent>): seq<ByteWrite> {
    if log == [] then [] else LogBytes(log[..|log| - 1]) + Bytes(log[|log| - 1].off, log[|log| - 1].data)
  }

  /** The file after performing the byte writes one at a time; a byte at a negative offset never lands. */
  function Replay(s: seq<byte>, ws: seq<ByteWrite>): seq<byte> {
    if ws == [] then s else
      var w := ws[|ws| - 1];
      var r := Replay(s, ws[..|ws| - 1]);
      if w.off < 0 then r else WriteAt(r, w.off, [w.b])
  }

  lemma {:induction false} WriteAtSplit(s: seq<byte>, off: nat, a: seq<byte>, b: seq<byte>)
    ensures WriteAt(WriteAt(s, off, a), off + |a|, b) == WriteAt(s, off, a + b)
  {
    WriteAtBytes(s, off, a);
    WriteAtBytes(WriteAt(s, off, a), off + |a|, b);
    WriteAtBytes(s, off, a + b);
  }

  /** One write is the same as its byte writes, whatever was replayed before it. */
  lemma {:induction false} ReplayBytes(s: seq<byte>, ws: seq<ByteWrite>, off: nat, data: seq<byte>)
    ensures Replay(s, ws + Bytes(off, data)) == WriteAt(Replay(s, ws), off, data)
  {
    if data == [] {
      assert ws + Bytes(off, data) == ws;
    } else {
      var init, last := data[..|data| - 1], data[|data| - 1];
      var all := ws + Bytes(off, data);
      assert all[..|all| - 1] == ws + Bytes(off, init);
      assert all[|all| - 1] == ByteWrite(off + |init|, last);
      ReplayBytes(s, ws, off, init);
      WriteAtSplit(Replay(s, ws), off, init, [last]);
      assert init + [last] == data;
    }
  }

  lemma {:induction false} LogBytesSnoc(log: seq<Extent>, e: Extent)
    ensures LogBytes(log + [e]) == LogBytes(log) + Bytes(e.off, e.data)
  {
    var all := log + [e];
    assert all[..|all| - 1] == log;
  }
}
