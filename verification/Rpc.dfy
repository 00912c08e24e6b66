/** The file calls that the secure world forwards to the supplicant, end to end.

    The first part says what each call does when it is made directly on the supplicant's open files. The second part
    is the supplicant's handlers, the third the secure world's half of each call, with the shared buffer that it
    allocates before and frees afterwards. Every forwarded call is proved to do what the direct call does. */
module Rpc {
  import opened Posix
  import opened Words
  import opened Wrappers
  import opened ShmList
  import opened Params

  const SUCCESS: nat := 0
  const OUT_OF_MEMORY: nat := 0xFFFF_000C
  const BAD_PARAMETERS: nat := 0xFFFF_0006

  const SEEK_SET := 0
  const SEEK_CUR := 1
  const SEEK_END := 2

  // ----- the direct calls -----

  /** Open files by descriptor. */
  type Files = map<int, File>

  /** write(fd, ..): the data is missing when the address is not readable. */
  function WriteOn(files: Files, fd: int, data: Option<seq<byte>>): (Files, int) {
    if fd !in files || data.None? then (files, -1) else
      var (f, r) := SysWrite(files[fd], data.value);
      (files[fd := f], r)
  }

  /** read(fd, .., n); the third component is the bytes read. */
  function ReadOn(files: Files, fd: int, n: nat): (r: (Files, int, seq<byte>))
    ensures |r.2| <= n && r.1 == (if r.1 < 0 then -1 else |r.2|) && (r.1 < 0 ==> r.2 == [])
  {
    if fd !in files then (files, -1, []) else
      var (f, r, d) := SysRead(files[fd], n);
      (files[fd := f], r, d)
  }

  /** lseek(fd, off, whence). */
  function LseekOn(files: Files, fd: int, off: int, whence: int): (Files, int) {
    if fd !in files || whence !in {SEEK_SET, SEEK_CUR, SEEK_END} then (files, -1) else
      var base := if whence == SEEK_SET then 0 else if whence == SEEK_CUR then files[fd].pos else |files[fd].content|;
      var (f, r) := SysLseek(files[fd], base + off);
      (files[fd := f], r)
  }

  /** Where a seek goes: to the offset itself, from the position, or from the end; and that nothing else changes. */
  lemma LseekMeans(files: Files, fd: int, off: int, whence: int)
    requires fd in files && files[fd].script == []
    ensures var (fs, r) := LseekOn(files, fd, off, whence);
      && fs.Keys == files.Keys && fs[fd] == files[fd].(pos := fs[fd].pos)
      && (forall k :: k in files && k != fd ==> fs[k] == files[k])
      && (r == -1 ==> fs[fd] == files[fd]) && (r != -1 ==> r == fs[fd].pos)
      && (whence == 0 ==> r == if off >= 0 then off else -1)
      && (whence == 1 ==> r == if files[fd].pos + off >= 0 then files[fd].pos + off else -1)
      && (whence == 2 ==> r == if |files[fd].content| + off >= 0 then |files[fd].content| + off else -1)
      && (whence !in {0, 1, 2} ==> r == -1)
  {
  }

  function FsyncOn(files: Files, fd: int): (r: (Files, int))
    ensures r.1 == 0 || r.1 == -1
  {
    if fd !in files then (files, -1) else
      var (f, r) := SysFsync(files[fd]);
      (files[fd := f], r)
  }

  /** The size that fstat reports. */
  function FileSizeOn(files: Files, fd: int): (Files, int) {
    if fd !in files then (files, -1) else
      var (f, r) := SysFileSize(files[fd]);
      (files[fd := f], r)
  }

  // ----- the supplicant -----

  /** As many parameters as the call has, and values at positions `i` and `j`. */
  predicate Shaped(params: seq<Param>, n: nat, i: nat, j: nat)
    requires i < n && j < n
  {
    |params| == n && IsValue(params[i]) && IsValue(params[j])
  }

  /** The `n` bytes at an address are there. */
  predicate Roomy(va: Va, n: nat) {
    va.Va? ==> va.offs + n <= va.p.Length
  }

  /** The `n` bytes at an address; none can be had from a null address, except no bytes at all. */
  function BytesAt(va: Va, n: nat): Option<seq<byte>>
    requires Roomy(va, n)
    reads if va.Va? then {va.p} else {}
  {
    if va.Va? then Some(va.p[va.offs..va.offs + n]) else if n == 0 then Some([]) else None
  }

  ghost function MemoryOf(va: Va): set<object> {
    if va.Va? then {va.p} else {}
  }

  /** The bytes of a buffer after `d` was stored at `offs`. */
  function Patch(s: seq<byte>, offs: nat, d: seq<byte>): seq<byte>
    requires offs + |d| <= |s|
  {
    s[..offs] + d + s[offs + |d|..]
  }

  lemma PatchCleared(was: seq<byte>, now: seq<byte>, n: nat, d: seq<byte>)
    requires |d| <= n <= |was| && was[..n] == Zeros(n) && now == Patch(was, 0, d)
    ensures |now| == |was| && now[..n] == d + Zeros(n - |d|)
  {
    assert forall i :: |d| <= i < n ==> now[i] == was[..n][i];
  }

  lemma PatchFront(s: seq<byte>, d: seq<byte>)
    requires |d| <= |s|
    ensures Patch(s, 0, d) == d + s[|d|..]
  {
  }

  /** The result and the error number in the fields of a parameter; which error it is stays open. */
  predicate Answered(before: Param, after: Param, r: int) {
    after == before.(b := ToU64(r), c := after.c) && (after.c == 0 <==> r >= 0)
  }

  const EIO: i32 := 5

  /** A call that succeeds leaves the error number at zero, one that fails sets it to something else. */
  method PutResult(params: array<Param>, r: int)
    requires params.Length > 0
    modifies params
    ensures Answered(old(params[0]), params[0], r)
    ensures params[1..] == old(params[1..])
  {
    var errno: i32 := 0;
    if r < 0 {
      var reason: int := *;
      errno := if 0 < reason < TWO_31 then reason else EIO;
    }
    params[0] := params[0].(b := ToU64(r), c := ToU64(errno));
  }

  /** The caller offers no known buffer for an output. */
  ghost predicate NoBuffer(nodes: seq<TeeShm>, param: Param) {
    IsMemref(param) && !param.kind.MemrefIn? && Find(nodes, ToInt(param.c)).None?
  }

  method CopyTo(p: array<byte>, offs: nat, d: seq<byte>)
    requires offs + |d| <= p.Length
    modifies p
    ensures p[..] == Patch(old(p[..]), offs, d)
  {
    forall i | 0 <= i < |d| {
      p[offs + i] := d[i];
    }
  }

  /** What the driver does with a request for memory: refuses it, or gives it an identifier and `length` bytes. */
  datatype Grant = Refused | Granted(id: i32, length: nat)

  class Supplicant {
    const shm: ShmTable
    const regMem: bool
    var files: Files

    constructor (files: Files, regMem: bool)
      ensures Valid() && this.files == files && shm.nodes == [] && fresh(shm)
    {
      shm := new ShmTable();
      this.files, this.regMem := files, regMem;
    }

    ghost predicate Valid()
      reads shm, shm.nodes
    {
      shm.Valid()
    }

    method ProcessAlloc(params: array<Param>, grant: Grant) returns (ret: nat, made: TeeShm?)
      requires Valid()
      modifies params, shm
      ensures Valid()
      ensures ret == if params.Length != 1 || !IsValue(old(params[..])[0]) then BAD_PARAMETERS
        else if grant.Refused? then OUT_OF_MEMORY else SUCCESS
      ensures ret != SUCCESS ==> made == null && shm.nodes == old(shm.nodes) && params[..] == old(params[..])
      ensures ret == SUCCESS ==>
        && made != null && fresh(made) && fresh(made.p)
        && made.id == grant.id && made.registered == regMem && made.p.Length == grant.length && made.size == params[0].b
        && shm.nodes == Push(old(shm.nodes), made)
        && params[0] == old(params[0]).(c := ToU64(grant.id))
    {
      made := null;
      if params.Length != 1 || !IsValue(params[0]) {
        return BAD_PARAMETERS, null;
      }
      if grant.Refused? {
        return OUT_OF_MEMORY, null;
      }
      made := new TeeShm(grant.id, grant.length, regMem);
      made.size := params[0].b;
      params[0] := params[0].(c := ToU64(made.id));
      shm.PushTshm(made);
      ret := SUCCESS;
    }

    /** `unmapped` tells whether unmapping the memory succeeds, which only memory of the driver needs. The buffer leaves
        the list in either case. */
    method ProcessFree(params: array<Param>, unmapped: bool) returns (ret: nat)
      requires Valid()
      modifies shm, (set n | n in shm.nodes)`next
      ensures Valid()
      ensures params.Length != 1 || !IsValue(params[0]) ==> ret == BAD_PARAMETERS && shm.nodes == old(shm.nodes)
      ensures params.Length == 1 && IsValue(params[0]) ==>
        var found := Find(old(shm.nodes), ToInt(params[0].b));
        && shm.nodes == Pop(old(shm.nodes), ToInt(params[0].b))
        && ret == if found.Some? && (found.value.registered || unmapped) then SUCCESS else BAD_PARAMETERS
    {
      if params.Length != 1 || !IsValue(params[0]) {
        return BAD_PARAMETERS;
      }
      var found := shm.PopTshm(ToInt(params[0].b));
      if found == null {
        return BAD_PARAMETERS;
      }
      if !found.registered && !unmapped {
        return BAD_PARAMETERS;
      }
      return SUCCESS;
    }

    /** A malformed request is refused. Otherwise the caller sees to it that the `n` bytes to write lie in the buffer
        that the third parameter names. */
    method VfsWrite(params: array<Param>) returns (ret: nat)
      requires Valid()
      requires params.Length == 3 ==> Roomy(Address(shm.nodes, params[2]), params[1].b)
      modifies params, `files
      ensures ret == if Shaped(old(params[..]), 3, 0, 1) then SUCCESS else BAD_PARAMETERS
      ensures ret != SUCCESS ==> files == old(files) && params[..] == old(params[..])
      ensures ret == SUCCESS ==>
        var (fs, r) := WriteOn(old(files), ToInt(old(params[1].a)),
                               old(BytesAt(Address(shm.nodes, params[2]), params[1].b)));
        files == fs && Answered(old(params[0]), params[0], r)
    {
      if params.Length != 3 || !IsValue(params[0]) || !IsValue(params[1]) {
        return BAD_PARAMETERS;
      }
      var va := ParamToVa(shm, params[2]);
      var fd := ToInt(params[1].a);
      var n := params[1].b;
      var (fs, r) := WriteOn(files, fd, BytesAt(va, n));
      files := fs;
      PutResult(params, r);
      return SUCCESS;
    }

    /** Reads into the buffer that the second parameter names; bytes beyond those read keep what they hold. With a
        null buffer the read fails unless there is nothing to store. */
    method VfsRead(params: array<Param>) returns (ret: nat)
      requires Valid()
      requires params.Length == 3 ==> Roomy(Address(shm.nodes, params[1]), params[2].b)
      modifies params, `files, if params.Length == 3 then MemoryOf(Address(shm.nodes, params[1])) else {}
      ensures Shaped(old(params[..]), 3, 0, 2) && old(Address(shm.nodes, params[1])).Va? ==>
        && ret == SUCCESS
        && var va, n := old(Address(shm.nodes, params[1])), old(params[2].b);
        && var (fs, r, d) := ReadOn(old(files), ToInt(old(params[2].a)), n);
        && files == fs && Answered(old(params[0]), params[0], r)
        && va.p[..] == Patch(old(va.p[..]), va.offs, d)
      ensures ret == SUCCESS <==> (
        && Shaped(old(params[..]), 3, 0, 2)
        && (|| old(Address(shm.nodes, params[1])).Va?
            || NoBuffer(old(shm.nodes), old(params[1]))))
      ensures ret != SUCCESS ==> ret == BAD_PARAMETERS && files == old(files) && params[..] == old(params[..])
    {
      if params.Length != 3 {
        return BAD_PARAMETERS;
      }
      var err, m := GetParam(shm, params, 1);
      if err || !IsValue(params[0]) || !IsValue(params[2]) {
        return BAD_PARAMETERS;
      }
      var fd := ToInt(params[2].a);
      var n := params[2].b;
      var (fs, r, d) := ReadOn(files, fd, n);
      if m.buffer.Va? {
        CopyTo(m.buffer.p, m.buffer.offs, d);
      } else if d != [] {
        fs, r := files, -1;
      }
      files := fs;
      PutResult(params, r);
      return SUCCESS;
    }

    method VfsLseek(params: array<Param>) returns (ret: nat)
      modifies params, `files
      ensures ret == if Shaped(old(params[..]), 2, 0, 1) then SUCCESS else BAD_PARAMETERS
      ensures ret != SUCCESS ==> files == old(files) && params[..] == old(params[..])
      ensures ret == SUCCESS ==>
        var arg := old(params[1]);
        var (fs, r) := LseekOn(old(files), ToInt(arg.a), ToLong(arg.b), ToInt(arg.c));
        files == fs && Answered(old(params[0]), params[0], r)
    {
      if params.Length != 2 || !IsValue(params[0]) || !IsValue(params[1]) {
        return BAD_PARAMETERS;
      }
      var (fs, r) := LseekOn(files, ToInt(params[1].a), ToLong(params[1].b), ToInt(params[1].c));
      files := fs;
      PutResult(params, r);
      return SUCCESS;
    }

    method VfsFsync(params: array<Param>) returns (ret: nat)
      modifies params, `files
      ensures ret == if Shaped(old(params[..]), 2, 0, 1) then SUCCESS else BAD_PARAMETERS
      ensures ret != SUCCESS ==> files == old(files) && params[..] == old(params[..])
      ensures ret == SUCCESS ==>
        var (fs, r) := FsyncOn(old(files), ToInt(old(params[1].a)));
        files == fs && Answered(old(params[0]), params[0], r)
    {
      if params.Length != 2 || !IsValue(params[0]) || !IsValue(params[1]) {
        return BAD_PARAMETERS;
      }
      var (fs, r) := FsyncOn(files, ToInt(params[1].a));
      files := fs;
      PutResult(params, r);
      return SUCCESS;
    }

    method VfsFilesize(params: array<Param>) returns (ret: nat)
      modifies params, `files
      ensures ret == if Shaped(old(params[..]), 2, 0, 1) then SUCCESS else BAD_PARAMETERS
      ensures ret != SUCCESS ==> files == old(files) && params[..] == old(params[..])
      ensures ret == SUCCESS ==>
        var (fs, r) := FileSizeOn(old(files), ToInt(old(params[1].a)));
        files == fs && Answered(old(params[0]), params[0], r)
    {
      if params.Length != 2 || !IsValue(params[0]) || !IsValue(params[1]) {
        return BAD_PARAMETERS;
      }
      var (fs, r) := FileSizeOn(files, ToInt(params[1].a));
      files := fs;
      PutResult(params, if r != -1 then r else -1);
      return SUCCESS;
    }
  }

  // ----- the secure world -----

  /** A buffer shared with the supplicant, seen from the secure world. */
  datatype Payload = Payload(id: u64, pages: array<byte>)

  /** The call is served: the driver grants the memory, and enough of it. */
  predicate Served(grant: Grant, n: nat) {
    grant.Granted? && n <= grant.length
  }

  method AllocPayload(supp: Supplicant, n: u64, grant: Grant) returns (mobj: Option<Payload>)
    requires supp.Valid()
    modifies supp.shm
    ensures supp.Valid()
    ensures mobj.None? <==> grant.Refused?
    ensures mobj.None? ==> supp.shm.nodes == old(supp.shm.nodes)
    ensures mobj.Some? ==>
      && Shared(supp, mobj.value) && supp.shm.nodes[1..] == old(supp.shm.nodes)
      && fresh(supp.shm.nodes[0]) && fresh(mobj.value.pages) && mobj.value.pages.Length == grant.length
  {
    var params := new Param[1](_ => Param(ValueInout, false, 0, n, 0));
    var ret, made := supp.ProcessAlloc(params, grant);
    if ret != SUCCESS {
      return None;
    }
    return Some(Payload(params[0].c, made.p));
  }

  method FreePayload(supp: Supplicant, mobj: Option<Payload>)
    requires supp.Valid()
    modifies supp.shm, (set t | t in supp.shm.nodes)`next
    ensures supp.Valid()
    ensures mobj.None? ==> supp.shm.nodes == old(supp.shm.nodes)
    ensures mobj.Some? && old(Shared(supp, mobj.value)) ==> supp.shm.nodes == old(supp.shm.nodes)[1..]
  {
    if mobj.Some? {
      var params := new Param[1](_ => Param(ValueIn, false, 0, mobj.value.id, 0));
      if supp.shm.nodes != [] {
        IntSurvives(supp.shm.nodes[0].id);
      }
      var unmapped: bool := *;
      var _ := supp.ProcessFree(params, unmapped);
    }
  }

  /** The newest buffer in the supplicant's list is the one that the payload denotes. */
  ghost predicate Shared(supp: Supplicant, mobj: Payload)
    reads supp.shm, supp.shm.nodes
  {
    supp.Valid() && supp.shm.nodes != [] &&
    mobj == Payload(ToU64(supp.shm.nodes[0].id), supp.shm.nodes[0].p)
  }

  lemma SharedAddress(supp: Supplicant, mobj: Payload, param: Param)
    requires Shared(supp, mobj)
    requires IsMemref(param) && param.a == 0 && param.b == 0 && param.c == mobj.id
    ensures Address(supp.shm.nodes, param) == Va(mobj.pages, 0)
  {
    IntSurvives(supp.shm.nodes[0].id);
  }

  /** Copies the data into the shared pages, which are cleared first. */
  method FillPages(pages: array<byte>, buf: array<byte>, n: nat)
    requires n <= pages.Length && n <= buf.Length && pages != buf
    modifies pages
    ensures pages[..n] == buf[..n]
  {
    Clear(pages, n);
    forall i | 0 <= i < n {
      pages[i] := buf[i];
    }
  }

  method Clear(pages: array<byte>, n: nat)
    requires n <= pages.Length
    modifies pages
    ensures pages[..n] == Zeros(n)
    ensures pages[n..] == old(pages[n..])
  {
    forall i | 0 <= i < n {
      pages[i] := 0;
    }
  }

  /** The request that carries a write, and what comes back in its result field. */
  method RequestWrite(supp: Supplicant, fd: i32, mobj: Payload, n: u64) returns (res: u64)
    requires Shared(supp, mobj) && n <= mobj.pages.Length
    modifies supp`files
    ensures var (fs, r) := WriteOn(old(supp.files), fd, Some(mobj.pages[..n]));
      supp.files == fs && res == ToU64(r)
  {
    var params := new Param[3](_ => Param(ValueInout, false, 0, 0, 0));
    params[1] := Param(ValueIn, false, ToU64(fd), n, 0);
    params[2] := Param(MemrefIn, false, 0, 0, mobj.id);
    SharedAddress(supp, mobj, params[2]);
    IntSurvives(fd);
    var _ := supp.VfsWrite(params);
    res := params[0].b;
  }

  /** The whole of a forwarded write: when the driver grants the memory it is the direct write, and the list of shared
      buffers ends as it began. The result passes through an `int`, so it is the direct one just when that fits. */
  method SyscallVfsWrite(supp: Supplicant, fd: i32, buf: array<byte>, n: u64, grant: Grant) returns (ret: i32)
    requires supp.Valid() && n <= buf.Length
    modifies supp`files, supp.shm, (set t | t in supp.shm.nodes)`next
    ensures supp.Valid() && supp.shm.nodes == old(supp.shm.nodes)
    ensures Served(grant, n) ==>
      var (fs, r) := WriteOn(old(supp.files), fd, Some(old(buf[..n])));
      supp.files == fs && (ret == r <==> -TWO_31 <= r < TWO_31)
    ensures !Served(grant, n) ==> supp.files == old(supp.files) && ret == -1
  {
    ret := -1;
    var mobj := AllocPayload(supp, n, grant);
    if mobj.Some? && mobj.value.pages.Length >= n {
      FillPages(mobj.value.pages, buf, n);
      ghost var (_, r) := WriteOn(supp.files, fd, Some(buf[..n]));
      IntSurvives(r);
      var res := RequestWrite(supp, fd, mobj.value, n);
      ret := ToInt(res);
    }
    FreePayload(supp, mobj);
  }

  method RequestRead(supp: Supplicant, fd: i32, mobj: Payload, n: u64) returns (res: u64)
    requires Shared(supp, mobj) && n <= mobj.pages.Length
    modifies supp`files, mobj.pages
    ensures var (fs, r, d) := ReadOn(old(supp.files), fd, n);
      && supp.files == fs && res == ToU64(r)
      && mobj.pages[..] == Patch(old(mobj.pages[..]), 0, d)
  {
    var params := new Param[3](_ => Param(ValueInout, false, 0, 0, 0));
    params[1] := Param(MemrefOut, false, 0, 0, mobj.id);
    params[2] := Param(ValueIn, false, ToU64(fd), n, 0);
    SharedAddress(supp, mobj, params[1]);
    IntSurvives(fd);
    var _ := supp.VfsRead(params);
    res := params[0].b;
  }

  /** The whole of a forwarded read: the direct read, and the caller's buffer holds the bytes read followed by zeros
      up to the size asked for, also when the read fails. */
  method SyscallVfsRead(supp: Supplicant, fd: i32, buf: array<byte>, n: u64, grant: Grant) returns (ret: i64)
    requires supp.Valid() && n <= buf.Length
    modifies supp`files, supp.shm, (set t | t in supp.shm.nodes)`next, buf
    ensures supp.Valid() && supp.shm.nodes == old(supp.shm.nodes)
    ensures Served(grant, n) ==>
      var (fs, r, d) := ReadOn(old(supp.files), fd, n);
      && supp.files == fs && (ret == r <==> -TWO_63 <= r < TWO_63)
      && buf[..] == d + Zeros(n - |d|) + old(buf[n..])
    ensures !Served(grant, n) ==> supp.files == old(supp.files) && ret == -1 && buf[..] == old(buf[..])
  {
    hide ReadOn;
    ret := -1;
    var mobj := AllocPayload(supp, n, grant);
    if mobj.Some? && mobj.value.pages.Length >= n {
      var pages := mobj.value.pages;
      Clear(pages, n);
      ghost var was := pages[..];
      assert was[..n] == Zeros(n);
      ghost var (_, r, d) := ReadOn(supp.files, fd, n);
      LongSurvives(r);
      var res := RequestRead(supp, fd, mobj.value, n);
      PatchCleared(was, pages[..], n, d);
      PatchFront(buf[..], pages[..n]);
      assert buf[..][n..] == buf[n..];
      CopyTo(buf, 0, pages[..n]);
      ret := ToLong(res);
    }
    FreePayload(supp, mobj);
  }

  /** The whole of a forwarded seek: every offset of the type `off_t`, in any of the three directions, reaches the
      direct call unchanged, and so does its result on the way back. */
  method SyscallVfsLseek(supp: Supplicant, fd: i32, offset: i64, whence: i32) returns (ret: i64)
    modifies supp`files
    ensures var (fs, r) := LseekOn(old(supp.files), fd, offset, whence);
      supp.files == fs && (ret == r <==> -TWO_63 <= r < TWO_63)
  {
    var params := new Param[2](_ => Param(ValueInout, false, 0, 0, 0));
    params[1] := Param(ValueIn, false, ToU64(fd), ToU64(offset), ToU64(whence));
    IntSurvives(fd);
    IntSurvives(whence);
    LongSurvives(offset);
    ghost var (_, r) := LseekOn(supp.files, fd, offset, whence);
    LongSurvives(r);
    var _ := supp.VfsLseek(params);
    ret := ToLong(params[0].b);
  }

  method SyscallVfsFsync(supp: Supplicant, fd: i32) returns (ret: i32)
    modifies supp`files
    ensures (supp.files, ret) == FsyncOn(old(supp.files), fd)
  {
    var params := new Param[2](_ => Param(ValueInout, false, 0, 0, 0));
    params[1] := Param(ValueIn, false, ToU64(fd), 0, 0);
    IntSurvives(fd);
    IntSurvives(FsyncOn(supp.files, fd).1);
    var _ := supp.VfsFsync(params);
    ret := ToInt(params[0].b);
  }

  method SyscallVfsFilesize(supp: Supplicant, fd: i32) returns (ret: i64)
    modifies supp`files
    ensures var (fs, r) := FileSizeOn(old(supp.files), fd);
      supp.files == fs && (ret == r <==> -TWO_63 <= r < TWO_63)
  {
    var params := new Param[2](_ => Param(ValueInout, false, 0, 0, 0));
    params[1] := Param(ValueIn, false, ToU64(fd), 0, 0);
    IntSurvives(fd);
    LongSurvives(FileSizeOn(supp.files, fd).1);
    var _ := supp.VfsFilesize(params);
    ret := ToLong(params[0].b);
  }
}
