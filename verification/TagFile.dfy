/** Writing the tag map to its file and reading it back, call by call. */
module TagFile {
  import opened Posix
  import opened TableSpec
  import opened TagFileSpec
  import opened HashTable
  import opened JournalFile

  lemma RecordsSnoc(c: Chain, e: Entry)
    ensures Records(c + [e]) == Records(c) + Record(e)
  {
    assert (c + [e])[..|c|] == c;
  }

  lemma {:induction false} FlattenSnoc(t: Table, i: nat)
    requires i < |t|
    ensures Flatten(t[..i + 1]) == Flatten(t[..i]) + t[i]
  {
    if i == 0 {
      assert t[..1][1..] == [];
    } else {
      FlattenSnoc(t[1..], i - 1);
      assert t[..i + 1][1..] == t[1..][..i] && t[..i][1..] == t[1..][..i - 1];
    }
  }

  /** Two writes at the file position, one after the other. */
  lemma WriteTwice(s: seq<byte>, off: nat, done: seq<byte>, a: seq<byte>, b: seq<byte>)
    ensures WriteAt(WriteAt(WriteAt(s, off, done), off + |done|, a), off + |done| + |a|, b)
         == WriteAt(s, off, done + (a + b))
  {
    WriteAtSplit(s, off, done, a);
    WriteAtSplit(s, off, done + a, b);
    assert done + a + b == done + (a + b);
  }

  /** The file holds, from `p0` on over `s0`, the records of the entries `done`, and is positioned behind them. */
  ghost predicate Dumped(file: File, s0: seq<byte>, p0: nat, done: Chain) {
    && file.script == [] && file.pos == p0 + |Records(done)|
    && file.content == WriteAt(s0, p0, Records(done))
  }

  /** Writing the two parts of a record behind the records so far. */
  lemma RecordWritten(s0: seq<byte>, p0: nat, done: Chain, e: Entry)
    ensures var end, key := p0 + |Records(done)|, EncodeInt(e.key);
      && WriteAt(WriteAt(WriteAt(s0, p0, Records(done)), end, key), end + |key|, e.value)
        == WriteAt(s0, p0, Records(done + [e]))
      && p0 + |Records(done + [e])| == end + |key| + |e.value|
  {
    WriteTwice(s0, p0, Records(done), EncodeInt(e.key), e.value);
    RecordsSnoc(done, e);
  }

  /** One record at the file position. */
  method DumpItem(temp: Node, output: Descriptor, ghost s0: seq<byte>, ghost p0: nat, ghost done: Chain)
    requires Dumped(output.file, s0, p0, done) && |temp.value| == TAG_LEN
    modifies output
    ensures Dumped(output.file, s0, p0, done + [Entry(temp.key, temp.value)])
  {
    var key := EncodeInt(temp.key);
    assert key[..KEY_LEN] == key && temp.value[..TAG_LEN] == temp.value;
    RecordWritten(s0, p0, done, Entry(temp.key, temp.value));
    var _ := output.Write(key);
    var _ := output.Write(temp.value[..TAG_LEN]);
  }

  /** The nodes of one bucket. */
  method DumpChain(list: Node?, ghost ns0: seq<Node>, ghost c0: Chain, output: Descriptor,
                   ghost s0: seq<byte>, ghost p0: nat, ghost done0: Chain)
    requires IsList(list, ns0, c0) && Dumped(output.file, s0, p0, done0) && DumpableChain(c0)
    modifies output
    ensures Dumped(output.file, s0, p0, done0 + c0)
  {
    var temp := list;
    ghost var ns, c, done := ns0, c0, done0;
    while temp != null
      invariant IsList(temp, ns, c) && DumpableChain(c)
      invariant Dumped(output.file, s0, p0, done)
      invariant done + c == done0 + c0
      decreases |ns|
    {
      assert IsList(temp.next, ns[1..], c[1..]);
      DumpItem(temp, output, s0, p0, done);
      assert IsList(temp.next, ns[1..], c[1..]);
      assert done + [c[0]] + c[1..] == done + c;
      done, c, ns := done + [c[0]], c[1..], ns[1..];
      temp := temp.next;
    }
    assert c == [] && done + [] == done;
  }

  lemma {:induction false} DumpableBucket(t: Table, i: nat)
    requires i < |t| && DumpableChain(Flatten(t))
    ensures DumpableChain(t[i])
  {
    var rest := Flatten(t[1..]);
    forall j | 0 <= j < |t[0]|
      ensures t[0][j] == Flatten(t)[j]
    {
    }
    forall j | 0 <= j < |rest|
      ensures rest[j] == Flatten(t)[|t[0]| + j]
    {
    }
    if i > 0 {
      DumpableBucket(t[1..], i - 1);
    }
  }

  /** Walks the buckets and appends a record per node; an empty map writes nothing. */
  method HmDump(map_: HashMap, output: Descriptor)
    requires map_.Valid() && output.file.script == [] && DumpableChain(Flatten(map_.table))
    modifies output
    ensures output.file.script == []
    ensures map_.count == 0 ==> output.file == old(output.file)
    ensures map_.count != 0 ==>
      output.file.content == WriteAt(old(output.file.content), old(output.file.pos), Records(Flatten(map_.table)))
    ensures |Records(Flatten(map_.table))| == RECORD * |Flatten(map_.table)|
  {
    RecordsLength(Flatten(map_.table));
    if map_.count == 0 {
      return;
    }
    ghost var s0, p0, t := output.file.content, output.file.pos, map_.table;
    assert t[..0] == [];
    for i := 0 to map_.size
      invariant Dumped(output.file, s0, p0, Flatten(t[..i]))
    {
      assert InBucket(map_.items[..][i], map_.chains[i], t[i], map_.nodes);
      DumpableBucket(t, i);
      DumpChain(map_.items[i], map_.chains[i], t[i], output, s0, p0, Flatten(t[..i]));
      FlattenSnoc(t, i);
    }
    assert t[..|t|] == t;
  }

  /** The file of a map in good order: opening it for the dump truncates it, so nothing older remains. The map is given
      back afterwards and not used again. */
  method CloseMap(map_: HashMap, ghost c: map<int, Value>) returns (output: Descriptor)
    requires map_.Valid() && Good(map_.View(), c, map_.hash) && Dumpable(c)
    ensures fresh(output) && output.file.content == Records(Flatten(map_.table))
  {
    output := new Descriptor(File([], 0, [], []));
    FlattenDumpable(map_.View(), c, map_.hash);
    if map_.count == 0 {
      EmptyDump(map_.View(), c, map_.hash);
    }
    WriteWhole(Records(Flatten(map_.table)));
    HmDump(map_, output);
  }

  lemma WriteWhole(data: seq<byte>)
    ensures WriteAt([], 0, data) == data
  {
    WriteAtBytes([], 0, data);
  }

  /** A map whose counter is zero has no records. */
  lemma EmptyDump(s: State, c: map<int, Value>, h: Hash)
    requires Good(s, c, h) && s.count == 0
    ensures Records(Flatten(s.table)) == []
  {
    FlattenAll(s.table);
    ModelsSize(All(s.table), c);
    assert |multiset(Flatten(s.table))| == |Flatten(s.table)|;
  }

  /** A read of `n` bytes at `off` into a zeroed buffer. */
  method ReadZeroed(fd: Descriptor, off: nat, n: nat) returns (r: int, d: seq<byte>)
    requires fd.file.script == [] && fd.file.pos == off
    modifies fd
    ensures fd.file == old(fd.file).(pos := fd.file.pos)
    ensures r == |ReadAt(fd.file.content, off, n)| && d == Padded(fd.file.content, off, n)
  {
    var buf := new byte[n](_ => 0);
    r := fd.Read(buf, n);
    assert buf[..] == buf[..r] + Zeros(n - r);
    d := buf[..];
  }

  /** What holds at the head of the loading loop: record `i` is the next one, its first four bytes have been read. */
  ghost predicate Loading(file: File, content: seq<byte>, i: nat, n: int, pageno: seq<byte>) {
    && file.script == [] && file.content == content
    && n == |ReadAt(content, RECORD * i, KEY_LEN)| && pageno == Padded(content, RECORD * i, KEY_LEN)
  }

  /** One turn of the loading loop: seeks to the tag of record `i`, reads it, seeks to record `i + 1`, sets, and reads
      the next page number. */
  method LoadRecord(fdr: Descriptor, tag: HashMap, i: nat, n: int, pageno: seq<byte>, ghost content: seq<byte>)
    returns (n1: int, pageno1: seq<byte>)
    requires tag.Valid() && i < MAX_RECORDS
    requires n != 0 && Loading(fdr.file, content, i, n, pageno)
    modifies fdr, tag, tag.items, tag.nodes
    ensures tag.Valid() && (tag.items == old(tag.items) || fresh(tag.items)) && fresh(tag.nodes - old(tag.nodes))
    ensures Loading(fdr.file, content, i + 1, n1, pageno1)
    ensures var e := RecordOf(content, i); tag.View() == Set(old(tag.View()), e.key, e.value, tag.hash)
  {
    var _ := fdr.Lseek((i + 1) * KEY_LEN + i * TAG_LEN);
    var _, t := ReadZeroed(fdr, (i + 1) * KEY_LEN + i * TAG_LEN, TAG_LEN);
    var _ := fdr.Lseek((i + 1) * KEY_LEN + (i + 1) * TAG_LEN);
    n1, pageno1 := ReadZeroed(fdr, RECORD * (i + 1), KEY_LEN);
    assert tag.Valid();
    tag.HmSet(DecodeInt(pageno), t);
  }

  /** The loading loop. The addresses of the keys and tags are kept in two local arrays of 100 slots, the keys always
      one slot ahead. `inside` tells whether the loop stays in them; the run is followed up to where it leaves them. */
  method ReadRecords(fdr: Descriptor, tag: HashMap) returns (inside: bool)
    requires tag.Valid() && fdr.file.script == [] && fdr.file.pos == 0
    modifies fdr, tag, tag.items, tag.nodes
    ensures tag.Valid() && fdr.file.content == old(fdr.file.content)
    ensures inside <==> StaysInside(fdr.file.content)
    ensures inside ==> tag.View() == SetAll(old(tag.View()), Parse(fdr.file.content, 0), tag.hash)
  {
    hide Set, RecordOf, Parse, RecordCount;
    ghost var content, recs := fdr.file.content, Parse(fdr.file.content, 0);
    ParseLength(content, 0);
    var i := 0;
    var n, pageno := ReadZeroed(fdr, 0, KEY_LEN);
    while n != 0 && i < MAX_RECORDS
      invariant tag.Valid() && (tag.items == old(tag.items) || fresh(tag.items)) && fresh(tag.nodes - old(tag.nodes))
      invariant Loading(fdr.file, content, i, n, pageno)
      invariant i < LOCAL_SLOTS && i <= |recs|
      invariant tag.View() == SetAll(old(tag.View()), recs[..i], tag.hash)
      decreases MAX_RECORDS - i
    {
      ParseAt(content, i);
      if i + 1 == LOCAL_SLOTS {
        return false;
      }
      SetAllSnoc(old(tag.View()), recs, i, tag.hash);
      n, pageno := LoadRecord(fdr, tag, i, n, pageno, content);
      i := i + 1;
    }
    ParseAt(content, i);
    assert recs[..|recs|] == recs;
    return true;
  }

  lemma SetAllSnoc(s: State, recs: Chain, i: nat, h: Hash)
    requires |s.table| > 0 && ValidHash(h) && i < |recs|
    ensures SetAll(s, recs[..i + 1], h) == Set(SetAll(s, recs[..i], h), recs[i].key, recs[i].value, h)
  {
    assert recs[..i + 1][..i] == recs[..i];
  }

  /** Reads a freshly opened file into a new map. The local arrays are large enough exactly for files of at most 99
      records, that is, of at most 1980 bytes. */
  method CreateMap(fdr: Descriptor, hash: Hash) returns (tag: HashMap, inside: bool)
    requires ValidHash(hash) && fdr.file.script == [] && fdr.file.pos == 0
    modifies fdr
    ensures fresh(tag) && tag.Valid() && tag.hash == hash && fdr.file.content == old(fdr.file.content)
    ensures inside <==> StaysInside(fdr.file.content)
    ensures inside <==> |fdr.file.content| <= RECORD * (LOCAL_SLOTS - 1)
    ensures inside ==> tag.View() == Load(fdr.file.content, hash)
  {
    NextSizeGrows(500);
    tag := new HashMap(500, 1.0, hash);
    inside := ReadRecords(fdr, tag);
  }

  /** From one session to the next: closing a map and creating it again stays inside the local arrays if and only if the
      map has at most 99 entries, and then gives a map that stands for the same. */
  method CloseThenCreate(map_: HashMap, ghost c: map<int, Value>, hash: Hash) returns (tag: HashMap, inside: bool)
    requires map_.Valid() && Good(map_.View(), c, map_.hash) && Dumpable(c) && ValidHash(hash)
    ensures fresh(tag) && tag.Valid() && tag.hash == hash
    ensures inside <==> |c| < LOCAL_SLOTS
    ensures inside ==> Good(tag.View(), c, hash)
  {
    DumpThenLoad(map_.View(), c, map_.hash, hash);
    var output := CloseMap(map_, c);
    var fdr := new Descriptor(File(output.file.content, 0, [], []));
    tag, inside := CreateMap(fdr, hash);
  }
}
