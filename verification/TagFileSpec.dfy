/** The file that carries the tag map from one session to the next: 20-byte records, a 4-byte page number and a
    16-byte tag, in whatever order the buckets give. Loading what was dumped gives back the same map, exactly as long
    as the loading loop has room for it (`DumpThenLoad`). */
module TagFileSpec {
  import opened Posix
  import opened TableSpec

  const KEY_LEN: nat := 4
  const TAG_LEN: nat := 16
  const RECORD: nat := 20

  /** A 32-bit two's complement number. */
  predicate Int32(k: int) {
    -0x8000_0000 <= k < 0x8000_0000
  }

  /** Little-endian bytes of an int. */
  function EncodeInt(k: int): (b: seq<byte>)
    ensures |b| == KEY_LEN
  {
    var u := k % 0x1_0000_0000;
    [u % 256, u / 256 % 256, u / 65536 % 256, u / 16777216]
  }

  function DecodeInt(b: seq<byte>): (k: int)
    requires |b| == KEY_LEN
    ensures Int32(k)
  {
    var u := b[0] as int + 256 * (b[1] as int) + 65536 * (b[2] as int) + 16777216 * (b[3] as int);
    if u < 0x8000_0000 then u else u - 0x1_0000_0000
  }

  /** The bytes as they lie in the memory of a little-endian machine: for numbers from 0 on, the first byte is the least
      significant; and -1 is all ones. */
  lemma LittleEndian(k: int)
    requires Int32(k)
    ensures EncodeInt(k)[0] == k % 256
    ensures 0 <= k < 256 ==> EncodeInt(k) == [k, 0, 0, 0]
    ensures 0 <= k < 65536 ==> EncodeInt(k) == [k % 256, k / 256, 0, 0]
    ensures k == -1 ==> EncodeInt(k) == [255, 255, 255, 255]
  {
    var u := k % 0x1_0000_0000;
    assert u == if k < 0 then k + 0x1_0000_0000 else k;
  }

  lemma IntRoundTrip(k: int)
    requires Int32(k)
    ensures DecodeInt(EncodeInt(k)) == k
  {
    var u := k % 0x1_0000_0000;
    Digits(u);
  }

  lemma Digits(u: nat)
    requires u < 0x1_0000_0000
    ensures u == u % 256 + 256 * (u / 256 % 256) + 65536 * (u / 65536 % 256) + 16777216 * (u / 16777216)
  {
    var (a, b) := (u / 256, u / 65536);
    assert u == 256 * a + u % 256;
    assert b == a / 256 && a == 256 * b + a % 256;
    assert u / 16777216 == b / 256 && b == 256 * (b / 256) + b % 256;
  }

  // ----- dump -----

  function Record(e: Entry): seq<byte> {
    EncodeInt(e.key) + e.value
  }

  function Flatten(t: Table): Chain {
    if t == [] then [] else t[0] + Flatten(t[1..])
  }

  function Records(c: Chain): seq<byte> {
    if c == [] then [] else Records(c[..|c| - 1]) + Record(c[|c| - 1])
  }

  // ----- load -----

  /** What a read of `n` bytes leaves in a zeroed buffer of that size. */
  function Padded(content: seq<byte>, off: nat, n: nat): (r: seq<byte>)
    ensures |r| == n
  {
    var d := ReadAt(content, off, n);
    d + Zeros(n - |d|)
  }

  const MAX_RECORDS: nat := 20000

  /** How many records a load finds: a torn last one counts, and none after the limit. */
  function RecordCount(content: seq<byte>): nat {
    Min((|content| + RECORD - 1) / RECORD, MAX_RECORDS)
  }

  const LOCAL_SLOTS: nat := 100

  /** The loading loop stays inside its local arrays: with `n` records it uses slot `n` of the one for the keys. */
  predicate StaysInside(content: seq<byte>) {
    RecordCount(content) < LOCAL_SLOTS
  }

  function RecordOf(content: seq<byte>, i: nat): Entry {
    Entry(DecodeInt(Padded(content, RECORD * i, KEY_LEN)), Padded(content, RECORD * i + KEY_LEN, TAG_LEN))
  }

  predicate AtEnd(content: seq<byte>, i: nat) {
    ReadAt(content, RECORD * i, KEY_LEN) == [] || i >= MAX_RECORDS
  }

  /** The records of a file from the `i`-th on; a torn last record is completed with zeros. */
  function Parse(content: seq<byte>, i: nat): (c: Chain)
    decreases MAX_RECORDS - i
  {
    if AtEnd(content, i) then [] else [RecordOf(content, i)] + Parse(content, i + 1)
  }

  /** Sets the entries one after the other. */
  function SetAll(s: State, c: Chain, h: Hash): (r: State)
    requires |s.table| > 0 && forall k, n: nat :: n > 0 ==> h(k, n) < n
    ensures |r.table| > 0
  {
    if c == [] then s else
      var e := c[|c| - 1];
      Set(SetAll(s, c[..|c| - 1], h), e.key, e.value, h)
  }

  /** The map that a load starts from. */
  function FreshMap(): (s: State)
    ensures |s.table| > 0
  {
    NextSizeGrows(500);
    Created(500, 1.0)
  }

  /** What hm_create(500, 1.0f, ..) makes. */
  lemma FreshMapIs()
    ensures |FreshMap().table| == 769 && FreshMap().count == 0 && FreshMap().loadFactor == 1.0
    ensures forall b :: 0 <= b < 769 ==> FreshMap().table[b] == []
  {
    NextSizeGrows(500);
  }

  function Load(content: seq<byte>, h: Hash): State
    requires forall k, n: nat :: n > 0 ==> h(k, n) < n
  {
    SetAll(FreshMap(), Parse(content, 0), h)
  }

  // ----- the round trip -----

  ghost predicate Dumpable(c: map<int, Value>) {
    forall k :: k in c ==> Int32(k) && |c[k]| == TAG_LEN
  }

  ghost predicate DumpableChain(c: Chain) {
    forall i :: 0 <= i < |c| ==> Int32(c[i].key) && |c[i].value| == TAG_LEN
  }

  lemma {:induction false} FlattenAll(t: Table)
    ensures multiset(Flatten(t)) == All(t)
  {
    if t != [] {
      FlattenAll(t[1..]);
    }
  }

  lemma {:induction false} RecordsLength(c: Chain)
    requires DumpableChain(c)
    ensures |Records(c)| == RECORD * |c|
  {
    if c != [] {
      RecordsLength(c[..|c| - 1]);
    }
  }

  /** The `i`-th record is where the seek arithmetic looks for it. */
  lemma {:induction false} RecordAt(c: Chain, i: nat)
    requires DumpableChain(c) && i < |c|
    ensures |Records(c)| == RECORD * |c|
    ensures Padded(Records(c), RECORD * i, KEY_LEN) == EncodeInt(c[i].key)
    ensures ReadAt(Records(c), RECORD * i, KEY_LEN) != []
    ensures Padded(Records(c), RECORD * i + KEY_LEN, TAG_LEN) == c[i].value
  {
    var n := |c| - 1;
    var (r, last) := (Records(c[..n]), Record(c[n]));
    RecordsLength(c);
    RecordsLength(c[..n]);
    if i < n {
      RecordAt(c[..n], i);
      assert ReadAt(r + last, RECORD * i, KEY_LEN) == ReadAt(r, RECORD * i, KEY_LEN);
      assert ReadAt(r + last, RECORD * i + KEY_LEN, TAG_LEN) == ReadAt(r, RECORD * i + KEY_LEN, TAG_LEN);
    } else {
      assert ReadAt(r + last, RECORD * i, KEY_LEN) == EncodeInt(c[i].key);
      assert ReadAt(r + last, RECORD * i + KEY_LEN, TAG_LEN) == c[i].value;
    }
  }

  /** The map that results from setting the entries one after the other. */
  function MapOfChain(c: Chain): map<int, Value> {
    if c == [] then map[] else MapOfChain(c[..|c| - 1])[c[|c| - 1].key := c[|c| - 1].value]
  }

  lemma {:induction false} MapOfChainIs(q: Chain, c: map<int, Value>)
    requires Models(multiset(q), c)
    ensures MapOfChain(q) == c
    decreases |q|
  {
    var m := multiset(q);
    if q == [] {
      ModelsSize(m, c);
    } else {
      var (most, e) := (q[..|q| - 1], q[|q| - 1]);
      assert q == most + [e];
      ModelsDrop(m, multiset(most), c, e);
      MapOfChainIs(most, c - {e.key});
      assert (c - {e.key})[e.key := e.value] == c;
    }
  }

  /** Reading back what was dumped gives the same entries in the same order. */
  lemma {:induction false} ParseRecords(q: Chain, i: nat)
    requires DumpableChain(q) && i <= |q| <= MAX_RECORDS
    ensures Parse(Records(q), i) == q[i..]
    decreases |q| - i
  {
    RecordThere(q, i);
    if i < |q| {
      ParseRecords(q, i + 1);
    }
  }

  /** Looking for a record finds it, and behind the last one the end. */
  lemma RecordThere(q: Chain, i: nat)
    requires DumpableChain(q) && i <= |q| <= MAX_RECORDS
    ensures AtEnd(Records(q), i) <==> i == |q|
    ensures i < |q| ==> RecordOf(Records(q), i) == q[i]
  {
    if i < |q| {
      RecordAt(q, i);
      IntRoundTrip(q[i].key);
    } else {
      RecordsLength(q);
    }
  }

  lemma {:induction false} SetAllGood(s: State, q: Chain, h: Hash)
    requires Good(s, map[], h)
    ensures Good(SetAll(s, q, h), MapOfChain(q), h)
  {
    if q != [] {
      var (most, e) := (q[..|q| - 1], q[|q| - 1]);
      SetAllGood(s, most, h);
      SetGood(SetAll(s, most, h), MapOfChain(most), e.key, e.value, h);
    }
  }

  lemma {:induction false} LoadUndoesDump(s: State, c: map<int, Value>, h: Hash, h1: Hash)
    requires Good(s, c, h) && ValidHash(h1)
    requires Dumpable(c) && |c| <= MAX_RECORDS
    ensures Good(Load(Records(Flatten(s.table)), h1), c, h1)
  {
    var q := Flatten(s.table);
    FlattenAll(s.table);
    ModelsSize(multiset(q), c);
    assert |multiset(q)| == |q|;
    EntriesDumpable(q, c);
    MapOfChainIs(q, c);
    ParseRecords(q, 0);
    NextSizeGrows(500);
    CreatedGood(500, 1.0, h1);
    SetAllGood(FreshMap(), q, h1);
  }

  /** A map whose keys are ints and whose values are tags: the loading loop stays inside its arrays if and only if the
      map has at most 99 entries, and then it comes back as it was, whatever the hash, the bucket order and the number
      of buckets on either side. */
  lemma {:induction false} DumpThenLoad(s: State, c: map<int, Value>, h: Hash, h1: Hash)
    requires Good(s, c, h) && ValidHash(h1) && Dumpable(c)
    ensures StaysInside(Records(Flatten(s.table))) <==> |c| < LOCAL_SLOTS
    ensures StaysInside(Records(Flatten(s.table))) ==> Good(Load(Records(Flatten(s.table)), h1), c, h1)
  {
    FlattenDumpable(s, c, h);
    RecordsLength(Flatten(s.table));
    if |c| < LOCAL_SLOTS {
      LoadUndoesDump(s, c, h, h1);
    }
  }

  lemma FlattenDumpable(s: State, c: map<int, Value>, h: Hash)
    requires Good(s, c, h) && Dumpable(c)
    ensures DumpableChain(Flatten(s.table)) && |Flatten(s.table)| == |c|
  {
    FlattenAll(s.table);
    EntriesDumpable(Flatten(s.table), c);
    ModelsSize(All(s.table), c);
    assert |multiset(Flatten(s.table))| == |Flatten(s.table)|;
  }

  lemma EntriesDumpable(q: Chain, c: map<int, Value>)
    requires Models(multiset(q), c) && Dumpable(c)
    ensures DumpableChain(q)
  {
    forall i | 0 <= i < |q|
      ensures Int32(q[i].key) && |q[i].value| == TAG_LEN
    {
      assert multiset(q)[q[i]] > 0;
    }
  }

  /** Where the loading loop stands before record `i`. */
  lemma {:induction false} ParseFrom(content: seq<byte>, j: nat, i: nat)
    requires j <= i <= j + |Parse(content, j)|
    ensures Parse(content, j)[i - j..] == Parse(content, i)
    decreases i - j
  {
    if j < i {
      ParseFrom(content, j + 1, i);
    }
  }

  lemma AtEndIs(content: seq<byte>, i: nat)
    ensures AtEnd(content, i) <==> i >= RecordCount(content)
  {
    assert ReadAt(content, RECORD * i, KEY_LEN) == [] <==> RECORD * i >= |content|;
    var count := (|content| + RECORD - 1) / RECORD;
    assert RECORD * count >= |content| && RECORD * (count - 1) < |content|;
  }

  lemma {:induction false} ParseLength(content: seq<byte>, i: nat)
    ensures |Parse(content, i)| == Max(0, RecordCount(content) - i)
    decreases MAX_RECORDS - i
  {
    hide AtEnd, RecordOf;
    AtEndIs(content, i);
    if i < RecordCount(content) {
      ParseLength(content, i + 1);
    }
  }

  lemma ParseAt(content: seq<byte>, i: nat)
    requires i <= |Parse(content, 0)|
    ensures AtEnd(content, i) <==> i == |Parse(content, 0)|
    ensures i < |Parse(content, 0)| ==> Parse(content, 0)[i] == RecordOf(content, i)
  {
    ParseFrom(content, 0, i);
  }
}
