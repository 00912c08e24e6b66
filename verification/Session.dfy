/** From one session to the next: the tags that a run of the pager leaves in the hash map go to the file when the map
    is closed and come back when it is created again, and then every page loads as it did before. */
module Session {
  import opened Posix
  import opened PageCodec
  import opened RekeySpec
  import opened Wrappers
  import T = TableSpec
  import F = TagFileSpec
  import W = AsWritten

  // ----- what the pager's calls do to the hash map -----

  /** The calls of hm_set that one encryption makes. */
  function TagSets(c: Cipher, key: Option<Key>, n: int, data: Page): seq<T.Op>
    requires PageFits(n, data)
  {
    if key.None? then [] else
      (if n == 1 then [T.OpSet(0, c.mac(key.value, Seal(c, key.value, data[..BODY])))] else [])
      + [T.OpSet(n, PageTag(c, key.value, n, data))]
  }

  function StepSets(c: Cipher, codec: Option<Keys>, d: Disk, op: PagerOp): seq<T.Op>
    requires RawFits(d.raw) && PagerOpValid(op)
  {
    match op
    case LoadOp(n) => []
    case JournalOp(n) =>
      if n !in d.raw then [] else
        TagSets(c, ReadingKey(codec), n, Codec(c, codec, d.tags, d.raw[n], n, Load).out)
    case StoreOp(n, p) => TagSets(c, WritingKey(codec), n, p)
  }

  function RunSets(c: Cipher, codec: Option<Keys>, d: Disk, ops: seq<PagerOp>): seq<T.Op>
    requires RawFits(d.raw) && forall i :: 0 <= i < |ops| ==> PagerOpValid(ops[i])
    decreases |ops|
  {
    if ops == [] then [] else
      StepSets(c, codec, d, ops[0]) + RunSets(c, codec, PagerStep(c, codec, d, ops[0]).0, ops[1..])
  }

  lemma {:induction false} MapRunConcat(m: map<int, T.Value>, a: seq<T.Op>, b: seq<T.Op>)
    ensures T.MapRun(m, a + b).0 == T.MapRun(T.MapRun(m, a).0, b).0
    decreases |a|
  {
    if a == [] {
      assert a + b == b;
    } else {
      assert (a + b)[0] == a[0] && (a + b)[1..] == a[1..] + b;
      MapRunConcat(T.MapStep(m, a[0]).0, a[1..], b);
    }
  }

  lemma TagSetsMean(c: Cipher, key: Key, n: int, data: Page, tags: map<int, Tag>)
    requires PageFits(n, data)
    ensures T.MapRun(tags, TagSets(c, Some(key), n, data)).0 == EncryptTags(c, key, n, data, tags)
  {
    var tag := PageTag(c, key, n, data);
    if n == 1 {
      var tag0 := c.mac(key, Seal(c, key, data[..BODY]));
      OneSet(tags, 0, tag0);
      OneSet(tags[0 := tag0], n, tag);
      MapRunConcat(tags, [T.OpSet(0, tag0)], [T.OpSet(n, tag)]);
    } else {
      OneSet(tags, n, tag);
      assert [] + [T.OpSet(n, tag)] == [T.OpSet(n, tag)];
    }
  }

  lemma OneSet(m: map<int, T.Value>, key: int, value: T.Value)
    ensures T.MapRun(m, [T.OpSet(key, value)]).0 == m[key := value]
  {
    var all := [T.OpSet(key, value)];
    assert all[1..] == [];
    assert T.MapStep(m, all[0]).0 == m[key := value];
    assert T.MapRun(m[key := value], all[1..]).0 == m[key := value];
  }

  lemma StepSetsMean(c: Cipher, codec: Option<Keys>, d: Disk, op: PagerOp)
    requires RawFits(d.raw) && PagerOpValid(op)
    ensures T.MapRun(d.tags, StepSets(c, codec, d, op)).0 == PagerStep(c, codec, d, op).0.tags
  {
    match op
    case LoadOp(n) =>
    case JournalOp(n) =>
      if n in d.raw && ReadingKey(codec).Some? {
        TagSetsMean(c, ReadingKey(codec).value, n, Codec(c, codec, d.tags, d.raw[n], n, Load).out, d.tags);
      }
    case StoreOp(n, p) =>
      if WritingKey(codec).Some? {
        TagSetsMean(c, WritingKey(codec).value, n, p, d.tags);
      }
  }

  /** The finite map after the sets of a run is the tag map after the run. */
  lemma {:induction false} RunSetsMean(c: Cipher, codec: Option<Keys>, d: Disk, ops: seq<PagerOp>)
    requires RawFits(d.raw) && forall i :: 0 <= i < |ops| ==> PagerOpValid(ops[i])
    ensures T.MapRun(d.tags, RunSets(c, codec, d, ops)).0 == PagerRun(c, codec, d, ops).0.tags
    decreases |ops|
  {
    if ops != [] {
      var d1 := PagerStep(c, codec, d, ops[0]).0;
      StepSetsMean(c, codec, d, ops[0]);
      RunSetsMean(c, codec, d1, ops[1..]);
      MapRunConcat(d.tags, StepSets(c, codec, d, ops[0]), RunSets(c, codec, d1, ops[1..]));
    }
  }

  // ----- the tags fit the file -----

  ghost predicate SixteenByteTags(c: Cipher) {
    forall key, data :: |c.mac(key, data)| == F.TAG_LEN
  }

  predicate PageNumberFits(op: PagerOp) {
    op.n < 0x8000_0000
  }

  lemma StepDumpable(c: Cipher, codec: Option<Keys>, d: Disk, op: PagerOp)
    requires RawFits(d.raw) && PagerOpValid(op) && PageNumberFits(op)
    requires SixteenByteTags(c) && F.Dumpable(d.tags)
    ensures F.Dumpable(PagerStep(c, codec, d, op).0.tags)
  {
  }

  lemma {:induction false} RunDumpable(c: Cipher, codec: Option<Keys>, d: Disk, ops: seq<PagerOp>)
    requires RawFits(d.raw) && forall i :: 0 <= i < |ops| ==> PagerOpValid(ops[i]) && PageNumberFits(ops[i])
    requires SixteenByteTags(c) && F.Dumpable(d.tags)
    ensures F.Dumpable(PagerRun(c, codec, d, ops).0.tags)
    decreases |ops|
  {
    if ops != [] {
      StepDumpable(c, codec, d, ops[0]);
      RunDumpable(c, codec, PagerStep(c, codec, d, ops[0]).0, ops[1..]);
    }
  }

  // ----- a whole session -----

  /** What a lookup in the hash map says about page `n`. */
  function Lookup(tags: map<int, Tag>, n: int): Option<Tag> {
    if n in tags then Some(tags[n]) else None
  }

  /** Load the tags of an earlier session, run any loads, journal steps and stores under one key, dump the map, and load
      it again, with any hash before and after. The second load stays inside its local arrays if and only if there are
      at most 99 tags; and then every lookup finds the tag it found before, and every page loads, authenticates, and is
      what was stored last. (`TagFile.CloseThenCreate` is the dump and the second load call by call.) */
  lemma {:induction false} SessionSurvives(c: Cipher, codec: Option<Keys>, d: Disk, pages: map<nat, Page>,
                                           ops: seq<PagerOp>, s: T.State, h: T.Hash, h1: T.Hash,
                                           s1: T.State, file: seq<byte>, s2: T.State, d1: Disk, n: nat)
    requires Settled(codec) && Holds(c, codec, d, pages)
    requires forall i :: 0 <= i < |ops| ==> PagerOpValid(ops[i]) && PageNumberFits(ops[i])
    requires SixteenByteTags(c) && F.Dumpable(d.tags)
    requires T.Good(s, d.tags, h) && T.ValidHash(h1)
    requires d1 == PagerRun(c, codec, d, ops).0
    requires s1 == T.Run(s, RunSets(c, codec, d, ops), h).0
    requires file == F.Records(F.Flatten(s1.table)) && s2 == F.Load(file, h1)
    ensures F.StaysInside(file) <==> |d1.tags| < F.LOCAL_SLOTS
    ensures F.StaysInside(file) ==> T.Good(s2, d1.tags, h1) && T.Get(s2, n, h1) == Lookup(d1.tags, n)
    ensures var pages1 := PlainRun(pages, ops).0;
      n in pages1 ==>
        && n in d1.raw && PageFits(n, d1.raw[n])
        && Codec(c, codec, d1.tags, d1.raw[n], n, Load) == Coded(pages1[n], d1.tags, true)
  {
    T.RunGood(s, d.tags, RunSets(c, codec, d, ops), h);
    RunSetsMean(c, codec, d, ops);
    RunDumpable(c, codec, d, ops);
    F.DumpThenLoad(s1, d1.tags, h, h1);
    if F.StaysInside(file) {
      T.LookupIsContents(s2.table, d1.tags, n, h1);
    }
    RunsAgree(c, codec, d, pages, ops);
    var pages1 := PlainRun(pages, ops).0;
    if n in pages1 {
      StoredLoads(c, codec, d1.raw[n], d1.tags, n, pages1[n]);
    }
  }

  // ----- the same with the hash map as it is spelled -----

  predicate PageBelow(op: PagerOp, size: nat) {
    op.n < size
  }

  lemma StepSetsInRange(c: Cipher, codec: Option<Keys>, d: Disk, op: PagerOp, size: nat)
    requires RawFits(d.raw) && PagerOpValid(op) && PageBelow(op, size)
    ensures forall o :: o in StepSets(c, codec, d, op) ==> W.CodecOp(o) && W.KeyInRange(o, size)
  {
  }

  /** The sets of a run are those that the codec makes, and stay inside an array with more buckets than pages. */
  lemma {:induction false} RunSetsInRange(c: Cipher, codec: Option<Keys>, d: Disk, ops: seq<PagerOp>, size: nat)
    requires RawFits(d.raw)
    requires forall i :: 0 <= i < |ops| ==> PagerOpValid(ops[i]) && PageBelow(ops[i], size)
    ensures forall o :: o in RunSets(c, codec, d, ops) ==> W.CodecOp(o) && W.KeyInRange(o, size)
    decreases |ops|
  {
    if ops != [] {
      StepSetsInRange(c, codec, d, ops[0], size);
      RunSetsInRange(c, codec, PagerStep(c, codec, d, ops[0]).0, ops[1..], size);
    }
  }

  /** With comparison and hash as spelled, in a map that was just created: after any run on pages below the number of
      buckets, and however often page 1 was encrypted, looking up a page finds its tag. */
  lemma {:induction false} SpelledFindsTags(c: Cipher, codec: Option<Keys>, d: Disk, ops: seq<PagerOp>, size: nat,
                                            loadFactor: real, n: nat, sets: seq<T.Op>)
    requires RawFits(d.raw) && d.tags == map[] && T.NextSize(size) > 0 && 0 < n < T.NextSize(size)
    requires forall i :: 0 <= i < |ops| ==> PagerOpValid(ops[i]) && PageBelow(ops[i], T.NextSize(size))
    requires sets == RunSets(c, codec, d, ops)
    ensures forall o :: o in sets ==> W.CodecOp(o) && W.KeyInRange(o, T.NextSize(size))
    ensures var s := W.WrittenRun(T.Created(size, loadFactor), sets).0;
      n < |s.table| && W.GetWritten(s.table[n]) == Lookup(PagerRun(c, codec, d, ops).0.tags, n)
  {
    var s0 := T.Created(size, loadFactor);
    RunSetsInRange(c, codec, d, ops, T.NextSize(size));
    W.CreatedDirect(size, loadFactor);
    W.DirectRun(s0, map[], 0, sets);
    RunSetsMean(c, codec, d, ops);
    W.RunGrows(s0, sets);
    W.BucketOther(W.WrittenRun(s0, sets).0, T.MapRun(map[], sets).0, W.ZerosAfterAll(0, sets), n);
  }
}
