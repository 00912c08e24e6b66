/** The codec between pager and disk, its key state, and changing the key of a whole database, as functions on values.

    The pager appears as its calls to the codec: a load (mode 3), journalling the page as it was (mode 7), a store at
    commit (mode 6), and a rollback that puts the journalled bytes back. The results: under one key every load
    authenticates and returns what was stored last (`RunsAgree`); a rekey that succeeds leaves every page readable
    under the new key and one that fails leaves the bytes on disk as they were, readable under the old key exactly
    where no tag has been replaced (`RekeySucceeds`, `RekeyFails`). */
module RekeySpec {
  import opened Posix
  import opened PageCodec
  import opened Wrappers

  /** The key state of a codec. */
  datatype Keys = Keys(isEncrypted: bool, hasReadKey: bool, readKey: Key, hasWriteKey: bool, writeKey: Key)

  type Page = seq<byte>

  /** A database as pager and codec see it. `codec` is None when the pager has none. `cache` holds plain pages that
      are to be written, `journal` the raw bytes for a rollback; `gets` records the pages the rekey loop has asked for. */
  datatype Db = Db(codec: Option<Keys>, disk: map<nat, Page>, tags: map<int, Tag>,
                   cache: map<nat, Page>, journal: map<nat, Page>, gets: seq<nat>, nPage: nat, pageSize: nat)

  // ----- one call of the codec -----

  datatype Mode = Undo | Reload | Load | Store | Journal | Unlisted

  /** The modes by the numbers that the pager uses. */
  function ModeOf(nMode: int): Mode {
    match nMode
    case 0 => Undo
    case 2 => Reload
    case 3 => Load
    case 6 => Store
    case 7 => Journal
    case _ => Unlisted
  }

  /** The page handed back, the tag map, and whether a decryption found its tag. */
  datatype Coded = Coded(out: Page, tags: map<int, Tag>, authentic: bool)

  function Codec(c: Cipher, codec: Option<Keys>, tags: map<int, Tag>, data: Page, n: int, mode: Mode): (r: Coded)
    requires PageFits(n, data)
    ensures |r.out| == |data|
  {
    if codec.None? || !codec.value.isEncrypted then Coded(data, tags, true) else
      var k := codec.value;
      match mode
      case Undo | Reload | Load =>
        if k.hasReadKey then
          var (ok, out) := DecryptPage(c, k.readKey, n, data, TagOf(tags, n));
          Coded(out, tags, ok)
        else Coded(data, tags, true)
      case Store =>
        if k.hasWriteKey then
          Coded(EncryptPage(c, k.writeKey, n, data), EncryptTags(c, k.writeKey, n, data, tags), true)
        else Coded(data, tags, true)
      case Journal =>
        if k.hasReadKey then
          Coded(EncryptPage(c, k.readKey, n, data), EncryptTags(c, k.readKey, n, data, tags), true)
        else Coded(data, tags, true)
      case Unlisted => Coded(data, tags, true)
  }

  // ----- what it means for a page to be stored -----

  /** The key that loads use, if they use one. */
  function ReadingKey(codec: Option<Keys>): Option<Key> {
    if codec.Some? && codec.value.isEncrypted && codec.value.hasReadKey then Some(codec.value.readKey) else None
  }

  /** The key that stores use, if they use one. */
  function WritingKey(codec: Option<Keys>): Option<Key> {
    if codec.Some? && codec.value.isEncrypted && codec.value.hasWriteKey then Some(codec.value.writeKey) else None
  }

  function RawUnder(c: Cipher, key: Option<Key>, n: int, p: Page): Page
    requires PageFits(n, p)
  {
    if key.Some? then EncryptPage(c, key.value, n, p) else p
  }

  /** The tag that a page needs to be loaded with the given key is in the tag map. */
  predicate TagFits(c: Cipher, key: Option<Key>, tags: map<int, Tag>, n: int, p: Page)
    requires PageFits(n, p)
  {
    key.Some? ==> n in tags && tags[n] == PageTag(c, key.value, n, p)
  }

  /** The bytes `raw` and the tag map hold page `n` with plain content `p` for a reader with the given key. */
  predicate StoredAs(c: Cipher, key: Option<Key>, raw: Page, tags: map<int, Tag>, n: int, p: Page)
    requires PageFits(n, p)
  {
    raw == RawUnder(c, key, n, p) && TagFits(c, key, tags, n, p)
  }

  /** The entry for `m`, or its absence, is the same. */
  ghost predicate TagKept(a: map<int, Tag>, b: map<int, Tag>, m: int) {
    (m in a <==> m in b) && (m in a ==> a[m] == b[m])
  }

  /** Equal up to the entry for key 0, which no load looks at. */
  ghost predicate SameTags(a: map<int, Tag>, b: map<int, Tag>) {
    forall m {:trigger m in a} {:trigger m in b} :: m != 0 ==> TagKept(a, b, m)
  }

  lemma SameTagsThrough(a: map<int, Tag>, b: map<int, Tag>, c: map<int, Tag>)
    requires SameTags(a, b) && SameTags(b, c)
    ensures SameTags(a, c)
  {
    forall m | m != 0
      ensures TagKept(a, c, m)
    {
    }
  }

  lemma SameTagKept(a: map<int, Tag>, b: map<int, Tag>)
    requires SameTags(a, b)
    ensures forall m :: m != 0 ==> TagKept(b, a, m)
  {
  }

  lemma SameTagsItself(a: map<int, Tag>)
    ensures SameTags(a, a)
  {
    assert forall m :: TagKept(a, a, m);
  }

  /** A stored page is loaded as what it is. */
  lemma StoredLoads(c: Cipher, codec: Option<Keys>, raw: Page, tags: map<int, Tag>, n: int, p: Page)
    requires PageFits(n, p) && Encryptable(n, p) && StoredAs(c, ReadingKey(codec), raw, tags, n, p)
    ensures PageFits(n, raw)
    ensures Codec(c, codec, tags, raw, n, Load) == Coded(p, tags, true)
  {
    StoredReads(c, codec, raw, tags, n, p, Load);
  }

  predicate Reads(mode: Mode) {
    mode.Undo? || mode.Reload? || mode.Load?
  }

  /** A stored page is handed back as what it is in each of the modes that read. */
  lemma StoredReads(c: Cipher, codec: Option<Keys>, raw: Page, tags: map<int, Tag>, n: int, p: Page, mode: Mode)
    requires PageFits(n, p) && Encryptable(n, p) && StoredAs(c, ReadingKey(codec), raw, tags, n, p) && Reads(mode)
    ensures PageFits(n, raw)
    ensures Codec(c, codec, tags, raw, n, mode) == Coded(p, tags, true)
  {
    if ReadingKey(codec).Some? {
      PageRoundTrip(c, ReadingKey(codec).value, n, p);
    }
  }

  /** Undoing what was encoded for the journal gives the page back, whatever its tag was before. */
  lemma UndoOfJournal(c: Cipher, codec: Option<Keys>, tags: map<int, Tag>, n: int, p: Page)
    requires n >= 1 && PageFits(n, p) && Encryptable(n, p)
    ensures var j := Codec(c, codec, tags, p, n, Journal);
      PageFits(n, j.out) && Codec(c, codec, j.tags, j.out, n, Undo) == Coded(p, j.tags, true)
  {
    var j := Codec(c, codec, tags, p, n, Journal);
    StoredReads(c, codec, j.out, j.tags, n, p, Undo);
  }

  /** What was stored is read back in each of these modes by a codec that reads with the key it writes with. */
  lemma ReadsWhatWasStored(c: Cipher, codec: Option<Keys>, tags: map<int, Tag>, n: int, p: Page, mode: Mode)
    requires n >= 1 && PageFits(n, p) && Encryptable(n, p) && Settled(codec) && Reads(mode)
    ensures var s := Codec(c, codec, tags, p, n, Store);
      PageFits(n, s.out) && Codec(c, codec, s.tags, s.out, n, mode) == Coded(p, s.tags, true)
  {
    var s := Codec(c, codec, tags, p, n, Store);
    StoreStores(c, codec, tags, n, p);
    StoredReads(c, codec, s.out, s.tags, n, p, mode);
  }

  /** Journalling the present content of a page gives the bytes on disk again and leaves every tag of a page as it
      is, because encryption is deterministic. */
  lemma JournalRepeats(c: Cipher, codec: Option<Keys>, raw: Page, tags: map<int, Tag>, n: int, p: Page)
    requires n >= 1 && PageFits(n, p) && StoredAs(c, ReadingKey(codec), raw, tags, n, p)
    ensures var r := Codec(c, codec, tags, p, n, Journal);
      && r.out == raw
      && SameTags(r.tags, tags)
  {
    var tags1 := Codec(c, codec, tags, p, n, Journal).tags;
    forall m | m != 0
      ensures TagKept(tags1, tags, m)
    {
    }
  }

  /** A store puts the page and its tag where a reader with the writing key finds them, and touches no other page. */
  lemma StoreStores(c: Cipher, codec: Option<Keys>, tags: map<int, Tag>, n: int, p: Page)
    requires n >= 1 && PageFits(n, p)
    ensures var r := Codec(c, codec, tags, p, n, Store);
      && StoredAs(c, WritingKey(codec), r.out, r.tags, n, p)
      && (WritingKey(codec).None? ==> r.tags == tags)
      && forall m {:trigger m in tags} {:trigger m in r.tags} :: m != 0 && m != n ==> TagKept(tags, r.tags, m)
  {
    var tags1 := Codec(c, codec, tags, p, n, Store).tags;
    forall m | m != 0 && m != n
      ensures TagKept(tags, tags1, m)
    {
    }
  }

  // ----- runs under one key -----

  datatype PagerOp = LoadOp(n: nat) | JournalOp(n: nat) | StoreOp(n: nat, p: Page)

  datatype PagerReply = Loaded(p: Page, authentic: bool) | Unknown | Written

  datatype Disk = Disk(raw: map<nat, Page>, tags: map<int, Tag>)

  ghost predicate PagerOpValid(op: PagerOp) {
    op.n >= 1 && (op.StoreOp? ==> PageFits(op.n, op.p) && Encryptable(op.n, op.p))
  }

  ghost predicate RawFits(raw: map<nat, Page>) {
    forall n :: n in raw ==> PageFits(n, raw[n])
  }

  /** A journal step loads the page and encodes what it loaded. */
  function PagerStep(c: Cipher, codec: Option<Keys>, d: Disk, op: PagerOp): (Disk, PagerReply)
    requires RawFits(d.raw) && PagerOpValid(op)
  {
    match op
    case LoadOp(n) =>
      if n !in d.raw then (d, Unknown) else
        var r := Codec(c, codec, d.tags, d.raw[n], n, Load);
        (d.(tags := r.tags), Loaded(r.out, r.authentic))
    case JournalOp(n) =>
      if n !in d.raw then (d, Unknown) else
        var r := Codec(c, codec, d.tags, d.raw[n], n, Load);
        (d.(tags := Codec(c, codec, r.tags, r.out, n, Journal).tags), Written)
    case StoreOp(n, p) =>
      var r := Codec(c, codec, d.tags, p, n, Store);
      (Disk(d.raw[n := r.out], r.tags), Written)
  }

  /** The same on a disk of plain pages. */
  function PlainStep(pages: map<nat, Page>, op: PagerOp): (map<nat, Page>, PagerReply) {
    match op
    case LoadOp(n) => (pages, if n in pages then Loaded(pages[n], true) else Unknown)
    case JournalOp(n) => (pages, if n in pages then Written else Unknown)
    case StoreOp(n, p) => (pages[n := p], Written)
  }

  /** Reads and writes use the same key, or neither uses one. */
  predicate Settled(codec: Option<Keys>) {
    ReadingKey(codec) == WritingKey(codec)
  }

  /** Every page of `pages`, and no other, is stored on the disk. */
  ghost predicate Holds(c: Cipher, codec: Option<Keys>, d: Disk, pages: map<nat, Page>) {
    && RawFits(d.raw) && d.raw.Keys == pages.Keys
    && forall n :: n in pages ==>
      && n >= 1 && PageFits(n, pages[n]) && Encryptable(n, pages[n])
      && StoredAs(c, ReadingKey(codec), d.raw[n], d.tags, n, pages[n])
  }

  lemma StepAgrees(c: Cipher, codec: Option<Keys>, d: Disk, pages: map<nat, Page>, op: PagerOp)
    requires Settled(codec) && Holds(c, codec, d, pages) && PagerOpValid(op)
    ensures var ((d1, reply), (pages1, plainReply)) := (PagerStep(c, codec, d, op), PlainStep(pages, op));
      Holds(c, codec, d1, pages1) && reply == plainReply
  {
    match op
    case LoadOp(n) =>
      if n in pages {
        StoredLoads(c, codec, d.raw[n], d.tags, n, pages[n]);
      }
    case JournalOp(n) =>
      if n in pages {
        StoredLoads(c, codec, d.raw[n], d.tags, n, pages[n]);
        JournalRepeats(c, codec, d.raw[n], d.tags, n, pages[n]);
      }
    case StoreOp(n, p) =>
      StoreStores(c, codec, d.tags, n, p);
  }

  function PagerRun(c: Cipher, codec: Option<Keys>, d: Disk, ops: seq<PagerOp>): (r: (Disk, seq<PagerReply>))
    requires RawFits(d.raw) && forall i :: 0 <= i < |ops| ==> PagerOpValid(ops[i])
    decreases |ops|
  {
    if ops == [] then (d, []) else
      var (d1, reply) := PagerStep(c, codec, d, ops[0]);
      var (d2, replies) := PagerRun(c, codec, d1, ops[1..]);
      (d2, [reply] + replies)
  }

  function PlainRun(pages: map<nat, Page>, ops: seq<PagerOp>): (map<nat, Page>, seq<PagerReply>)
    decreases |ops|
  {
    if ops == [] then (pages, []) else
      var (pages1, reply) := PlainStep(pages, ops[0]);
      var (pages2, replies) := PlainRun(pages1, ops[1..]);
      (pages2, [reply] + replies)
  }

  /** Tag agreement over whole runs: under one key, any sequence of loads, journal steps and stores gives the replies
      of a disk of plain pages, so every load authenticates and returns what was stored last. */
  lemma {:induction false} RunsAgree(c: Cipher, codec: Option<Keys>, d: Disk, pages: map<nat, Page>, ops: seq<PagerOp>)
    requires Settled(codec) && Holds(c, codec, d, pages)
    requires forall i :: 0 <= i < |ops| ==> PagerOpValid(ops[i])
    ensures var ((d1, replies), (pages1, plainReplies)) := (PagerRun(c, codec, d, ops), PlainRun(pages, ops));
      Holds(c, codec, d1, pages1) && replies == plainReplies
    decreases |ops|
  {
    if ops != [] {
      StepAgrees(c, codec, d, pages, ops[0]);
      RunsAgree(c, codec, PagerStep(c, codec, d, ops[0]).0, PlainStep(pages, ops[0]).0, ops[1..]);
    }
  }

  // ----- the page that is skipped -----

  const PENDING_BYTE: nat := 0x4000_0000

  /** The lock-byte page (SQLite Database File Format, section 1.4). */
  function SkipPage(pageSize: nat): nat
    requires pageSize > 0
  {
    PENDING_BYTE / pageSize + 1
  }

  lemma SkipPageUnique(pageSize: nat, n: nat)
    requires pageSize > 0
    ensures n == SkipPage(pageSize) <==> (n - 1) * pageSize <= PENDING_BYTE < n * pageSize
  {
    var s := SkipPage(pageSize);
    assert PENDING_BYTE == (s - 1) * pageSize + PENDING_BYTE % pageSize;
    assert s * pageSize == (s - 1) * pageSize + pageSize;
    if n < s {
      Scale(n, s - 1, pageSize);
    } else if n > s {
      Scale(s, n - 1, pageSize);
    }
  }

  lemma Scale(a: int, b: int, k: nat)
    requires a <= b
    ensures a * k <= b * k
  {
  }

  predicate DataPage(db: Db, n: nat)
    requires db.pageSize > 0
  {
    1 <= n <= db.nPage && n != SkipPage(db.pageSize)
  }

  // ----- the steps of a rekey -----

  const SQLITE_OK: int := 0

  /** What goes wrong during a rekey, if anything; the first failure ends it, so one is enough. A failing write of a
      page may or may not have encoded it for the journal; a failing commit has stored the pages below `stop`. */
  datatype Fault = NoFault | AtBegin(rc: int) | AtGet(n: nat, rc: int) | AtWrite(n: nat, encoded: bool, rc: int)
                 | AtCommit(stop: nat, rc: int)

  predicate FaultValid(f: Fault) {
    f.NoFault? || f.rc != SQLITE_OK
  }

  /** CodecInit clears the flags; the key bytes of a new codec are not looked at before they are set. */
  function NewKeys(): Keys {
    Keys(false, false, Zeros(16), false, Zeros(16))
  }

  predicate NothingToDo(codec: Option<Keys>, zKey: Option<Key>) {
    zKey.None? && (codec.None? || !codec.value.isEncrypted)
  }

  /** The keys while the pages are rewritten: the read key stays, the write key is the new one or none. */
  function BeginKeys(codec: Option<Keys>, zKey: Option<Key>): Keys
    requires !NothingToDo(codec, zKey)
  {
    if codec.None? || !codec.value.isEncrypted then
      var k := if codec.None? then NewKeys() else codec.value;
      k.(isEncrypted := true, hasReadKey := false, hasWriteKey := true, writeKey := zKey.value)
    else if zKey.None? then codec.value.(hasWriteKey := false)
    else codec.value.(writeKey := zKey.value, hasWriteKey := true)
  }

  /** The keys afterwards; the codec is removed when nothing is encrypted. */
  function FinishKeys(k: Keys, rc: int): Option<Keys> {
    var k1 :=
      if rc == SQLITE_OK then
        if k.hasWriteKey then k.(readKey := k.writeKey, hasReadKey := true) else k.(isEncrypted := false)
      else
        if k.hasReadKey then k.(writeKey := k.readKey) else k.(isEncrypted := false);
    if k1.isEncrypted then Some(k1) else None
  }

  ghost predicate DiskFits(db: Db) {
    && db.pageSize > 0
    && (forall n :: 1 <= n <= db.nPage ==> n in db.disk)
    && (forall n :: n in db.disk ==> PageFits(n, db.disk[n]))
    && (forall n :: n in db.cache ==> PageFits(n, db.cache[n]))
  }

  function GetPage(c: Cipher, db: Db, n: nat): Db
    requires n in db.disk && PageFits(n, db.disk[n])
  {
    var r := Codec(c, db.codec, db.tags, db.disk[n], n, Load);
    db.(cache := db.cache[n := r.out], tags := r.tags, gets := db.gets + [n])
  }

  function WritePage(c: Cipher, db: Db, n: nat, record: bool): Db
    requires n in db.cache && PageFits(n, db.cache[n])
  {
    var r := Codec(c, db.codec, db.tags, db.cache[n], n, Journal);
    db.(tags := r.tags, journal := if record then db.journal[n := r.out] else db.journal)
  }

  /** One turn of the page loop. */
  function TouchOne(c: Cipher, db: Db, n: nat, f: Fault): (r: (Db, int))
    requires DiskFits(db) && 1 <= n <= db.nPage
    ensures r.0.nPage == db.nPage && r.0.pageSize == db.pageSize
  {
    if n == SkipPage(db.pageSize) then (db, SQLITE_OK)
    else if f.AtGet? && f.n == n then (db.(gets := db.gets + [n]), f.rc)
    else
      var db1 := GetPage(c, db, n);
      if f.AtWrite? && f.n == n then (if f.encoded then WritePage(c, db1, n, false) else db1, f.rc)
      else (WritePage(c, db1, n, true), SQLITE_OK)
  }

  /** The page loop from page `n` on. */
  function TouchAll(c: Cipher, db: Db, n: nat, f: Fault): (r: (Db, int))
    requires DiskFits(db) && n >= 1
    decreases db.nPage + 1 - n
  {
    if n > db.nPage then (db, SQLITE_OK) else
      var (db1, rc) := TouchOne(c, db, n, f);
      TouchOneFits(c, db, n, f);
      if rc != SQLITE_OK then (db1, rc) else TouchAll(c, db1, n + 1, f)
  }

  lemma TouchOneFits(c: Cipher, db: Db, n: nat, f: Fault)
    requires DiskFits(db) && 1 <= n <= db.nPage
    ensures DiskFits(TouchOne(c, db, n, f).0)
  {
  }

  function StorePage(c: Cipher, db: Db, n: nat): Db
    requires n in db.cache && PageFits(n, db.cache[n])
  {
    var r := Codec(c, db.codec, db.tags, db.cache[n], n, Store);
    db.(disk := db.disk[n := r.out], tags := r.tags)
  }

  /** The pages to be written, in ascending order, from `n` up to but not including `stop`. */
  function StoreUpTo(c: Cipher, db: Db, n: nat, stop: nat): Db
    requires DiskFits(db)
    decreases stop - n
  {
    if n >= stop then db
    else StoreUpTo(c, if n in db.cache then StorePage(c, db, n) else db, n + 1, stop)
  }

  function Commit(c: Cipher, db: Db, f: Fault): (Db, int)
    requires DiskFits(db)
  {
    if f.AtCommit? then (StoreUpTo(c, db, 1, Min(f.stop, db.nPage + 1)), f.rc)
    else (StoreUpTo(c, db, 1, db.nPage + 1).(cache := map[], journal := map[]), SQLITE_OK)
  }

  function Rollback(db: Db): Db {
    db.(disk := db.disk + db.journal, cache := map[], journal := map[])
  }

  /** What is attempted between the two changes of the key state. */
  function Rewrite(c: Cipher, db: Db, f: Fault): (Db, int)
    requires DiskFits(db)
  {
    if f.AtBegin? then (db, f.rc) else
      var (db1, rc1) := TouchAll(c, db, 1, f);
      if rc1 != SQLITE_OK then (db1, rc1) else
        TouchFits(c, db, 1, f);
        Commit(c, db1, f)
  }

  function Transaction(c: Cipher, db: Db, f: Fault): (Db, int)
    requires DiskFits(db)
  {
    var (db1, rc) := Rewrite(c, db, f);
    (if rc != SQLITE_OK then Rollback(db1) else db1, rc)
  }

  function Rekey(c: Cipher, db: Db, zKey: Option<Key>, f: Fault): (Db, int)
    requires DiskFits(db)
  {
    if NothingToDo(db.codec, zKey) then (db, SQLITE_OK) else
      var k := BeginKeys(db.codec, zKey);
      var (db1, rc) := Transaction(c, db.(codec := Some(k)), f);
      (db1.(codec := FinishKeys(k, rc)), rc)
  }

  lemma {:induction false} TouchFits(c: Cipher, db: Db, n: nat, f: Fault)
    requires DiskFits(db) && n >= 1
    ensures DiskFits(TouchAll(c, db, n, f).0)
    decreases db.nPage + 1 - n
  {
    hide TouchOne, DiskFits;
    if n <= db.nPage {
      var db1, rc := TouchAllTurn(c, db, n, f);
      if rc == SQLITE_OK {
        TouchFits(c, db1, n + 1, f);
      }
    }
  }

  // ----- what the page loop leaves -----

  /** Every page but the skipped one is stored for the reading key, with the plain content given by `pages`. */
  ghost predicate Whole(c: Cipher, db: Db, pages: map<nat, Page>) {
    && DiskFits(db)
    && forall n: nat :: DataPage(db, n) ==>
      && n in pages && PageFits(n, pages[n]) && Encryptable(n, pages[n])
      && StoredAs(c, ReadingKey(db.codec), db.disk[n], db.tags, n, pages[n])
  }

  /** `db` differs from `db0` only by cached pages, a journal that repeats the bytes on disk, and key 0's tag. */
  ghost predicate OnlyJournalled(db0: Db, db: Db) {
    && db.disk == db0.disk && db.codec == db0.codec && db.nPage == db0.nPage && db.pageSize == db0.pageSize
    && SameTags(db.tags, db0.tags)
    && forall m :: m in db.journal ==> m in db0.disk && db.journal[m] == db0.disk[m]
  }

  /** The data pages below `n`, and no others, are cached with their content and journalled. */
  ghost predicate TouchedBelow(db: Db, pages: map<nat, Page>, n: nat)
    requires db.pageSize > 0
  {
    && (forall m: nat :: m in db.cache <==> DataPage(db, m) && m < n)
    && (forall m: nat :: m in db.journal <==> DataPage(db, m) && m < n)
    && (forall m :: m in db.cache ==> m in pages && db.cache[m] == pages[m])
  }

  lemma GetKeeps(c: Cipher, db0: Db, db: Db, pages: map<nat, Page>, n: nat)
    requires Whole(c, db0, pages) && DiskFits(db) && OnlyJournalled(db0, db) && DataPage(db, n)
    ensures GetPage(c, db, n) == db.(cache := db.cache[n := pages[n]], gets := db.gets + [n])
  {
    StoredLoads(c, db.codec, db.disk[n], db.tags, n, pages[n]);
  }

  lemma WriteKeeps(c: Cipher, db0: Db, db: Db, pages: map<nat, Page>, n: nat, record: bool)
    requires Whole(c, db0, pages) && DiskFits(db) && OnlyJournalled(db0, db) && DataPage(db, n)
    requires n in db.cache && db.cache[n] == pages[n]
    ensures var db1 := WritePage(c, db, n, record);
      && OnlyJournalled(db0, db1) && DiskFits(db1)
      && db1 == db.(tags := db1.tags, journal := if record then db.journal[n := db0.disk[n]] else db.journal)
  {
    JournalRepeats(c, db.codec, db.disk[n], db.tags, n, pages[n]);
    SameTagsThrough(WritePage(c, db, n, record).tags, db.tags, db0.tags);
  }

  lemma TouchedNext(db: Db, db1: Db, pages: map<nat, Page>, n: nat)
    requires db.pageSize > 0 && TouchedBelow(db, pages, n) && DataPage(db, n) && n in pages
    requires db1.pageSize == db.pageSize && db1.nPage == db.nPage
    requires db1.cache == db.cache[n := pages[n]] && db1.journal.Keys == db.journal.Keys + {n}
    ensures TouchedBelow(db1, pages, n + 1)
  {
  }

  lemma DiskFitsWith(db: Db, db1: Db, n: nat, p: Page)
    requires DiskFits(db) && PageFits(n, p)
    requires db1.pageSize == db.pageSize && db1.nPage == db.nPage && db1.disk == db.disk
    requires db1.cache == db.cache[n := p]
    ensures DiskFits(db1)
  {
  }

  /** Loading a page that is not skipped. */
  lemma TouchGet(c: Cipher, db0: Db, db: Db, pages: map<nat, Page>, n: nat)
    requires Whole(c, db0, pages) && DiskFits(db) && OnlyJournalled(db0, db) && DataPage(db, n)
    ensures DiskFits(GetPage(c, db, n)) && OnlyJournalled(db0, GetPage(c, db, n))
    ensures GetPage(c, db, n) == db.(cache := db.cache[n := pages[n]], gets := db.gets + [n])
  {
    GetKeeps(c, db0, db, pages, n);
    DiskFitsWith(db, GetPage(c, db, n), n, pages[n]);
  }

  /** A turn of the loop on a page that is not skipped and does not fail to load. */
  lemma TouchDataPage(c: Cipher, db0: Db, db: Db, pages: map<nat, Page>, n: nat, record: bool)
    requires Whole(c, db0, pages) && DiskFits(db) && OnlyJournalled(db0, db) && DataPage(db, n)
    ensures var db1 := GetPage(c, db, n);
      && DiskFits(db1) && OnlyJournalled(db0, db1)
      && DiskFits(WritePage(c, db1, n, record)) && OnlyJournalled(db0, WritePage(c, db1, n, record))
    ensures record && TouchedBelow(db, pages, n) ==>
      TouchedBelow(WritePage(c, GetPage(c, db, n), n, true), pages, n + 1)
  {
    TouchGet(c, db0, db, pages, n);
    var db1 := GetPage(c, db, n);
    WriteKeeps(c, db0, db1, pages, n, record);
    if record && TouchedBelow(db, pages, n) {
      TouchedNext(db, WritePage(c, db1, n, true), pages, n);
    }
  }

  lemma TouchOneKeeps(c: Cipher, db0: Db, db: Db, pages: map<nat, Page>, n: nat, f: Fault)
    requires Whole(c, db0, pages) && DiskFits(db) && OnlyJournalled(db0, db) && TouchedBelow(db, pages, n)
    requires 1 <= n <= db.nPage && FaultValid(f)
    ensures var (db1, rc) := TouchOne(c, db, n, f);
      && DiskFits(db1) && OnlyJournalled(db0, db1)
      && (rc == SQLITE_OK ==> TouchedBelow(db1, pages, n + 1))
  {
    if n != SkipPage(db.pageSize) {
      TouchDataPage(c, db0, db, pages, n, !(f.AtWrite? && f.n == n));
    }
  }

  /** The loop from page `n` on is one turn and the loop from the next page on. */
  lemma TouchAllTurn(c: Cipher, db: Db, n: nat, f: Fault) returns (db1: Db, rc: int)
    requires DiskFits(db) && 1 <= n <= db.nPage
    ensures (db1, rc) == TouchOne(c, db, n, f) && DiskFits(db1)
    ensures TouchAll(c, db, n, f) == if rc != SQLITE_OK then (db1, rc) else TouchAll(c, db1, n + 1, f)
  {
    db1, rc := TouchOne(c, db, n, f).0, TouchOne(c, db, n, f).1;
    TouchOneFits(c, db, n, f);
  }

  /** What a turn of the loop, or all of it, leaves. */
  ghost predicate LoopLeaves(db0: Db, db: Db, rc: int, pages: map<nat, Page>, n: nat) {
    DiskFits(db) && OnlyJournalled(db0, db) && (rc == SQLITE_OK ==> TouchedBelow(db, pages, n))
  }

  lemma {:induction false} TouchAllKeeps(c: Cipher, db0: Db, db: Db, pages: map<nat, Page>,
                                         n: nat, f: Fault, r: (Db, int))
    requires Whole(c, db0, pages) && LoopLeaves(db0, db, SQLITE_OK, pages, n)
    requires 1 <= n <= db.nPage + 1 && FaultValid(f) && r == TouchAll(c, db, n, f)
    ensures LoopLeaves(db0, r.0, r.1, pages, db.nPage + 1)
    decreases db.nPage + 1 - n
  {
    hide TouchOne, DiskFits, OnlyJournalled, TouchedBelow, Whole;
    if n <= db.nPage {
      TouchOneKeeps(c, db0, db, pages, n, f);
      var db1, rc := TouchAllTurn(c, db, n, f);
      if rc == SQLITE_OK {
        TouchAllKeeps(c, db0, db1, pages, n + 1, f, r);
      }
    }
  }

  /** The pages the loop asks for, when nothing fails. */
  function Visits(n: nat, nPage: nat, skip: nat): seq<nat>
    decreases nPage + 1 - n
  {
    if n > nPage then [] else if n == skip then Visits(n + 1, nPage, skip) else [n] + Visits(n + 1, nPage, skip)
  }

  function Count(s: seq<nat>, m: nat): nat {
    if s == [] then 0 else (if s[0] == m then 1 else 0) + Count(s[1..], m)
  }

  lemma {:induction false} VisitsOnce(n: nat, nPage: nat, skip: nat, m: nat)
    ensures Count(Visits(n, nPage, skip), m) == if n <= m <= nPage && m != skip then 1 else 0
    decreases nPage + 1 - n
  {
    if n <= nPage {
      VisitsOnce(n + 1, nPage, skip, m);
      if n != skip {
        assert Visits(n, nPage, skip)[1..] == Visits(n + 1, nPage, skip);
      }
    }
  }

  lemma TouchOneVisits(c: Cipher, db: Db, n: nat, f: Fault)
    requires DiskFits(db) && 1 <= n <= db.nPage && FaultValid(f)
    ensures var (db1, rc) := TouchOne(c, db, n, f);
      rc == SQLITE_OK ==> db1.gets == if n == SkipPage(db.pageSize) then db.gets else db.gets + [n]
  {
  }

  lemma VisitsStep(gets: seq<nat>, gets1: seq<nat>, n: nat, nPage: nat, skip: nat)
    requires n <= nPage && gets1 == if n == skip then gets else gets + [n]
    ensures gets1 + Visits(n + 1, nPage, skip) == gets + Visits(n, nPage, skip)
  {
    var rest := Visits(n + 1, nPage, skip);
    assert gets + [n] + rest == gets + ([n] + rest);
  }

  lemma {:induction false} TouchAllVisits(c: Cipher, db: Db, n: nat, f: Fault)
    requires DiskFits(db) && n >= 1 && FaultValid(f)
    ensures var (db1, rc) := TouchAll(c, db, n, f);
      rc == SQLITE_OK ==> db1.gets == db.gets + Visits(n, db.nPage, SkipPage(db.pageSize))
    decreases db.nPage + 1 - n
  {
    hide TouchOne, DiskFits;
    if n > db.nPage {
      assert db.gets + [] == db.gets;
    } else {
      TouchOneVisits(c, db, n, f);
      var db1, rc := TouchAllTurn(c, db, n, f);
      if rc == SQLITE_OK {
        TouchAllVisits(c, db1, n + 1, f);
        VisitsStep(db.gets, db1.gets, n, db.nPage, SkipPage(db.pageSize));
      }
    }
  }

  /** A loop that runs through asks for every page of the database exactly once, except the lock-byte page. */
  lemma EveryPageOnce(c: Cipher, db: Db, f: Fault, m: nat)
    requires DiskFits(db) && FaultValid(f) && db.gets == [] && TouchAll(c, db, 1, f).1 == SQLITE_OK
    ensures Count(TouchAll(c, db, 1, f).0.gets, m) == if DataPage(db, m) then 1 else 0
  {
    TouchAllVisits(c, db, 1, f);
    assert [] + Visits(1, db.nPage, SkipPage(db.pageSize)) == Visits(1, db.nPage, SkipPage(db.pageSize));
    VisitsOnce(1, db.nPage, SkipPage(db.pageSize), m);
  }

  // ----- what a commit leaves -----

  /** Of the pages cached in `db0`, those below `n` are stored for the writing key; nothing else has changed. */
  ghost predicate StoredBelow(c: Cipher, db0: Db, db: Db, pages: map<nat, Page>, n: nat) {
    && db == db0.(disk := db.disk, tags := db.tags) && DiskFits(db)
    && db.disk.Keys == db0.disk.Keys
    && (WritingKey(db0.codec).None? ==> db.tags == db0.tags)
    && (forall m: nat :: m in db0.cache && m < n ==> StoredPage(c, db, pages, m))
    && (forall m: nat :: m in db0.disk && !(m in db0.cache && m < n) ==> db.disk[m] == db0.disk[m])
    && (forall m: nat :: m != 0 && !(m in db0.cache && m < n) ==> TagKept(db0.tags, db.tags, m))
  }

  ghost predicate StoredPage(c: Cipher, db: Db, pages: map<nat, Page>, m: nat) {
    && m in pages && PageFits(m, pages[m]) && m in db.disk
    && StoredAs(c, WritingKey(db.codec), db.disk[m], db.tags, m, pages[m])
  }

  ghost predicate CacheIs(db: Db, pages: map<nat, Page>) {
    forall m :: m in db.cache ==> m >= 1 && m in db.disk && m in pages && db.cache[m] == pages[m] && PageFits(m, pages[m])
  }

  lemma StoreOne(c: Cipher, db0: Db, db: Db, pages: map<nat, Page>, n: nat)
    requires DiskFits(db0) && CacheIs(db0, pages) && StoredBelow(c, db0, db, pages, n) && n in db.cache
    ensures StoredBelow(c, db0, StorePage(c, db, n), pages, n + 1)
  {
    StoreStores(c, db.codec, db.tags, n, pages[n]);
    var db1 := StorePage(c, db, n);
    assert StoredPage(c, db1, pages, n);
    forall m: nat | m in db0.cache && m < n
      ensures StoredPage(c, db1, pages, m)
    {
      assert StoredPage(c, db, pages, m) && TagKept(db.tags, db1.tags, m);
    }
    forall m: nat | m != 0 && !(m in db0.cache && m < n + 1)
      ensures TagKept(db0.tags, db1.tags, m)
    {
      assert TagKept(db0.tags, db.tags, m);
    }
  }

  lemma StoreTurn(c: Cipher, db0: Db, db: Db, pages: map<nat, Page>, n: nat)
    requires DiskFits(db0) && CacheIs(db0, pages) && StoredBelow(c, db0, db, pages, n)
    ensures StoredBelow(c, db0, if n in db.cache then StorePage(c, db, n) else db, pages, n + 1)
  {
    if n in db.cache {
      StoreOne(c, db0, db, pages, n);
    }
  }

  lemma {:induction false} StoreUpToStores(c: Cipher, db0: Db, db: Db, pages: map<nat, Page>, n: nat, stop: nat)
    requires DiskFits(db0) && CacheIs(db0, pages) && StoredBelow(c, db0, db, pages, n) && n <= stop
    ensures StoredBelow(c, db0, StoreUpTo(c, db, n, stop), pages, stop)
    decreases stop - n
  {
    hide StorePage, CacheIs;
    if n < stop {
      StoreTurn(c, db0, db, pages, n);
      StoreUpToStores(c, db0, if n in db.cache then StorePage(c, db, n) else db, pages, n + 1, stop);
    }
  }

  // ----- the whole rekey -----

  /** A database between transactions. */
  ghost predicate AtRest(db: Db) {
    db.cache == map[] && db.journal == map[]
  }

  /** Setting up the new keys does not change how pages are read. */
  lemma BeginReads(codec: Option<Keys>, zKey: Option<Key>)
    requires !NothingToDo(codec, zKey)
    ensures ReadingKey(Some(BeginKeys(codec, zKey))) == ReadingKey(codec)
    ensures WritingKey(Some(BeginKeys(codec, zKey))) == zKey
  {
  }

  /** Afterwards pages are read as they were written, or, after a failure, as they were read before. */
  lemma FinishReads(codec: Option<Keys>, zKey: Option<Key>, rc: int)
    requires !NothingToDo(codec, zKey)
    ensures ReadingKey(FinishKeys(BeginKeys(codec, zKey), rc)) == if rc == SQLITE_OK then zKey else ReadingKey(codec)
  {
  }

  lemma WholeBegins(c: Cipher, db: Db, pages: map<nat, Page>, zKey: Option<Key>)
    requires Whole(c, db, pages) && AtRest(db) && !NothingToDo(db.codec, zKey)
    ensures var db1 := db.(codec := Some(BeginKeys(db.codec, zKey)));
      Whole(c, db1, pages) && OnlyJournalled(db1, db1) && TouchedBelow(db1, pages, 1)
  {
    BeginReads(db.codec, zKey);
    SameTagsItself(db.tags);
    var db1 := db.(codec := Some(BeginKeys(db.codec, zKey)));
    forall n: nat | DataPage(db1, n)
      ensures n in pages && PageFits(n, pages[n]) && Encryptable(n, pages[n])
      ensures StoredAs(c, ReadingKey(db1.codec), db1.disk[n], db1.tags, n, pages[n])
    {
      assert DataPage(db, n);
    }
  }

  lemma Committed(c: Cipher, db0: Db, db: Db, pages: map<nat, Page>, stop: nat)
    requires Whole(c, db0, pages) && DiskFits(db) && OnlyJournalled(db0, db)
    requires TouchedBelow(db, pages, db.nPage + 1) && stop >= 1
    ensures StoredBelow(c, db, StoreUpTo(c, db, 1, stop), pages, stop)
  {
    assert CacheIs(db, pages);
    StoreUpToStores(c, db, db, pages, 1, stop);
  }

  /** The bytes of the lock-byte page, and of whatever lies behind the last page, are the same. */
  ghost predicate OthersKept(db0: Db, db: Db)
    requires db0.pageSize > 0
  {
    && db.disk.Keys == db0.disk.Keys
    && forall m :: m in db0.disk && !DataPage(db0, m) ==> db.disk[m] == db0.disk[m]
  }

  /** What holds of the database when the rewriting has ended and before it is rolled back, if it is. */
  ghost predicate Rewritten(c: Cipher, db0: Db, db: Db, pages: map<nat, Page>, stop: nat, rc: int)
    requires db0.pageSize > 0
  {
    && DiskFits(db) && db.codec == db0.codec && db.nPage == db0.nPage && db.pageSize == db0.pageSize
    && (rc == SQLITE_OK ==> AtRest(db) && stop == db.nPage + 1)
    && (rc != SQLITE_OK ==> db.disk + db.journal == db0.disk)
    && OthersKept(db0, db)
    && (forall m: nat :: DataPage(db, m) && m < stop ==> StoredTag(c, db, pages, m))
    && (rc == SQLITE_OK ==> forall m: nat :: DataPage(db, m) ==> StoredPage(c, db, pages, m))
    && (forall m: nat :: DataPage(db, m) && (m >= stop || WritingKey(db0.codec).None?) ==> TagKept(db0.tags, db.tags, m))
  }

  ghost predicate StoredTag(c: Cipher, db: Db, pages: map<nat, Page>, m: nat) {
    m in pages && PageFits(m, pages[m]) && TagFits(c, WritingKey(db.codec), db.tags, m, pages[m])
  }

  /** Below which page tags have been replaced. */
  function StopOf(f: Fault, rc: int, nPage: nat): nat {
    if rc == SQLITE_OK then nPage + 1 else if f.AtCommit? then Max(1, Min(f.stop, nPage + 1)) else 1
  }

  /** What the stores below `stop` have done to the pages. */
  lemma StoredFacts(c: Cipher, db0: Db, db: Db, db2: Db, pages: map<nat, Page>, stop: nat)
    requires OnlyJournalled(db0, db) && db.pageSize > 0 && TouchedBelow(db, pages, db.nPage + 1)
    requires StoredBelow(c, db, db2, pages, stop)
    ensures forall m: nat :: DataPage(db, m) && m < stop ==> StoredPage(c, db2, pages, m)
    ensures forall m: nat :: DataPage(db, m) && (m >= stop || WritingKey(db0.codec).None?) ==>
      TagKept(db0.tags, db2.tags, m)
  {
    forall m: nat | DataPage(db, m) && m < stop
      ensures StoredPage(c, db2, pages, m)
    {
      assert m in db.cache;
    }
    SameTagKept(db.tags, db0.tags);
    forall m: nat | DataPage(db, m) && (m >= stop || WritingKey(db0.codec).None?)
      ensures TagKept(db0.tags, db2.tags, m)
    {
      assert m >= stop ==> TagKept(db.tags, db2.tags, m);
    }
  }

  /** A commit is the stores below some page; a successful one ends the transaction. */
  lemma CommitStores(c: Cipher, db: Db, f: Fault, stop: nat) returns (db2: Db)
    requires DiskFits(db) && FaultValid(f) && stop == StopOf(f, Commit(c, db, f).1, db.nPage)
    ensures db2 == StoreUpTo(c, db, 1, stop)
    ensures var (db1, rc) := Commit(c, db, f);
      if rc == SQLITE_OK then db1 == db2.(cache := map[], journal := map[]) && stop == db.nPage + 1 else db1 == db2
  {
    db2 := StoreUpTo(c, db, 1, stop);
    assert StoreUpTo(c, db, 1, 0) == StoreUpTo(c, db, 1, 1);
  }

  lemma StoredRewrites(c: Cipher, db0: Db, db: Db, db2: Db, db1: Db, pages: map<nat, Page>, stop: nat, rc: int)
    requires OnlyJournalled(db0, db) && db.pageSize > 0 && TouchedBelow(db, pages, db.nPage + 1)
    requires StoredBelow(c, db, db2, pages, stop)
    requires if rc == SQLITE_OK then db1 == db2.(cache := map[], journal := map[]) && stop == db.nPage + 1 else db1 == db2
    ensures Rewritten(c, db0, db1, pages, stop, rc)
  {
    StoredFacts(c, db0, db, db2, pages, stop);
    RollbackRestores(c, db0, db, db2, pages, stop);
    forall m: nat | DataPage(db1, m) && m < stop
      ensures StoredTag(c, db1, pages, m)
      ensures rc == SQLITE_OK ==> StoredPage(c, db1, pages, m)
    {
      assert StoredPage(c, db2, pages, m);
    }
  }

  lemma CommitRewrites(c: Cipher, db0: Db, db: Db, pages: map<nat, Page>, f: Fault)
    requires Whole(c, db0, pages) && DiskFits(db) && OnlyJournalled(db0, db) && FaultValid(f)
    requires TouchedBelow(db, pages, db.nPage + 1)
    ensures var (db1, rc) := Commit(c, db, f);
      Rewritten(c, db0, db1, pages, StopOf(f, rc, db0.nPage), rc)
  {
    hide Rewritten, StoredBelow, Commit, StoreUpTo;
    var (db1, rc) := Commit(c, db, f);
    var stop := StopOf(f, rc, db0.nPage);
    var db2 := CommitStores(c, db, f, stop);
    Committed(c, db0, db, pages, stop);
    StoredRewrites(c, db0, db, db2, db1, pages, stop, rc);
  }

  lemma RollbackRestores(c: Cipher, db0: Db, db: Db, db2: Db, pages: map<nat, Page>, stop: nat)
    requires OnlyJournalled(db0, db) && db.pageSize > 0 && TouchedBelow(db, pages, db.nPage + 1)
    requires StoredBelow(c, db, db2, pages, stop)
    ensures db2.disk + db2.journal == db0.disk
  {
    var d := db2.disk + db2.journal;
    forall m: nat | m in d
      ensures m in db0.disk && d[m] == db0.disk[m]
    {
      assert m in db2.journal <==> m in db.cache;
    }
  }

  lemma RewriteRewrites(c: Cipher, db: Db, pages: map<nat, Page>, f: Fault)
    requires Whole(c, db, pages) && AtRest(db) && FaultValid(f) && OnlyJournalled(db, db) && TouchedBelow(db, pages, 1)
    ensures var (db1, rc) := Rewrite(c, db, f);
      Rewritten(c, db, db1, pages, StopOf(f, rc, db.nPage), rc)
  {
    if f.AtBegin? {
      assert db.disk + db.journal == db.disk;
    } else {
      TouchAllKeeps(c, db, db, pages, 1, f, TouchAll(c, db, 1, f));
      var (db1, rc1) := TouchAll(c, db, 1, f);
      if rc1 == SQLITE_OK {
        CommitRewrites(c, db, db1, pages, f);
      } else {
        TouchRc(c, db, 1, f);
        assert db1.disk + db1.journal == db.disk;
      }
    }
  }

  lemma {:induction false} TouchRc(c: Cipher, db: Db, n: nat, f: Fault)
    requires DiskFits(db) && n >= 1
    ensures TouchAll(c, db, n, f).1 != SQLITE_OK ==> f.AtGet? || f.AtWrite?
    decreases db.nPage + 1 - n
  {
    if n <= db.nPage {
      TouchOneFits(c, db, n, f);
      if TouchOne(c, db, n, f).1 == SQLITE_OK {
        TouchRc(c, TouchOne(c, db, n, f).0, n + 1, f);
      }
    }
  }

  // ----- which code a rekey answers -----

  /** The fault is one that the rekey of this database runs into. */
  predicate Met(db: Db, f: Fault)
    requires db.pageSize > 0
  {
    f.AtBegin? || f.AtCommit? || ((f.AtGet? || f.AtWrite?) && DataPage(db, f.n))
  }

  /** Page `m` is to be touched and fails. */
  predicate FailsAt(db: Db, m: nat, f: Fault)
    requires db.pageSize > 0
  {
    (f.AtGet? || f.AtWrite?) && f.n == m && DataPage(db, m)
  }

  lemma TouchOneCode(c: Cipher, db: Db, n: nat, f: Fault)
    requires DiskFits(db) && 1 <= n <= db.nPage
    ensures TouchOne(c, db, n, f).1 == if FailsAt(db, n, f) then f.rc else SQLITE_OK
    ensures forall m: nat :: FailsAt(TouchOne(c, db, n, f).0, m, f) <==> FailsAt(db, m, f)
  {
  }

  /** The page loop from page `n` on stops at the page that fails, if that is still to come. */
  lemma {:induction false} TouchAllCode(c: Cipher, db: Db, n: nat, f: Fault)
    requires DiskFits(db) && n >= 1 && FaultValid(f)
    ensures TouchAll(c, db, n, f).1 != SQLITE_OK ==> !f.NoFault? && TouchAll(c, db, n, f).1 == f.rc
    ensures TouchAll(c, db, n, f).1 == SQLITE_OK <==> forall m: nat :: m >= n ==> !FailsAt(db, m, f)
    decreases db.nPage + 1 - n
  {
    if n <= db.nPage {
      TouchOneCode(c, db, n, f);
      hide TouchOne, DiskFits, FailsAt;
      var db1, rc := TouchAllTurn(c, db, n, f);
      if rc == SQLITE_OK {
        TouchAllCode(c, db1, n + 1, f);
      }
    }
  }

  /** A rekey succeeds if and only if there is nothing to do or nothing that it runs into fails; else its code is that
      of what failed. */
  lemma RekeyCode(c: Cipher, db: Db, zKey: Option<Key>, f: Fault)
    requires DiskFits(db) && FaultValid(f)
    ensures Rekey(c, db, zKey, f).1 == if !NothingToDo(db.codec, zKey) && Met(db, f) then f.rc else SQLITE_OK
    ensures Rekey(c, db, zKey, f).1 == SQLITE_OK <==> NothingToDo(db.codec, zKey) || !Met(db, f)
  {
    if !NothingToDo(db.codec, zKey) {
      var db0 := db.(codec := Some(BeginKeys(db.codec, zKey)));
      TouchAllCode(c, db0, 1, f);
      assert DiskFits(db0);
      assert f.AtGet? || f.AtWrite? ==> (FailsAt(db0, f.n, f) <==> DataPage(db, f.n)) && f.n >= 0;
      hide TouchAll, BeginKeys, FinishKeys, StoreUpTo, DiskFits;
    }
  }

  /** A rekey that succeeds with a key leaves a codec that reads and writes with it; one that succeeds without a key
      leaves none, unless there was nothing to do. */
  lemma RekeyedKeys(c: Cipher, db: Db, zKey: Option<Key>, f: Fault)
    requires DiskFits(db)
    ensures var (db1, rc) := Rekey(c, db, zKey, f);
      && (rc == SQLITE_OK && zKey.Some? ==> db1.codec == Some(Keys(true, true, zKey.value, true, zKey.value)))
      && (rc == SQLITE_OK && zKey.None? ==> db1.codec == if NothingToDo(db.codec, zKey) then db.codec else None)
  {
    hide Transaction;
  }

  /** A page is loaded, found authentic, and is what it should be. */
  ghost predicate Readable(c: Cipher, db: Db, pages: map<nat, Page>, n: nat) {
    && n in pages && n in db.disk && PageFits(n, db.disk[n])
    && Codec(c, db.codec, db.tags, db.disk[n], n, Load) == Coded(pages[n], db.tags, true)
  }

  /** Success: the database is at rest, pages are read with the new key, or in plain when it is dropped, and every
      page but the lock-byte page has the content it had. */
  lemma RekeySucceeds(c: Cipher, db: Db, pages: map<nat, Page>, zKey: Option<Key>, f: Fault)
    requires Whole(c, db, pages) && AtRest(db) && FaultValid(f)
    requires Rekey(c, db, zKey, f).1 == SQLITE_OK
    ensures var db1 := Rekey(c, db, zKey, f).0;
      && ReadingKey(db1.codec) == zKey && AtRest(db1) && Whole(c, db1, pages) && OthersKept(db, db1)
      && forall n: nat :: DataPage(db1, n) ==> Readable(c, db1, pages, n)
  {
    var db1 := Rekey(c, db, zKey, f).0;
    if !NothingToDo(db.codec, zKey) {
      FinishReads(db.codec, zKey, SQLITE_OK);
      BeginReads(db.codec, zKey);
      WholeBegins(c, db, pages, zKey);
      RewriteRewrites(c, db.(codec := Some(BeginKeys(db.codec, zKey))), pages, f);
      var db2 := Rewrite(c, db.(codec := Some(BeginKeys(db.codec, zKey))), f).0;
      forall n: nat | DataPage(db1, n)
        ensures n in pages && PageFits(n, pages[n]) && Encryptable(n, pages[n])
        ensures StoredAs(c, ReadingKey(db1.codec), db1.disk[n], db1.tags, n, pages[n])
      {
        assert DataPage(db, n) && StoredPage(c, db2, pages, n);
      }
    }
    forall n: nat | DataPage(db1, n)
      ensures Readable(c, db1, pages, n)
    {
      StoredLoads(c, db1.codec, db1.disk[n], db1.tags, n, pages[n]);
    }
  }

  /** Whether the failed commit has replaced the tag of page `n` by a different one. */
  ghost predicate TagReplaced(c: Cipher, db: Db, pages: map<nat, Page>, zKey: Option<Key>, f: Fault, n: nat)
    requires n in pages && PageFits(n, pages[n])
  {
    && f.AtCommit? && n < f.stop && ReadingKey(db.codec).Some? && zKey.Some?
    && PageTag(c, zKey.value, n, pages[n]) != PageTag(c, ReadingKey(db.codec).value, n, pages[n])
  }

  /** Failure: the bytes on disk and the key that pages are read with are those from before, and a page is readable
      if and only if the commit had not yet replaced its tag. So a rekey that fails before its commit starts leaves
      every page readable, as does a first encryption or a decryption that fails at any point. */
  lemma RekeyFails(c: Cipher, db: Db, pages: map<nat, Page>, zKey: Option<Key>, f: Fault, n: nat)
    requires Whole(c, db, pages) && AtRest(db) && FaultValid(f) && DataPage(db, n)
    requires Rekey(c, db, zKey, f).1 != SQLITE_OK
    ensures var db1 := Rekey(c, db, zKey, f).0;
      && db1.disk == db.disk && AtRest(db1) && ReadingKey(db1.codec) == ReadingKey(db.codec)
      && (Readable(c, db1, pages, n) <==> !TagReplaced(c, db, pages, zKey, f, n))
  {
    var rc := Rekey(c, db, zKey, f).1;
    var db1 := Rekey(c, db, zKey, f).0;
    FinishReads(db.codec, zKey, rc);
    BeginReads(db.codec, zKey);
    WholeBegins(c, db, pages, zKey);
    RewriteRewrites(c, db.(codec := Some(BeginKeys(db.codec, zKey))), pages, f);
    var db2 := Rewrite(c, db.(codec := Some(BeginKeys(db.codec, zKey))), f).0;
    var key := ReadingKey(db.codec);
    assert db1.tags == db2.tags;
    if zKey.None? || n >= StopOf(f, rc, db.nPage) {
      assert TagKept(db.tags, db1.tags, n);
      StoredLoads(c, db1.codec, db1.disk[n], db1.tags, n, pages[n]);
    } else {
      assert StoredTag(c, db2, pages, n);
      if key.None? || db1.tags[n] == PageTag(c, key.value, n, pages[n]) {
        StoredLoads(c, db1.codec, db1.disk[n], db1.tags, n, pages[n]);
      } else {
        NotAuthentic(c, db1.codec, db1.disk[n], db1.tags, n, pages[n]);
      }
    }
  }

  /** The right bytes with another tag are refused. */
  lemma NotAuthentic(c: Cipher, codec: Option<Keys>, raw: Page, tags: map<int, Tag>, n: nat, p: Page)
    requires PageFits(n, p) && Encryptable(n, p) && ReadingKey(codec).Some?
    requires raw == EncryptPage(c, ReadingKey(codec).value, n, p)
    requires n in tags && tags[n] != PageTag(c, ReadingKey(codec).value, n, p)
    ensures !Codec(c, codec, tags, raw, n, Load).authentic
  {
    if n == 1 {
      SealedFirstPage(c, ReadingKey(codec).value, p);
    }
  }
}
