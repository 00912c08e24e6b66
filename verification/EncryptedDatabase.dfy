/** A database with its codec, the codec callback of the pager, and the rekey operation, step by step. Every method is
    tied to its function in RekeySpec. */
module EncryptedDatabase {
  import opened Posix
  import opened PageCodec
  import opened RekeySpec
  import opened CodecObject
  import opened Wrappers

  ghost function KeysOf(codec: CodecState?): Option<Keys>
    reads codec, if codec == null then {} else {codec.readKey, codec.writeKey}
  {
    if codec == null then None else Some(codec.View())
  }

  /** The callback of the pager. Decryption works in the caller's page; encryption works in the codec's page buffer and
      leaves the caller's page alone. */
  method Sqlite3Codec(c: Cipher, codec: CodecState?, data: array<byte>, nPageNum: nat, nMode: int, tag: TagStore)
    returns (out: array<byte>, ok: bool)
    requires data.Length <= MAX_PAGE && PageFits(nPageNum, data[..])
    requires codec != null ==> codec.Valid()
    requires codec != null ==> data != codec.readKey && data != codec.writeKey && data != codec.pageBuffer
    modifies data, tag, if codec == null then {} else {codec.pageBuffer}
    ensures out == data || (codec != null && out == codec.pageBuffer)
    ensures out.Length >= data.Length
    ensures Coded(out[..data.Length], tag.m, ok) ==
      Codec(c, KeysOf(codec), old(tag.m), old(data[..]), nPageNum, ModeOf(nMode))
    ensures nMode !in {0, 2, 3} ==> data[..] == old(data[..])
    ensures var key, page, tags := ReadingKey(KeysOf(codec)), old(data[..]), old(tag.m);
      && (key.Some? && nMode in {0, 2, 3} ==>
          (ok, out[..data.Length]) == DecryptPage(c, key.value, nPageNum, page, TagOf(tags, nPageNum)) && tag.m == tags)
      && (key.Some? && nMode == 7 ==>
          out[..data.Length] == EncryptPage(c, key.value, nPageNum, page)
          && tag.m == EncryptTags(c, key.value, nPageNum, page, tags))
    ensures var key, page, tags := WritingKey(KeysOf(codec)), old(data[..]), old(tag.m);
      key.Some? && nMode == 6 ==>
        out[..data.Length] == EncryptPage(c, key.value, nPageNum, page)
        && tag.m == EncryptTags(c, key.value, nPageNum, page, tags)
  {
    out, ok := data, true;
    assert data[..data.Length] == data[..];
    if codec == null || !codec.isEncrypted {
      return;
    }
    var pageSize := data.Length;
    if nMode == 0 || nMode == 2 || nMode == 3 {
      if codec.hasReadKey {
        ok := codec.CodecDecrypt(c, nPageNum, data, pageSize, tag);
      }
    } else if nMode == 6 {
      if codec.hasWriteKey {
        out := BufferEncrypt(c, codec, data, nPageNum, true, tag);
      }
    } else if nMode == 7 {
      if codec.hasReadKey {
        out := BufferEncrypt(c, codec, data, nPageNum, false, tag);
      }
    }
  }

  /** Copies a page into the page buffer and encrypts it there. */
  method BufferEncrypt(c: Cipher, codec: CodecState, data: array<byte>, nPageNum: nat, useWriteKey: bool, tag: TagStore)
    returns (out: array<byte>)
    requires data.Length <= MAX_PAGE && PageFits(nPageNum, data[..]) && codec.Valid() && data != codec.pageBuffer
    modifies codec.pageBuffer, tag
    ensures out == codec.pageBuffer && out.Length >= data.Length
    ensures var key := if useWriteKey then codec.writeKey[..] else codec.readKey[..];
      && out[..data.Length] == EncryptPage(c, key, nPageNum, data[..])
      && tag.m == EncryptTags(c, key, nPageNum, data[..], old(tag.m))
  {
    out := codec.pageBuffer;
    Copy(out, 0, data, 0, data.Length);
    assert data[0..data.Length] == data[..];
    assert out[..data.Length] == data[..];
    codec.CodecEncrypt(c, nPageNum, out, data.Length, useWriteKey, tag);
  }

  class Database {
    var codec: CodecState?
    const tag: TagStore
    var disk: map<nat, Page>
    var cache: map<nat, Page>
    var journal: map<nat, Page>
    var gets: seq<nat>
    const nPage: nat
    const pageSize: nat

    ghost predicate Sized(pages: map<nat, Page>) {
      forall n :: n in pages ==> |pages[n]| == pageSize
    }

    ghost predicate Valid()
      reads this
    {
      && MIN_PAGE <= pageSize <= MAX_PAGE
      && (codec != null ==> codec.Valid())
      && (forall n: nat :: 1 <= n <= nPage ==> n in disk)
      && Sized(disk) && Sized(cache) && Sized(journal)
    }

    ghost function View(): (db: Db)
      requires Valid()
      ensures DiskFits(db)
      reads this, tag, codec, if codec == null then {} else {codec.readKey, codec.writeKey}
    {
      Db(KeysOf(codec), disk, tag.m, cache, journal, gets, nPage, pageSize)
    }

    /** A database without a codec. */
    constructor (disk: map<nat, Page>, tag: TagStore, nPage: nat, pageSize: nat)
      requires MIN_PAGE <= pageSize <= MAX_PAGE
      requires forall n :: n in disk ==> |disk[n]| == pageSize
      requires forall n: nat :: 1 <= n <= nPage ==> n in disk
      ensures Valid() && View() == Db(None, disk, tag.m, map[], map[], [], nPage, pageSize)
    {
      codec := null;
      this.tag, this.disk, this.nPage, this.pageSize := tag, disk, nPage, pageSize;
      cache, journal, gets := map[], map[], [];
    }

    /** One call of the codec on a page that is held as a value. */
    method Code(c: Cipher, n: nat, page: Page, nMode: int) returns (out: Page)
      requires Valid() && |page| == pageSize
      modifies tag, if codec == null then {} else {codec.pageBuffer}
      ensures var r := Codec(c, KeysOf(codec), old(tag.m), page, n, ModeOf(nMode));
        out == r.out && tag.m == r.tags
    {
      var data := new byte[|page|](i requires 0 <= i < |page| => page[i]);
      assert data[..] == page;
      var a, _ := Sqlite3Codec(c, codec, data, n, nMode, tag);
      out := a[..data.Length];
    }

    method PagerGet(c: Cipher, n: nat)
      requires Valid() && n in disk
      modifies `cache, `gets, tag, if codec == null then {} else {codec.pageBuffer}
      ensures Valid() && View() == GetPage(c, old(View()), n)
    {
      gets := gets + [n];
      var page := Code(c, n, disk[n], 3);
      cache := cache[n := page];
    }

    /** Encodes the page for the journal; `record` says whether the record is completed. */
    method PagerWrite(c: Cipher, n: nat, record: bool)
      requires Valid() && n in cache
      modifies `journal, tag, if codec == null then {} else {codec.pageBuffer}
      ensures Valid() && View() == WritePage(c, old(View()), n, record)
    {
      var raw := Code(c, n, cache[n], 7);
      if record {
        journal := journal[n := raw];
      }
    }

    /** Stores the pages to be written below `stop`, in ascending order. */
    method StorePages(c: Cipher, stop: nat)
      requires Valid()
      modifies `disk, tag, if codec == null then {} else {codec.pageBuffer}
      ensures Valid() && View() == StoreUpTo(c, old(View()), 1, stop)
    {
      ghost var goal := StoreUpTo(c, View(), 1, stop);
      var n := 1;
      while n < stop
        invariant Valid() && n >= 1 && StoreUpTo(c, View(), n, stop) == goal
        decreases stop - n
      {
        if n in cache {
          var raw := Code(c, n, cache[n], 6);
          disk := disk[n := raw];
        }
        n := n + 1;
      }
    }

    method BtreeCommit(c: Cipher, f: Fault) returns (rc: int)
      requires Valid()
      modifies `disk, `cache, `journal, tag, if codec == null then {} else {codec.pageBuffer}
      ensures Valid() && (View(), rc) == Commit(c, old(View()), f)
    {
      if f.AtCommit? {
        StorePages(c, Min(f.stop, nPage + 1));
        return f.rc;
      }
      StorePages(c, nPage + 1);
      cache, journal := map[], map[];
      return SQLITE_OK;
    }

    method BtreeRollback()
      requires Valid()
      modifies `disk, `cache, `journal
      ensures Valid() && View() == Rollback(old(View()))
    {
      disk, cache, journal := disk + journal, map[], map[];
    }

    /** One turn of the page loop. */
    method TouchOnePage(c: Cipher, n: nat, nSkip: nat, f: Fault) returns (rc: int)
      requires Valid() && 1 <= n <= nPage && nSkip == SkipPage(pageSize)
      modifies `cache, `journal, `gets, tag, if codec == null then {} else {codec.pageBuffer}
      ensures Valid() && (View(), rc) == TouchOne(c, old(View()), n, f)
    {
      if n == nSkip {
        return SQLITE_OK;
      }
      if f.AtGet? && f.n == n {
        gets := gets + [n];
        return f.rc;
      }
      PagerGet(c, n);
      if f.AtWrite? && f.n == n {
        if f.encoded {
          PagerWrite(c, n, false);
        }
        return f.rc;
      }
      PagerWrite(c, n, true);
      return SQLITE_OK;
    }

    /** The page loop. */
    method TouchPages(c: Cipher, f: Fault) returns (rc: int)
      requires Valid()
      modifies `cache, `journal, `gets, tag, if codec == null then {} else {codec.pageBuffer}
      ensures Valid() && (View(), rc) == TouchAll(c, old(View()), 1, f)
    {
      hide TouchOne;
      var nSkip := SkipPage(pageSize);
      var n := 1;
      rc := SQLITE_OK;
      while rc == SQLITE_OK && n <= nPage
        invariant Valid() && 1 <= n <= nPage + 1
        invariant (if rc == SQLITE_OK then TouchAll(c, View(), n, f) else (View(), rc)) == old(TouchAll(c, View(), 1, f))
        decreases nPage + 1 - n
      {
        rc := TouchOnePage(c, n, nSkip, f);
        n := n + 1;
      }
    }

    /** Writes every page with the new keys and commits. */
    method RewritePages(c: Cipher, f: Fault) returns (rc: int)
      requires Valid()
      modifies `disk, `cache, `journal, `gets, tag, if codec == null then {} else {codec.pageBuffer}
      ensures Valid() && (View(), rc) == Rewrite(c, old(View()), f)
    {
      if f.AtBegin? {
        return f.rc;
      }
      rc := TouchPages(c, f);
      if rc == SQLITE_OK {
        rc := BtreeCommit(c, f);
      }
    }

    /** The transaction: everything is written, or nothing. */
    method RewriteOrRollback(c: Cipher, f: Fault) returns (rc: int)
      requires Valid()
      modifies `disk, `cache, `journal, `gets, tag, if codec == null then {} else {codec.pageBuffer}
      ensures Valid() && (View(), rc) == Transaction(c, old(View()), f)
    {
      rc := RewritePages(c, f);
      if rc != SQLITE_OK {
        BtreeRollback();
      }
    }

    method RekeySteps(c: Cipher, zKey: Option<Key>, f: Fault) returns (rc: int)
      requires Valid() && LongEnough(zKey)
      modifies this, tag
      modifies if codec == null then {} else {codec, codec.readKey, codec.writeKey, codec.pageBuffer}
      ensures Valid() && (View(), rc) == Rekey(c, old(View()), KeyOf(zKey), f)
    {
      hide Transaction, BeginKeys, FinishKeys;
      if zKey.None? && (codec == null || !codec.isEncrypted) {
        return SQLITE_OK;
      }
      BeginRekey(zKey);
      rc := RewriteOrRollback(c, f);
      FinishRekey(rc);
    }

    /** The whole operation. It succeeds exactly when there is nothing to do or nothing fails that it runs into, and then
        the codec reads and writes with the first 16 bytes of the new password. */
    method RekeyV2(c: Cipher, zKey: Option<seq<byte>>, f: Fault) returns (rc: int)
      requires Valid() && LongEnough(zKey)
      modifies this, tag
      modifies if codec == null then {} else {codec, codec.readKey, codec.writeKey, codec.pageBuffer}
      ensures Valid() && (View(), rc) == Rekey(c, old(View()), KeyOf(zKey), f)
      ensures FaultValid(f) ==>
        (rc == SQLITE_OK <==> NothingToDo(old(View()).codec, zKey) || !Met(old(View()), f))
      ensures rc == SQLITE_OK && zKey.Some? ==>
        var key := zKey.value[..KEYLENGTH];
        View().codec == Some(Keys(true, true, key, true, key))
    {
      if FaultValid(f) {
        RekeyCode(c, View(), KeyOf(zKey), f);
      }
      RekeyedKeys(c, View(), KeyOf(zKey), f);
      hide Rekey, Met, FaultValid;
      rc := RekeySteps(c, zKey, f);
    }

    /** Sets up the keys for rewriting. */
    method BeginRekey(zKey: Option<Key>)
      requires Valid() && LongEnough(zKey) && !NothingToDo(KeysOf(codec), KeyOf(zKey))
      modifies `codec
      modifies if codec == null then {} else {codec, codec.readKey, codec.writeKey}
      ensures Valid() && codec != null
      ensures
        || codec == old(codec)
        || (fresh(codec) && fresh(codec.readKey) && fresh(codec.writeKey) && fresh(codec.pageBuffer))
      ensures View() == old(View()).(codec := Some(BeginKeys(old(KeysOf(codec)), KeyOf(zKey))))
    {
      if codec == null || !codec.isEncrypted {
        if codec == null {
          codec := new CodecState.Init();
        }
        codec.isEncrypted := true;
        codec.hasReadKey := false;
        codec.hasWriteKey := true;
        codec.GenerateWriteKey(zKey.value);
      } else if zKey.None? {
        codec.hasWriteKey := false;
      } else {
        codec.GenerateWriteKey(zKey.value);
        codec.hasWriteKey := true;
      }
    }

    /** Settles the keys; the codec of an unencrypted database is removed. */
    method FinishRekey(rc: int)
      requires Valid() && codec != null
      modifies `codec, codec, codec.readKey, codec.writeKey
      ensures Valid()
      ensures View() == old(View()).(codec := FinishKeys(old(codec.View()), rc))
    {
      if rc == SQLITE_OK {
        if codec.hasWriteKey {
          codec.CopyKey(false);
          codec.hasReadKey := true;
        } else {
          codec.isEncrypted := false;
        }
      } else {
        if codec.hasReadKey {
          codec.CopyKey(true);
        } else {
          codec.isEncrypted := false;
        }
      }
      if !codec.isEncrypted {
        codec := null;
      }
    }
  }
}
