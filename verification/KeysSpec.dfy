/** The key state of the codecs of a connection over any sequence of attaching keys and rekeying. */
module KeysSpec {
  import opened Posix
  import opened PageCodec
  import opened RekeySpec
  import opened Wrappers

  /** What happens to the codec of database `nDb`. `zKey` is None for a missing key. The result of a rekey is whatever
      the pager makes of it. */
  datatype Event = Attach(nDb: nat, zKey: Option<Key>, nKey: int) | Rekeyed(nDb: nat, zKey: Option<Key>, rc: int)

  /** Attaching without a key to a database other than the main one copies the codec of an encrypted main database. */
  function AttachKeys(codecs: seq<Option<Keys>>, nDb: nat, zKey: Option<Key>, nKey: int): (r: seq<Option<Keys>>)
    requires nDb < |codecs|
    ensures |r| == |codecs|
  {
    if zKey.None? || nKey <= 0 then
      if nDb != 0 && nKey > 0 && codecs[0].Some? && codecs[0].value.isEncrypted then codecs[nDb := codecs[0]]
      else codecs
    else codecs[nDb := Some(Keys(true, true, zKey.value, true, zKey.value))]
  }

  /** Which database gets which key. With a key, database `nDb` reads and writes with it; without one, a database other
      than the main one reads and writes like the main one, if that is encrypted; and nothing else changes. */
  lemma AttachMeans(codecs: seq<Option<Keys>>, nDb: nat, zKey: Option<Key>, nKey: int)
    requires nDb < |codecs|
    ensures var r := AttachKeys(codecs, nDb, zKey, nKey);
      && (forall j :: 0 <= j < |codecs| && j != nDb ==> r[j] == codecs[j])
      && (zKey.Some? && nKey > 0 ==> ReadingKey(r[nDb]) == WritingKey(r[nDb]) == zKey)
      && (zKey.None? && nKey > 0 && nDb != 0 && codecs[0].Some? && codecs[0].value.isEncrypted ==>
          r[nDb] == codecs[0] && ReadingKey(r[nDb]) == ReadingKey(r[0]) && WritingKey(r[nDb]) == WritingKey(r[0]))
      && (nKey <= 0 || (zKey.None? && (nDb == 0 || codecs[0].None? || !codecs[0].value.isEncrypted)) ==> r == codecs)
  {
  }

  function RekeyKeys(codec: Option<Keys>, zKey: Option<Key>, rc: int): Option<Keys> {
    if NothingToDo(codec, zKey) then codec else FinishKeys(BeginKeys(codec, zKey), rc)
  }

  function KeyStep(codecs: seq<Option<Keys>>, e: Event): (r: seq<Option<Keys>>)
    requires e.nDb < |codecs|
    ensures |r| == |codecs|
  {
    match e
    case Attach(nDb, zKey, nKey) => AttachKeys(codecs, nDb, zKey, nKey)
    case Rekeyed(nDb, zKey, rc) => codecs[nDb := RekeyKeys(codecs[nDb], zKey, rc)]
  }

  function KeyRun(codecs: seq<Option<Keys>>, es: seq<Event>): (r: seq<Option<Keys>>)
    requires forall i :: 0 <= i < |es| ==> es[i].nDb < |codecs|
    ensures |r| == |codecs|
    decreases |es|
  {
    if es == [] then codecs else KeyRun(KeyStep(codecs, es[0]), es[1..])
  }

  /** Outside a rekey: a codec is there only if the database is encrypted; then it has a read key, and its two keys
      are equal. */
  ghost predicate KeysAgree(codec: Option<Keys>) {
    codec.Some? ==> codec.value.isEncrypted && codec.value.hasReadKey && codec.value.readKey == codec.value.writeKey
  }

  /** What a rekey does to the key state, case by case. */
  lemma RekeyCases(codec: Option<Keys>, zKey: Option<Key>, rc: int)
    requires KeysAgree(codec)
    ensures KeysAgree(RekeyKeys(codec, zKey, rc))
    ensures rc == SQLITE_OK && zKey.Some? ==>
      RekeyKeys(codec, zKey, rc) == Some(Keys(true, true, zKey.value, true, zKey.value))
    ensures rc == SQLITE_OK && zKey.None? ==> RekeyKeys(codec, zKey, rc) == None
    ensures rc != SQLITE_OK && codec.Some? && zKey.Some? ==>
      RekeyKeys(codec, zKey, rc) == Some(codec.value.(hasWriteKey := true))
    ensures rc != SQLITE_OK && codec.Some? && zKey.None? ==>
      RekeyKeys(codec, zKey, rc) == Some(codec.value.(hasWriteKey := false))
    ensures rc != SQLITE_OK && codec.None? ==> RekeyKeys(codec, zKey, rc) == None
  {
  }

  /** Exactly when a rekey leaves a codec that writes with another key than it reads with, or with none: when the
      decryption of an encrypted database fails. */
  lemma SettledExactly(codec: Option<Keys>, zKey: Option<Key>, rc: int)
    requires KeysAgree(codec) && Settled(codec)
    ensures Settled(RekeyKeys(codec, zKey, rc)) <==> !(codec.Some? && zKey.None? && rc != SQLITE_OK)
  {
    RekeyCases(codec, zKey, rc);
  }

  /** A rekey without a key that fails on an encrypted database. */
  predicate FailedDecrypt(e: Event) {
    e.Rekeyed? && e.zKey.None? && e.rc != SQLITE_OK
  }

  /** Over any sequence of events the keys agree; and when no decryption of a database has failed, every codec writes
      with the key it reads with. */
  lemma {:induction false} KeysAlwaysAgree(codecs: seq<Option<Keys>>, es: seq<Event>)
    requires forall i :: 0 <= i < |es| ==> es[i].nDb < |codecs|
    requires forall j :: 0 <= j < |codecs| ==> KeysAgree(codecs[j])
    ensures forall j :: 0 <= j < |codecs| ==> KeysAgree(KeyRun(codecs, es)[j])
    ensures
      (forall j :: 0 <= j < |codecs| ==> Settled(codecs[j])) && (forall i :: 0 <= i < |es| ==> !FailedDecrypt(es[i])) ==>
      forall j :: 0 <= j < |codecs| ==> Settled(KeyRun(codecs, es)[j])
    decreases |es|
  {
    if es != [] {
      var codecs1 := KeyStep(codecs, es[0]);
      forall j | 0 <= j < |codecs|
        ensures KeysAgree(codecs1[j])
      {
        if es[0].Rekeyed? {
          RekeyCases(codecs[es[0].nDb], es[0].zKey, es[0].rc);
        }
      }
      assert es[0] in es;
      KeysAlwaysAgree(codecs1, es[1..]);
    }
  }

  /** The bytes a load of page `n` checks against its tag. */
  function CheckedPart(n: int, raw: Page): seq<byte>
    requires PageFits(n, raw)
  {
    if n == 1 && ValidHeader(Header(raw)) then raw[8..16] + raw[24..] else raw
  }

  /** After a failed decryption the codec reads with its key and writes in plain. A page stored then lies on disk as
      it is, under the tag from before, and is refused by the next load exactly when that tag is not by chance the
      tag of the plain bytes. */
  lemma FailedDecryptStoresPlain(c: Cipher, codec: Option<Keys>, tags: map<int, Tag>, n: int, p: Page, rc: int)
    requires PageFits(n, p) && KeysAgree(codec) && codec.Some? && rc != SQLITE_OK
    ensures var codec1 := RekeyKeys(codec, None, rc);
      && !Settled(codec1)
      && Codec(c, codec1, tags, p, n, Store) == Coded(p, tags, true)
      && (Codec(c, codec1, tags, p, n, Load).authentic <==>
          c.mac(codec.value.readKey, CheckedPart(n, p)) == TagOf(tags, n))
  {
    RekeyCases(codec, None, rc);
  }
}
