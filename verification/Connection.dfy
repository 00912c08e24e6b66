/** The codecs of a connection, one for each of its databases, and attaching a key to one of them. */
module Connection {
  import opened Posix
  import opened PageCodec
  import opened RekeySpec
  import opened KeysSpec
  import opened CodecObject
  import opened EncryptedDatabase
  import opened Wrappers

  class Databases {
    const codecs: array<CodecState?>
    ghost var keys: seq<Option<Keys>>

    /** The codecs have the key states `keys`. */
    ghost predicate Valid()
      reads this, codecs
      reads set i | 0 <= i < codecs.Length && codecs[i] != null :: codecs[i]
      reads set i | 0 <= i < codecs.Length && codecs[i] != null :: codecs[i].readKey
      reads set i | 0 <= i < codecs.Length && codecs[i] != null :: codecs[i].writeKey
    {
      && |keys| == codecs.Length
      && forall i :: 0 <= i < codecs.Length ==>
        && (codecs[i] != null ==> codecs[i].Valid())
        && keys[i] == KeysOf(codecs[i])
    }

    constructor (n: nat)
      ensures Valid() && fresh(codecs) && codecs.Length == n && forall i :: 0 <= i < n ==> keys[i] == None
    {
      codecs := new CodecState?[n](_ => null);
      keys := seq(n, _ => None);
    }

    /** A key makes an encrypted codec; without one the codec of an encrypted main database is copied. */
    method CodecAttach(nDb: nat, zKey: Option<seq<byte>>, nKey: int)
      requires Valid() && nDb < codecs.Length && (nKey > 0 ==> LongEnough(zKey))
      modifies `keys, codecs
      ensures Valid()
      ensures keys == AttachKeys(old(keys), nDb, KeyOf(zKey), nKey)
      ensures zKey.Some? && nKey > 0 ==>
        var key := zKey.value[..KEYLENGTH];
        keys == old(keys)[nDb := Some(Keys(true, true, key, true, key))]
    {
      var codec := new CodecState.Init();
      if zKey.None? || nKey <= 0 {
        if nDb != 0 && nKey > 0 {
          AttachMain(nDb, codec);
        }
      } else {
        codec.isEncrypted := true;
        codec.hasReadKey := true;
        codec.hasWriteKey := true;
        codec.GenerateReadKey(zKey.value);
        codec.CopyKey(true);
        Set(nDb, codec);
      }
    }

    /** No key specified: `codec` becomes a copy of that of the main database, if that is encrypted. */
    method AttachMain(nDb: nat, codec: CodecState)
      requires Valid() && nDb < codecs.Length && codec.Valid()
      requires forall i :: 0 <= i < codecs.Length && codecs[i] != null ==>
        codecs[i] != codec && {codec.readKey, codec.writeKey} !! {codecs[i].readKey, codecs[i].writeKey}
      modifies `keys, codecs, codec, codec.readKey, codec.writeKey
      ensures Valid()
      ensures keys == if old(keys)[0].Some? && old(keys)[0].value.isEncrypted
        then old(keys)[nDb := old(keys)[0]] else old(keys)
    {
      var mainCodec := codecs[0];
      assert keys[0] == KeysOf(mainCodec);
      if mainCodec != null && mainCodec.isEncrypted {
        codec.CopyFrom(mainCodec);
        Set(nDb, codec);
      } else {
        codec.isEncrypted := false;
      }
    }

    /** Hands a codec to the pager of a database. */
    method Set(nDb: nat, codec: CodecState)
      requires Valid() && nDb < codecs.Length && codec.Valid()
      modifies `keys, codecs
      ensures Valid()
      ensures keys == old(keys)[nDb := Some(codec.View())]
    {
      codecs[nDb] := codec;
      keys := keys[nDb := Some(codec.View())];
    }
  }
}
