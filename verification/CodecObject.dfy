/** The codec as the program has it: flags and key arrays that are set step by step, a page buffer, and pages that are
    encrypted and decrypted in place. The methods are tied to PageCodec and RekeySpec. */
module CodecObject {
  import opened Posix
  import opened PageCodec
  import opened RekeySpec
  import opened Wrappers

  const KEYLENGTH: nat := 16

  /** A password has at least the length of a key, which is made of its first bytes. */
  predicate LongEnough(zKey: Option<seq<byte>>) {
    zKey.Some? ==> |zKey.value| >= KEYLENGTH
  }

  function KeyOf(zKey: Option<seq<byte>>): Option<Key> {
    if zKey.None? then None else Some(zKey.value[..Min(KEYLENGTH, |zKey.value|)])
  }

  /** The global tag map; HashTable and TableSpec show that the program's hash map is a finite map. */
  class TagStore {
    var m: map<int, Tag>

    constructor ()
      ensures m == map[]
    {
      m := map[];
    }
  }

  /** memcpy of `n` bytes within or between arrays; the ranges do not overlap. */
  method Copy(dst: array<byte>, d: nat, src: array<byte>, s: nat, n: nat)
    requires d + n <= dst.Length && s + n <= src.Length
    requires dst == src ==> d + n <= s || s + n <= d
    modifies dst
    ensures dst[..] == old(dst[..d]) + old(src[s..s + n]) + old(dst[d + n..])
  {
    forall i | 0 <= i < n {
      dst[d + i] := src[s + i];
    }
  }

  lemma Parts(s: seq<byte>, a: seq<byte>, b: seq<byte>, c: seq<byte>)
    requires s == a + b + c
    ensures s[..|a|] == a && s[|a|..|a| + |b|] == b && s[|a| + |b|..] == c
  {
  }

  method CopySeq(dst: array<byte>, d: nat, src: seq<byte>)
    requires d + |src| <= dst.Length
    modifies dst
    ensures dst[..] == old(dst[..d]) + src + old(dst[d + |src|..])
  {
    forall i | 0 <= i < |src| {
      dst[d + i] := src[i];
    }
  }

  /** Combines the bytes from `lo` to `hi` with the stream of the key. */
  method StreamInPlace(c: Cipher, key: Key, data: array<byte>, lo: nat, hi: nat)
    requires lo <= hi <= data.Length
    modifies data
    ensures data[..] == old(data[..lo]) + Seal(c, key, old(data[lo..hi])) + old(data[hi..])
  {
    for i := lo to hi
      invariant forall j :: 0 <= j < data.Length && (j < lo || j >= i) ==> data[j] == old(data[j])
      invariant forall j :: lo <= j < i ==> data[j] == Xor(old(data[j]), c.stream(key, j - lo))
    {
      data[i] := Xor(data[i], c.stream(key, i - lo));
    }
  }

  method AesEncrypt(c: Cipher, key: Key, data: array<byte>, lo: nat, hi: nat) returns (mac: Tag)
    requires lo <= hi <= data.Length
    modifies data
    ensures data[..] == old(data[..lo]) + Seal(c, key, old(data[lo..hi])) + old(data[hi..])
    ensures mac == c.mac(key, Seal(c, key, old(data[lo..hi])))
  {
    StreamInPlace(c, key, data, lo, hi);
    assert data[lo..hi] == Seal(c, key, old(data[lo..hi]));
    mac := c.mac(key, data[lo..hi]);
  }

  method AesDecrypt(c: Cipher, key: Key, data: array<byte>, lo: nat, hi: nat, mac: Tag) returns (ok: bool)
    requires lo <= hi <= data.Length
    modifies data
    ensures ok == Unseal(c, key, old(data[lo..hi]), mac).0
    ensures data[..] == old(data[..lo]) + Unseal(c, key, old(data[lo..hi]), mac).1 + old(data[hi..])
  {
    ok := c.mac(key, data[lo..hi]) == mac;
    if ok {
      StreamInPlace(c, key, data, lo, hi);
    } else {
      var left := Unseal(c, key, data[lo..hi], mac).1;
      CopySeq(data, lo, left);
    }
  }

  class CodecState {
    var isEncrypted: bool
    var hasReadKey: bool
    const readKey: array<byte>
    var hasWriteKey: bool
    const writeKey: array<byte>
    const pageBuffer: array<byte>

    ghost predicate Valid() {
      && readKey.Length == KEYLENGTH && writeKey.Length == KEYLENGTH && pageBuffer.Length == MAX_PAGE
      && readKey != writeKey && readKey != pageBuffer && writeKey != pageBuffer
    }

    ghost function View(): Keys
      reads this, readKey, writeKey
    {
      Keys(isEncrypted, hasReadKey, readKey[..], hasWriteKey, writeKey[..])
    }

    constructor Init()
      ensures Valid() && View() == NewKeys()
      ensures fresh(readKey) && fresh(writeKey) && fresh(pageBuffer)
    {
      isEncrypted, hasReadKey, hasWriteKey := false, false, false;
      readKey := new byte[KEYLENGTH](_ => 0);
      writeKey := new byte[KEYLENGTH](_ => 0);
      pageBuffer := new byte[MAX_PAGE](_ => 0);
      new;
      assert readKey[..] == Zeros(16) && writeKey[..] == Zeros(16);
    }

    /** Takes over the flags and keys of another codec, but not its page buffer. */
    method CopyFrom(other: CodecState)
      requires Valid() && other.Valid() && other != this
      requires {readKey, writeKey} !! {other.readKey, other.writeKey}
      modifies this, readKey, writeKey
      ensures View() == old(other.View())
    {
      isEncrypted, hasReadKey, hasWriteKey := other.isEncrypted, other.hasReadKey, other.hasWriteKey;
      for j := 0 to KEYLENGTH
        modifies readKey, writeKey
        invariant readKey[..j] == other.readKey[..j] && writeKey[..j] == other.writeKey[..j]
      {
        readKey[j] := other.readKey[j];
        writeKey[j] := other.writeKey[j];
      }
      assert readKey[..] == other.readKey[..] && writeKey[..] == other.writeKey[..];
    }

    method CopyKey(read2write: bool)
      requires Valid()
      modifies readKey, writeKey
      ensures read2write ==> View() == old(View()).(writeKey := old(readKey[..]))
      ensures !read2write ==> View() == old(View()).(readKey := old(writeKey[..]))
    {
      if read2write {
        for j := 0 to KEYLENGTH
          modifies writeKey
          invariant writeKey[..j] == readKey[..j]
        {
          writeKey[j] := readKey[j];
        }
        assert writeKey[..] == readKey[..];
      } else {
        for j := 0 to KEYLENGTH
          modifies readKey
          invariant readKey[..j] == writeKey[..j]
        {
          readKey[j] := writeKey[j];
        }
        assert readKey[..] == writeKey[..];
      }
    }

    method GenerateReadKey(password: seq<byte>)
      requires Valid() && |password| >= KEYLENGTH
      modifies readKey
      ensures View() == old(View()).(readKey := password[..KEYLENGTH])
    {
      CopySeq(readKey, 0, password[..KEYLENGTH]);
    }

    method GenerateWriteKey(password: seq<byte>)
      requires Valid() && |password| >= KEYLENGTH
      modifies writeKey
      ensures View() == old(View()).(writeKey := password[..KEYLENGTH])
    {
      CopySeq(writeKey, 0, password[..KEYLENGTH]);
    }

    /** Page 1: two encryptions, then the sealed body's first bytes are moved and the header is put back in clear. */
    method EncryptFirstPage(c: Cipher, key: Key, data: array<byte>, len: nat, tag: TagStore)
      requires BODY + HEADER_LEN <= len <= data.Length
      modifies data, tag
      ensures data[..] == EncryptPage(c, key, 1, old(data[..len])) + old(data[len..])
      ensures tag.m == EncryptTags(c, key, 1, old(data[..len]), old(tag.m))
    {
      ghost var d0, tail := data[..len], data[len..];
      ghost var (head, body) := (Seal(c, key, d0[..BODY]), Seal(c, key, d0[BODY..]));
      var dbHeader := data[BODY..BODY + HEADER_LEN];
      assert dbHeader == Header(d0);
      assert data[..] == [] + d0[..BODY] + (d0[BODY..] + tail);
      Parts(data[..], [], d0[..BODY], d0[BODY..] + tail);
      var mac := AesEncrypt(c, key, data, 0, BODY);
      tag.m := tag.m[0 := mac];
      assert data[..] == head + d0[BODY..] + tail;
      Parts(data[..], head, d0[BODY..], tail);
      mac := AesEncrypt(c, key, data, BODY, len);
      tag.m := tag.m[1 := mac];
      assert data[..] == head + body + tail;
      HeadMoves(data, head, body, tail, dbHeader);
    }

    /** The two copies that follow the encryptions. */
    method HeadMoves(data: array<byte>, ghost head: seq<byte>, ghost body: seq<byte>,
                     ghost tail: seq<byte>, dbHeader: seq<byte>)
      requires |head| == BODY && |body| >= HEADER_LEN && |dbHeader| == HEADER_LEN && data[..] == head + body + tail
      modifies data
      ensures data[..] == head[..8] + body[..8] + dbHeader + body[8..] + tail
    {
      assert data[..] == (head[..8] + head[8..]) + body[..8] + (body[8..] + tail);
      Parts(data[..], head, body[..8], body[8..] + tail);
      Copy(data, 8, data, BODY, HEADER_LEN);
      assert data[..] == (head[..8] + body[..8]) + body[..8] + (body[8..] + tail);
      Parts(data[..], head[..8] + body[..8], body[..8], body[8..] + tail);
      CopySeq(data, BODY, dbHeader);
    }

    /** Encrypts the first `len` bytes of `data`, a page, in place. */
    method CodecEncrypt(c: Cipher, page: int, data: array<byte>, len: nat, useWriteKey: bool, tag: TagStore)
      requires Valid() && len <= data.Length && (page == 1 ==> len >= BODY + HEADER_LEN)
      requires data != readKey && data != writeKey
      modifies data, tag
      ensures var key := if useWriteKey then writeKey[..] else readKey[..];
        && data[..] == EncryptPage(c, key, page, old(data[..len])) + old(data[len..])
        && tag.m == EncryptTags(c, key, page, old(data[..len]), old(tag.m))
    {
      var key := if useWriteKey then writeKey[..] else readKey[..];
      if page == 1 {
        EncryptFirstPage(c, key, data, len, tag);
      } else {
        assert data[0..len] == data[..len];
        var mac := AesEncrypt(c, key, data, 0, len);
        tag.m := tag.m[page := mac];
      }
    }

    /** Brings the first bytes of the sealed body back behind the first 16 bytes. */
    method RejoinBody(data: array<byte>, len: nat)
      requires BODY + HEADER_LEN <= len <= data.Length
      modifies data
      ensures data[..] == old(data[..BODY]) + (old(data[8..16]) + old(data[24..len])) + old(data[len..])
    {
      Copy(data, BODY, data, 8, HEADER_LEN);
    }

    /** Puts the magic string back when the decrypted header is the one that was in clear. */
    method RestoreMagic(data: array<byte>, dbHeader: seq<byte>,
                        ghost head: seq<byte>, ghost body: seq<byte>, ghost tail: seq<byte>)
      requires |head| == BODY && |body| >= HEADER_LEN && data[..] == head + body + tail
      modifies data
      ensures data[..] == (if dbHeader == body[..8] then Magic() else head) + body + tail
    {
      assert data[BODY..BODY + HEADER_LEN] == body[..8];
      if dbHeader == data[BODY..BODY + HEADER_LEN] {
        Parts(data[..], head, body, tail);
        CopySeq(data, 0, Magic());
        assert data[..] == Magic() + body + tail;
      }
    }

    /** Page 1 with a valid header: the body is put together again, decrypted, and compared with the header. */
    method DecryptFirstPage(c: Cipher, key: Key, data: array<byte>, len: nat, inMac: Tag, dbHeader: seq<byte>,
                            ghost d0: seq<byte>)
      returns (ok: bool)
      requires BODY + HEADER_LEN <= len <= data.Length && d0 == data[..len] && dbHeader == Header(d0)
      modifies data
      ensures var (ok1, body) := Unseal(c, key, d0[8..16] + d0[24..], inMac);
        && ok == ok1
        && data[..] == (if dbHeader == body[..8] then Magic() else d0[..16]) + body + old(data[len..])
    {
      ghost var tail, sealed := data[len..], d0[8..16] + d0[24..];
      assert data[..BODY] == d0[..BODY] && data[8..16] == d0[8..16] && data[24..len] == d0[24..];
      RejoinBody(data, len);
      Parts(data[..], d0[..BODY], sealed, tail);
      ok := AesDecrypt(c, key, data, BODY, len, inMac);
      ghost var body := Unseal(c, key, sealed, inMac).1;
      RestoreMagic(data, dbHeader, d0[..BODY], body, tail);
    }

    /** Decrypts the first `len` bytes of `data`, a page, in place, always with the read key. */
    method CodecDecrypt(c: Cipher, page: int, data: array<byte>, len: nat, tag: TagStore) returns (ok: bool)
      requires Valid() && len <= data.Length && (page == 1 ==> len >= BODY + HEADER_LEN)
      requires data != readKey && data != writeKey
      modifies data
      ensures var (ok1, d1) := DecryptPage(c, readKey[..], page, old(data[..len]), TagOf(tag.m, page));
        ok == ok1 && data[..] == d1 + old(data[len..])
    {
      var inMac := TagOf(tag.m, page);
      ghost var d0 := data[..len];
      if page == 1 && ValidHeader(data[BODY..BODY + HEADER_LEN]) {
        assert data[BODY..BODY + HEADER_LEN] == Header(d0);
        ok := DecryptFirstPage(c, readKey[..], data, len, inMac, data[BODY..BODY + HEADER_LEN], d0);
      } else {
        assert page == 1 ==> data[BODY..BODY + HEADER_LEN] == Header(d0);
        assert data[0..len] == d0;
        ok := AesDecrypt(c, readKey[..], data, 0, len, inMac);
      }
    }
  }
}
