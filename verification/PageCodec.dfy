/** How one database page is encrypted and decrypted.

    AES-GCM (sections 7.1 and 7.2 of NIST SP 800-38D) appears as what the program relies on: the data is combined by
    exclusive or with a stream that depends on the key alone, because the initialisation vector is constant, and a
    tag is computed from the key and the ciphertext. Nothing is known about the stream, the tag, or what a
    decryption leaves behind when the tag does not match. Page 1 keeps eight bytes of its header in clear. */
module PageCodec {
  import opened Posix

  type Key = seq<byte>
  type Tag = seq<byte>

  datatype Cipher = Cipher(stream: (Key, nat) -> byte, mac: (Key, seq<byte>) -> Tag,
                           refused: (Key, seq<byte>, nat) -> byte)

  function Pow2(n: nat): (p: nat)
    ensures p > 0
  {
    if n == 0 then 1 else 2 * Pow2(n - 1)
  }

  /** Exclusive or of two `n`-bit numbers, bit by bit from the lowest. */
  function XorBits(a: nat, b: nat, n: nat): (r: nat)
    requires a < Pow2(n) && b < Pow2(n)
    ensures r < Pow2(n)
  {
    if n == 0 then 0 else (a % 2 + b % 2) % 2 + 2 * XorBits(a / 2, b / 2, n - 1)
  }

  lemma Halves(x: nat, q: nat)
    requires x < 2
    ensures (x + 2 * q) % 2 == x && (x + 2 * q) / 2 == q
  {
  }

  lemma BitTwice(x: nat, y: nat)
    requires x < 2 && y < 2
    ensures ((x + y) % 2 + y) % 2 == x
  {
  }

  lemma {:induction false} XorBitsTwice(a: nat, b: nat, n: nat)
    requires a < Pow2(n) && b < Pow2(n)
    ensures XorBits(XorBits(a, b, n), b, n) == a
  {
    if n > 0 {
      var (x, q) := ((a % 2 + b % 2) % 2, XorBits(a / 2, b / 2, n - 1));
      Halves(x, q);
      BitTwice(a % 2, b % 2);
      XorBitsTwice(a / 2, b / 2, n - 1);
    }
  }

  lemma BytesHaveEightBits()
    ensures Pow2(8) == 256
  {
    assert Pow2(4) == 16;
  }

  function Xor(a: byte, b: byte): byte {
    BytesHaveEightBits();
    XorBits(a, b, 8)
  }

  lemma XorTwice(a: byte, b: byte)
    ensures Xor(Xor(a, b), b) == a
  {
    BytesHaveEightBits();
    XorBitsTwice(a, b, 8);
  }

  // ----- authenticated encryption -----

  function Seal(c: Cipher, key: Key, data: seq<byte>): (r: seq<byte>)
    ensures |r| == |data|
  {
    seq<byte>(|data|, i requires 0 <= i < |data| => Xor(data[i], c.stream(key, i)))
  }

  /** The flag says whether the tag matched. */
  function Unseal(c: Cipher, key: Key, data: seq<byte>, tag: Tag): (r: (bool, seq<byte>))
    ensures |r.1| == |data|
  {
    if c.mac(key, data) == tag then (true, Seal(c, key, data))
    else (false, seq<byte>(|data|, i requires 0 <= i < |data| => c.refused(key, data, i)))
  }

  lemma SealTwice(c: Cipher, key: Key, data: seq<byte>)
    ensures Seal(c, key, Seal(c, key, data)) == data
  {
    forall i | 0 <= i < |data|
      ensures Seal(c, key, Seal(c, key, data))[i] == data[i]
    {
      XorTwice(data[i], c.stream(key, i));
    }
  }

  // ----- pages -----

  const MAGIC_LEN: nat := 16
  const HEADER_LEN: nat := 8
  const BODY: nat := 16
  const MIN_PAGE: nat := 512
  const MAX_PAGE: nat := 65536

  /** "SQLite format 3" and its terminating zero (SQLite Database File Format, section 1.3.1). */
  function Magic(): (m: seq<byte>)
    ensures |m| == MAGIC_LEN
  {
    [83, 81, 76, 105, 116, 101, 32, 102, 111, 114, 109, 97, 116, 32, 51, 0]
  }

  predicate PowerOfTwo(n: nat) {
    n == 1 || (n > 1 && n % 2 == 0 && PowerOfTwo(n / 2))
  }

  /** Bytes 16 to 23 of page 1: a page size and the three fixed payload fractions (sections 1.3.2 and 1.3.5). */
  predicate ValidHeader(h: seq<byte>)
    requires |h| == HEADER_LEN
  {
    var size := 256 * (h[0] as int) + 65536 * (h[1] as int);
    && MIN_PAGE <= size <= MAX_PAGE && PowerOfTwo(size)
    && h[5] == 0x40 && h[6] == 0x20 && h[7] == 0x20
  }

  lemma {:induction false} PowersDoubled(n: nat, k: nat)
    requires n > 0
    ensures PowerOfTwo(Pow2(k) * n) <==> PowerOfTwo(n)
  {
    if k > 0 {
      PowersDoubled(n, k - 1);
      var m := Pow2(k - 1) * n;
      assert m > 0 && Pow2(k) * n == 2 * m && 2 * m / 2 == m;
    }
  }

  /** The powers of two that a byte can hold. */
  lemma PowersInByte(a: nat)
    requires 0 < a < 256
    ensures PowerOfTwo(a) <==> a in {1, 2, 4, 8, 16, 32, 64, 128}
  {
    if a > 1 && a % 2 == 0 {
      PowersInByte(a / 2);
    }
  }

  /** The headers that are accepted, one by one: the first two bytes of each page size from 512 to 65536 and the payload
      fractions 64, 32 and 32; the bytes between them are not looked at. */
  lemma ValidHeaders(h: seq<byte>)
    requires |h| == HEADER_LEN
    ensures ValidHeader(h) <==>
      && h[5..] == [64, 32, 32]
      && ((h[1] == 0 && h[0] in {2, 4, 8, 16, 32, 64, 128}) || (h[1] == 1 && h[0] == 0))
  {
    var (a, b) := (h[0], h[1]);
    assert Pow2(8) == 256 by {
      BytesHaveEightBits();
    }
    if b == 0 && a > 0 {
      PowersDoubled(a, 8);
      PowersInByte(a);
    } else if b == 1 && a == 0 {
      PowersDoubled(256, 8);
      PowersDoubled(1, 8);
    }
  }

  /** The least a page must hold for the header to be there. */
  predicate PageFits(page: int, data: seq<byte>) {
    page == 1 ==> |data| >= BODY + HEADER_LEN
  }

  function Header(data: seq<byte>): (h: seq<byte>)
    requires |data| >= BODY + HEADER_LEN
    ensures |h| == HEADER_LEN
  {
    data[BODY..BODY + HEADER_LEN]
  }

  /** The part of a page that its tag is about. */
  function TaggedPart(page: int, data: seq<byte>): seq<byte>
    requires PageFits(page, data)
  {
    if page == 1 then data[BODY..] else data
  }

  function PageTag(c: Cipher, key: Key, page: int, data: seq<byte>): Tag
    requires PageFits(page, data)
  {
    c.mac(key, Seal(c, key, TaggedPart(page, data)))
  }

  /** Page 1 is sealed in two parts; then the first eight bytes of the sealed body move over bytes 8 to 15, and the
      header bytes 16 to 23 are stored as they were. */
  function EncryptPage(c: Cipher, key: Key, page: int, data: seq<byte>): (r: seq<byte>)
    requires PageFits(page, data)
    ensures |r| == |data|
  {
    if page == 1 then
      var body := Seal(c, key, data[BODY..]);
      Seal(c, key, data[..BODY])[..8] + body[..8] + Header(data) + body[8..]
    else Seal(c, key, data)
  }

  /** Encryption records the tag of the page, and for page 1 that of its first 16 bytes under key 0. */
  function EncryptTags(c: Cipher, key: Key, page: int, data: seq<byte>, tags: map<int, Tag>): map<int, Tag>
    requires PageFits(page, data)
  {
    (if page == 1 then tags[0 := c.mac(key, Seal(c, key, data[..BODY]))] else tags)
      [page := PageTag(c, key, page, data)]
  }

  /** A page without a tag is checked against sixteen zeros. */
  function TagOf(tags: map<int, Tag>, page: int): Tag {
    if page in tags then tags[page] else Zeros(16)
  }

  /** The flag says whether the tag matched; the program carries on either way. */
  function DecryptPage(c: Cipher, key: Key, page: int, data: seq<byte>, tag: Tag): (r: (bool, seq<byte>))
    requires PageFits(page, data)
    ensures |r.1| == |data|
  {
    if page == 1 && ValidHeader(Header(data)) then
      var (ok, body) := Unseal(c, key, data[8..16] + data[24..], tag);
      (ok, (if Header(data) == body[..8] then Magic() else data[..16]) + body)
    else Unseal(c, key, data, tag)
  }

  /** What page 1 must be for encryption to be undone. */
  predicate GoodFirstPage(data: seq<byte>) {
    |data| >= BODY + HEADER_LEN && data[..MAGIC_LEN] == Magic() && ValidHeader(Header(data))
  }

  predicate Encryptable(page: int, data: seq<byte>) {
    page == 1 ==> GoodFirstPage(data)
  }

  predicate RoundTrips(c: Cipher, key: Key, page: int, data: seq<byte>)
    requires PageFits(page, data)
  {
    DecryptPage(c, key, page, EncryptPage(c, key, page, data), PageTag(c, key, page, data)) == (true, data)
  }

  lemma SealedFirstPage(c: Cipher, key: Key, data: seq<byte>)
    requires |data| >= BODY + HEADER_LEN
    ensures var (enc, body) := (EncryptPage(c, key, 1, data), Seal(c, key, data[BODY..]));
      && Header(enc) == Header(data)
      && enc[8..16] + enc[24..] == body
  {
    var (enc, body) := (EncryptPage(c, key, 1, data), Seal(c, key, data[BODY..]));
    assert enc[8..16] == body[..8] && enc[24..] == body[8..];
    assert body[..8] + body[8..] == body;
  }

  /** Every page comes back: pages other than 1 unconditionally, page 1 when it starts with the magic string and has
      a valid header. */
  lemma PageRoundTrip(c: Cipher, key: Key, page: int, data: seq<byte>)
    requires PageFits(page, data) && Encryptable(page, data)
    ensures RoundTrips(c, key, page, data)
  {
    if page == 1 {
      SealedFirstPage(c, key, data);
      SealTwice(c, key, data[BODY..]);
      assert data[BODY..][..8] == Header(data);
      assert data == data[..BODY] + data[BODY..];
    } else {
      SealTwice(c, key, data);
    }
  }

  /** A page 1 with a valid header always comes back with the magic string in front, whatever was there. */
  lemma MagicIsForced(c: Cipher, key: Key, data: seq<byte>)
    requires |data| >= BODY + HEADER_LEN && ValidHeader(Header(data))
    ensures var (enc, tag) := (EncryptPage(c, key, 1, data), PageTag(c, key, 1, data));
      DecryptPage(c, key, 1, enc, tag) == (true, Magic() + data[BODY..])
  {
    SealedFirstPage(c, key, data);
    SealTwice(c, key, data[BODY..]);
    assert data[BODY..][..8] == Header(data);
  }

  /** The stream that flips the lowest bit everywhere. */
  function FlippingCipher(): Cipher {
    Cipher((k: Key, i: nat) => 1, (k: Key, d: seq<byte>) => [], (k: Key, d: seq<byte>, i: nat) => 0)
  }

  lemma FlipChanges(a: byte)
    ensures Xor(a, 1) != a
  {
    BytesHaveEightBits();
    assert XorBits(a, 1, 8) % 2 == (a % 2 + 1) % 2;
  }

  // ----- what lies on disk -----

  /** The plain byte that byte `i` of the stored page stands for. */
  function PlainByte(page: int, data: seq<byte>, i: nat): byte
    requires PageFits(page, data) && i < |data|
  {
    if page == 1 && 8 <= i < 16 then data[i + 8] else data[i]
  }

  /** Where in the stream of its part the stored byte was sealed. */
  function StreamIndex(page: int, i: nat): nat {
    if page != 1 || i < 8 then i else if i < 16 then i - 8 else if i < 24 then 0 else i - BODY
  }

  predicate InClear(page: int, i: nat) {
    page == 1 && 16 <= i < 24
  }

  /** Byte by byte: everything is sealed but the header of page 1. */
  lemma StoredByte(c: Cipher, key: Key, page: int, data: seq<byte>, i: nat)
    requires PageFits(page, data) && i < |data|
    ensures EncryptPage(c, key, page, data)[i] ==
      if InClear(page, i) then PlainByte(page, data, i)
      else Xor(PlainByte(page, data, i), c.stream(key, StreamIndex(page, i)))
  {
    if page == 1 {
      var (head, body) := (Seal(c, key, data[..BODY]), Seal(c, key, data[BODY..]));
      assert EncryptPage(c, key, page, data) == head[..8] + body[..8] + Header(data) + body[8..];
    }
  }

  /** A stored byte is the plain byte it stands for under every cipher and key if and only if it is one of bytes 16 to
      23 of page 1. */
  lemma ClearExactly(page: int, data: seq<byte>, i: nat)
    requires PageFits(page, data) && i < |data|
    ensures (forall c: Cipher, key: Key :: ByteInClear(c, key, page, data, i)) <==> InClear(page, i)
  {
    if InClear(page, i) {
      forall c: Cipher, key: Key
        ensures ByteInClear(c, key, page, data, i)
      {
        StoredByte(c, key, page, data, i);
      }
    } else {
      StoredByte(FlippingCipher(), [], page, data, i);
      FlipChanges(PlainByte(page, data, i));
      assert !ByteInClear(FlippingCipher(), [], page, data, i);
    }
  }

  predicate ByteInClear(c: Cipher, key: Key, page: int, data: seq<byte>, i: nat)
    requires PageFits(page, data) && i < |data|
  {
    EncryptPage(c, key, page, data)[i] == PlainByte(page, data, i)
  }

  /** The stored bytes that the tag of a page is computed from: all, or for page 1 those of the sealed body. */
  function Covered(page: int, stored: seq<byte>): seq<byte>
    requires PageFits(page, stored)
  {
    if page == 1 then stored[8..16] + stored[24..] else stored
  }

  /** The tag that is recorded for a page is that of the bytes that are stored, not of the plain ones. */
  lemma TagCoversStored(c: Cipher, key: Key, page: int, data: seq<byte>, tags: map<int, Tag>)
    requires PageFits(page, data)
    ensures EncryptTags(c, key, page, data, tags).Keys == tags.Keys + {page} + if page == 1 then {0} else {}
    ensures EncryptTags(c, key, page, data, tags)[page] == c.mac(key, Covered(page, EncryptPage(c, key, page, data)))
    ensures forall m :: m in tags && m != page && (page == 1 ==> m != 0) ==>
      EncryptTags(c, key, page, data, tags)[m] == tags[m]
    ensures page == 1 ==>
      var sealed := seq<byte>(16, i requires 0 <= i < 16 => Xor(data[i], c.stream(key, i)));
      EncryptTags(c, key, page, data, tags)[0] == c.mac(key, sealed)
  {
    if page == 1 {
      SealedFirstPage(c, key, data);
      assert seq<byte>(16, i requires 0 <= i < 16 => Xor(data[i], c.stream(key, i))) == Seal(c, key, data[..BODY]);
    }
  }

  /** A page is found authentic if and only if its recorded tag is that of the stored bytes; a page 1 without a valid
      header is taken as a whole. */
  lemma AuthenticExactly(c: Cipher, key: Key, page: int, stored: seq<byte>, tag: Tag)
    requires PageFits(page, stored)
    ensures DecryptPage(c, key, page, stored, tag).0 <==>
      tag == c.mac(key, if page == 1 && ValidHeader(Header(stored)) then Covered(page, stored) else stored)
  {
  }

  /** What the first 16 bytes of a decrypted page 1 with a valid header are: the magic string if the decrypted header is
      the one that was in clear, so in particular if the page was found authentic and stored by an encryption, and
      otherwise what was stored there. The other bytes are the decrypted body. */
  lemma MagicExactly(c: Cipher, key: Key, stored: seq<byte>, tag: Tag)
    requires PageFits(1, stored) && ValidHeader(Header(stored))
    ensures var (ok, out) := DecryptPage(c, key, 1, stored, tag);
      && out[..MAGIC_LEN] == (if Header(out) == Header(stored) then Magic() else stored[..MAGIC_LEN])
      && (ok ==> out[BODY..] == Seal(c, key, Covered(1, stored)))
  {
    var (ok, body) := Unseal(c, key, stored[8..16] + stored[24..], tag);
    var out := DecryptPage(c, key, 1, stored, tag).1;
    assert out == (if Header(stored) == body[..8] then Magic() else stored[..16]) + body;
    assert out[BODY..] == body && Header(out) == body[..8];
  }

  /** Without a valid header the cipher that flips bits does not give the page back. */
  lemma BadHeaderFails(key: Key, data: seq<byte>)
    requires |data| >= BODY + HEADER_LEN && !ValidHeader(Header(data))
    ensures !RoundTrips(FlippingCipher(), key, 1, data)
  {
    var c := FlippingCipher();
    var enc := EncryptPage(c, key, 1, data);
    SealedFirstPage(c, key, data);
    assert enc[BODY] == Header(enc)[0] && data[BODY] == Header(data)[0];
    FlipChanges(data[BODY]);
    var (ok, out) := DecryptPage(c, key, 1, enc, PageTag(c, key, 1, data));
    assert ok && out[BODY] == Xor(enc[BODY], 1);
  }

  /** Exactly which pages every cipher under every key gives back. */
  lemma RoundTripsExactly(page: int, data: seq<byte>)
    requires PageFits(page, data)
    ensures (forall c: Cipher, key: Key :: RoundTrips(c, key, page, data)) <==> Encryptable(page, data)
  {
    if Encryptable(page, data) {
      forall c: Cipher, key: Key
        ensures RoundTrips(c, key, page, data)
      {
        PageRoundTrip(c, key, page, data);
      }
    } else if ValidHeader(Header(data)) {
      MagicIsForced(FlippingCipher(), [], data);
      assert (Magic() + data[BODY..])[..MAGIC_LEN] == Magic();
      assert !RoundTrips(FlippingCipher(), [], page, data);
    } else {
      BadHeaderFails([], data);
      assert !RoundTrips(FlippingCipher(), [], page, data);
    }
  }
}
