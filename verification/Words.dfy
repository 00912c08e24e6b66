/** C integers on a 64-bit machine, as far as the remote procedure calls convert between them. */
module Words {

  const TWO_31 := 0x8000_0000
  const TWO_32 := 0x1_0000_0000
  const TWO_63 := 0x8000_0000_0000_0000
  const TWO_64 := 0x1_0000_0000_0000_0000

  /** `uint64_t` and `size_t`. */
  type u64 = x: int | 0 <= x < TWO_64

  /** `int`. */
  type i32 = x: int | -TWO_31 <= x < TWO_31

  /** `off_t` and `ssize_t`. */
  type i64 = x: int | -TWO_63 <= x < TWO_63

  /** Conversion to `uint64_t` keeps the value modulo 2^64. */
  function ToU64(x: int): u64 {
    x % TWO_64
  }

  function ToInt(x: u64): i32 {
    var w := x % TWO_32;
    if w < TWO_31 then w else w - TWO_32
  }

  function ToLong(x: u64): i64 {
    if x < TWO_63 then x else x - TWO_64
  }

  /** A sum in `size_t` wraps around. */
  function AddU64(x: u64, y: u64): u64 {
    (x + y) % TWO_64
  }

  /** A signed value comes back through an unsigned field and an `int` exactly when it is one. */
  lemma IntSurvives(x: int)
    ensures ToInt(ToU64(x)) == x <==> -TWO_31 <= x < TWO_31
  {
    var q := x / TWO_64;
    assert ToU64(x) == x - q * TWO_64;
    if -TWO_31 <= x < TWO_31 {
      assert q == if x < 0 then -1 else 0;
      var k := TWO_32 - 1;
      assert x < 0 ==> ToU64(x) == k * TWO_32 + (x + TWO_32);
    }
  }

  lemma LongSurvives(x: int)
    ensures ToLong(ToU64(x)) == x <==> -TWO_63 <= x < TWO_63
  {
    var q := x / TWO_64;
    assert ToU64(x) == x - q * TWO_64;
  }
}
