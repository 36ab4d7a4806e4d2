/**
 * The pieces of the Java platform's hash codes that the entities' `hashCode` methods
 * combine: 32-bit two's-complement wrap-around, `Long.hashCode`, `String.hashCode` and
 * `Objects.hash` (which is `Arrays.hashCode` over its arguments, null hashing to 0).
 */
module JavaHash {
  import opened Wrappers

  const TWO_32: int := 0x1_0000_0000
  const TWO_64: int := 0x1_0000_0000_0000_0000

  predicate IsInt32(x: int) {
    -0x8000_0000 <= x < 0x8000_0000
  }

  /** Java's `int` overflow: the value of `x` as a 32-bit two's-complement integer. */
  function Int32(x: int): (r: int)
    ensures IsInt32(r)
    ensures (r - x) % TWO_32 == 0
    ensures IsInt32(x) ==> r == x
  {
    (x + 0x8000_0000) % TWO_32 - 0x8000_0000
  }

  /** `Long.hashCode(v)`: `(int)(v ^ (v >>> 32))` on the 64-bit pattern of `v`. */
  function LongHash(v: int): (h: int)
    ensures IsInt32(h)
  {
    var b := (v % TWO_64) as bv64;
    Int32(((b ^ (b >> 32)) & 0xFFFF_FFFF) as int)
  }

  /** `String.hashCode()`: `h = 31 * h + c` over the characters, starting from 0. */
  function StringHash(s: string): (h: int)
    ensures IsInt32(h)
  {
    if s == [] then 0 else Int32(31 * StringHash(s[..|s| - 1]) + s[|s| - 1] as int)
  }

  /** `Objects.hashCode` of a nullable `Long`. */
  function NullableLongHash(v: Option<int>): int {
    if v.None? then 0 else LongHash(v.value)
  }

  /** `Objects.hashCode` of a nullable `String`. */
  function NullableStringHash(s: Option<string>): int {
    if s.None? then 0 else StringHash(s.value)
  }

  /** `Objects.hash(a1, ..., an)` given the element hash codes `hs`: `r = 31 * r + h`, from 1. */
  function ObjectsHash(hs: seq<int>): (h: int)
    ensures hs != [] ==> IsInt32(h)
  {
    if hs == [] then 1 else Int32(31 * ObjectsHash(hs[..|hs| - 1]) + hs[|hs| - 1])
  }

  /** `a` and `b` are the same 32-bit value: they differ by a multiple of 2^32. */
  predicate SameInt32(a: int, b: int) {
    (a - b) % TWO_32 == 0
  }

  /** One step of the hash recurrence keeps two congruent accumulators congruent. */
  lemma StepKeepsSameInt32(a: int, b: int, c: int)
    requires SameInt32(a, b)
    ensures SameInt32(Int32(31 * a + c), 31 * b + c)
  {
    var k := (a - b) / TWO_32;
    assert a - b == k * TWO_32;
    var r := Int32(31 * a + c);
    var m := (r - (31 * a + c)) / TWO_32;
    assert r - (31 * a + c) == m * TWO_32;
    assert r - (31 * b + c) == (m + 31 * k) * TWO_32;
  }

  /**
   * `Objects.hash` of one, two and four elements, as the polynomial in 31 that
   * `Arrays.hashCode` documents, taken modulo 2^32.
   */
  lemma ObjectsHashPolynomial(a: int, b: int, c: int, d: int)
    ensures SameInt32(ObjectsHash([a]), 31 + a)
    ensures SameInt32(ObjectsHash([a, b]), 961 + 31 * a + b)
    ensures SameInt32(ObjectsHash([a, b, c, d]), 923521 + 29791 * a + 961 * b + 31 * c + d)
  {
    assert [a, b][..1] == [a];
    assert [a, b, c][..2] == [a, b];
    assert [a, b, c, d][..3] == [a, b, c];
    assert SameInt32(ObjectsHash([]), 1);
    StepKeepsSameInt32(1, 1, a);
    StepKeepsSameInt32(ObjectsHash([a]), 31 + a, b);
    StepKeepsSameInt32(ObjectsHash([a, b]), 961 + 31 * a + b, c);
    StepKeepsSameInt32(ObjectsHash([a, b, c]), 29791 + 961 * a + 31 * b + c, d);
  }
}
