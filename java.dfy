/** Java-language semantics the storage layer relies on: its exceptions as
    error values, 32-bit `int` arithmetic, and `java.util.Arrays.hashCode`. */
module Java {

  /** The exceptions the storage layer throws, by class. */
  datatype Exception = IllegalArgument | NoSuchElement

  /** A reference that may be null; for an `Object` argument, `None` also
      stands for an object of an unrelated class. */
  datatype Option<+T> = None | Some(value: T)

  /** A call that either returns a value or throws. */
  datatype Result<+T> = Ok(value: T) | Err(error: Exception)

  const INT_MIN: int := -0x8000_0000
  const INT_MAX: int := 0x7fff_ffff
  const TWO_32: int := 0x1_0000_0000

  /** Java's `int`. */
  type Int32 = x: int | -0x8000_0000 <= x < 0x8000_0000

  /** The `int` that Java's two's-complement arithmetic produces for the exact
      mathematical value `x`: the one representative of `x` modulo 2^32 in
      `int` range. */
  function Wrap(x: int): (r: Int32)
    ensures (x - r) % TWO_32 == 0
    ensures INT_MIN <= x <= INT_MAX ==> r == x
  {
    var m := x % TWO_32;
    if m <= INT_MAX then m else m - TWO_32
  }

  /** Any `int` congruent to `x` modulo 2^32 is `Wrap(x)`. */
  lemma WrapUnique(x: int, r: Int32, q: int)
    requires x == r + q * TWO_32
    ensures Wrap(x) == r
  {
    var w := Wrap(x);
    var k := (x - w) / TWO_32;
    assert x - w == k * TWO_32;
    assert r - w == (k - q) * TWO_32;
  }

  /** Wrapping an intermediate result of `31 * h + e` changes nothing: this is
      why Java's step-by-step overflow agrees with wrapping once at the end. */
  lemma WrapStep(h: int, e: int)
    ensures Wrap(31 * Wrap(h) + e) == Wrap(31 * h + e)
  {
    var w := Wrap(h);
    var k := (h - w) / TWO_32;
    assert h - w == k * TWO_32;
    var r := Wrap(31 * h + e);
    var j := (31 * h + e - r) / TWO_32;
    assert 31 * h + e - r == j * TWO_32;
    assert 31 * w + e == r + (j - 31 * k) * TWO_32;
    WrapUnique(31 * w + e, r, j - 31 * k);
  }

  /** `java.util.Arrays.hashCode(int[])`: starting from 1, each element `e`
      updates the running hash `h` to `31 * h + e` in `int` arithmetic. */
  function ArraysHashCode(a: seq<Int32>): Int32
  {
    if a == [] then 1 else Wrap(31 * ArraysHashCode(a[..|a| - 1]) + a[|a| - 1])
  }

  /** The closed form the JDK documents for a three-element array:
      `31*(31*(31*1 + a) + b) + c`, with a single wrap-around at the end. */
  lemma ArraysHashCodeOfThree(a: Int32, b: Int32, c: Int32)
    ensures ArraysHashCode([a, b, c]) == Wrap(31 * (31 * (31 * 1 + a) + b) + c)
  {
    var x1 := 31 * 1 + a;
    var x2 := 31 * x1 + b;
    assert [a, b, c][..2] == [a, b] && [a, b][..1] == [a] && [a][..0] == [];
    assert ArraysHashCode([a]) == Wrap(x1);
    WrapStep(x1, b);
    assert ArraysHashCode([a, b]) == Wrap(x2);
    WrapStep(x2, c);
  }
}
