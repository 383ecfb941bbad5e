/** Byte units and rounding to an alignment (units/bytes.py). */
module Units {

  function Kibibytes(n: int): (r: int)
    ensures r == n * 1024
  {
    n * 1024
  }

  function Mebibytes(n: int): (r: int)
    ensures r == n * 1048576
  {
    Kibibytes(n) * 1024
  }

  function Gibibytes(n: int): (r: int)
    ensures r == n * 1073741824
  {
    Mebibytes(n) * 1024
  }

  function Tebibytes(n: int): (r: int)
    ensures r == n * 1099511627776
  {
    Gibibytes(n) * 1024
  }

  const MiB: int := Mebibytes(1)

  /** Every alignment the code uses is positive; a zero alignment would divide by zero. */
  type Alignment = a: int | a > 0 witness 1

  /** A positive multiple is at least the multiplier. */
  lemma {:induction false} MulAtLeast(a: Alignment, k: int)
    requires k >= 1
    ensures a * k >= a
  {
    assert a * k == a * (k - 1) + a;
  }

  /** Quotient and remainder are determined by any decomposition x == a * q + m with 0 <= m < a. */
  lemma {:induction false} DivModUnique(x: int, a: Alignment, q: int, m: int)
    requires x == a * q + m && 0 <= m < a
    ensures x / a == q && x % a == m
  {
    var q', m' := x / a, x % a;
    assert x == a * q' + m';
    assert a * (q - q') == m' - m;
    if q - q' >= 1 {
      MulAtLeast(a, q - q');
    } else if q' - q >= 1 {
      MulAtLeast(a, q' - q);
    }
  }

  /**
   * A value together with an alignment. Python's `%` floors, which for a
   * positive alignment agrees with Dafny's Euclidean `%`.
   */
  datatype AlignedOffset = AlignedOffset(value: int, alignment: Alignment) {

    /** The value rounded down to the alignment. */
    function Offset(): (r: int)
      ensures r % alignment == 0
      ensures r <= value < r + alignment
    {
      DivModUnique(alignment * (value / alignment), alignment, value / alignment, 0);
      value - value % alignment
    }

    /** The aligned boundary one step below Offset(). */
    function Previous(): (r: int)
      ensures r % alignment == 0
      ensures r < Offset() && value - 2 * alignment < r <= value - alignment
    {
      var q := value / alignment;
      assert Offset() == alignment * q;
      assert alignment * (q - 1) == alignment * q - alignment;
      DivModUnique(alignment * (q - 1), alignment, q - 1, 0);
      Offset() - alignment
    }

    /** The aligned boundary one step above Offset(): the first one past the value. */
    function Next(): (r: int)
      ensures r % alignment == 0
      ensures value < r <= value + alignment
    {
      var q := value / alignment;
      assert Offset() == alignment * q;
      assert alignment * (q + 1) == alignment * q + alignment;
      DivModUnique(alignment * (q + 1), alignment, q + 1, 0);
      Offset() + alignment
    }

    predicate IsAligned() {
      value % alignment == 0
    }
  }

  /** A value is aligned exactly when rounding it down leaves it where it is. */
  lemma {:induction false} IsAlignedFixed(v: int, a: Alignment)
    ensures AlignedOffset(v, a).IsAligned() <==> AlignedOffset(v, a).Offset() == v
  {
  }

  /** Offset() is the greatest multiple of the alignment that does not exceed the value. */
  lemma {:induction false} OffsetIsGreatest(v: int, a: Alignment, m: int)
    requires m % a == 0 && m <= v
    ensures m <= AlignedOffset(v, a).Offset()
  {
    var r := AlignedOffset(v, a).Offset();
    var k := m / a - v / a;
    assert m == a * (m / a) && r == a * (v / a);
    assert a * k == m - r;
    if k >= 1 {
      MulAtLeast(a, k);
    } else {
      MulAtLeast(a, 1 - k);
      assert a * (1 - k) == a - a * k;
    }
  }

  /** Rounding down twice is rounding down once. */
  lemma {:induction false} OffsetIdempotent(v: int, a: Alignment)
    ensures AlignedOffset(AlignedOffset(v, a).Offset(), a).Offset() == AlignedOffset(v, a).Offset()
  {
  }

  /** An aligned value is left where it is. */
  lemma {:induction false} AlignedOffsetOfAligned(v: int, a: Alignment)
    requires AlignedOffset(v, a).IsAligned()
    ensures AlignedOffset(v, a).Offset() == v
    ensures AlignedOffset(v, a).Previous() == v - a && AlignedOffset(v, a).Next() == v + a
  {
  }
}
