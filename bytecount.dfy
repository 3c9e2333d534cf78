/**
 * The integer part of the two human-readable byte formatters, ByteCountSI
 * (powers of 1000, prefixes "kMGTPE", suffix "B") and ByteCountIEC (powers of
 * 1024, prefixes "KMGTPE", suffix "iB"), together with the size constants of
 * the program. The float quotient printed with "%.1f" is not modelled: a
 * rendering keeps the byte count and the chosen divisor instead.
 */
module ByteCount {

  /** Go's int64, the parameter type of both formatters. */
  const Int64Min: int := -0x8000_0000_0000_0000
  const Int64Max: int := 0x7fff_ffff_ffff_ffff
  type Int64 = x: int | Int64Min <= x <= Int64Max

  /** The size constants: binary ones by shifting by 10, decimal ones by multiplying by 1000. */
  const B: nat := 1
  const KiB: nat := B * 1024
  const MiB: nat := KiB * 1024
  const GiB: nat := MiB * 1024
  const TiB: nat := GiB * 1024
  const KB: nat := B * 1000
  const MB: nat := KB * 1000
  const GB: nat := MB * 1000
  const TB: nat := GB * 1000

  /** The default of the minimum-size flag, 30 MiB. */
  const DefaultMinFileSize: nat := 30 * MiB

  const SIPrefixes: string := "kMGTPE"
  const IECPrefixes: string := "KMGTPE"

  /** What a formatter prints: "%d B" of the count, or the count divided by `div` followed by a prefixed unit. */
  datatype Rendering =
    | Plain(bytes: int)
    | Scaled(bytes: int, div: int, prefix: char, suffix: string)

  function Pow(u: nat, k: nat): (r: nat)
    ensures u >= 1 ==> r >= 1
  {
    if k == 0 then 1 else u * Pow(u, k - 1)
  }

  lemma {:induction false} PowMonotone(u: nat, i: nat, j: nat)
    requires u >= 1 && i <= j
    ensures Pow(u, i) <= Pow(u, j)
  {
    if i < j {
      PowMonotone(u, i, j - 1);
      MulMonotone(1, Pow(u, j - 1), u, Pow(u, j - 1));
    }
  }

  lemma {:induction false} PowBaseMonotone(u: nat, v: nat, k: nat)
    requires 1 <= u <= v
    ensures Pow(u, k) <= Pow(v, k)
  {
    if k > 0 {
      PowBaseMonotone(u, v, k - 1);
      MulMonotone(u, Pow(u, k - 1), v, Pow(v, k - 1));
    }
  }

  lemma MulMonotone(a: nat, b: nat, c: nat, d: nat)
    requires a <= c && b <= d
    ensures a * b <= c * d
  {
    assert a * b <= c * b;
    assert c * b <= c * d;
  }

  /** Euclidean division is determined by quotient and remainder. */
  lemma DivUnique(x: int, d: int, q: int, r: int)
    requires d > 0 && 0 <= r < d && x == q * d + r
    ensures x / d == q
  {
    var q', r' := x / d, x % d;
    assert x == q' * d + r';
    if q' < q {
      assert (q - q') * d <= r' - r by { assert q * d + r == q' * d + r'; }
      assert (q - q') * d >= d by { MulMonotone(1, d, q - q', d); }
    } else if q' > q {
      assert (q' - q) * d <= r - r' by { assert q * d + r == q' * d + r'; }
      assert (q' - q) * d >= d by { MulMonotone(1, d, q' - q, d); }
    }
  }

  /** One turn of the loop: dividing the running quotient by the unit is dividing the count by the next power. */
  lemma DivStep(b: int, d: int, u: int)
    requires b >= 0 && d >= 1 && u >= 1 && b / d >= u
    ensures d * u <= b
    ensures (b / d) / u == b / (d * u)
  {
    var q, r := b / d, b % d;
    var q2, r2 := q / u, q % u;
    assert b == q2 * (d * u) + (r2 * d + r) by {
      assert b == q * d + r;
      assert q == q2 * u + r2;
    }
    assert r2 * d + r < d * u by {
      MulMonotone(r2, d, u - 1, d);
    }
    assert 0 <= r2 * d;
    DivUnique(b, d * u, q2, r2 * d + r);
    assert q2 >= 1 by { QuotientPositive(q, u); }
    MulMonotone(1, d * u, q2, d * u);
  }

  lemma QuotientPositive(b: int, d: int)
    requires b >= d >= 1
    ensures b / d >= 1
  {
    assert b == (b / d) * d + b % d;
    assert (b / d) * d > 0;
  }

  /** No count in int64 reaches 1000^7, the smallest seventh power of either unit. */
  lemma ExponentBound(b: Int64, unit: nat, exp: nat)
    requires unit >= 1000
    requires Pow(unit, exp + 1) <= b
    ensures exp <= 5
  {
    assert Pow(1000, 7) == 1_000_000_000_000_000_000_000;
    PowBaseMonotone(1000, unit, 7);
    if exp >= 6 {
      PowMonotone(unit, 7, exp + 1);
      assert false;
    }
  }

  /** A quotient below the unit means the count is below the next power. */
  lemma BelowNext(b: int, d: int, u: int)
    requires b >= 0 && d >= 1 && u >= 1 && b / d < u
    ensures b < d * u
  {
    var q, r := b / d, b % d;
    assert b == q * d + r;
    MulMonotone(q, d, u - 1, d);
  }

  /**
   * The divisor/exponent loop shared by ByteCountSI and ByteCountIEC, entered
   * when `b >= unit`. It ends with `div == unit^(exp+1)`, a quotient `b / div`
   * in [1, unit) and `exp <= 5`, so that indexing the six prefixes is in bounds.
   */
  method SelectUnit(b: Int64, unit: nat) returns (div: nat, exp: nat)
    requires unit == 1000 || unit == 1024
    requires b >= unit
    ensures div == Pow(unit, exp + 1)
    ensures div <= b < div * unit
    ensures 1 <= b / div < unit
    ensures exp <= 5
  {
    div, exp := unit, 0;
    var n := b / unit;
    while n >= unit
      invariant div == Pow(unit, exp + 1)
      invariant 1 <= div <= b
      invariant n == b / div
      decreases n
    {
      DivStep(b, div, unit);
      assert Pow(unit, exp + 2) == div * unit;
      div := div * unit;
      exp := exp + 1;
      n := n / unit;
    }
    BelowNext(b, div, unit);
    QuotientPositive(b, div);
    ExponentBound(b, unit, exp);
  }

  /** The exponent chosen by SelectUnit is the only one that brackets the count. */
  lemma ExponentUnique(b: int, unit: nat, e1: nat, e2: nat)
    requires unit >= 1
    ensures Pow(unit, e1 + 1) <= b < Pow(unit, e1 + 2) && Pow(unit, e2 + 1) <= b < Pow(unit, e2 + 2) ==> e1 == e2
  {
    if e1 < e2 {
      PowMonotone(unit, e1 + 2, e2 + 1);
    } else if e2 < e1 {
      PowMonotone(unit, e2 + 2, e1 + 1);
    }
  }

  /** The shared body of both formatters with its unit, prefix letters and suffix. */
  method Render(b: Int64, unit: nat, prefixes: string, suffix: string) returns (r: Rendering)
    requires unit == 1000 || unit == 1024
    requires |prefixes| == 6
    ensures b < unit ==> r == Plain(b)
    ensures b >= unit ==> r.Scaled? && r.bytes == b && r.suffix == suffix
    ensures b >= unit ==> r.div <= b < r.div * unit && 1 <= b / r.div < unit
    ensures b >= unit ==> exists e :: 0 <= e < |prefixes| && r.div == Pow(unit, e + 1) && r.prefix == prefixes[e]
  {
    if b < unit {
      return Plain(b);
    }
    var div, exp := SelectUnit(b, unit);
    r := Scaled(b, div, prefixes[exp], suffix);
  }

  method ByteCountSI(b: Int64) returns (r: Rendering)
    ensures b < 1000 ==> r == Plain(b)
    ensures b >= 1000 ==> r.Scaled? && r.bytes == b && r.suffix == "B"
    ensures b >= 1000 ==> r.div <= b < r.div * 1000
    ensures b >= 1000 ==> exists e :: 0 <= e < 6 && r.div == Pow(1000, e + 1) && r.prefix == SIPrefixes[e]
  {
    r := Render(b, 1000, SIPrefixes, "B");
  }

  method ByteCountIEC(b: Int64) returns (r: Rendering)
    ensures b < 1024 ==> r == Plain(b)
    ensures b >= 1024 ==> r.Scaled? && r.bytes == b && r.suffix == "iB"
    ensures b >= 1024 ==> r.div <= b < r.div * 1024
    ensures b >= 1024 ==> exists e :: 0 <= e < 6 && r.div == Pow(1024, e + 1) && r.prefix == IECPrefixes[e]
  {
    r := Render(b, 1024, IECPrefixes, "iB");
  }

  /** The binary and decimal constants are the powers the two formatters divide by. */
  lemma UnitConstants()
    ensures KiB == Pow(1024, 1) && MiB == Pow(1024, 2) && GiB == Pow(1024, 3) && TiB == Pow(1024, 4)
    ensures KB == Pow(1000, 1) && MB == Pow(1000, 2) && GB == Pow(1000, 3) && TB == Pow(1000, 4)
    ensures DefaultMinFileSize == 31_457_280
  {
  }
}
