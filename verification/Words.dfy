/** The C integer types that the input API serves, and the clamping of a raw
    value into a range.  Values are mathematical integers; every cast, overflow
    test and reinterpretation of the C code is written out. */
module Words {

  type byte = b: int | 0 <= b < 256

  /** The rows of DEEPFUZZY_FOR_EACH_INTEGER on an LP64 machine with signed char. */
  datatype IntType = Size | Long | Int64 | UInt64 | Int | UInt | Short | UShort | Char | UChar {

    function Bytes(): (n: nat)
      ensures 1 <= n <= 8
    {
      match this
      case Size | Long | Int64 | UInt64 => 8
      case Int | UInt => 4
      case Short | UShort => 2
      case Char | UChar => 1
    }

    predicate Signed() {
      Long? || Int64? || Int? || Short? || Char?
    }

    /** The number of values of the type. */
    function Modulus(): (m: nat)
      ensures m >= 256
    {
      match this
      case Size | Long | Int64 | UInt64 => 0x1_0000_0000_0000_0000
      case Int | UInt => 0x1_0000_0000
      case Short | UShort => 0x1_0000
      case Char | UChar => 0x100
    }

    function Min(): int {
      if Signed() then -(Modulus() / 2) else 0
    }

    function Max(): int {
      if Signed() then Modulus() / 2 - 1 else Modulus() - 1
    }

    predicate Holds(x: int) {
      Min() <= x <= Max()
    }

    /** The cast of a value of the type to its unsigned partner. */
    function ToUnsigned(x: int): (u: int)
      requires Holds(x)
      ensures 0 <= u < Modulus()
    {
      if x < 0 then x + Modulus() else x
    }

    /** The cast back: the top half of a signed type reads as negative. */
    function FromUnsigned(u: int): (x: int)
      requires 0 <= u < Modulus()
      ensures Holds(x) && ToUnsigned(x) == u
    {
      if u > Max() then u - Modulus() else u
    }
  }

  /** The limits of the types, by their widths. */
  lemma LimitsOfC(ty: IntType)
    ensures ty.Bytes() == 1 ==> (ty.Min(), ty.Max()) == if ty.Char? then (-128, 127) else (0, 255)
    ensures ty.Bytes() == 2 ==> (ty.Min(), ty.Max()) == if ty.Short? then (-32768, 32767) else (0, 65535)
    ensures ty.Bytes() == 4 ==>
      (ty.Min(), ty.Max()) == if ty.Int? then (-0x8000_0000, 0x7FFF_FFFF) else (0, 0xFFFF_FFFF)
    ensures ty.Bytes() == 8 ==>
      (ty.Min(), ty.Max()) == if ty.Long? || ty.Int64? then (-0x8000_0000_0000_0000, 0x7FFF_FFFF_FFFF_FFFF)
                              else (0, 0xFFFF_FFFF_FFFF_FFFF)
    ensures ty.Bytes() == if ty.Char? || ty.UChar? then 1 else if ty.Short? || ty.UShort? then 2
                          else if ty.Int? || ty.UInt? then 4 else 8
  {
  }

  lemma Congruent(a: int, b: int, q: int, m: nat)
    requires m > 0 && a == b + q * m
    ensures a % m == b % m
  {
    var r := b % m;
    assert b == b / m * m + r;
    assert a == (b / m + q) * m + r;
    Remainder(a, b / m + q, r, m);
  }

  lemma MultipleIsBig(d: int, m: int)
    requires d != 0 && m > 0
    ensures d * m >= m || d * m <= -m
  {
    if d >= 1 {
      assert (d - 1) * m >= 0;
    } else {
      assert (-1 - d) * m >= 0;
    }
  }

  lemma Remainder(a: int, q: int, r: nat, m: nat)
    requires r < m && a == q * m + r
    ensures a % m == r
  {
    var p, s := a / m, a % m;
    assert p * m + s == a;
    assert (p - q) * m == p * m - q * m;
    if p != q {
      MultipleIsBig(p - q, m);
    }
  }

  /** A cast keeps the bits: it changes the number by a multiple of 2^width or not at
      all, and leaves alone what both types hold. */
  lemma SignedKeepsBits(ty: IntType, x: int)
    requires ty.Holds(x)
    ensures ty.ToUnsigned(x) % ty.Modulus() == x % ty.Modulus() && (x >= 0 ==> ty.ToUnsigned(x) == x)
  {
    Congruent(ty.ToUnsigned(x), x, if x < 0 then 1 else 0, ty.Modulus());
  }

  lemma UnsignedKeepsBits(ty: IntType, u: nat)
    requires u < ty.Modulus()
    ensures ty.FromUnsigned(u) % ty.Modulus() == u && (u <= ty.Max() ==> ty.FromUnsigned(u) == u)
  {
    Congruent(ty.FromUnsigned(u), u, if u > ty.Max() then -1 else 0, ty.Modulus());
    assert u % ty.Modulus() == u;
  }

  /** The two bounds of an InRange call, in either order. */
  datatype Bounds = Bounds(ty: IntType, a: int, b: int) {
    predicate Valid() {
      ty.Holds(a) && ty.Holds(b)
    }

    function Low(): int {
      if a > b then b else a
    }

    function High(): int {
      if a > b then a else b
    }
  }

  type Range = r: Bounds | r.Valid() witness Bounds(UInt, 0, 0)

  /** A value returned by InRange, and whether the "Converting" line was printed. */
  datatype Clamped = Clamped(value: int, converted: bool)

  /** The tail of InRange, once the bounds are ordered and `x` has been read. */
  function Clamp(r: Range, x: int): Clamped
    requires r.ty.Holds(x)
  {
    var (low, high) := (r.Low(), r.High());
    if low <= x <= high then Clamped(x, false)
    else
      var ux := r.ty.ToUnsigned(x);
      var difference := high - low;
      if difference >= r.ty.Modulus() then Clamped(low, false)
      else
        var usize := difference + 1;
        if usize >= r.ty.Modulus() then Clamped(high, false)
        else
          var xClamped := r.ty.FromUnsigned(ux % usize);
          var ret := low + xClamped;
          if !r.ty.Holds(ret) then Clamped(high, false) else Clamped(ret, true)
  }

  /** Whatever the raw value, the result is inside the range; a value already
      inside is returned as it is.  A conversion is printed exactly when the
      reduced value, read back in the type, is not negative; otherwise the sum
      overflows and `high` is returned silently. */
  lemma InRangeInBounds(r: Range, x: int)
    requires r.ty.Holds(x)
    ensures var c := Clamp(r, x);
      && r.Low() <= c.value <= r.High()
      && (r.Low() <= x <= r.High() ==> c == Clamped(x, false))
      && (x < r.Low() || r.High() < x ==>
            var rest := r.ty.ToUnsigned(x) % (r.High() - r.Low() + 1);
            c == if rest <= r.ty.Max() then Clamped(r.Low() + rest, true) else Clamped(r.High(), false))
  {
    if x < r.Low() || r.High() < x {
      var size := r.High() - r.Low() + 1;
      var rest := r.ty.ToUnsigned(x) % size;
      assert 0 <= rest < size < r.ty.Modulus();
    }
  }

  /** Feeding a clamped value back in returns it, with nothing left to convert. */
  lemma ClampSettles(r: Range, x: int)
    requires r.ty.Holds(x)
    ensures var v := Clamp(r, x).value;
      r.ty.Holds(v) && Clamp(r, v) == Clamped(v, false)
  {
    InRangeInBounds(r, x);
  }

  /** The number that a big-endian run of bytes denotes. */
  function BigEndian(bytes: seq<byte>): nat {
    if bytes == [] then 0 else BigEndian(bytes[..|bytes| - 1]) * 256 + bytes[|bytes| - 1]
  }

  function Pow256(n: nat): (m: nat)
    ensures m >= 1
  {
    if n == 0 then 1 else Pow256(n - 1) * 256
  }

  lemma {:induction false} BigEndianBound(bytes: seq<byte>)
    ensures BigEndian(bytes) < Pow256(|bytes|)
  {
    if bytes != [] {
      BigEndianBound(bytes[..|bytes| - 1]);
    }
  }

  lemma ModulusIsPower(ty: IntType)
    ensures ty.Modulus() == Pow256(ty.Bytes())
  {
    assert Pow256(2) == 256 * 256;
    assert Pow256(4) == Pow256(2) * 256 * 256;
    assert Pow256(6) == Pow256(4) * 256 * 256;
    assert Pow256(8) == Pow256(6) * 256 * 256;
  }

  lemma BigEndianFits(ty: IntType, bytes: seq<byte>)
    requires |bytes| == ty.Bytes()
    ensures BigEndian(bytes) < ty.Modulus()
  {
    BigEndianBound(bytes);
    ModulusIsPower(ty);
  }

  /** Leading zero bytes do not count. */
  lemma {:induction false} BigEndianOfZeros(bytes: seq<byte>, v: byte)
    requires bytes != [] && bytes[|bytes| - 1] == v
    requires forall k :: 0 <= k < |bytes| - 1 ==> bytes[k] == 0
    ensures BigEndian(bytes) == v
  {
    var front := bytes[..|bytes| - 1];
    if front != [] {
      BigEndianOfZeros(front, 0);
    }
  }

  /** Lowering the first byte that changes lowers the number. */
  lemma {:induction false} BigEndianOrder(a: seq<byte>, b: seq<byte>, k: nat)
    requires k < |a| == |b| && a[..k] == b[..k] && a[k] < b[k]
    ensures BigEndian(a) < BigEndian(b)
  {
    var n := |a| - 1;
    if k == n {
      assert a[..n] == b[..n];
    } else {
      assert a[..n][..k] == a[..k] && b[..n][..k] == b[..k];
      BigEndianOrder(a[..n], b[..n], k);
    }
  }
}
