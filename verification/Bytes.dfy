/** Bytes, JavaScript's 32-bit conversions, and the two word layouts the protocols use. */
module Bytes {
  type byte = b: int | 0 <= b < 256
  type bytes = seq<byte>

  const TWO32: int := 0x1_0000_0000
  const TWO31: int := 0x8000_0000

  datatype Option<+T> = None | Some(value: T)
  datatype Result<+T, +E> = Ok(value: T) | Err(error: E) {
    predicate IsFailure() {
      Err?
    }

    function PropagateFailure<U>(): Result<U, E>
      requires Err?
    {
      Err(error)
    }

    function Extract(): T
      requires Ok?
    {
      value
    }
  }

  /** `x >>> 0` */
  function ToUint32(x: int): (r: int)
    ensures 0 <= r < TWO32
    ensures 0 <= x < TWO32 ==> r == x
  {
    x % TWO32
  }

  /** `x | 0` */
  function ToInt32(x: int): (r: int)
    ensures -TWO31 <= r < TWO31
    ensures 0 <= x < TWO31 ==> r == x
  {
    var u := ToUint32(x);
    if u < TWO31 then u else u - TWO32
  }

  /** `x & 0xff` */
  function LowByte(x: int): byte {
    x % 256
  }

  /** The four bytes of `x >>> 0`, most significant first. */
  function Be32(x: int): (s: bytes)
    ensures |s| == 4
  {
    var u := ToUint32(x);
    [u / 256 / 256 / 256, u / 256 / 256 % 256, u / 256 % 256, u % 256]
  }

  /** The four bytes of `x >>> 0`, least significant first. */
  function Le32(x: int): (s: bytes)
    ensures |s| == 4
  {
    var u := ToUint32(x);
    [u % 256, u / 256 % 256, u / 256 / 256 % 256, u / 256 / 256 / 256]
  }

  /** Four bytes as a number, most significant first. */
  function Word(a: int, b: int, c: int, d: int): int {
    ((a * 256 + b) * 256 + c) * 256 + d
  }

  function FromBe32(s: bytes, at: nat): (r: int)
    requires at + 4 <= |s|
    ensures 0 <= r < TWO32
  {
    Word(s[at], s[at + 1], s[at + 2], s[at + 3])
  }

  function FromLe32(s: bytes, at: nat): (r: int)
    requires at + 4 <= |s|
    ensures 0 <= r < TWO32
  {
    Word(s[at + 3], s[at + 2], s[at + 1], s[at])
  }

  lemma Be32RoundTrip(x: int)
    ensures FromBe32(Be32(x), 0) == ToUint32(x)
  {
  }

  lemma Le32RoundTrip(x: int)
    ensures FromLe32(Le32(x), 0) == ToUint32(x)
  {
  }

  /** Most significant first means that the first byte counts 2^24. */
  lemma Be32Digits(x: int)
    requires 0 <= x < TWO32
    ensures var s := Be32(x);
            var a: int, b: int, c: int, d: int := s[0], s[1], s[2], s[3];
            16777216 * a + 65536 * b + 256 * c + d == x
  {
  }

  /** Least significant first, that the last does. */
  lemma Le32Digits(x: int)
    requires 0 <= x < TWO32
    ensures var s := Le32(x);
            var a: int, b: int, c: int, d: int := s[0], s[1], s[2], s[3];
            a + 256 * b + 65536 * c + 16777216 * d == x
  {
  }

  /** A word is determined by its bytes: packing what was read gives the bytes back. */
  lemma Be32Inverse(s: bytes, at: nat)
    requires at + 4 <= |s|
    ensures Be32(FromBe32(s, at)) == s[at..at + 4]
  {
    var u := FromBe32(s, at);
    var a: int, b: int, c: int := s[at], s[at + 1], s[at + 2];
    assert u / 256 == (a * 256 + b) * 256 + c;
    assert u / 256 / 256 == a * 256 + b;
    assert u / 256 / 256 / 256 == a;
  }

  lemma Le32Inverse(s: bytes, at: nat)
    requires at + 4 <= |s|
    ensures Le32(FromLe32(s, at)) == s[at..at + 4]
  {
    var r := [s[at + 3], s[at + 2], s[at + 1], s[at]];
    Be32Inverse(r, 0);
    assert FromLe32(s, at) == FromBe32(r, 0) && r[0..4] == r;
    var w := Be32(FromBe32(r, 0));
    assert Le32(FromLe32(s, at)) == [w[3], w[2], w[1], w[0]];
  }

  function Min(a: int, b: int): int {
    if a <= b then a else b
  }

  /** `ceil(n / d)` */
  function CeilDiv(n: nat, d: nat): nat
    requires d > 0
  {
    (n + d - 1) / d
  }

  /** `CeilDiv(n, d)` is the least number of steps of `d` that reaches `n`. */
  lemma CeilDivIsLeast(n: nat, d: nat, k: nat)
    requires d > 0
    ensures k * d >= n <==> k >= CeilDiv(n, d)
  {
    var q := CeilDiv(n, d);
    assert q * d <= n + d - 1 < (q + 1) * d by { DivMod(n + d - 1, d); }
    if k >= q {
      Scale(q, k, d);
      assert q * d >= n by { Distribute(q, d); }
    } else {
      Scale(k + 1, q, d);
      Distribute(k, d);
    }
  }

  lemma DivMod(n: nat, d: nat)
    requires d > 0
    ensures n / d * d <= n < (n / d + 1) * d
  {
    assert n == n / d * d + n % d;
    Distribute(n / d, d);
  }

  lemma Distribute(q: int, d: int)
    ensures (q + 1) * d == q * d + d
  {
  }

  lemma Scale(a: int, b: int, d: nat)
    requires a <= b
    ensures a * d <= b * d
  {
  }

  function Flatten<T>(parts: seq<seq<T>>): seq<T> {
    if parts == [] then [] else parts[0] + Flatten(parts[1..])
  }

  lemma {:induction false} FlattenAppend<T>(a: seq<seq<T>>, b: seq<seq<T>>)
    ensures Flatten(a + b) == Flatten(a) + Flatten(b)
  {
    if a == [] {
      assert a + b == b;
    } else {
      FlattenAppend(a[1..], b);
      assert (a + b)[0] == a[0] && (a + b)[1..] == a[1..] + b;
    }
  }

  lemma FlattenOne<T>(s: seq<T>)
    ensures Flatten([s]) == s
  {
    assert [s][1..] == [];
  }

  /** Moving the first `k` of `b` across the seam of `a + b`. */
  lemma Resplit(a: bytes, b: bytes, k: nat)
    requires k <= |b|
    ensures a + b == (a + b[..k]) + b[k..]
  {
    assert b == b[..k] + b[k..];
  }

  lemma Regroup(a: bytes, b: bytes, c: bytes, d: bytes)
    ensures a + (b + c) + d == a + b + (c + d)
  {
  }
}
