/** Byte strings and the parts of the SCALE codec that the chain's structs use:
    little-endian integers, fixed-width hashes and the compact length prefix of a `Vec`
    (Appendix A.2.2 of the Polkadot Protocol Specification). */
module Scale {

  type Byte = b: int | 0 <= b < 256
  type Bytes = seq<Byte>

  const TWO_32: nat := 0x1_0000_0000
  const TWO_64: nat := 0x1_0000_0000_0000_0000
  const TWO_128: nat := 0x1_0000_0000_0000_0000_0000_0000_0000_0000
  const TWO_256: nat :=
    0x1_0000_0000_0000_0000_0000_0000_0000_0000_0000_0000_0000_0000_0000_0000_0000_0000

  type U32 = x: int | 0 <= x < TWO_32
  type U64 = x: int | 0 <= x < TWO_64
  type U128 = x: int | 0 <= x < TWO_128
  type U256 = x: int | 0 <= x < TWO_256

  type H256 = s: Bytes | |s| == 32 witness seq(32, _ => 0)
  type H512 = s: Bytes | |s| == 64 witness seq(64, _ => 0)

  datatype Option<+T> = None | Some(value: T)

  /** What a decoder returns: the value read and the bytes left over, or a failure. */
  datatype Decoded<+T> = Fail | Done(value: T, rest: Bytes)

  // ---------------------------------------------------------------- little endian

  function Pow256(n: nat): (p: nat)
    ensures p > 0
  {
    if n == 0 then 1 else 256 * Pow256(n - 1)
  }

  /** The low `width` bytes of `n`, least significant byte first. */
  function Le(n: nat, width: nat): (bs: Bytes)
    ensures |bs| == width
  {
    if width == 0 then [] else [n % 256] + Le(n / 256, width - 1)
  }

  function LeValue(bs: Bytes): nat
  {
    if bs == [] then 0 else bs[0] + 256 * LeValue(bs[1..])
  }

  lemma {:induction false} LeValueBound(bs: Bytes)
    ensures LeValue(bs) < Pow256(|bs|)
  {
    if bs != [] {
      LeValueBound(bs[1..]);
    }
  }

  lemma {:induction false} LeRoundTrip(n: nat, width: nat)
    requires n < Pow256(width)
    ensures LeValue(Le(n, width)) == n
  {
    if width > 0 {
      LeRoundTrip(n / 256, width - 1);
      assert Le(n, width)[1..] == Le(n / 256, width - 1);
    }
  }

  lemma LowByte(low: Byte, high: nat)
    ensures (low + 256 * high) % 256 == low && (low + 256 * high) / 256 == high
  {
  }

  lemma {:induction false} LeOfValue(bs: Bytes)
    ensures Le(LeValue(bs), |bs|) == bs
  {
    if bs != [] {
      LeOfValue(bs[1..]);
      LowByte(bs[0], LeValue(bs[1..]));
    }
  }

  lemma PowersOf256()
    ensures Pow256(2) == 0x1_0000 && Pow256(4) == TWO_32 && Pow256(8) == TWO_64
    ensures Pow256(16) == TWO_128 && Pow256(32) == TWO_256
  {
    assert Pow256(4) == TWO_32;
    assert Pow256(8) == TWO_64 by { PowSum(4, 4); }
    assert Pow256(16) == TWO_128 by { PowSum(8, 8); }
    assert Pow256(32) == TWO_256 by { PowSum(16, 16); }
  }

  lemma {:induction false} PowSum(a: nat, b: nat)
    ensures Pow256(a + b) == Pow256(a) * Pow256(b)
  {
    if a > 0 {
      PowSum(a - 1, b);
      assert Pow256(a + b) == 256 * Pow256(a - 1 + b);
    }
  }

  lemma OneMore(n: nat, d: nat)
    ensures (n + 1) * d == n * d + d
  {
  }

  lemma MulMonotone(a: nat, b: nat, d: nat)
    requires a <= b
    ensures a * d <= b * d
  {
  }

  /** Least significant byte first: byte `k` is digit `k` in base 256. */
  lemma {:induction false} LeByte(n: nat, width: nat, k: nat)
    requires k < width
    ensures Le(n, width)[k] == n / Pow256(k) % 256
  {
    if k > 0 {
      LeByte(n / 256, width - 1, k - 1);
      assert Le(n, width)[k] == Le(n / 256, width - 1)[k - 1];
      DivideTwice(n, 256, Pow256(k - 1));
    }
  }

  lemma DivideTwice(n: nat, a: nat, b: nat)
    requires a > 0 && b > 0
    ensures a * b > 0 && n / a / b == n / (a * b)
  {
    var q, r := n / a, n % a;
    var q', r' := q / b, q % b;
    assert n == a * q + r && q == b * q' + r';
    assert n == (a * b) * q' + (a * r' + r) by {
      assert a * (b * q' + r') == (a * b) * q' + a * r';
    }
    MulMonotone(r', b - 1, a);
    assert r' * a == a * r' && (b - 1) * a == a * b - a;
    DivisionUnique(n, a * b, q', a * r' + r);
  }

  lemma DivisionUnique(a: nat, d: nat, q: int, r: nat)
    requires d > 0 && a == q * d + r && r < d
    ensures a / d == q
  {
    var q' := a / d;
    assert a == q' * d + a % d;
    assert (q - q') * d == q * d - q' * d && (q' - q) * d == q' * d - q * d;
    if q > q' {
      MulMonotone(1, q - q', d);
    } else if q < q' {
      MulMonotone(1, q' - q, d);
    }
  }

  function DecodeLe(bs: Bytes, width: nat): Decoded<nat>
  {
    if |bs| < width then Fail else Done(LeValue(bs[..width]), bs[width..])
  }

  lemma DecodeLeOfLe(n: nat, width: nat, rest: Bytes)
    requires n < Pow256(width)
    ensures DecodeLe(Le(n, width) + rest, width) == Done(n, rest)
  {
    LeRoundTrip(n, width);
    assert (Le(n, width) + rest)[..width] == Le(n, width);
    assert (Le(n, width) + rest)[width..] == rest;
  }

  // ---------------------------------------------------------------- compact lengths

  function CompactSize(n: nat): nat
  {
    if n < 0x40 then 1 else if n < 0x4000 then 2 else if n < 0x4000_0000 then 4 else 5
  }

  /** The compact encoding of a `Vec` length. The low two bits of the first byte give the mode. */
  function Compact(n: nat): (bs: Bytes)
    requires n < TWO_32
    ensures |bs| == CompactSize(n)
  {
    if n < 0x40 then [4 * n]
    else if n < 0x4000 then Le(4 * n + 1, 2)
    else if n < 0x4000_0000 then Le(4 * n + 2, 4)
    else [3] + Le(n, 4)
  }

  /** The layout itself: the low two bits of the first byte are the mode. Modes 0, 1 and 2 keep the
      length above them, in one, two and four little-endian bytes, mode 3 in the four bytes after. */
  lemma CompactLayout(n: nat)
    requires n < TWO_32
    ensures var bs := Compact(n);
            && (n < 0x40 ==> |bs| == 1 && LeValue(bs) == 4 * n)
            && (0x40 <= n < 0x4000 ==> |bs| == 2 && LeValue(bs) == 4 * n + 1)
            && (0x4000 <= n < 0x4000_0000 ==> |bs| == 4 && LeValue(bs) == 4 * n + 2)
            && (0x4000_0000 <= n ==> |bs| == 5 && bs[0] == 3 && LeValue(bs[1..]) == n)
  {
    ShortPowers();
    hide Pow256;
    if 0x40 <= n < 0x4000 {
      LeRoundTrip(4 * n + 1, 2);
    } else if 0x4000 <= n < 0x4000_0000 {
      LeRoundTrip(4 * n + 2, 4);
    } else if 0x4000_0000 <= n {
      LeRoundTrip(n, 4);
    }
  }

  /** Reads a compact length and refuses one that a shorter mode could have carried. */
  function DecodeCompact(bs: Bytes): Decoded<nat>
  {
    if bs == [] then Fail
    else if bs[0] % 4 == 0 then Done(bs[0] / 4, bs[1..])
    else if bs[0] % 4 == 1 then
      match DecodeLe(bs, 2)
      case Fail => Fail
      case Done(x, rest) => if x / 4 < 0x40 then Fail else Done(x / 4, rest)
    else if bs[0] % 4 == 2 then
      match DecodeLe(bs, 4)
      case Fail => Fail
      case Done(x, rest) => if x / 4 < 0x4000 then Fail else Done(x / 4, rest)
    else if bs[0] != 3 then Fail
    else
      match DecodeLe(bs[1..], 4)
      case Fail => Fail
      case Done(x, rest) => if x < 0x4000_0000 then Fail else Done(x, rest)
  }

  lemma CompactRoundTrip(n: nat, rest: Bytes)
    requires n < TWO_32
    ensures DecodeCompact(Compact(n) + rest) == Done(n, rest)
  {
    ShortPowers();
    hide Le, LeValue, Pow256;
    if n < 0x40 {
      assert (Compact(n) + rest)[1..] == rest;
    } else if n < 0x4000 {
      TaggedRoundTrip(n, 1, 2, rest);
    } else if n < 0x4000_0000 {
      TaggedRoundTrip(n, 2, 4, rest);
    } else {
      assert (Compact(n) + rest)[1..] == Le(n, 4) + rest;
      DecodeLeOfLe(n, 4, rest);
    }
  }

  lemma ShortPowers()
    ensures Pow256(2) == 0x1_0000 && Pow256(4) == TWO_32
  {
    assert Pow256(4) == 256 * (256 * (256 * (256 * Pow256(0))));
  }

  /** A length stored in `width` bytes above a two-bit mode. */
  lemma TaggedRoundTrip(n: nat, mode: nat, width: nat, rest: Bytes)
    requires mode < 4 && (width == 2 || width == 4) && 4 * n + mode < Pow256(width)
    ensures var bs := Le(4 * n + mode, width) + rest;
            bs[0] % 4 == mode && DecodeLe(bs, width) == Done(4 * n + mode, rest)
  {
    var x := 4 * n + mode;
    assert Le(x, width)[0] == x % 256;
    assert x % 256 % 4 == mode;
    DecodeLeOfLe(x, width, rest);
  }

  /** The decoder accepts nothing but the encoder's own output. */
  lemma CompactExact(bs: Bytes)
    requires DecodeCompact(bs).Done?
    ensures var d := DecodeCompact(bs); d.value < TWO_32 && bs == Compact(d.value) + d.rest
  {
    var n := DecodeCompact(bs).value;
    ShortPowers();
    if bs[0] % 4 == 0 {
      assert bs == [bs[0]] + bs[1..];
    } else if bs[0] % 4 == 1 {
      FirstByteMode(bs[..2]);
      LeValueBound(bs[..2]);
      LeOfValue(bs[..2]);
      assert LeValue(bs[..2]) == 4 * n + 1;
    } else if bs[0] % 4 == 2 {
      FirstByteMode(bs[..4]);
      LeValueBound(bs[..4]);
      LeOfValue(bs[..4]);
      assert LeValue(bs[..4]) == 4 * n + 2;
    } else {
      LeValueBound(bs[1..][..4]);
      LeOfValue(bs[1..][..4]);
      assert bs == [bs[0]] + bs[1..];
      assert bs[1..] == bs[1..][..4] + bs[1..][4..];
    }
  }

  lemma FirstByteMode(bs: Bytes)
    requires bs != []
    ensures LeValue(bs) % 4 == bs[0] % 4
  {
    assert 256 * LeValue(bs[1..]) == 4 * (64 * LeValue(bs[1..]));
  }

  // ---------------------------------------------------------------- sequences without repetition

  ghost predicate Distinct<T>(s: seq<T>)
  {
    forall i, j :: 0 <= i < j < |s| ==> s[i] != s[j]
  }

  function Elements<T>(s: seq<T>): set<T>
  {
    set x | x in s
  }

  /** Counting the distinct elements, as the `BTreeMap` test does, detects a repetition exactly. */
  lemma {:induction false} CountDetectsRepeats<T>(s: seq<T>)
    ensures |Elements(s)| <= |s|
    ensures |Elements(s)| == |s| <==> Distinct(s)
  {
    if s == [] {
      assert Elements(s) == {};
    } else {
      var n := |s| - 1;
      var front := s[..n];
      CountDetectsRepeats(front);
      assert s == front + [s[n]];
      assert Elements(s) == Elements(front) + {s[n]};
      if s[n] in front {
        var i :| 0 <= i < n && front[i] == s[n];
        assert s[i] == s[n];
        assert Elements(s) == Elements(front);
      } else {
        assert |Elements(s)| == |Elements(front)| + 1;
        assert forall i, j :: 0 <= i < j < n ==> s[i] == front[i] && s[j] == front[j];
        assert Distinct(s) ==> Distinct(front);
      }
    }
  }
}
