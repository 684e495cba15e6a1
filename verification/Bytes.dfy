/** Bytes, machine-width truncation and the little-endian value of a byte string. */
module Bytes {

  type Byte = x: int | 0 <= x < 256

  /** Conversion to uint8_t: reduction modulo 2^8. */
  function U8(x: int): Byte {
    x % 256
  }

  /** Conversion to uint16_t: reduction modulo 2^16. */
  function U16(x: int): nat {
    x % 65536
  }

  /** Bitwise operators on the non-negative values C's integer promotions produce. */
  function BitAnd(a: nat, b: nat): nat
    decreases a
  {
    if a == 0 || b == 0 then 0
    else (if a % 2 == 1 && b % 2 == 1 then 1 else 0) + 2 * BitAnd(a / 2, b / 2)
  }

  function BitXor(a: nat, b: nat): nat
    decreases a + b
  {
    if a == 0 then b
    else if b == 0 then a
    else (a % 2 + b % 2) % 2 + 2 * BitXor(a / 2, b / 2)
  }

  function Pow256(k: nat): (r: nat)
    ensures r > 0
  {
    if k == 0 then 1 else 256 * Pow256(k - 1)
  }

  /** 2^256, the number of values a BigNum256 can hold. */
  const TWO256: nat := 0x1_0000000000000000_0000000000000000_0000000000000000_0000000000000000

  lemma Pow256At32()
    ensures Pow256(32) == TWO256
  {
    assert Pow256(8) == 0x1_0000000000000000;
    Pow256Add(8, 8);
    Pow256Add(16, 16);
  }

  lemma {:induction false} Pow256Add(a: nat, b: nat)
    ensures Pow256(a + b) == Pow256(a) * Pow256(b)
  {
    if a > 0 {
      Pow256Add(a - 1, b);
      assert Pow256(a + b) == 256 * Pow256(a - 1 + b);
    }
  }

  lemma {:induction false} Pow256Mono(a: nat, b: nat)
    requires a <= b
    ensures Pow256(a) <= Pow256(b)
    decreases b
  {
    if a < b {
      Pow256Mono(a, b - 1);
    }
  }

  /** The number a byte string stands for, least significant byte first. */
  function Val(s: seq<Byte>): nat {
    if |s| == 0 then 0 else s[0] + 256 * Val(s[1..])
  }

  lemma {:induction false} ValConcat(a: seq<Byte>, b: seq<Byte>)
    ensures Val(a + b) == Val(a) + Pow256(|a|) * Val(b)
  {
    if a == [] {
      assert a + b == b;
    } else {
      ValConcat(a[1..], b);
      assert (a + b)[1..] == a[1..] + b;
      var p, v := Pow256(|a| - 1), Val(b);
      assert Pow256(|a|) * v == 256 * (p * v);
    }
  }

  /** Extending a prefix by one byte. */
  lemma ValPrefix(s: seq<Byte>, i: nat)
    requires i < |s|
    ensures Val(s[..i + 1]) == Val(s[..i]) + s[i] * Pow256(i)
  {
    assert s[..i + 1] == s[..i] + [s[i]];
    ValConcat(s[..i], [s[i]]);
  }

  lemma ValSplit(s: seq<Byte>, i: nat)
    requires i <= |s|
    ensures Val(s) == Val(s[..i]) + Pow256(i) * Val(s[i..])
  {
    assert s == s[..i] + s[i..];
    ValConcat(s[..i], s[i..]);
  }

  lemma {:induction false} ValBound(s: seq<Byte>)
    ensures Val(s) < Pow256(|s|)
  {
    if s != [] {
      ValBound(s[1..]);
    }
  }

  /** Fixed-width little-endian notation is unique. */
  lemma {:induction false} ValInjective(a: seq<Byte>, b: seq<Byte>)
    requires |a| == |b|
    requires Val(a) == Val(b)
    ensures a == b
  {
    if a != [] {
      assert a[0] == Val(a) % 256 && b[0] == Val(b) % 256;
      ValInjective(a[1..], b[1..]);
      assert a == [a[0]] + a[1..] && b == [b[0]] + b[1..];
    }
  }

  lemma {:induction false} ValZero(s: seq<Byte>)
    ensures Val(s) == 0 <==> forall i :: 0 <= i < |s| ==> s[i] == 0
  {
    if s != [] {
      ValZero(s[1..]);
      if forall i :: 0 <= i < |s| ==> s[i] == 0 {
        assert forall i :: 0 <= i < |s[1..]| ==> s[1..][i] == s[i + 1];
      }
      if Val(s) == 0 {
        forall i | 0 <= i < |s| ensures s[i] == 0 {
          if i > 0 {
            assert s[i] == s[1..][i - 1];
          }
        }
      }
    }
  }

  /** A number of four bytes, written out. */
  lemma ValFour(a: Byte, b: Byte, c: Byte, d: Byte)
    ensures Val([a, b, c, d]) == a + 0x100 * b + 0x1_0000 * c + 0x100_0000 * d
  {
    assert Val([d]) == d by {
      assert [d][1..] == [];
    }
    assert Val([c, d]) == c + 0x100 * d by {
      assert [c, d][1..] == [d];
    }
    assert Val([b, c, d]) == b + 0x100 * c + 0x1_0000 * d by {
      assert [b, c, d][1..] == [c, d];
    }
    assert [a, b, c, d][1..] == [b, c, d];
  }

  /** The little-endian bytes of x, truncated to `width` bytes. */
  function ToBytes(x: nat, width: nat): (s: seq<Byte>)
    ensures |s| == width
  {
    if width == 0 then [] else [x % 256] + ToBytes(x / 256, width - 1)
  }

  lemma {:induction false} ValToBytes(x: nat, width: nat)
    requires x < Pow256(width)
    ensures Val(ToBytes(x, width)) == x
  {
    if width > 0 {
      ValToBytes(x / 256, width - 1);
      var s := ToBytes(x, width);
      assert s[1..] == ToBytes(x / 256, width - 1);
    }
  }

  /** The same bytes in the other order. */
  function Reversed(s: seq<Byte>): (r: seq<Byte>)
    ensures |r| == |s|
    ensures forall i :: 0 <= i < |s| ==> r[i] == s[|s| - 1 - i]
  {
    seq(|s|, i requires 0 <= i < |s| => s[|s| - 1 - i])
  }

  /** The number a byte string stands for, most significant byte first. */
  function ValBE(s: seq<Byte>): nat {
    Val(Reversed(s))
  }

  /** A slice of a slice is a slice. */
  lemma SubSlice(s: seq<Byte>, from: nat, to: nat, i: nat, j: nat)
    requires from <= to <= |s| && i <= j && from + j <= to
    ensures s[from..to][i..j] == s[from + i..from + j]
  {
    var a, b := s[from..to][i..j], s[from + i..from + j];
    assert |a| == |b|;
    forall k | 0 <= k < |a|
      ensures a[k] == b[k]
    {
      assert a[k] == s[from..to][i + k] == s[from + i + k];
    }
  }
}
