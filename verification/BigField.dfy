/** Arithmetic modulo the current field's modulus on 32-byte numbers, in place (bignum256.c). */
module BigField {
  import opened Bytes
  import opened Arith
  import opened Bignum

  /**
   One reduction pass over the double-width value v, of which `remaining` bytes are taken into account:
   the bytes above 32 are replaced by their multiple of the complement c.
   */
  function Pass(v: nat, remaining: nat, c: nat): nat
    requires remaining > 32
  {
    v % TWO256 + Nat(c * (v / TWO256 % Pow256(remaining - 32)))
  }

  function Nat(x: int): nat {
    if x < 0 then 0 else x
  }

  /** All passes, until the byte count `remaining` has come down to 32. */
  function Reduce(v: nat, remaining: nat, c: nat, size: nat): nat
    requires size < 32
    decreases remaining
  {
    if remaining <= 32 then v else Reduce(Pass(v, remaining, c), remaining - 32 + size, c, size)
  }

  /** What bigMultiply leaves for a full product v: the passes, cut to 32 bytes, then one conditional subtraction. */
  function Reduced(v: nat, n: nat, c: nat, size: nat): nat
    requires size < 32 && n > 0
  {
    Reduce(v, 64, c, size) % TWO256 % n
  }

  /** 1 when a comparison said "less", else 0, without a branch. */
  function LessFlag(order: Byte): (f: Byte)
    requires order <= 2
    ensures f == if order == BIGCMP_LESS then 1 else 0
  {
    var cmp := U8(BitXor(order, BIGCMP_LESS));
    assert BitXor(0, 2) == 2 && BitXor(1, 2) == 3 && BitXor(2, 2) == 0;
    U8(U16(-(cmp as int)) / 256 + 1)
  }

  /** 0 when a comparison said "less", else 1, without a branch. */
  function NotLessFlag(order: Byte): (f: Byte)
    requires order <= 2
    ensures f == if order == BIGCMP_LESS then 0 else 1
  {
    var cmp := U8(BitXor(order, BIGCMP_LESS));
    assert BitXor(0, 2) == 2 && BitXor(1, 2) == 3 && BitXor(2, 2) == 0;
    U8(U16(-(cmp as int)) / 256) % 2
  }

  function OrFlag(a: Byte, b: Byte): (f: Byte)
    requires a <= 1 && b <= 1
    ensures f == if a == 0 && b == 0 then 0 else 1
  {
    assert BitOrNat(0, 0) == 0 && BitOrNat(0, 1) == 1 && BitOrNat(1, 0) == 1 && BitOrNat(1, 1) == 1;
    BitOr(a, b)
  }

  /** The static field parameters of bignum256.c. */
  class Field {
    var n: array<Byte>
    var complementN: array<Byte>

    /** What bigSetField's callers must provide: n > 2^255, its two's complement in fewer than 32 bytes. */
    ghost predicate Valid()
      reads this, n, complementN
    {
      && n.Length == 32
      && complementN.Length < 32
      && Val(n[..]) + Val(complementN[..]) == TWO256
      && 2 * Val(n[..]) > TWO256
    }

    constructor (n0: array<Byte>, complement0: array<Byte>)
      ensures n == n0 && complementN == complement0
    {
      n, complementN := n0, complement0;
    }

    /** One conditional subtraction is a full reduction, because n > 2^255. */
    method BigModulo(r: array<Byte>, op1: array<Byte>)
      requires Valid() && r.Length >= 32 && op1.Length >= 32 && r != n && r != complementN
      modifies r
      ensures Val(r[..32]) == old(Val(op1[..32])) % Val(n[..])
      ensures forall k :: 32 <= k < r.Length ==> r[k] == old(r[k])
    {
      hide Val, Pow256, LessFlag, NotLessFlag, OrFlag;
      var zero := new Byte[32](_ => 0);
      ZeroValue(zero[..32]);
      ValBound(op1[..32]);
      assert n[..32] == n[..];
      ghost var x, m := Val(op1[..32]), Val(n[..]);
      var order := BigCompareVariableSize(op1, n, 32);
      var cmp := LessFlag(order);
      if x < m {
        SmallMod(x, m);
      } else {
        OneSubtraction(x, m);
      }
      var lookup := [n, zero];
      var _ := BigSubtractVariableSizeNoModulo(r, op1, lookup[cmp], 32);
      assert n[..] == old(n[..]);
    }

    method BigAdd(r: array<Byte>, op1: array<Byte>, op2: array<Byte>)
      requires Valid() && r.Length >= 32 && op1.Length >= 32 && op2.Length >= 32 && r != n && r != complementN
      requires Val(op1[..32]) < Val(n[..]) && Val(op2[..32]) < Val(n[..])
      modifies r
      ensures Val(r[..32]) == (old(Val(op1[..32])) + old(Val(op2[..32]))) % Val(n[..])
      ensures forall k :: 32 <= k < r.Length ==> r[k] == old(r[k])
    {
      hide Val, Pow256, LessFlag, NotLessFlag, OrFlag;
      var zero := new Byte[32](_ => 0);
      ZeroValue(zero[..32]);
      assert n[..32] == n[..];
      ghost var x, m := Val(op1[..32]) + Val(op2[..32]), Val(n[..]);
      var tooBig := BigAddVariableSizeNoModulo(r, op1, op2, 32);
      ghost var low := Val(r[..32]);
      assert n[..32] == n[..] == old(n[..]);
      ValBoundAt32(r[..32]);
      var order := BigCompareVariableSize(r, n, 32);
      tooBig := OrFlag(tooBig, NotLessFlag(order));
      var lookup := [zero, n];
      var borrow := BigSubtractVariableSizeNoModulo(r, r, lookup[tooBig], 32);
      assert n[..] == old(n[..]);
      ValBoundAt32(r[..32]);
      ReducedSum(x, m, low, if tooBig == 0 then 0 else m, Val(r[..32]), borrow);
    }

    method BigSubtract(r: array<Byte>, op1: array<Byte>, op2: array<Byte>)
      requires Valid() && r.Length >= 32 && op1.Length >= 32 && op2.Length >= 32 && r != n && r != complementN
      requires Val(op1[..32]) < Val(n[..]) && Val(op2[..32]) < Val(n[..])
      modifies r
      ensures Val(r[..32]) == (old(Val(op1[..32])) - old(Val(op2[..32]))) % Val(n[..])
      ensures forall k :: 32 <= k < r.Length ==> r[k] == old(r[k])
    {
      hide Val, Pow256, LessFlag, NotLessFlag, OrFlag;
      var zero := new Byte[32](_ => 0);
      ZeroValue(zero[..32]);
      assert n[..32] == n[..];
      ghost var x, m := Val(op1[..32]) - Val(op2[..32]), Val(n[..]);
      var tooSmall := BigSubtractVariableSizeNoModulo(r, op1, op2, 32);
      assert n[..32] == n[..] == old(n[..]);
      if tooSmall == 0 {
        SmallMod(x, m);
      } else {
        ModUnique(x, m, -1, x + m);
      }
      var lookup := [zero, n];
      var _ := BigAddVariableSizeNoModulo(r, r, lookup[tooSmall], 32);
      assert n[..] == old(n[..]);
      ValBoundAt32(r[..32]);
    }

    /** Multiplies the upper bytes by the complement and adds them to the lower 32. */
    method ReductionPass(fullR: array<Byte>, remaining: nat)
      requires Valid() && fullR.Length == 64 && 32 < remaining <= 64
      requires fullR != n && fullR != complementN
      modifies fullR
      ensures Val(fullR[..]) == Pass(old(Val(fullR[..])), remaining, Val(complementN[..]))
    {
      hide Val, Pow256, Pass;
      var size := complementN.Length;
      ghost var was, complement := fullR[..], complementN[..];
      var temp := new Byte[64](_ => 0);
      BigMultiplyVariableSizeNoModulo(temp, complementN, size, fullR, 32, remaining - 32);
      ghost var t := temp[..];
      assert t[..size + (remaining - 32)] == temp[..size + (remaining - 32)];
      assert complementN[..size] == complement && fullR[32..32 + (remaining - 32)] == was[32..remaining];
      forall k | 32 <= k < 64 {
        fullR[k] := 0;
      }
      ghost var cleared := fullR[..];
      assert fullR[..remaining] == cleared[..remaining] && temp[..remaining] == t[..remaining];
      var carry := BigAddVariableSizeNoModulo(fullR, fullR, temp, remaining);
      assert fullR[..remaining] == fullR[..][..remaining];
      PassSum(was[..32], cleared, t, size + (remaining - 32), fullR[..], remaining, carry);
      PassValue(was, complement, t[..size + (remaining - 32)], fullR[..], remaining);
      assert complementN[..] == complement;
    }

    /** Passes until at most 32 bytes can be non-zero by the byte count alone. */
    method ReduceAll(fullR: array<Byte>)
      requires Valid() && fullR.Length == 64 && fullR != n && fullR != complementN
      modifies fullR
      ensures Val(fullR[..]) == Reduce(old(Val(fullR[..])), 64, Val(complementN[..]), complementN.Length)
    {
      ghost var product, c, size := Val(fullR[..]), Val(complementN[..]), complementN.Length;
      ghost var nBytes, cBytes := n[..], complementN[..];
      hide Val, Pow256, Pass;
      var remaining := 64;
      while remaining > 32
        invariant 0 <= remaining <= 64
        invariant Reduce(Val(fullR[..]), remaining, c, size) == Reduce(product, 64, c, size)
        invariant n[..] == nBytes && complementN[..] == cBytes
        decreases remaining
      {
        ReductionPass(fullR, remaining);
        remaining := remaining - 32 + complementN.Length;
      }
    }

    /** The passes are exactly those of Reduce; the last step reads 32 bytes only. */
    method BigMultiply(r: array<Byte>, op1: array<Byte>, op2: array<Byte>)
      requires Valid() && r.Length >= 32 && op1.Length >= 32 && op2.Length >= 32 && r != n && r != complementN
      modifies r
      ensures Val(r[..32])
              == Reduced(old(Val(op1[..32]) * Val(op2[..32])), Val(n[..]), Val(complementN[..]), complementN.Length)
      ensures forall k :: 32 <= k < r.Length ==> r[k] == old(r[k])
    {
      hide Val, Pow256, Reduce;
      var fullR := new Byte[64];
      BigMultiplyVariableSizeNoModulo(fullR, op1, 32, op2, 0, 32);
      assert op2[0..32] == op2[..32] && fullR[..64] == fullR[..];
      ghost var nBytes, cBytes := n[..], complementN[..];
      ReduceAll(fullR);
      LowHalf(fullR[..]);
      assert fullR[..][..32] == fullR[..32];
      assert n[..] == nBytes && complementN[..] == cBytes;
      BigModulo(fullR, fullR);
      assert n[..] == nBytes;
      ghost var low := fullR[..32];
      forall k | 0 <= k < 32 {
        r[k] := fullR[k];
      }
      assert r[..32] == low;
      assert n[..] == nBytes && complementN[..] == cBytes;
    }
  }

  /** Adding the product bytes t to the cleared number gives the lower half plus the product. */
  lemma PassSum(low: seq<Byte>, cleared: seq<Byte>, t: seq<Byte>, size: nat, r: seq<Byte>, remaining: nat, carry: nat)
    requires |cleared| == |t| == |r| == 64 && |low| == 32 < remaining <= 64 && size < remaining
    requires cleared[..32] == low && forall k :: 32 <= k < 64 ==> cleared[k] == 0
    requires forall k :: size <= k < 64 ==> t[k] == 0
    requires Val(r[..remaining]) + carry * Pow256(remaining) == Val(cleared[..remaining]) + Val(t[..remaining])
    requires forall k :: remaining <= k < 64 ==> r[k] == 0
    ensures Val(r) == Val(low) + Val(t[..size])
  {
    hide Val, Pow256;
    ZeroTail(cleared, 32, remaining);
    ZeroTail(t, size, remaining);
    ZeroTail(r, remaining, 64);
    assert r[..64] == r;
    ValBoundAt32(low);
    ValBound(t[..size]);
    PassFits(Val(low), Val(t[..size]), size, remaining, Val(r), carry);
  }

  /** The bytes after a pass stand for Pass of the bytes before. */
  lemma PassValue(was: seq<Byte>, complement: seq<Byte>, t: seq<Byte>, r: seq<Byte>, remaining: nat)
    requires |was| == 64 && 32 < remaining <= 64
    requires Val(t) == Val(complement) * Val(was[32..remaining])
    requires Val(r) == Val(was[..32]) + Val(t)
    ensures Val(r) == Pass(Val(was), remaining, Val(complement))
  {
    hide Val, Pow256, Pass;
    LowHalf(was);
    UpperBytes(was, remaining);
    PassDefinition(Val(was), remaining, Val(complement), Val(was[..32]), Val(was[32..remaining]));
  }

  lemma PassDefinition(v: nat, remaining: nat, c: nat, low: nat, high: nat)
    requires remaining > 32 && v % TWO256 == low && v / TWO256 % Pow256(remaining - 32) == high
    ensures Pass(v, remaining, c) == low + c * high
  {
    assert c * high >= 0;
  }

  /** Bytes that are all zero add nothing. */
  lemma ZeroTail(s: seq<Byte>, i: nat, j: nat)
    requires i <= j <= |s|
    requires forall k :: i <= k < j ==> s[k] == 0
    ensures Val(s[..j]) == Val(s[..i])
  {
    hide Val, Pow256;
    ValSplit(s[..j], i);
    assert s[..j][..i] == s[..i] && s[..j][i..] == s[i..j];
    ValZero(s[i..j]);
  }

  lemma UpperBytes(s: seq<Byte>, remaining: nat)
    requires |s| == 64 && 32 < remaining <= 64
    ensures Val(s) / TWO256 % Pow256(remaining - 32) == Val(s[32..remaining])
  {
    hide Val, Pow256;
    LowHalf(s);
    var upper := s[32..];
    ValSplit(upper, remaining - 32);
    assert upper[..remaining - 32] == s[32..remaining];
    ValBound(s[32..remaining]);
    ModUnique(Val(upper), Pow256(remaining - 32), Val(upper[remaining - 32..]), Val(s[32..remaining]));
  }

  /** The sum of a pass never runs out of the bytes being added. */
  lemma PassFits(low: nat, high: nat, size: nat, remaining: nat, v: nat, carry: nat)
    requires low < TWO256 && high < Pow256(size) && size < remaining && 32 < remaining
    requires v + carry * Pow256(remaining) == low + high
    ensures v == low + high
  {
    Pow256At32();
    Pow256Mono(32, remaining - 1);
    Pow256Mono(size, remaining - 1);
    assert Pow256(remaining) == 256 * Pow256(remaining - 1);
    var p := Pow256(remaining);
    assert carry * p < p;
    if carry > 0 {
      MulMono(1, carry, p);
    }
  }

  /** A sum of two residues, cut to 256 bits and reduced by the branch-free choice. */
  lemma ReducedSum(x: nat, m: nat, low: nat, sub: nat, result: nat, borrow: nat)
    requires x < 2 * m && m <= TWO256 && low < TWO256 && result < TWO256
    requires x == low || x == low + TWO256
    requires sub == if x == low && low < m then 0 else m
    requires borrow <= 1 && result == low - sub + borrow * TWO256
    ensures result == x % m
  {
    if x < m {
      SmallMod(x, m);
    } else {
      OneSubtraction(x, m);
    }
  }

  lemma ZeroValue(s: seq<Byte>)
    requires |s| == 32 && forall i :: 0 <= i < 32 ==> s[i] == 0
    ensures Val(s) == 0 && Pow256(32) == TWO256
  {
    hide Val, Pow256;
    ValZero(s);
    Pow256At32();
  }

  lemma ValBoundAt32(s: seq<Byte>)
    requires |s| == 32
    ensures Val(s) < TWO256
  {
    Pow256At32();
    ValBound(s);
  }

  /** The value of the lower 32 bytes. */
  lemma LowHalf(s: seq<Byte>)
    requires |s| == 64
    ensures Val(s) % TWO256 == Val(s[..32])
    ensures Val(s) / TWO256 == Val(s[32..])
  {
    hide Val;
    Pow256At32();
    ValSplit(s, 32);
    ValBoundAt32(s[..32]);
    ModUnique(Val(s), TWO256, Val(s[32..]), Val(s[..32]));
  }
}
