/** The DER form of an ECDSA signature, built and pruned in place (transaction.c). */
module Der {
  import opened Arith
  import opened Bytes
  import opened Bignum
  import opened Wrappers

  const R_OFFSET: nat := 4
  const S_OFFSET: nat := 39
  const MAX_SIGNATURE_LENGTH: nat := 73

  /** An INTEGER's contents without the leading zeros that the sign bit does not need. */
  function Trim(s: seq<Byte>): (m: seq<Byte>)
    requires s != []
    ensures 1 <= |m| <= |s|
  {
    if |s| > 1 && s[0] == 0 && s[1] < 0x80 then Trim(s[1..]) else s
  }

  /** The contents of the INTEGER for a 32-byte little-endian number. */
  function Contents(x: seq<Byte>): (m: seq<Byte>)
    requires |x| == 32
    ensures 1 <= |m| <= 33
  {
    Trim([0] + Reversed(x))
  }

  function Integer(m: seq<Byte>): seq<Byte>
    requires |m| < 256
  {
    [0x02, |m|] + m
  }

  /** SEQUENCE of two INTEGERs, then the hash type byte. */
  function Encode(r: seq<Byte>, s: seq<Byte>): seq<Byte>
    requires |r| == 32 && |s| == 32
  {
    var body := Integer(Contents(r)) + Integer(Contents(s));
    [0x30, |body|] + body + [0x01]
  }

  // ----- reading it back -----

  /** Two's complement contents of a non-negative INTEGER in as few bytes as possible (section 8.3 of X.690). */
  predicate Minimal(m: seq<Byte>) {
    m != [] && m[0] < 0x80 && (|m| > 1 && m[0] == 0 ==> m[1] >= 0x80)
  }

  /** An INTEGER at the front of s: its contents and what follows. */
  function DecodeInteger(s: seq<Byte>): Option<(seq<Byte>, seq<Byte>)> {
    if |s| < 2 || s[0] != 0x02 then None
    else
      var end: int := 2 + (s[1] as int);
      if |s| < end || !Minimal(s[2..end]) then None else Some((s[2..end], s[end..]))
  }

  /** The two numbers of a signature followed by hash type 1, or None if it is not strict DER. */
  function Decode(s: seq<Byte>): Option<(nat, nat)> {
    if |s| < 3 || s[0] != 0x30 || |s| != (s[1] as int) + 3 || s[|s| - 1] != 0x01 then None
    else
      var r := DecodeInteger(s[2..|s| - 1]);
      if r.None? then None
      else
        var t := DecodeInteger(r.value.1);
        if t.None? || t.value.1 != [] then None else Some((ValBE(r.value.0), ValBE(t.value.0)))
  }

  lemma ValBECons(s: seq<Byte>)
    requires s != []
    ensures ValBE(s) == s[0] * Pow256(|s| - 1) + ValBE(s[1..])
  {
    assert Val([s[0]]) == s[0] by {
      assert [s[0]][1..] == [];
    }
    hide Val, Pow256;
    ReversedCons(s);
    ValConcat(Reversed(s[1..]), [s[0]]);
    Commute(s[0], Pow256(|s| - 1));
  }

  lemma ReversedCons(s: seq<Byte>)
    requires s != []
    ensures Reversed(s) == Reversed(s[1..]) + [s[0]]
  {
  }

  lemma {:induction false} TrimKeepsValue(s: seq<Byte>)
    requires s != []
    ensures ValBE(Trim(s)) == ValBE(s)
  {
    if |s| > 1 && s[0] == 0 && s[1] < 0x80 {
      TrimKeepsValue(s[1..]);
      ValBECons(s);
    }
  }

  lemma {:induction false} TrimIsMinimal(s: seq<Byte>)
    requires s != [] && s[0] < 0x80
    ensures Minimal(Trim(s))
  {
    if |s| > 1 && s[0] == 0 && s[1] < 0x80 {
      TrimIsMinimal(s[1..]);
    }
  }

  /** The contents stand for the number, and no non-negative INTEGER with that value is shorter. */
  lemma ContentsValue(x: seq<Byte>)
    requires |x| == 32
    ensures ValBE(Contents(x)) == Val(x) && Minimal(Contents(x))
  {
    hide Trim, Pow256, Val, Minimal;
    var padded := [0] + Reversed(x);
    TrimKeepsValue(padded);
    TrimIsMinimal(padded);
    ValBECons(padded);
    assert padded[1..] == Reversed(x);
    assert Reversed(Reversed(x)) == x;
  }

  lemma MinimalIsShortest(m: seq<Byte>, c: seq<Byte>)
    requires Minimal(m) && c != [] && c[0] < 0x80 && ValBE(c) == ValBE(m)
    ensures |m| <= |c|
  {
    if |c| < |m| {
      ValBEBound(c);
      assert |m| > 1;
      ValBECons(m);
      if m[0] != 0 {
        MulMono(1, m[0], Pow256(|m| - 1));
        Pow256Mono(|c|, |m| - 1);
      } else {
        ValBECons(m[1..]);
        assert |m[1..]| == |m| - 1 && m[1..][0] == m[1] >= 0x80;
        HalfBound(c);
        MulMono(128, m[1], Pow256(|m| - 2));
        Pow256Mono(|c| - 1, |m| - 2);
      }
    }
  }

  lemma ValBEBound(s: seq<Byte>)
    ensures ValBE(s) < Pow256(|s|)
  {
    ValBound(Reversed(s));
  }

  lemma HalfBound(c: seq<Byte>)
    requires c != [] && c[0] < 0x80
    ensures ValBE(c) < 128 * Pow256(|c| - 1)
  {
    ValBECons(c);
    ValBEBound(c[1..]);
    MulMono(c[0], 127, Pow256(|c| - 1));
  }

  lemma IntegerDecodes(m: seq<Byte>, rest: seq<Byte>)
    requires Minimal(m) && |m| < 256
    ensures DecodeInteger(Integer(m) + rest) == Some((m, rest))
  {
    var s := Integer(m) + rest;
    assert s[2..2 + |m|] == m && s[2 + |m|..] == rest;
  }

  /** The encoding of a signature parses back to the numbers it was made from. */
  lemma DecodeEncode(r: seq<Byte>, s: seq<Byte>)
    requires |r| == 32 && |s| == 32
    ensures Decode(Encode(r, s)) == Some((Val(r), Val(s)))
  {
    hide Trim, Contents, Minimal, DecodeInteger, Integer, ValBE;
    var a, b := Contents(r), Contents(s);
    ContentsValue(r);
    ContentsValue(s);
    IntegerSize(a);
    IntegerSize(b);
    var body := Integer(a) + Integer(b);
    var e := Encode(r, s);
    assert e[2..|e| - 1] == body;
    IntegerDecodes(a, Integer(b));
    assert Integer(b) + [] == Integer(b);
    IntegerDecodes(b, []);
  }

  lemma IntegerSize(m: seq<Byte>)
    requires |m| < 256
    ensures |Integer(m)| == |m| + 2
  {
  }

  /** The encoding has 9 to 73 bytes, and at most 72 when s is in the lower half of 256 bits. */
  lemma EncodeSize(r: seq<Byte>, s: seq<Byte>)
    requires |r| == 32 && |s| == 32
    ensures 9 <= |Encode(r, s)| <= MAX_SIGNATURE_LENGTH
    ensures s[31] < 0x80 ==> |Encode(r, s)| <= 72
  {
    if s[31] < 0x80 {
      var padded := [0] + Reversed(s);
      assert padded[1] == s[31] && |padded[1..]| == 32;
      assert Contents(s) == Trim(padded[1..]);
    }
  }

  /** A signature whose s is in the lower half of the group order's range has at most 72 bytes. */
  lemma LowSSize(r: seq<Byte>, s: seq<Byte>)
    requires |r| == 32 && |s| == 32 && 2 * Val(s) < TWO256
    ensures |Encode(r, s)| <= 72
  {
    hide Val, Pow256, Encode;
    if s[31] >= 0x80 {
      assert s[..32] == s;
      ValPrefix(s, 31);
      MulMono(128, s[31], Pow256(31));
      Pow256At32();
      Pow256Next(31);
    }
    EncodeSize(r, s);
  }

  lemma Pow256Next(k: nat)
    ensures Pow256(k + 1) == 256 * Pow256(k)
  {
  }

  // ----- in place -----

  method ShiftDown(a: array<Byte>, from: nat)
    requires a.Length >= MAX_SIGNATURE_LENGTH && from < 72
    modifies a
    ensures forall k :: 0 <= k < from || 72 <= k < a.Length ==> a[k] == old(a[k])
    ensures forall k :: from <= k < 72 ==> a[k] == old(a[k + 1])
  {
    for i := from to 72
      invariant forall k :: 0 <= k < from || i <= k < a.Length ==> a[k] == old(a[k])
      invariant forall k :: from <= k < i ==> a[k] == old(a[k + 1])
    {
      a[i] := a[i + 1];
    }
  }

  /** t leading bytes removed: the rest has moved down and the length byte counts what is left. */
  ghost predicate Pruned(was: seq<Byte>, now: seq<Byte>, offset: nat, t: nat)
    requires |was| == |now| >= MAX_SIGNATURE_LENGTH && 1 <= offset && offset + 33 <= 73 && t <= 32
  {
    && Trim(was[offset..offset + 33]) == Trim(was[offset + t..offset + 33])
    && now[offset - 1] == 33 - t
    && now[..offset - 1] == was[..offset - 1]
    && now[offset..73 - t] == was[offset + t..73]
  }

  lemma PrunedStep(was: seq<Byte>, now: seq<Byte>, next: seq<Byte>, offset: nat, t: nat)
    requires |was| == |now| == |next| >= MAX_SIGNATURE_LENGTH && 1 <= offset && offset + 33 <= 73 && t < 32
    requires Pruned(was, now, offset, t) && now[offset] == 0 && now[offset + 1] < 0x80
    requires next[..offset - 1] == now[..offset - 1] && next[offset - 1] == now[offset - 1] - 1
    requires forall k :: offset <= k < 72 ==> next[k] == now[k + 1]
    ensures Pruned(was, next, offset, t + 1)
  {
    var x := was[offset + t..offset + 33];
    assert x[0] == now[offset..73 - t][0] && x[1] == now[offset..73 - t][1];
    assert x[1..] == was[offset + t + 1..offset + 33];
    var a, b := next[offset..73 - (t + 1)], was[offset + (t + 1)..73];
    forall k | 0 <= k < |a|
      ensures a[k] == b[k]
    {
      assert now[offset..73 - t][k + 1] == was[offset + t..73][k + 1];
    }
  }

  /** When pruning stops, what is left is the trimmed contents. */
  lemma PrunedEnd(was: seq<Byte>, now: seq<Byte>, offset: nat, t: nat)
    requires |was| == |now| >= MAX_SIGNATURE_LENGTH && 1 <= offset && offset + 33 <= 73 && t <= 32
    requires Pruned(was, now, offset, t)
    requires t == 32 || !(now[offset] == 0 && now[offset + 1] < 0x80)
    ensures var m := Trim(was[offset..offset + 33]);
            && t == 33 - |m| && now[offset - 1] == 33 - t && now[..offset - 1] == was[..offset - 1]
            && now[offset..73 - t] == m + was[offset + 33..73]
  {
    var x := was[offset + t..offset + 33];
    if t < 32 {
      assert x[0] == now[offset..73 - t][0] && x[1] == now[offset..73 - t][1];
    }
    assert Trim(x) == x;
    assert was[offset + t..73] == x + was[offset + 33..73];
  }

  lemma PrunedNone(was: seq<Byte>, offset: nat)
    requires |was| >= MAX_SIGNATURE_LENGTH && 1 <= offset && offset + 33 <= 73 && was[offset - 1] == 33
    ensures Pruned(was, was, offset, 0)
  {
  }

  lemma PrunedLength(was: seq<Byte>, now: seq<Byte>, offset: nat, t: nat)
    requires |was| == |now| >= MAX_SIGNATURE_LENGTH && 1 <= offset && offset + 33 <= 73 && t <= 32
    requires Pruned(was, now, offset, t)
    ensures now[offset - 1] == 33 - t
  {
  }

  /** Removes the leading zeros of the 33-byte INTEGER at `offset`, moving everything after it down. */
  method Prune(signature: array<Byte>, offset: nat) returns (removed: nat)
    requires signature.Length >= MAX_SIGNATURE_LENGTH && 1 <= offset && offset + 33 <= 73
    requires signature[offset - 1] == 33
    modifies signature
    ensures removed == 33 - |Trim(old(signature[offset..offset + 33]))|
    ensures signature[offset - 1] == 33 - removed
    ensures signature[..offset - 1] == old(signature[..offset - 1])
    ensures signature[offset..73 - removed]
            == Trim(old(signature[offset..offset + 33])) + old(signature[offset + 33..73])
  {
    ghost var was := signature[..];
    removed := 0;
    PrunedNone(was, offset);
    hide Trim, Pruned;
    while signature[offset] == 0 && signature[offset + 1] < 0x80
      invariant removed < 32 && Pruned(was, signature[..], offset, removed)
      decreases 32 - removed
    {
      ghost var now := signature[..];
      ShiftDown(signature, offset);
      signature[offset - 1] := U8(signature[offset - 1] - 1);
      PrunedStep(was, now, signature[..], offset, removed);
      removed := removed + 1;
      PrunedLength(was, signature[..], offset, removed);
      if signature[offset - 1] == 1 {
        break;
      }
    }
    PrunedEnd(was, signature[..], offset, removed);
    assert was[offset..offset + 33] == old(signature[offset..offset + 33]);
    assert was[offset + 33..73] == old(signature[offset + 33..73]);
    assert signature[offset..73 - removed] == signature[..][offset..73 - removed];
    assert signature[..offset - 1] == signature[..][..offset - 1] && was[..offset - 1] == old(signature[..offset - 1]);
  }

  /** The 73 bytes before pruning: both INTEGERs padded with one leading zero. */
  function Unpruned(r: seq<Byte>, s: seq<Byte>): (u: seq<Byte>)
    requires |r| == 32 && |s| == 32
    ensures |u| == 73
  {
    [0x30, 0x46] + [0x02, 0x21, 0] + Reversed(r) + [0x02, 0x21, 0] + Reversed(s) + [0x01]
  }

  /** Copies a little-endian number to `at` and reverses it there. */
  method PutBigEndian(signature: array<Byte>, at: nat, x: array<Byte>)
    requires at + 32 <= signature.Length && x.Length == 32 && signature != x
    modifies signature
    ensures signature[at..at + 32] == Reversed(x[..])
    ensures forall k :: 0 <= k < signature.Length && !(at <= k < at + 32) ==> signature[k] == old(signature[k])
  {
    for k := 0 to 32
      invariant signature[at..at + k] == x[..k]
      invariant forall i :: 0 <= i < at || at + k <= i < signature.Length ==> signature[i] == old(signature[i])
    {
      signature[at + k] := x[k];
      assert signature[at..at + k + 1] == signature[at..at + k] + [x[k]];
    }
    assert x[..32] == x[..];
    SwapEndian256(signature, at);
  }

  /** Lays out the unpruned signature; bytes 0 and 1 are filled in at the end. */
  method LayOut(signature: array<Byte>, r: array<Byte>, s: array<Byte>)
    requires signature.Length >= MAX_SIGNATURE_LENGTH && r.Length == 32 && s.Length == 32
    requires signature != r && signature != s
    modifies signature
    ensures signature[2..73] == Unpruned(r[..], s[..])[2..]
  {
    hide Unpruned;
    PutBigEndian(signature, R_OFFSET + 1, r);
    ghost var bigR := signature[5..37];
    PutBigEndian(signature, S_OFFSET + 1, s);
    ghost var bigS := signature[40..72];
    assert signature[5..37] == bigR;
    signature[R_OFFSET], signature[S_OFFSET] := 0x00, 0x00;
    signature[R_OFFSET - 2], signature[R_OFFSET - 1] := 0x02, 0x21;
    signature[S_OFFSET - 2], signature[S_OFFSET - 1] := 0x02, 0x21;
    signature[S_OFFSET + 33] := 0x01;
    ghost var all := signature[..];
    ghost var a := signature[2..73];
    assert all[5..37] == bigR && all[40..72] == bigS && a == all[2..73];
    SubSlice(all, 2, 73, 3, 35);
    SubSlice(all, 2, 73, 38, 70);
    LaidOut(a, r[..], s[..]);
  }

  lemma LaidOut(a: seq<Byte>, r: seq<Byte>, s: seq<Byte>)
    requires |a| == 71 && |r| == 32 && |s| == 32
    requires a[0] == 0x02 && a[1] == 0x21 && a[2] == 0 && a[3..35] == Reversed(r)
    requires a[35] == 0x02 && a[36] == 0x21 && a[37] == 0 && a[38..70] == Reversed(s) && a[70] == 0x01
    ensures a == Unpruned(r, s)[2..]
  {
    assert a == a[..3] + a[3..35] + a[35..38] + a[38..70] + a[70..];
    assert a[..3] == [0x02, 0x21, 0] && a[35..38] == [0x02, 0x21, 0] && a[70..] == [0x01];
  }

  /** The signature after s and then r have been pruned holds the two INTEGERs and the hash type. */
  lemma PrunedBoth(r: seq<Byte>, s: seq<Byte>, a: seq<Byte>, b: seq<Byte>, c: seq<Byte>)
    requires |r| == 32 && |s| == 32 && |a| == |b| == |c| >= MAX_SIGNATURE_LENGTH
    requires a[2..73] == Unpruned(r, s)[2..]
    requires var m := Contents(s);
             b[..38] == a[..38] && b[38] == |m| && b[39..40 + |m|] == m + a[72..73]
    requires var l := Contents(r);
             c[..3] == b[..3] && c[3] == |l| && c[4..40 + |l|] == l + b[37..73]
    ensures c[2..7 + |Contents(r)| + |Contents(s)|] == Integer(Contents(r)) + Integer(Contents(s)) + [0x01]
  {
    var u, l, m := Unpruned(r, s), Contents(r), Contents(s);
    var n := |m| + 3;
    assert a[72] == u[2..][70] == 0x01 && a[2] == u[2..][0] == 0x02 && a[37] == u[2..][35] == 0x02;
    hide Contents, Unpruned;
    assert b[2] == b[..38][2] == a[2] && b[37] == b[..38][37] == a[37] && c[2] == c[..3][2] == b[2];
    assert b[37..37 + n] == [b[37], b[38]] + b[39..37 + n];
    assert c[4..4 + |l| + n] == c[4..40 + |l|][..|l| + n] == l + b[37..73][..n];
    assert b[37..73][..n] == b[37..37 + n];
    assert c[2..4 + |l| + n] == [c[2], c[3]] + c[4..4 + |l| + n];
  }

  lemma UnprunedIntegers(a: seq<Byte>, r: seq<Byte>, s: seq<Byte>)
    requires |r| == 32 && |s| == 32 && |a| >= MAX_SIGNATURE_LENGTH && a[2..73] == Unpruned(r, s)[2..]
    ensures a[3] == 33 && a[38] == 33
    ensures Trim(a[4..37]) == Contents(r) && Trim(a[39..72]) == Contents(s)
  {
    hide Trim;
    UnprunedSlices(r, s);
    var u := Unpruned(r, s)[2..];
    hide Unpruned, Reversed;
    assert a[3] == a[2..73][1] && a[38] == a[2..73][36];
    SubSlice(a, 2, 73, 2, 35);
    SubSlice(a, 2, 73, 37, 70);
  }

  lemma UnprunedSlices(r: seq<Byte>, s: seq<Byte>)
    requires |r| == 32 && |s| == 32
    ensures var u := Unpruned(r, s)[2..];
            && u[1] == 33 && u[36] == 33
            && u[2..35] == [0] + Reversed(r) && u[37..70] == [0] + Reversed(s)
  {
    hide Reversed;
    var u, x, y := Unpruned(r, s)[2..], Reversed(r), Reversed(s);
    assert u == ([0x02, 0x21] + ([0] + x)) + ([0x02, 0x21] + ([0] + y) + [0x01]);
    Middle([0x02, 0x21], [0] + x, [0x02, 0x21] + ([0] + y) + [0x01]);
    Middle([0x02, 0x21] + ([0] + x) + [0x02, 0x21], [0] + y, [0x01]);
    assert u == ([0x02, 0x21] + ([0] + x) + [0x02, 0x21]) + ([0] + y) + [0x01];
  }

  lemma Middle(a: seq<Byte>, b: seq<Byte>, c: seq<Byte>)
    ensures (a + b + c)[|a|..|a| + |b|] == b
  {
  }

  /** Prunes s and then r; returns what is left of the 70 bytes of the two INTEGERs. */
  method PruneBoth(signature: array<Byte>, ghost r: seq<Byte>, ghost s: seq<Byte>) returns (sequenceLength: nat)
    requires signature.Length >= MAX_SIGNATURE_LENGTH && |r| == 32 && |s| == 32
    requires signature[2..73] == Unpruned(r, s)[2..]
    modifies signature
    ensures sequenceLength == 4 + |Contents(r)| + |Contents(s)|
    ensures signature[2..3 + sequenceLength] == Integer(Contents(r)) + Integer(Contents(s)) + [0x01]
  {
    hide Contents, Unpruned, Integer, Trim;
    ghost var a := signature[..];
    assert a[2..73] == signature[2..73];
    UnprunedIntegers(a, r, s);
    sequenceLength := 0x46;
    assert signature[39..72] == a[39..72] && signature[72..73] == a[72..73];
    var removed := Prune(signature, S_OFFSET);
    sequenceLength := sequenceLength - removed;
    ghost var b := signature[..];
    assert b[..38] == a[..38] && b[39..73 - removed] == signature[39..73 - removed];
    PrefixKept(a, b);
    assert signature[4..37] == b[4..37] && signature[37..73] == b[37..73];
    removed := Prune(signature, R_OFFSET);
    sequenceLength := sequenceLength - removed;
    ghost var c := signature[..];
    assert c[..3] == b[..3] && c[4..73 - removed] == signature[4..73 - removed];
    PrunedBoth(r, s, a, b, c);
    assert signature[2..3 + sequenceLength] == c[2..3 + sequenceLength];
  }

  lemma PrefixKept(a: seq<Byte>, b: seq<Byte>)
    requires |a| == |b| >= 38 && b[..38] == a[..38]
    ensures b[3] == a[3] && b[4..37] == a[4..37]
  {
    assert b[3] == b[..38][3] && b[4..37] == b[..38][4..37] && a[4..37] == a[..38][4..37];
  }

  /** encapsulateSignature: the DER form of (r, s) with the hash type, in place; returns its length. */
  method EncapsulateSignature(signature: array<Byte>, r: array<Byte>, s: array<Byte>) returns (length: nat)
    requires signature.Length >= MAX_SIGNATURE_LENGTH && r.Length == 32 && s.Length == 32
    requires signature != r && signature != s
    modifies signature
    ensures length == |Encode(r[..], s[..])| <= MAX_SIGNATURE_LENGTH
    ensures signature[..length] == Encode(r[..], s[..])
  {
    hide Contents, Unpruned;
    LayOut(signature, r, s);
    ghost var rv, sv := r[..], s[..];
    var sequenceLength := PruneBoth(signature, rv, sv);
    ghost var body := signature[2..3 + sequenceLength];
    signature[0] := 0x30;
    signature[1] := sequenceLength;
    length := sequenceLength + 3;
    assert signature[..length] == [0x30, sequenceLength] + signature[2..length];
    assert signature[2..length] == body;
    assert r[..] == rv && s[..] == sv;
  }
}
