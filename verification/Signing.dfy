/** signTransaction(): an ECDSA signature in its DER envelope (transaction.c). */
module Signing {
  import opened Bytes
  import opened Wrappers
  import opened Ecdsa
  import opened Der

  /** A 32-byte number in an array of its own. */
  method Store(x: nat) returns (a: array<Byte>)
    ensures fresh(a) && a.Length == 32 && a[..] == ToBytes(x, 32)
  {
    var s := ToBytes(x, 32);
    a := new Byte[32];
    for i := 0 to 32
      invariant forall k :: 0 <= k < i ==> a[k] == s[k]
    {
      a[i] := s[i];
    }
  }

  /** What goes on the wire decodes to the two numbers, and fits 72 bytes because s is low. */
  lemma Envelope(r: nat, s: nat, order: nat)
    requires r < order && s <= order / 2 && order < TWO256
    ensures Decode(Encode(ToBytes(r, 32), ToBytes(s, 32))) == Some((r, s))
    ensures 9 <= |Encode(ToBytes(r, 32), ToBytes(s, 32))| <= 72
  {
    hide Val, Pow256, ToBytes, Encode, Decode;
    Pow256At32();
    ValToBytes(r, 32);
    ValToBytes(s, 32);
    DecodeEncode(ToBytes(r, 32), ToBytes(s, 32));
    EncodeSize(ToBytes(r, 32), ToBytes(s, 32));
    LowSSize(ToBytes(r, 32), ToBytes(s, 32));
  }

  /** The bytes are a signature of the hash with the key: strict DER for the r and s of some usable nonce. */
  method SignTransaction(signer: Signer, signature: array<Byte>, sigHash: nat, privateKey: nat, nonces: seq<seq<Byte>>)
    returns (ok: bool, length: nat, ghost used: nat)
    requires signer.Parameters() && signature.Length >= MAX_SIGNATURE_LENGTH
    requires forall i :: 0 <= i < |nonces| ==> |nonces[i]| == 32
    modifies signer, signature
    ensures ok <==> used < |nonces|
    ensures forall i :: 0 <= i < used && i < |nonces| ==> signer.Unusable(nonces[i], sigHash, privateKey)
    ensures ok ==>
              && 9 <= length <= 72 && Decode(signature[..length]).Some?
              && var (r, s) := Decode(signature[..length]).value;
                 signer.Signature(ValBE(nonces[used]), r, s, sigHash, privateKey)
  {
    hide Val, ValBE, Decode, Encode, ToBytes;
    length := 0;
    var r := new Num(0);
    var s := new Num(0);
    ok, used := signer.EcdsaSign(r, s, sigHash, privateKey, nonces);
    if ok {
      OrderFits(signer.nBytes);
      Envelope(r.v, s.v, Val(signer.nBytes));
      var rBytes := Store(r.v);
      var sBytes := Store(s.v);
      length := EncapsulateSignature(signature, rBytes, sBytes);
    }
  }

  lemma OrderFits(n: seq<Byte>)
    requires |n| == 32
    ensures Val(n) < TWO256
  {
    hide Val, Pow256;
    ValBound(n);
    Pow256At32();
  }
}
