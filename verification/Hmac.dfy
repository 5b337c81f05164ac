/** HMAC of RFC 2104 over LSH-256. */
module Hmac {
  import opened Bytes
  import opened Lsh256
  import opened LshContext
  import opened LshHash
  import opened LshMessage
  import opened Pieces

  /** The key filled with zeros to a block; a longer key is hashed first. */
  function KeyBlock(v: Variant, key: seq<bv8>): (k: seq<bv8>)
    requires IsVariant(v)
    ensures |k| == 128
  {
    var k := if |key| > 128 then Hash(v, key, 0, 0) else key;
    k + Zeros(128 - |k|)
  }

  /** Every octet combined with a pad octet. */
  function PadKey(k: seq<bv8>, pad: bv8): (s: seq<bv8>)
    ensures |s| == |k|
  {
    seq(|k|, i requires 0 <= i < |k| => XorOctet(k[i], pad))
  }

  const IPAD: bv8 := 0x36
  const OPAD: bv8 := 0x5c

  /** H((K xor opad) || H((K xor ipad) || m)), for digests of any number of bits. */
  function HmacOf(v: Variant, key: seq<bv8>, m: seq<bv8>): seq<bv8>
    requires IsVariant(v)
  {
    var k := KeyBlock(v, key);
    HashBits(v, PadKey(k, OPAD), Hash(v, PadKey(k, IPAD) + m, 0, 0), 8 * v.len - v.unused)
  }

  /** A block of the octet c combined with a key. */
  ghost predicate IsPad(s: seq<bv8>, k: seq<bv8>, c: bv8) {
    && |s| == 128
    && forall i: nat | i < 128 :: s[i] == if i < |k| then XorOctet(k[i], c) else c
  }

  lemma PadIs(s: seq<bv8>, k: seq<bv8>, c: bv8)
    requires |k| <= 128 && IsPad(s, k, c)
    ensures s == PadKey(k + Zeros(128 - |k|), c)
  {
    assert XorOctet(0, c) == c;
    hide XorOctet;
  }

  /** Section 2 of RFC 2104: the key, or the hash of a key longer than a block, under octets of 36 inside and of 5C
      outside, in hexadecimal. For digests of whole octets the outer hash is over all octets of the inner one. */
  lemma Rfc2104(v: Variant, key: seq<bv8>, m: seq<bv8>, k: seq<bv8>, inner: seq<bv8>, outer: seq<bv8>)
    requires IsVariant(v) && k == if |key| > 128 then Hash(v, key, 0, 0) else key
    requires IsPad(inner, k, 0x36) && IsPad(outer, k, 0x5c)
    ensures HmacOf(v, key, m) == HashBits(v, outer, Hash(v, inner + m, 0, 0), 8 * v.len - v.unused)
    ensures v.unused == 0 ==> HmacOf(v, key, m) == Hash(v, outer + Hash(v, inner + m, 0, 0), 0, 0)
  {
    hide Hash, KeyBlock, PadKey, IsPad, Zeros;
    PadsOfKey(v, key, k);
    PadIs(inner, k, 0x36);
    PadIs(outer, k, 0x5c);
    Eighths(v.len);
    var first := Hash(v, inner + m, 0, 0);
    assert first[..v.len] == first;
  }

  class HmacObject {
    const hash: LshObject
    const opad: array<bv8>
    ghost var key: seq<bv8>
    ghost var data: seq<bv8>

    ghost predicate Shape() {
      && hash.Shape() && opad.Length == 128
      && opad != hash.lastBlock && opad as object != hash.cvL && opad as object != hash.cvR
    }

    ghost predicate Valid()
      reads this, opad, hash, hash.cvL, hash.cvR, hash.lastBlock
    {
      var v := VariantOf(hash.sc, hash.algtype);
      && Shape() && Supported(hash.algtype) && IsVariant(v)
      && hash.Valid() && hash.Kind() == v && hash.bits == 0
      && hash.data == PadKey(KeyBlock(v, key), IPAD) + data
      && opad[..] == PadKey(KeyBlock(v, key), OPAD)
    }

    constructor (sc: StepConstants)
      ensures Shape() && hash.Cleared() && hash.sc == sc
      ensures fresh(hash) && fresh(hash.cvL) && fresh(hash.cvR) && fresh(hash.lastBlock) && fresh(opad)
    {
      hash := new LshObject(sc);
      opad := new bv8[128](_ => 0);
    }

    /** hmac_lsh_init for the types of LSH-256. */
    method Init(t: AlgType, key: seq<bv8>) returns (err: LshErr)
      requires Shape() && IsLsh256(t) && Unused(t) < 8
      modifies this, opad, hash, hash.cvL, hash.cvR, hash.lastBlock
      ensures err == (if Supported(t) then Success else InvalidAlgType) && hash.algtype == t
      ensures err == Success ==> Valid() && this.key == key && data == []
    {
      hide Hash, Buffered, InitialValue, PadKey, KeyBlock;
      this.key, data := key, [];
      var k := key;
      if |key| > 128 {
        err, k := ShortKey(t, key);
        if err != Success {
          return;
        }
      }
      var ipad := Pads(k);
      err := hash.Init(t);
      if err != Success {
        return;
      }
      PadsOfKey(VariantOf(hash.sc, t), key, k);
      err := hash.Update(ipad, 8 * 128);
      assert [] + ipad[..128] == ipad + [];
    }

    /** A key longer than a block is replaced by its hash. */
    method ShortKey(t: AlgType, key: seq<bv8>) returns (err: LshErr, k: seq<bv8>)
      requires Shape() && Unused(t) < 8
      modifies hash, hash.cvL, hash.cvR, hash.lastBlock
      ensures err == (if Supported(t) then Success else InvalidAlgType)
      ensures err == Success ==> k == Hash(VariantOf(hash.sc, t), key, 0, 0)
      ensures err != Success ==> hash.algtype == t
    {
      hide Hash, Buffered, InitialValue;
      k := [];
      err := hash.Init(t);
      if err != Success {
        return;
      }
      Eighths(|key|);
      err := hash.Update(key, 8 * |key|);
      assert [] + key[..|key|] == key;
      LastOctetUnused(VariantOf(hash.sc, t), key, hash.last, 0, 0);
      err, k := Finished(hash);
    }

    /** Both pads of a key of at most a block. */
    method Pads(k: seq<bv8>) returns (ipad: seq<bv8>)
      requires Shape() && |k| <= 128
      modifies opad
      ensures ipad == PadKey(k + Zeros(128 - |k|), IPAD)
      ensures opad[..] == PadKey(k + Zeros(128 - |k|), OPAD)
    {
      ZeroPads();
      hide XorOctet;
      ipad := [];
      var i := 0;
      while i < |k|
        invariant 0 <= i <= |k| && |ipad| == i
        invariant forall j | 0 <= j < i :: ipad[j] == XorOctet(k[j], IPAD) && opad[j] == XorOctet(k[j], OPAD)
      {
        ipad := ipad + [XorOctet(k[i], IPAD)];
        opad[i] := XorOctet(k[i], OPAD);
        i := i + 1;
      }
      while i < 128
        invariant |k| <= i <= 128 && |ipad| == i
        invariant forall j | 0 <= j < |k| :: ipad[j] == XorOctet(k[j], IPAD) && opad[j] == XorOctet(k[j], OPAD)
        invariant forall j | |k| <= j < i :: ipad[j] == IPAD && opad[j] == OPAD
      {
        ipad := ipad + [IPAD];
        opad[i] := OPAD;
        i := i + 1;
      }
    }

    method Update(x: seq<bv8>) returns (err: LshErr)
      requires Valid()
      modifies this, hash, hash.cvL, hash.cvR, hash.lastBlock
      ensures err == Success && Valid()
      ensures hash.algtype == old(hash.algtype) && key == old(key) && data == old(data) + x
    {
      hide Hash, Buffered, PadKey, KeyBlock, InitialValue;
      Eighths(|x|);
      err := hash.Update(x, 8 * |x|);
      assert x[..|x|] == x;
      data := data + x;
    }

    method Final() returns (err: LshErr, digest: seq<bv8>)
      requires Valid()
      modifies this, opad, hash, hash.cvL, hash.cvR, hash.lastBlock
      ensures err == Success && digest == HmacOf(VariantOf(hash.sc, old(hash.algtype)), old(key), old(data))
    {
      hide Hash, Buffered, PadKey, KeyBlock, InitialValue;
      var t := hash.algtype;
      ghost var k := KeyBlock(VariantOf(hash.sc, t), key);
      LastOctetUnused(hash.Kind(), hash.data, hash.last, 0, 0);
      err, digest := Finished(hash);
      err, digest := Outer(t, digest, k);
    }

    /** The second hash, over the outer pad and the bits of the first. */
    method Outer(t: AlgType, inner: seq<bv8>, ghost k: seq<bv8>) returns (err: LshErr, digest: seq<bv8>)
      requires Shape() && Supported(t) && Unused(t) < 8
      requires |inner| == Len(t) && |k| == 128 && opad[..] == PadKey(k, OPAD)
      modifies hash, hash.cvL, hash.cvR, hash.lastBlock
      ensures err == Success
      ensures digest == HashBits(VariantOf(hash.sc, t), PadKey(k, OPAD), inner, 8 * Len(t) - Unused(t))
    {
      hide Hash, Buffered, PadKey, InitialValue;
      err := hash.Init(t);
      err := hash.Update(opad[..], 8 * 128);
      assert [] + opad[..][..128] == opad[..];
      var n := 8 * Len(t) - Unused(t);
      err := hash.Update(inner, n);
      LastOctetUnused(VariantOf(hash.sc, t), hash.data, hash.last, if n % 8 > 0 then inner[n/8] else 0, n % 8);
      err, digest := Finished(hash);
    }
  }

  /** The key as it is combined with the pads: its hash when it is longer than a block. */
  lemma PadsOfKey(v: Variant, key: seq<bv8>, k: seq<bv8>)
    requires IsVariant(v) && k == if |key| > 128 then Hash(v, key, 0, 0) else key
    ensures |k| <= 128 && KeyBlock(v, key) == k + Zeros(128 - |k|)
  {
    hide Hash;
  }

  lemma ZeroPads()
    ensures XorOctet(0, IPAD) == IPAD && XorOctet(0, OPAD) == OPAD
  {
  }

  /** hmac_lsh_digest, for a message in pieces: the definition of RFC 2104 on the whole of it. */
  method HmacPieces(sc: StepConstants, t: AlgType, key: seq<bv8>, pieces: seq<seq<bv8>>)
    returns (err: LshErr, digest: seq<bv8>)
    requires IsLsh256(t) && Unused(t) < 8
    ensures err == if Supported(t) then Success else InvalidAlgType
    ensures err == Success ==> digest == HmacOf(VariantOf(sc, t), key, Concat(pieces))
  {
    hide HmacOf, Hash, Buffered, PadKey, KeyBlock, InitialValue;
    digest := [];
    var h := new HmacObject(sc);
    err := h.Init(t, key);
    if err != Success {
      return;
    }
    var i := 0;
    while i < |pieces|
      invariant 0 <= i <= |pieces|
      invariant h.Valid() && h.hash.algtype == t && h.key == key && h.data == Concat(pieces[..i])
      invariant fresh(h) && fresh(h.hash) && fresh(h.opad)
      invariant fresh(h.hash.cvL) && fresh(h.hash.cvR) && fresh(h.hash.lastBlock)
    {
      ConcatTake(pieces, i);
      err := h.Update(pieces[i]);
      i := i + 1;
    }
    assert pieces[..i] == pieces;
    err, digest := h.Final();
  }
}
