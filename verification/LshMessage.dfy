/** Whole messages through the hash object, in arbitrary pieces. */
module LshMessage {
  import opened LshContext
  import opened LshHash
  import opened Lsh256
  import opened Pieces

  /** Init, one update per piece of octets, a last update of n bits, final. Without any pieces before it that is
      lsh256_digest on the whole message. */
  method HashPieces(sc: StepConstants, t: AlgType, pieces: seq<seq<bv8>>, x: seq<bv8>, n: nat)
    returns (err: LshErr, digest: seq<bv8>)
    requires n <= 8 * |x| && Unused(t) < 8
    ensures err == if Supported(t) then Success else InvalidAlgType
    ensures err == Success ==> digest == HashBits(VariantOf(sc, t), Concat(pieces), x, n)
  {
    hide Hash, Buffered, InitialValue;
    digest := [];
    var h := new LshObject(sc);
    err := h.Init(t);
    if err != Success {
      return;
    }
    var i := 0;
    while i < |pieces|
      invariant 0 <= i <= |pieces|
      invariant h.Valid() && h.Kind() == VariantOf(sc, t) && h.bits == 0 && fresh(h)
      invariant h.data == Concat(pieces[..i])
    {
      ConcatTake(pieces, i);
      Eighths(|pieces[i]|);
      err := h.Update(pieces[i], 8 * |pieces[i]|);
      assert pieces[i][..|pieces[i]|] == pieces[i];
      i := i + 1;
    }
    assert pieces[..i] == pieces;
    ghost var d := h.data;
    err := h.Update(x, n);
    assert h.data == d + x[..n/8] && h.bits == n % 8 by { assert d + x[..0] == d; }
    LastOctetUnused(VariantOf(sc, t), h.data, if n % 8 > 0 then x[n/8] else 0, h.last, n % 8);
    err, digest := Finished(h);
  }

  /** lsh256_final into a buffer of the size of the digest. */
  method Finished(h: LshObject) returns (err: LshErr, digest: seq<bv8>)
    requires h.Valid() && IsVariant(h.Kind())
    modifies h, h.cvL, h.cvR, h.lastBlock
    ensures h.Cleared()
    ensures err == Success && digest == old(Hash(h.Kind(), h.data, h.last, h.bits))
  {
    hide Hash, Buffered;
    var out := new bv8[Len(h.algtype)](_ => 0);
    err := h.Final(out, 0);
    digest := out[..];
  }

  method FirstUpdate(h: LshObject, x: seq<bv8>, n: nat) returns (err: LshErr)
    requires h.Valid() && h.data == [] && h.bits == 0 && n <= 8 * |x|
    modifies h`remain, h`data, h`whole, h`last, h`bits, h.cvL, h.cvR, h.lastBlock
    ensures err == Success && h.Valid()
    ensures IsVariant(h.Kind()) ==> Hash(h.Kind(), h.data, h.last, h.bits) == HashBits(h.Kind(), [], x, n)
  {
    hide Hash, Buffered;
    err := h.Update(x, n);
    assert h.data == x[..n/8] && h.bits == n % 8 by { assert [] + x[..n/8] == x[..n/8]; }
    if IsVariant(h.Kind()) {
      LastOctetUnused(h.Kind(), h.data, if n % 8 > 0 then x[n/8] else 0, h.last, n % 8);
    }
  }

  /** An initialisation that fails is not noticed later when the type is not among those turned down: update and
      final succeed, from the chaining value the object happened to hold. */
  method AfterFailedInit(sc: StepConstants, t: AlgType, x: seq<bv8>, n: nat, out: array<bv8>, at: nat)
    returns (init: LshErr, update: LshErr, final: LshErr)
    requires !Supported(t) && !Refused(t) && n <= 8 * |x| && Fits(t, at, out.Length)
    modifies out
    ensures init == InvalidAlgType && update == final == Success
    ensures out[..] == Delivered(old(out[..]), at, t,
      if Len(t) > 0 then HashBits(Variant(sc, NOTHING, Len(t), Unused(t)), [], x, n) else [])
  {
    assert Len(t) <= 32 && Unused(t) < 8;
    hide Hash, HashBits, Buffered, InitialValue, Delivered, Refused, Supported, Fits, Len, Unused;
    var h := new LshObject(sc);
    init := h.Init(t);
    update := FirstUpdate(h, x, n);
    final := h.Final(out, at);
  }

  lemma Eighths(n: nat)
    ensures 8 * n / 8 == n && 8 * n % 8 == 0
  {
  }

  /** With no bits after the octets the last octet does not count. */
  lemma LastOctetUnused(v: Variant, d: seq<bv8>, b: bv8, c: bv8, n: nat)
    requires IsVariant(v) && n < 8 && (n > 0 ==> b == c)
    ensures Hash(v, d, b, n) == Hash(v, d, c, n)
  {
    NoBits(b);
    NoBits(c);
    hide Marked, Blocks, Output;
  }
}
