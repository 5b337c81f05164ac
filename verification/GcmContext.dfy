/** The incremental GCM context of the library, over an abstract block function. */
module GcmContext {
  import opened Bytes
  import opened Counter
  import opened Ctr
  import opened GfTables
  import opened Ghash
  import opened Gcm

  const MAX_LENGTH: nat := 0x1000_0000

  // ----- what the four registers mean after the octets c -----

  /** Position in the key stream of the next octet: block 0 is the one reserved for the tag. */
  function At(n: nat): nat {
    16 + n
  }

  function Whole(n: nat): (w: nat)
    ensures w <= n < w + 16 && w % 16 == 0
  {
    n / 16 * 16
  }

  /** The number of the next unused counter block after n octets. */
  function NextBlock(n: nat): nat {
    1 + (n + 15) / 16
  }

  /** The registers after ciphertext c: the hash of its whole blocks, the started block (its first
      octets ciphertext, the rest still key stream) and the next counter. */
  ghost predicate Registers(E: BlockFn, h: Block, j0: Block, y0: Block, c: seq<bv8>,
                            tbl: Block, yn: Block, ynUsed: nat, ctr: Block)
  {
    var w := Whole(|c|);
    && ynUsed == |c| - w
    && tbl == Hash(y0, c[..w], h)
    && ctr == IncBy(j0, NextBlock(|c|))
    && (ynUsed > 0 ==> yn[..ynUsed] == c[w..])
    && (ynUsed > 0 ==> forall i | ynUsed <= i < 16 :: yn[i] == KeyOctet(E, j0, At(w) + i))
  }

  lemma NextBlockSum(n: nat, m: nat)
    requires n % 16 == 0 && m % 16 == 0
    ensures NextBlock(n + m) == NextBlock(n) + m / 16
  {
  }

  /** Filling the started block with m more octets of ciphertext x. */
  lemma FillRegisters(E: BlockFn, h: Block, j0: Block, y0: Block, c: seq<bv8>,
                      tbl: Block, yn: Block, ynUsed: nat, ctr: Block, x: seq<bv8>)
    requires Registers(E, h, j0, y0, c, tbl, yn, ynUsed, ctr) && 0 < ynUsed && 0 < |x| <= 16 - ynUsed
    ensures var yn': Block := yn[..ynUsed] + x + yn[ynUsed+|x|..];
            var full := ynUsed + |x| == 16;
            Registers(E, h, j0, y0, c + x, if full then Hash(tbl, yn', h) else tbl, yn',
                      if full then 0 else ynUsed + |x|, ctr)
  {
    hide Hash, IncBy, KeyOctet;
    var n, m, w := |c|, |x|, Whole(|c|);
    var yn': Block := yn[..ynUsed] + x + yn[ynUsed+m..];
    assert (c + x)[..w] == c[..w] && (c + x)[w..] == c[w..] + x;
    if ynUsed + m == 16 {
      HashConcat(y0, c[..w], yn', h);
      assert c + x == c[..w] + yn';
      assert (c + x)[..n+m] == c + x;
    }
  }

  /** With no block started the registers are two folds over the whole ciphertext. */
  lemma IdleRegisters(E: BlockFn, h: Block, j0: Block, y0: Block, c: seq<bv8>, tbl: Block, yn: Block, ctr: Block)
    ensures Registers(E, h, j0, y0, c, tbl, yn, 0, ctr)
       <==> |c| % 16 == 0 && tbl == Hash(y0, c, h) && ctr == IncBy(j0, NextBlock(|c|))
  {
    hide Hash, IncBy, KeyOctet;
    assert c[..|c|] == c;
  }

  /** Before any text the running value is the hash of the additional data. */
  lemma EmptyText(E: BlockFn, h: Block, j0: Block, y0: Block, tbl: Block, yn: Block, ynUsed: nat, ctr: Block, y: Block)
    requires Registers(E, h, j0, y0, [], tbl, yn, ynUsed, ctr)
    ensures tbl == y0 && ynUsed == 0 && Registers(E, h, j0, y, [], y, yn, 0, ctr)
  {
  }

  lemma MoreAad(d: seq<bv8>, a: seq<bv8>, h: Block)
    ensures Hash(Hash(ZERO, d, h), a, h) == Hash(ZERO, if d == [] then d + a else Padded(d) + a, h)
  {
    if d == [] {
      assert d + a == a;
    } else {
      HashPadded(ZERO, d, h);
      hide Hash, Padded;
      HashConcat(ZERO, Padded(d), a, h);
    }
  }

  /** Whole blocks of ciphertext x, with no block started. */
  lemma WholeRegisters(E: BlockFn, h: Block, j0: Block, y0: Block, c: seq<bv8>,
                       tbl: Block, yn: Block, ctr: Block, x: seq<bv8>)
    requires Registers(E, h, j0, y0, c, tbl, yn, 0, ctr) && |x| % 16 == 0
    ensures Registers(E, h, j0, y0, c + x, Hash(tbl, x, h), yn, 0, IncBy(ctr, |x| / 16))
  {
    hide Hash, IncBy, Registers, NextBlock;
    IdleRegisters(E, h, j0, y0, c, tbl, yn, ctr);
    HashConcat(y0, c, x, h);
    IncByAdd(j0, NextBlock(|c|), |x| / 16);
    NextBlockSum(|c|, |x|);
    IdleRegisters(E, h, j0, y0, c + x, Hash(tbl, x, h), yn, IncBy(ctr, |x| / 16));
  }

  /** Starting a block with fewer than 16 octets of ciphertext x. */
  lemma StartRegisters(E: BlockFn, h: Block, j0: Block, y0: Block, c: seq<bv8>,
                       tbl: Block, yn: Block, ctr: Block, x: seq<bv8>)
    requires Registers(E, h, j0, y0, c, tbl, yn, 0, ctr) && 0 < |x| < 16
    ensures var yn': Block := x + E(ctr)[|x|..];
            Registers(E, h, j0, y0, c + x, tbl, yn', |x|, Inc(ctr))
  {
    hide Hash, KeyOctet;
    var n := |c|;
    assert Whole(n) == n && Whole(n + |x|) == n;
    assert c[..n] == c && (c + x)[..n] == c && (c + x)[n..] == x;
    assert IncBy(j0, 1 + (n + 15) / 16 + 1) == Inc(ctr);
    var yn': Block := x + E(ctr)[|x|..];
    forall i | |x| <= i < 16 ensures yn'[i] == KeyOctet(E, j0, At(n) + i) {
      assert At(n) + i == 16 * (1 + n / 16) + i;
      KeyInBlock(E, j0, 1 + n / 16, i);
    }
  }

  // ----- the key stream seen through the registers -----

  lemma StartedKey(E: BlockFn, h: Block, j0: Block, y0: Block, c: seq<bv8>,
                   tbl: Block, yn: Block, ynUsed: nat, ctr: Block, x: seq<bv8>)
    requires Registers(E, h, j0, y0, c, tbl, yn, ynUsed, ctr) && 0 < ynUsed && |x| <= 16 - ynUsed
    ensures Xor(x, yn[ynUsed..ynUsed+|x|]) == CtrAt(E, j0, x, At(|c|))
  {
    hide Hash, IncBy, KeyOctet, XorOctet;
    var w := Whole(|c|);
    forall i | 0 <= i < |x|
      ensures Xor(x, yn[ynUsed..ynUsed+|x|])[i] == CtrAt(E, j0, x, At(|c|))[i]
    {
      assert At(w) + (ynUsed + i) == At(|c|) + i;
      assert yn[ynUsed+i] == KeyOctet(E, j0, At(w) + (ynUsed + i));
    }
  }

  lemma IdleKey(E: BlockFn, h: Block, j0: Block, y0: Block, c: seq<bv8>,
                tbl: Block, yn: Block, ctr: Block, x: seq<bv8>)
    requires Registers(E, h, j0, y0, c, tbl, yn, 0, ctr)
    ensures CtrAt(E, ctr, x, 0) == CtrAt(E, j0, x, At(|c|))
    ensures |x| <= 16 ==> Xor(x, E(ctr)[..|x|]) == CtrAt(E, j0, x, At(|c|))
  {
    IdleRegisters(E, h, j0, y0, c, tbl, yn, ctr);
    hide Hash, IncBy, CtrAt, Registers;
    CtrShift(E, j0, x, NextBlock(|c|), 0);
    assert 16 * NextBlock(|c|) == At(|c|);
    if |x| <= 16 {
      FirstBlock(E, ctr, x);
    }
  }

  // ----- length blocks -----

  lemma {:induction false} BeZero(k: nat)
    ensures Be(0, k) == Zeros(k)
  {
    if k > 0 {
      BeZero(k - 1);
    }
  }

  lemma LengthOctets(n: nat)
    requires n < MAX_LENGTH
    ensures Be(8 * n, 8) == [0, 0, 0, 0] + Word32(8 * n)
  {
    assert Pow256(4) == 0x1_0000_0000;
    BeLeadingZeros(8 * n, 4, 4);
    Word32IsBe(8 * n);
    BeZero(4);
    hide Be, Word32;
    assert Zeros(4) == [0, 0, 0, 0];
  }

  /** The block gcm_set_ctr hashes last for an IV of n octets. */
  lemma IvLengthBlock(n: nat)
    requires n < MAX_LENGTH
    ensures Be(0, 8) + Be(8 * n, 8) == ZERO[..12] + Word32(8 * n)
  {
    hide Be, Word32;
    LengthOctets(n);
    BeZero(8);
    assert Zeros(8) == [0, 0, 0, 0, 0, 0, 0, 0];
  }

  lemma PreCounterParts(h: Block, iv: seq<bv8>)
    requires |iv| != 12
    ensures PreCounter(h, iv) == Hash(Hash(ZERO, iv, h), Be(0, 8) + Be(8 * |iv|, 8), h)
  {
    hide Hash, Be;
    HashPadded(ZERO, iv, h);
    HashConcat(ZERO, Padded(iv), Be(0, 8) + Be(8 * |iv|, 8), h);
    assert Padded(iv) + (Be(0, 8) + Be(8 * |iv|, 8)) == Padded(iv) + Be(0, 8) + Be(8 * |iv|, 8);
  }

  /** The tag as the registers accumulate it: additional data, text, then the lengths. */
  lemma TagParts(E: BlockFn, h: Block, j0: Block, aad: seq<bv8>, c: seq<bv8>, aadLen: nat)
    ensures TagBlock(E, h, j0, aad, c, aadLen)
         == XorBlock(Hash(Hash(Hash(ZERO, aad, h), c, h), Be(8 * aadLen, 8) + Be(8 * |c|, 8), h), E(j0))
  {
    hide Hash, Be, XorBlock, Padded;
    var lengths := Be(8 * aadLen, 8) + Be(8 * |c|, 8);
    HashPadded(ZERO, aad, h);
    HashPadded(Hash(ZERO, aad, h), c, h);
    HashConcat(Hash(ZERO, aad, h), Padded(c), lengths, h);
    HashConcat(ZERO, Padded(aad), Padded(c) + lengths, h);
    assert Padded(aad) + (Padded(c) + lengths)
        == Padded(aad) + Padded(c) + Be(8 * aadLen, 8) + Be(8 * |c|, 8);
  }

  /** Hashing the started block, if any, completes the hash of the text. */
  lemma LastHash(E: BlockFn, h: Block, j0: Block, y0: Block, c: seq<bv8>,
                 tbl: Block, yn: Block, ynUsed: nat, ctr: Block)
    requires Registers(E, h, j0, y0, c, tbl, yn, ynUsed, ctr) && ynUsed < 16
    ensures (if ynUsed > 0 then Hash(tbl, yn[..ynUsed], h) else tbl) == Hash(y0, c, h)
  {
    hide Hash, IncBy, KeyOctet;
    var w := Whole(|c|);
    assert c[..w] + c[w..] == c;
    HashConcat(y0, c[..w], c[w..], h);
    if ynUsed == 0 {
      assert c[..w] == c;
    }
  }

  lemma CtrEmpty(E: BlockFn, b: Block, off: nat)
    ensures CtrAt(E, b, [], off) == []
  {
  }

  /** n octets of src from pos on, combined with a key, first to last. */
  method XorInto(dst: array<bv8>, src: array<bv8>, pos: nat, n: nat, key: seq<bv8>)
    requires pos + n <= dst.Length && pos + n <= src.Length && |key| == n
    modifies dst
    ensures dst[pos..pos+n] == Xor(old(src[pos..pos+n]), key)
    ensures dst[..pos] == old(dst[..pos]) && dst[pos+n..] == old(dst[pos+n..])
  {
    hide XorOctet;
    for i := 0 to n
      invariant forall j | 0 <= j < i :: dst[pos+j] == XorOctet(old(src[pos+j]), key[j])
      invariant dst[..pos] == old(dst[..pos]) && dst[pos+i..] == old(dst[pos+i..])
      invariant src[pos+i..] == old(src[pos+i..])
    {
      assert src[pos+i] == src[pos+i..][0];
      dst[pos+i] := XorOctet(src[pos+i], key[i]);
    }
  }

  /** A partial block from pos on, combined with the first octets of a key, last to first. */
  method XorBack(dst: array<bv8>, src: array<bv8>, pos: nat, len: nat, key: Block)
    requires pos <= len < pos + 16 && len <= dst.Length && len <= src.Length
    modifies dst
    ensures dst[pos..len] == Xor(old(src[pos..len]), key[..len-pos])
    ensures dst[..pos] == old(dst[..pos]) && dst[len..] == old(dst[len..])
  {
    hide XorOctet;
    var n := len;
    while n > pos
      invariant pos <= n <= len
      invariant forall j | n <= j < len :: dst[j] == XorOctet(old(src[j]), key[j-pos])
      invariant dst[..n] == old(dst[..n]) && dst[len..] == old(dst[len..])
      invariant src[..n] == old(src[..n])
    {
      n := n - 1;
      assert src[n] == src[..n+1][n];
      dst[n] := XorOctet(src[n], key[n-pos]);
    }
  }

  method CounterArray(b: Block) returns (c: array<bv8>)
    ensures fresh(c) && c.Length == 16 && c[..] == b
  {
    c := new bv8[16](i requires 0 <= i < 16 => b[i]);
  }

  lemma LaterStill(c0: seq<bv8>, c: seq<bv8>, from: nat, to: nat)
    requires from <= to <= |c0| == |c| && c[from..] == c0[from..]
    ensures c[to..] == c0[to..]
  {
    assert c[to..] == c[from..][to-from..] && c0[to..] == c0[from..][to-from..];
  }

  /** What lies behind the part already done is still the text. */
  lemma StillText(p0: seq<bv8>, p: seq<bv8>, from: nat, at: nat, len: nat, x: seq<bv8>)
    requires from <= at <= len <= |p0| == |p| && p[at..] == p0[at..] && x == p0[from..len]
    ensures p[at..len] == x[at-from..]
  {
    assert p[at..len] == p[at..][..len-at] && p0[at..len] == p0[at..][..len-at];
  }

  /** A text done in two parts, the first of which the second leaves in place. */
  lemma Joined(E: BlockFn, j0: Block, x: seq<bv8>, pos: nat, at: nat, c: seq<bv8>, c': seq<bv8>, len: nat)
    requires pos <= len == |x| <= |c| == |c'| && c'[..pos] == c[..pos] && c'[len..] == c[len..]
    requires c[..pos] == CtrAt(E, j0, x[..pos], at) && c'[pos..len] == CtrAt(E, j0, x[pos..], at + pos)
    ensures c'[..len] == CtrAt(E, j0, x, at)
  {
    hide CtrAt;
    CtrConcat(E, j0, x[..pos], x[pos..], at);
    assert x == x[..pos] + x[pos..] && c'[..len] == c'[..pos] + c'[pos..len];
  }

  lemma JoinedRest(E: BlockFn, j0: Block, x: seq<bv8>, i: nat, at: nat, c: seq<bv8>, c': seq<bv8>, pos: nat, len: nat)
    requires i <= |x| == len - pos && pos <= len <= |c| == |c'| && c'[..pos+i] == c[..pos+i] && c'[len..] == c[len..]
    requires c[pos..pos+i] == CtrAt(E, j0, x[..i], at) && c'[pos+i..len] == CtrAt(E, j0, x[i..], at + i)
    ensures c'[pos..len] == CtrAt(E, j0, x, at)
    ensures c'[..pos] == c[..pos]
  {
    hide CtrAt;
    CtrConcat(E, j0, x[..i], x[i..], at);
    assert x == x[..i] + x[i..] && c'[pos..pos+i] == c'[..pos+i][pos..] == c[..pos+i][pos..] == c[pos..pos+i];
    assert c'[pos..len] == c'[pos..pos+i] + c'[pos+i..len];
    assert c'[..pos] == c'[..pos+i][..pos] == c[..pos+i][..pos] == c[..pos];
  }

  /** What was hashed in two parts, the first of which stayed in place. */
  lemma JoinedInput(y: seq<bv8>, y': seq<bv8>, from: nat, pos: nat, len: nat, d0: seq<bv8>, d: seq<bv8>)
    requires from <= pos <= len <= |y| == |y'| && y'[..pos] == y[..pos] && d == d0 + y[from..pos]
    ensures d + y'[pos..len] == d0 + y'[from..len]
  {
    assert y'[from..pos] == y'[..pos][from..] == y[..pos][from..] == y[from..pos];
    assert y'[from..len] == y'[from..pos] + y'[pos..len];
    assert d0 + y[from..pos] + y'[pos..len] == d0 + (y[from..pos] + y'[pos..len]);
  }

  method WriteTag(tag: array<bv8>, t: seq<bv8>)
    requires |t| <= tag.Length
    modifies tag
    ensures tag[..] == t + old(tag[|t|..])
  {
    forall i | 0 <= i < |t| {
      tag[i] := t[i];
    }
  }

  /** The comparison loop, last octet first. */
  method CompareTag(tag: array<bv8>, t: seq<bv8>) returns (same: bool)
    requires |t| <= tag.Length
    ensures same <==> tag[..|t|] == t
  {
    var k := |t|;
    while k > 0
      invariant 0 <= k <= |t|
      invariant tag[k..|t|] == t[k..]
    {
      k := k - 1;
      if t[k] != tag[k] {
        assert tag[..|t|][k] != t[k];
        return false;
      }
    }
    return true;
  }

  class GcmContext {
    const E: BlockFn
    const hTable: array<Block>
    ghost const h: Block
    var ctr: Block
    var ek0: Block
    var tbl: Block
    var yn: Block
    var ynUsed: nat
    var aadLen: nat
    var ctLen: nat
    var isEncrypt: bool

    // The message so far: its pre-counter block, additional data and ciphertext.
    ghost var j0: Block
    ghost var aad: seq<bv8>
    ghost var data: seq<bv8>

    ghost predicate Keyed()
      reads this, hTable
    {
      h == E(ZERO) && hTable.Length == 256 && TableOf(hTable, h, 256)
    }

    /** Between messages: all registers clear. The length of the additional data is not among them. */
    ghost predicate Idle()
      reads this, hTable
    {
      Keyed() && ctr == ZERO && tbl == ZERO && yn == ZERO && ynUsed == 0
    }

    /** Inside a message. */
    ghost predicate Active()
      reads this, hTable
    {
      Running() && ctLen == |data|
    }

    ghost predicate Running()
      reads this, hTable
    {
      && Keyed()
      && ek0 == E(j0)
      && |data| < MAX_LENGTH
      && aadLen < MAX_LENGTH
      && ynUsed < 16
      && Registers(E, h, j0, Hash(ZERO, aad, h), data, tbl, yn, ynUsed, ctr)
    }

    /** lea_gcm_init */
    constructor (E: BlockFn)
      ensures this.E == E && Idle() && aadLen == 0 && fresh(hTable)
    {
      this.E := E;
      h := E(ZERO);
      ctr, ek0, tbl, yn, ynUsed, aadLen, ctLen, isEncrypt := ZERO, ZERO, ZERO, ZERO, 0, 0, 0, false;
      var table := new Block[256](_ => ZERO);
      hTable := table;
      new;
      InitTable8(hTable, E(ZERO));
    }

    /** gcm_set_ctr: the pre-counter block from the IV, then the first counter for the text. */
    method SetCtr(iv: seq<bv8>)
      requires Idle() && aadLen < MAX_LENGTH && |iv| < MAX_LENGTH
      modifies this
      ensures Active() && j0 == PreCounter(h, iv) && aad == [] && data == []
      ensures aadLen == old(aadLen) && isEncrypt == old(isEncrypt)
    {
      hide TableOf, Hash, Be;
      ctLen := 0;
      if |iv| == 12 {
        ShortIv(iv);
      } else {
        HashIv(iv);
      }
      hide PreCounter;
      j0, aad, data := ctr, [], [];
      ek0 := E(ctr);
      ctr := Inc(ctr);
      assert IncBy(j0, 1) == Inc(j0);
      HashEmpty(ZERO, h);
      IdleRegisters(E, h, j0, ZERO, data, tbl, yn, ctr);
    }

    /** An IV of 12 octets goes into the cleared counter, which then starts at one. */
    method ShortIv(iv: seq<bv8>)
      requires Idle() && |iv| == 12
      modifies this`ctr
      ensures ctr == PreCounter(h, iv)
    {
      hide TableOf, Hash, Be;
      ctr := iv + ctr[12..];
      ctr := ctr[15 := 1];
    }

    /** The loop of gcm_set_ctr for an IV that is not 12 octets long. */
    method HashIv(iv: seq<bv8>)
      requires Idle() && |iv| != 12 && |iv| < MAX_LENGTH
      modifies this`ctr, this`yn
      ensures ctr == PreCounter(h, iv) && yn == ZERO
    {
      hide Hash, TableOf, Word32, Be;
      var rest := iv;
      while |rest| >= 16
        invariant Keyed() && yn == ZERO && Hash(ctr, rest, h) == Hash(ZERO, iv, h)
        decreases |rest|
      {
        HashConcat(ctr, rest[..16], rest[16..], h);
        assert rest == rest[..16] + rest[16..];
        ctr := GhashLoop(ctr, rest[..16], hTable, h);
        rest := rest[16..];
      }
      if rest != [] {
        ctr := GhashLoop(ctr, rest, hTable, h);
      } else {
        HashEmpty(ctr, h);
      }
      IvLengthBlock(|iv|);
      PreCounterParts(h, iv);
      yn := yn[..12] + Word32(8 * |iv|);
      ctr := GhashLoop(ctr, yn, hTable, h);
      yn := ZERO;
    }

    /** gcm_set_aad: the data are hashed into the running value and their length replaces the one before.
        Before the text that is a message whose additional data are those so far, padded, and then a; the
        length of all of them together is lost when there were some. */
    method SetAad(a: seq<bv8>)
      requires Keyed() && |a| < MAX_LENGTH
      modifies this`tbl, this`aadLen, this`aad
      ensures a == [] ==> unchanged(this)
      ensures a != [] ==> tbl == Hash(old(tbl), a, h) && aadLen == |a|
      ensures old(Active()) && data == [] ==>
        Active() && aad == if a == [] || old(aad) == [] then old(aad) + a else Padded(old(aad)) + a
    {
      hide Hash, TableOf, IncBy, Padded, Registers;
      if a == [] {
        assert aad + a == aad;
        return;
      }
      aadLen := |a|;
      if Active() && data == [] {
        EmptyText(E, h, j0, Hash(ZERO, aad, h), tbl, yn, ynUsed, ctr, Hash(tbl, a, h));
        MoreAad(aad, a, h);
      }
      tbl := GhashLoop(tbl, a, hTable, h);
      if old(Active()) && data == [] {
        aad := if aad == [] then aad + a else Padded(aad) + a;
      }
    }

    /** Everything an encryption or decryption call leaves alone. */
    twostate predicate SameMessage()
      reads this
    {
      j0 == old(j0) && aad == old(aad) && aadLen == old(aadLen)
    }

    /** Complete or extend the started block with ciphertext x. */
    method Fill(x: seq<bv8>)
      requires Running() && 0 < ynUsed && 0 < |x| <= 16 - ynUsed && |data| + |x| < MAX_LENGTH
      modifies this`yn, this`ynUsed, this`tbl, this`data
      ensures Running() && data == old(data) + x
      ensures ynUsed == (old(ynUsed) + |x|) % 16
    {
      hide Registers, TableOf, Hash;
      FillRegisters(E, h, j0, Hash(ZERO, aad, h), data, tbl, yn, ynUsed, ctr, x);
      yn := yn[..ynUsed] + x + yn[ynUsed+|x|..];
      ynUsed := (ynUsed + |x|) % 16;
      if ynUsed == 0 {
        tbl := GhashLoop(tbl, yn, hTable, h);
      }
      data := data + x;
    }

    /** Hash whole blocks of ciphertext x, whose counters have been used up. */
    method AbsorbWhole(x: seq<bv8>, next: Block)
      requires Running() && ynUsed == 0 && |x| % 16 == 0 && |data| + |x| < MAX_LENGTH
      requires next == IncBy(ctr, |x| / 16)
      modifies this`tbl, this`ctr, this`data
      ensures Running() && data == old(data) + x
    {
      hide Registers, TableOf, Hash, IncBy;
      WholeRegisters(E, h, j0, Hash(ZERO, aad, h), data, tbl, yn, ctr, x);
      HashEmpty(tbl, h);
      ctr := next;
      if x != [] {
        tbl := GhashLoop(tbl, x, hTable, h);
      }
      data := data + x;
    }

    /** Start a block with its first octets x of ciphertext. */
    method StartBlock(x: seq<bv8>, key: Block)
      requires Running() && ynUsed == 0 && 0 < |x| < 16 && |data| + |x| < MAX_LENGTH
      requires key == E(ctr)
      modifies this`yn, this`ynUsed, this`ctr, this`data
      ensures Running() && data == old(data) + x
    {
      hide Registers, TableOf, Hash, Inc;
      StartRegisters(E, h, j0, Hash(ZERO, aad, h), data, tbl, yn, ctr, x);
      yn := x + key[|x|..];
      ctr := Inc(ctr);
      ynUsed := |x|;
      data := data + x;
    }

    /** The rest of the started block combined with as much of the text as it has room for. */
    method StartedPart(dst: array<bv8>, src: array<bv8>, len: nat) returns (pos: nat)
      requires Running() && 0 < ynUsed && 0 < len <= dst.Length && len <= src.Length && dst as object != hTable
      modifies dst
      ensures 0 < pos <= len && pos <= 16 - ynUsed && (pos < len ==> pos == 16 - ynUsed)
      ensures dst[..pos] == CtrAt(E, j0, old(src[..pos]), At(|data|)) && dst[pos..] == old(dst[pos..])
    {
      hide Registers, TableOf, Hash, CtrAt;
      pos := if 16 - ynUsed > len then len else 16 - ynUsed;
      StartedKey(E, h, j0, Hash(ZERO, aad, h), data, tbl, yn, ynUsed, ctr, src[..pos]);
      assert src[0..pos] == src[..pos];
      XorInto(dst, src, 0, pos, yn[ynUsed..ynUsed+pos]);
      assert dst[0..pos] == dst[..pos];
    }

    /** The whole blocks from pos on through counter mode; what is hashed is then read from the ciphertext
        buffer, the output of encryption or the input of decryption. */
    method WholePart(dst: array<bv8>, src: array<bv8>, ct: array<bv8>, pos: nat, n: nat, maxBlk: nat)
      requires Running() && ynUsed == 0 && pos + n <= dst.Length && pos + n <= src.Length && dst as object != hTable
      requires (ct == dst || ct == src) && n % 16 == 0 && |data| + n < MAX_LENGTH
      modifies this`ctr, this`tbl, this`data, dst
      ensures Running() && ynUsed == 0
      ensures dst[pos..pos+n] == CtrAt(E, j0, old(src[pos..pos+n]), At(|old(data)|))
      ensures dst[..pos] == old(dst[..pos]) && dst[pos+n..] == old(dst[pos+n..])
      ensures data == old(data) + ct[pos..pos+n]
    {
      hide Registers, TableOf, Hash, IncBy, CtrAt;
      IdleKey(E, h, j0, Hash(ZERO, aad, h), data, tbl, yn, ctr, src[pos..pos+n]);
      var c := CounterArray(ctr);
      CtrEnc(E, dst, src, pos, n, c, maxBlk);
      AbsorbWhole(ct[pos..pos+n], c[..]);
    }

    /** The last, partial block, combined with a fresh key block. */
    method LastPart(dst: array<bv8>, src: array<bv8>, ct: array<bv8>, pos: nat, len: nat)
      requires Running() && ynUsed == 0 && pos < len < pos + 16 && len <= dst.Length && len <= src.Length
      requires (ct == dst || ct == src) && dst as object != hTable && |data| + len - pos < MAX_LENGTH
      modifies this`yn, this`ynUsed, this`ctr, this`data, dst
      ensures Running()
      ensures dst[pos..len] == CtrAt(E, j0, old(src[pos..len]), At(|old(data)|))
      ensures dst[..pos] == old(dst[..pos]) && dst[len..] == old(dst[len..])
      ensures data == old(data) + ct[pos..len]
    {
      hide Registers, TableOf, Hash, IncBy, CtrAt;
      IdleKey(E, h, j0, Hash(ZERO, aad, h), data, tbl, yn, ctr, src[pos..len]);
      var key := E(ctr);
      XorBack(dst, src, pos, len, key);
      StartBlock(ct[pos..len], key);
    }

    /** What is left of the text x, whose first octets have been done from position from on, starts a block. */
    method LeftOver(dst: array<bv8>, src: array<bv8>, ct: array<bv8>, from: nat, pos: nat, len: nat,
                    ghost x: seq<bv8>, ghost d0: seq<bv8>)
      requires Running() && ynUsed == 0 && from <= pos <= len < pos + 16 && len <= dst.Length && len <= src.Length
      requires (ct == dst || ct == src) && dst as object != hTable && |data| + len - pos < MAX_LENGTH
      requires |x| == len - from && src[pos..len] == x[pos-from..] && data == d0 + ct[from..pos]
      requires dst[from..pos] == CtrAt(E, j0, x[..pos-from], At(|d0|))
      modifies this`yn, this`ynUsed, this`ctr, this`data, dst
      ensures Running()
      ensures dst[from..len] == CtrAt(E, j0, x, At(|d0|))
      ensures dst[..from] == old(dst[..from]) && dst[len..] == old(dst[len..])
      ensures data == d0 + ct[from..len]
    {
      hide Running, CtrAt;
      if pos == len {
        assert x[..pos-from] == x;
        return;
      }
      ghost var c, y, d := dst[..], ct[..], data;
      assert c[from..pos] == dst[from..pos] && y[from..pos] == ct[from..pos];
      LastPart(dst, src, ct, pos, len);
      ghost var c', y' := dst[..], ct[..];
      assert c'[pos..len] == dst[pos..len] && y'[pos..len] == ct[pos..len];
      JoinedRest(E, j0, x, pos - from, At(|d0|), c, c', from, len);
      JoinedInput(y, y', from, pos, len, d0, d);
      assert c'[from..len] == dst[from..len] && y'[from..len] == ct[from..len];
    }

    /** From a block boundary on: whole blocks, then a started one. */
    method Rest(dst: array<bv8>, src: array<bv8>, ct: array<bv8>, pos: nat, len: nat, maxBlk: nat)
      requires Running() && ynUsed == 0 && pos <= len <= dst.Length && len <= src.Length
      requires (ct == dst || ct == src) && dst as object != hTable && |data| + len - pos < MAX_LENGTH
      modifies this`yn, this`ynUsed, this`ctr, this`tbl, this`data, dst
      ensures Running()
      ensures dst[pos..len] == CtrAt(E, j0, old(src[pos..len]), At(|old(data)|))
      ensures dst[..pos] == old(dst[..pos]) && dst[len..] == old(dst[len..])
      ensures data == old(data) + ct[pos..len]
    {
      hide Running, CtrAt, Whole;
      ghost var x, src0, dst0 := src[pos..len], src[..], dst[..];
      var i := Whole(len - pos);
      WholePart(dst, src, ct, pos, i, maxBlk);
      assert src[pos+i..] == src0[pos+i..] && x[..i] == src0[pos..pos+i];
      StillText(src0, src[..], pos, pos + i, len, x);
      LaterStill(dst0, dst[..], pos + i, len);
      LeftOver(dst, src, ct, pos, pos + i, len, x, old(data));
    }

    /** The part of a text, from at on, that goes into the block already started. */
    method StartedText(dst: array<bv8>, src: array<bv8>, ct: array<bv8>, len: nat) returns (pos: nat)
      requires Running() && 0 < len <= dst.Length && len <= src.Length && dst as object != hTable
      requires (ct == dst || ct == src) && |data| + len < MAX_LENGTH
      modifies this`yn, this`ynUsed, this`tbl, this`data, dst
      ensures Running() && pos <= len && (pos < len ==> ynUsed == 0)
      ensures dst[..pos] == CtrAt(E, j0, old(src[..pos]), At(|old(data)|)) && dst[pos..] == old(dst[pos..])
      ensures src[pos..] == old(src[pos..]) && data == old(data) + ct[..pos]
    {
      hide Registers, TableOf, Hash, CtrAt;
      pos := 0;
      if ynUsed != 0 {
        pos := StartedPart(dst, src, len);
        Fill(ct[..pos]);
      } else {
        CtrEmpty(E, j0, At(|data|));
        assert src[..0] == [] && ct[..0] == [] && dst[..0] == [];
      }
    }

    /** What gcm_enc and gcm_dec do with len octets of text. */
    method Crypt(dst: array<bv8>, src: array<bv8>, ct: array<bv8>, len: nat, maxBlk: nat)
      requires Running() && 0 < len <= dst.Length && len <= src.Length && dst as object != hTable
      requires (ct == dst || ct == src) && |data| + len < MAX_LENGTH
      modifies this`yn, this`ynUsed, this`ctr, this`tbl, this`data, dst
      ensures Running()
      ensures dst[..len] == CtrAt(E, j0, old(src[..len]), At(|old(data)|)) && dst[len..] == old(dst[len..])
      ensures data == old(data) + ct[..len]
    {
      hide Registers, TableOf, Hash, CtrAt;
      ghost var n, x := |data|, src[..len];
      var pos := StartedText(dst, src, ct, len);
      if pos == len {
        return;
      }
      ghost var c, y, d := dst[..], ct[..], data;
      assert x == old(src[..])[0..len] && x[..pos] == old(src[..pos]);
      StillText(old(src[..]), src[..], 0, pos, len, x);
      Rest(dst, src, ct, pos, len, maxBlk);
      Joined(E, j0, x, pos, At(n), c, dst[..], len);
      JoinedInput(y, ct[..], 0, pos, len, old(data), d);
    }

    /** gcm_enc on len octets, into another buffer or in place. */
    method Enc(ct: array<bv8>, pt: array<bv8>, len: nat, maxBlk: nat)
      requires Active() && |data| + len < MAX_LENGTH && len <= ct.Length && len <= pt.Length
      requires ct as object != hTable
      modifies this, ct
      ensures Active() && SameMessage() && isEncrypt
      ensures ct[..len] == CtrAt(E, j0, old(pt[..len]), At(|old(data)|)) && ct[len..] == old(ct[len..])
      ensures data == old(data) + ct[..len]
    {
      hide Registers, TableOf, Hash, CtrAt;
      isEncrypt := true;
      ctLen := ctLen + len;
      if len == 0 {
        CtrEmpty(E, j0, At(|data|));
        return;
      }
      Crypt(ct, pt, ct, len, maxBlk);
    }

    /** gcm_dec on len octets. What is hashed is what the ciphertext buffer holds in the end: when it is also
        the output buffer, that is the text. */
    method Dec(pt: array<bv8>, ct: array<bv8>, len: nat, maxBlk: nat)
      requires Active() && |data| + len < MAX_LENGTH && len <= ct.Length && len <= pt.Length
      requires pt as object != hTable
      modifies this, pt
      ensures Active() && SameMessage() && !isEncrypt
      ensures pt[..len] == CtrAt(E, j0, old(ct[..len]), At(|old(data)|)) && pt[len..] == old(pt[len..])
      ensures data == old(data) + ct[..len]
    {
      hide Registers, TableOf, Hash, CtrAt;
      isEncrypt := false;
      ctLen := ctLen + len;
      if len == 0 {
        CtrEmpty(E, j0, At(|data|));
        return;
      }
      Crypt(pt, ct, ct, len, maxBlk);
    }

    /** Clear the per-message registers; the additional data length stays as it is. */
    method ClearRegisters()
      requires Keyed()
      modifies this`ctr, this`ek0, this`tbl, this`yn, this`ynUsed
      ensures Idle()
    {
      ctr, ek0, tbl, yn, ynUsed := ZERO, ZERO, ZERO, ZERO, 0;
    }

    /** gcm_final: deliver the tag after encryption, check it after decryption. */
    method Final(tag: array<bv8>, tagLen: int) returns (status: int)
      requires Active() && tagLen <= tag.Length && tagLen <= 16 && tag as object != hTable
      modifies this, tag, hTable
      ensures tagLen < 4 ==> status == -1 && tag[..] == old(tag[..]) && tbl == ZERO
      ensures tagLen >= 4 ==> Idle() && aadLen == 8 * old(aadLen) && isEncrypt == old(isEncrypt)
      ensures tagLen >= 4 ==>
        var t := TagBlock(E, h, old(j0), old(aad), old(data), old(aadLen));
        if old(isEncrypt) then
          status == 0 && tag[..] == t[..tagLen] + old(tag[tagLen..])
        else
          tag[..] == old(tag[..]) && status == if tag[..tagLen] == t[..tagLen] then 0 else -1
    {
      hide Registers, TableOf, TagBlock, Hash;
      if tagLen < 4 {
        ClearAll();
        return -1;
      }
      FinishTag();
      if isEncrypt {
        WriteTag(tag, tbl[..tagLen]);
      } else {
        var same := CompareTag(tag, tbl[..tagLen]);
        if !same {
          ClearRegisters();
          return -1;
        }
      }
      ctLen := 0;
      ClearRegisters();
      return 0;
    }

    /** The tag computation of gcm_final; both lengths turn into bit counts on the way. */
    method FinishTag()
      requires Active()
      modifies this`tbl, this`aadLen, this`ctLen
      ensures tbl == TagBlock(E, h, j0, aad, data, old(aadLen)) && Keyed() && aadLen == 8 * old(aadLen)
    {
      hide Hash, TableOf, Registers, Word32, Be, XorBlock;
      LastHash(E, h, j0, Hash(ZERO, aad, h), data, tbl, yn, ynUsed, ctr);
      TagParts(E, h, j0, aad, data, aadLen);
      LengthOctets(aadLen);
      LengthOctets(|data|);
      if ynUsed > 0 {
        tbl := GhashLoop(tbl, yn[..ynUsed], hTable, h);
      }
      aadLen := aadLen * 8;
      ctLen := ctLen * 8;
      var tmp := [0, 0, 0, 0] + Word32(aadLen) + [0, 0, 0, 0] + Word32(ctLen);
      assert tmp == ([0, 0, 0, 0] + Word32(aadLen)) + ([0, 0, 0, 0] + Word32(ctLen));
      tbl := GhashLoop(tbl, tmp, hTable, h);
      tbl := XorBlock(tbl, ek0);
    }

    /** The whole context wiped, table included. */
    method ClearAll()
      requires hTable.Length == 256
      modifies this, hTable
      ensures tbl == ZERO && ctr == ZERO && forall n | 0 <= n < 256 :: hTable[n] == ZERO
    {
      forall n | 0 <= n < 256 {
        hTable[n] := ZERO;
      }
      ctr, ek0, tbl, yn, ynUsed, aadLen, ctLen, isEncrypt := ZERO, ZERO, ZERO, ZERO, 0, 0, 0, false;
    }
  }
}
