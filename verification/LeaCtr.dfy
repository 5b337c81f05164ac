/** The bridge from the frame layer to the buffered cipher: a 96-bit high part, a 32-bit low part,
    and the counter blocks one message uses. */
module LeaCtr {
  import opened Bytes
  import opened Counter
  import opened Ctr
  import opened KeyStore
  import opened Modes
  import opened Online
  import OnlineMessage
  import Pieces

  /** The first counter block. */
  function CounterBlock(high: seq<bv8>, low: Word): Block
    requires |high| == 12
  {
    high + Word32(low)
  }

  /** lea_ctr_crypt: one init, one update and one final of the buffered cipher. */
  method LeaCtrCrypt(k: Cipher, high: seq<bv8>, low: Word, encrypt: bool, x: seq<bv8>, maxBlk: nat)
    returns (y: seq<bv8>)
    requires |high| == 12
    ensures y == CtrAt(k.enc, CounterBlock(high, low), x, 0)
  {
    hide CtrAt, Crypt, Run, RunValue;
    var ctr := CounterBlock(high, low);
    assert Pieces.Concat([x]) == x by {
      assert [x][1..] == [];
      assert x + [] == x;
    }
    y := OnlineMessage.CryptPieces(if encrypt then CtrEncType else CtrDecType, k, ctr, [x], maxBlk);
    Online.CtrCrypt(k, ctr, x);
  }

  // ----- the counter blocks of a message -----

  /** The number of counter blocks a text of len octets uses: one for every 16 octets begun. */
  function Touched(len: nat): nat {
    (len + 15) / 16
  }

  /** n consecutive counter blocks from the first on. */
  ghost function BlockRange(first: Block, n: nat): set<Block> {
    set j | 0 <= j < n :: IncBy(first, j)
  }

  /** The blocks a text of len octets uses. */
  ghost function Consumed(first: Block, len: nat): set<Block> {
    BlockRange(first, Touched(len))
  }

  /** The output depends on the cipher at those blocks only ... */
  lemma OnlyTouched(E: BlockFn, F: BlockFn, b: Block, x: seq<bv8>)
    requires forall c | c in Consumed(b, |x|) :: E(c) == F(c)
    ensures CtrAt(E, b, x, 0) == CtrAt(F, b, x, 0)
  {
    hide IncBy, XorOctet;
    forall j | 0 <= j < |x| ensures KeyOctet(E, b, j) == KeyOctet(F, b, j) {
      assert 0 <= j / 16 < Touched(|x|);
      assert IncBy(b, j / 16) in Consumed(b, |x|);
    }
  }

  /** ... and on every one of them: block j is combined with octets 16 j on. */
  lemma AllTouched(E: BlockFn, b: Block, x: seq<bv8>, j: nat)
    requires j < Touched(|x|)
    ensures 16 * j < |x|
    ensures CtrAt(E, b, x, 0)[16*j] == XorOctet(x[16*j], E(IncBy(b, j))[0])
  {
    FirstOctetOf(|x|, j);
    hide IncBy, XorOctet, Touched;
    OctetPosition(j, 0);
    KeyInBlock(E, b, j, 0);
    hide KeyOctet;
  }

  lemma FirstOctetOf(len: nat, j: nat)
    ensures j < Touched(len) <==> 16 * j < len
  {
  }

  // ----- counter blocks as numbers -----

  /** The value of a counter block with a zero high part, however far the count has run. */
  lemma CounterValue(low: Word, j: nat)
    requires j < 0x1_0000_0000
    ensures BeNat(IncBy(CounterBlock(ZERO[..12], low), j)) == low + j
  {
    hide BeNat, Be, IncBy, Word32, Pow256, CounterBlock;
    var b := CounterBlock(ZERO[..12], low);
    FourOctets();
    CounterBlockIsBe(low);
    BeValue(low, 16);
    IncByValue(b, j);
    SmallMod(low + j, Pow256(16));
  }

  lemma SmallMod(x: nat, m: nat)
    requires x < m
    ensures x % m == x
  {
  }

  lemma FourOctets()
    ensures Pow256(4) == 0x1_0000_0000 && Pow256(16) > 0x2_0000_0000
  {
    assert Pow256(2) == 0x1_0000;
    assert Pow256(4) == 0x1_0000_0000;
    assert Pow256(5) == 0x100_0000_0000;
    PowGrows(5, 11);
  }

  lemma {:induction false} PowGrows(n: nat, m: nat)
    ensures Pow256(n + m) >= Pow256(n)
  {
    if m > 0 {
      PowGrows(n, m - 1);
    }
  }

  lemma CounterBlockIsBe(low: Word)
    ensures CounterBlock(ZERO[..12], low) == Be(low, 16)
  {
    FourOctets();
    Word32IsBe(low);
    BeLeadingZeros(low, 4, 12);
    ZeroIsBe(12);
    hide Be, Word32;
  }

  lemma {:induction false} ZeroIsBe(n: nat)
    requires n <= 12
    ensures Be(0, n) == ZERO[..n]
  {
    if n > 0 {
      ZeroIsBe(n - 1);
    }
  }

  /** Two ranges have a block in common exactly when they overlap as intervals of numbers. Nothing wraps:
      the count runs on into the high part. */
  lemma RangesShare(u: Word, a: nat, v: Word, b: nat)
    requires a <= WRAP && b <= WRAP
    ensures BlockRange(CounterBlock(ZERO[..12], u), a) !! BlockRange(CounterBlock(ZERO[..12], v), b) <==>
      a == 0 || b == 0 || u + a <= v || v + b <= u
  {
    hide IncBy, CounterBlock;
    var f, g := CounterBlock(ZERO[..12], u), CounterBlock(ZERO[..12], v);
    if a > 0 && b > 0 && v < u + a && u < v + b {
      var x, y := if u <= v then v - u else 0, if u <= v then 0 else u - v;
      SameBlock(u, x, v, y);
      assert IncBy(f, x) in BlockRange(f, a) && IncBy(g, y) in BlockRange(g, b);
    } else {
      forall c | c in BlockRange(f, a) && c in BlockRange(g, b) ensures false {
        var x :| 0 <= x < a && c == IncBy(f, x);
        var y :| 0 <= y < b && c == IncBy(g, y);
        CounterValue(u, x);
        CounterValue(v, y);
      }
    }
  }

  lemma SameBlock(u: Word, x: nat, v: Word, y: nat)
    requires x < WRAP && y < WRAP && u + x == v + y
    ensures IncBy(CounterBlock(ZERO[..12], u), x) == IncBy(CounterBlock(ZERO[..12], v), y)
  {
    hide IncBy, CounterBlock;
    CounterValue(u, x);
    CounterValue(v, y);
    BeNatInjective(IncBy(CounterBlock(ZERO[..12], u), x), IncBy(CounterBlock(ZERO[..12], v), y));
  }
}
