/** The library's algorithms in place of the abstract ones: LEA as the block cipher and HMAC-LSH-256
    as the keyed hash, for any key schedule and step constants. */
module Instance {
  import opened Bytes
  import opened Hmac
  import opened Lsh256
  import opened LshHash
  import opened Modes
  import opened Online
  import opened SecureFrame
  import Lea
  import OnlineMessage
  import Pieces

  function FullTag(sc: StepConstants, key: seq<bv8>, m: seq<bv8>): Tag {
    HmacOf(VariantOf(sc, TYPE_256), key, m)
  }

  /** What the frame and channel results are instantiated with: encryption keys are expanded for 128
      bits, that is 24 rounds, and tags are 256 bits. */
  function LeaHmacLsh(schedule: seq<bv8> -> Lea.RoundKeys, sc: StepConstants): Crypto {
    Crypto((key: seq<bv8>) => Lea.KeyedCipher(schedule(key), 24), (key: seq<bv8>, m: seq<bv8>) => FullTag(sc, key, m))
  }

  /** The unrolled cipher computes the block function of the instance. */
  method EncryptBlock(schedule: seq<bv8> -> Lea.RoundKeys, sc: StepConstants, key: seq<bv8>, b: Block)
    returns (c: Block)
    ensures c == LeaHmacLsh(schedule, sc).cipher(key).enc(b)
  {
    hide Lea.Encrypt;
    c := Lea.EncryptBlock(b, schedule(key), 24);
  }

  /** hmac_lsh256 computes its keyed hash. */
  method HmacLsh256(schedule: seq<bv8> -> Lea.RoundKeys, sc: StepConstants, key: seq<bv8>, m: seq<bv8>)
    returns (tag: Tag)
    ensures tag == LeaHmacLsh(schedule, sc).mac(key, m)
  {
    hide Hash, KeyBlock, PadKey;
    assert Pieces.Concat([m]) == m by {
      assert [m][1..] == [];
      assert m + [] == m;
    }
    var _, digest := HmacPieces(sc, TYPE_256, key, [m]);
    tag := digest;
  }

  /** PKCS5-padded LEA in ECB or CBC mode brings back every text, for every round-key array and round
      count, however the text and the ciphertext are cut. */
  method LeaPaddedRoundTrip(t: EncType, rk: Lea.RoundKeys, round: nat, iv: Block, pieces: seq<seq<bv8>>,
                            sizes: seq<nat>, maxBlk: nat) returns (p: seq<bv8>, status: int)
    requires PadsOutput(t)
    ensures p == Pieces.Concat(pieces) && status >= 0
  {
    Lea.KeyedCipherInverts(rk, round);
    hide Inverse;
    var c;
    c, p, status := OnlineMessage.PaddedRoundTrip(t, Lea.KeyedCipher(rk, round), iv, pieces, sizes, maxBlk);
  }
}
