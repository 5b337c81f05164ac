/** The context object behind lea_online_update and lea_online_final. */
module OnlineContext {
  import opened Bytes
  import opened Modes
  import opened Online
  import opened ModeLoops

  // ----- padding -----

  function Fill(n: nat): (f: seq<bv8>)
    ensures |f| == n && forall i | 0 <= i < n :: f[i] == Octet(n)
  {
    seq(n, _ => Octet(n))
  }

  /** n octets of value n, as many as complete a block; a full block is followed by sixteen. */
  function Pad(x: seq<bv8>): (p: seq<bv8>)
    ensures |p| % 16 == 0 && |p| > 0
  {
    PadLength(|x|);
    x + Fill(16 - |x| % 16)
  }

  lemma PadLength(n: nat)
    ensures (n + (16 - n % 16)) % 16 == 0
  {
  }

  datatype Unpadded = Rejected | Text(octets: seq<bv8>)

  predicate LastEqual(d: Block, n: nat)
    requires n <= 16
  {
    forall j | 16 - n <= j < 16 :: d[j] == d[15]
  }

  /** The check of the library on the last decrypted block: the limit is 0x16. */
  function Strip(d: Block): Unpadded {
    var i := Num(d[15]);
    var n := if i <= 16 then i else 16;
    if i > 0x16 || !LastEqual(d, n) then Rejected else Text(d[..16-n])
  }

  /** The check of PKCS #5: between 1 and 16 octets, each giving their number. */
  function StandardStrip(d: Block): Unpadded {
    var i := Num(d[15]);
    if 1 <= i <= 16 && LastEqual(d, i) then Text(d[..16-i]) else Rejected
  }

  /** The two agree exactly unless the last octet is 0, or is 17 to 22 throughout the block. */
  lemma StripAgrees(d: Block)
    ensures Strip(d) == StandardStrip(d)
       <==> Num(d[15]) != 0 && !(17 <= Num(d[15]) <= 22 && LastEqual(d, 16))
  {
    hide Num;
  }

  /** A block ending in zero is taken as unpadded text. */
  lemma ZeroPaddingAccepted()
    ensures Strip(ZERO) == Text(ZERO) && StandardStrip(ZERO) == Rejected
  {
    assert ZERO[15] == 0;
  }

  lemma StripCount(d: Block, n: nat)
    requires 1 <= n <= 16 && Num(d[15]) == n && LastEqual(d, n)
    ensures Strip(d) == Text(d[..16-n])
  {
    hide Num;
  }

  lemma FilledBlock(t: seq<bv8>, n: nat, d: Block)
    requires |t| + n == 16 && n > 0 && d == t + Fill(n)
    ensures d[15] == Octet(n) && LastEqual(d, n) && d[..16-n] == t
  {
    hide Octet;
    var f := Fill(n);
    hide Fill;
    forall j | 16 - n <= j < 16 ensures d[j] == Octet(n) {
      assert d[j] == f[j-(16-n)];
    }
  }

  lemma StripFill(t: seq<bv8>, n: nat, d: Block)
    requires |t| + n == 16 && n > 0 && d == t + Fill(n)
    ensures Strip(d) == Text(t)
  {
    FilledBlock(t, n, d);
    hide Octet, Strip, LastEqual, Fill, Num;
    OctetValue(n);
    StripCount(d, n);
  }

  lemma PadLastBlock(x: seq<bv8>)
    ensures Pad(x)[..|Pad(x)|-16] == x[..|x|/16*16]
    ensures Pad(x)[|Pad(x)|-16..] == x[|x|/16*16..] + Fill(16 - |x| % 16)
  {
    hide Fill;
    var w := |x| / 16 * 16;
    assert |Pad(x)| == w + 16 && |x| == w + |x| % 16;
  }

  /** The text after the last whole block comes back from the padded block. */
  lemma StripPad(x: seq<bv8>)
    ensures Strip(Pad(x)[|Pad(x)|-16..]) == Text(x[|x|/16*16..])
  {
    hide Fill, Strip, Pad;
    PadLastBlock(x);
    StripFill(x[|x|/16*16..], 16 - |x| % 16, Pad(x)[|Pad(x)|-16..]);
  }

  // ----- the buffered state -----

  /** After input data: all but the last nlast octets went through the mode, giving emitted; the
      rest waits in the block. */
  ghost predicate Buffered(m: Mode, k: Cipher, iv0: Block, data: seq<bv8>, emitted: seq<bv8>,
                           iv: Block, lastBlock: Block, nlast: nat)
  {
    && nlast <= |data| && nlast <= 16 && (|data| - nlast) % 16 == 0
    && var done := data[..|data|-nlast];
       && emitted == Run(m, k, iv0, done)
       && iv == RunValue(m, k, iv0, done)
       && lastBlock[..nlast] == data[|data|-nlast..]
  }

  /** Octets x join the waiting ones. */
  lemma Append(m: Mode, k: Cipher, iv0: Block, data: seq<bv8>, emitted: seq<bv8>,
               iv: Block, lastBlock: Block, nlast: nat, x: seq<bv8>)
    requires Buffered(m, k, iv0, data, emitted, iv, lastBlock, nlast) && nlast + |x| <= 16
    ensures Buffered(m, k, iv0, data + x, emitted, iv, lastBlock[..nlast] + x + lastBlock[nlast+|x|..], nlast + |x|)
  {
    hide Run, RunValue;
    var n := |data| - nlast;
    assert (data + x)[..n] == data[..n] && (data + x)[n..] == data[n..] + x;
  }

  /** A full waiting block goes through the mode. */
  lemma Flush(m: Mode, k: Cipher, iv0: Block, data: seq<bv8>, emitted: seq<bv8>,
              iv: Block, lastBlock: Block)
    requires Buffered(m, k, iv0, data, emitted, iv, lastBlock, 16)
    ensures Buffered(m, k, iv0, data, emitted + Run(m, k, iv, lastBlock), RunValue(m, k, iv, lastBlock), ZERO, 0)
  {
    hide Run, RunValue;
    var n := |data| - 16;
    RunConcat(m, k, iv0, data[..n], lastBlock);
    assert data[..n] + lastBlock == data == data[..|data|] && lastBlock[..16] == lastBlock;
  }

  /** Whole blocks x go through the mode with nothing waiting. */
  lemma Pass(m: Mode, k: Cipher, iv0: Block, data: seq<bv8>, emitted: seq<bv8>,
             iv: Block, lastBlock: Block, x: seq<bv8>)
    requires Buffered(m, k, iv0, data, emitted, iv, lastBlock, 0) && |x| % 16 == 0
    ensures Buffered(m, k, iv0, data + x, emitted + Run(m, k, iv, x), RunValue(m, k, iv, x), lastBlock, 0)
  {
    hide Run, RunValue;
    assert data[..|data|] == data && (data + x)[..|data+x|] == data + x;
    RunConcat(m, k, iv0, data, x);
  }

  /** The first n octets of x, whole blocks, go through the mode and the others wait. */
  lemma DirectStep(m: Mode, k: Cipher, iv0: Block, data: seq<bv8>, emitted: seq<bv8>,
                   iv: Block, lastBlock: Block, x: seq<bv8>, n: nat)
    requires Buffered(m, k, iv0, data, emitted, iv, lastBlock, 0) && n % 16 == 0 && n <= |x| <= n + 16
    ensures Buffered(m, k, iv0, data + x, emitted + Run(m, k, iv, x[..n]), RunValue(m, k, iv, x[..n]),
                     x[n..] + lastBlock[|x|-n..], |x| - n)
    ensures ChainsInput(m) && n > 0 ==> RunValue(m, k, iv, x[..n]) == x[n-16..n]
  {
    hide Run, RunValue, Buffered;
    var head, tail := x[..n], x[n..];
    Pass(m, k, iv0, data, emitted, iv, lastBlock, head);
    Append(m, k, iv0, data + head, emitted + Run(m, k, iv, head), RunValue(m, k, iv, head), lastBlock, 0, tail);
    assert x == head + tail;
    assert data + head + tail == data + (head + tail);
    assert lastBlock[..0] + tail + lastBlock[|tail|..] == tail + lastBlock[|tail|..];
    if ChainsInput(m) && n > 0 {
      ChainIsLast(m, k, iv, head);
    }
  }

  lemma InFront(x: seq<bv8>, n: nat, b: seq<bv8>, y: seq<bv8>, b': seq<bv8>)
    requires n <= |x| <= |b| && x == b[..|x|] && |y| == n && b' == y + b[n..]
    ensures x[..n] == b[..n] && b'[..n] == y && b'[n..] == b[n..] && b'[n..|x|] == x[n..]
    ensures n >= 16 ==> x[n-16..n] == b[n-16..n]
  {
  }

  /** The whole blocks of len octets, without a last one to be held back. */
  function DirectBlocks(len: nat, keep: bool): (n: nat)
    requires len > 0
    ensures n % 16 == 0 && n <= len && (len > 16 ==> n >= 16)
    ensures if keep then n < len <= n + 16 else len < n + 16
  {
    var n := len / 16 * 16;
    if keep && len == n then n - 16 else n
  }

  /** In CBC or CFB decryption: the text of the last block of x. */
  function LastText(m: Mode, k: Cipher, v: Block, x: seq<bv8>): Block
    requires |x| >= 16 && |x| % 16 == 0
  {
    var b := |x| / 16 - 1;
    Out(m, k, Before(v, x, b), x[16*b..16*b+16])
  }

  lemma LastOfRun(m: Mode, k: Cipher, v: Block, x: seq<bv8>)
    requires ChainsInput(m) && |x| >= 16 && |x| % 16 == 0
    ensures |Run(m, k, v, x)| == |x| && Run(m, k, v, x)[|x|-16..] == LastText(m, k, v, x)
  {
    hide Run, RunValue, Out;
    var b := |x| / 16 - 1;
    assert 16 * b + 16 == |x|;
    BlockAt(m, k, v, x, b);
  }

  /** The last block of x comes out as it went in. */
  predicate LastStays(m: Mode, k: Cipher, v: Block, x: seq<bv8>)
    requires |x| >= 16 && |x| % 16 == 0
  {
    LastText(m, k, v, x) == x[|x|-16..]
  }

  /** Only one chaining value goes with the data. */
  lemma InChain(m: Mode, k: Cipher, iv0: Block, data: seq<bv8>, emitted: seq<bv8>, iv: Block, iv': Block,
                lastBlock: Block, nlast: nat)
    requires Buffered(m, k, iv0, data, emitted, iv, lastBlock, nlast)
    ensures Buffered(m, k, iv0, data, emitted, iv', lastBlock, nlast) <==> iv' == iv
    ensures nlast <= |data| && emitted == Run(m, k, iv0, data[..|data|-nlast]) && |emitted| == |data| - nlast
  {
  }

  lemma WaitingText(m: Mode, k: Cipher, iv0: Block, data: seq<bv8>, emitted: seq<bv8>, iv: Block,
                    lastBlock: Block, lastBlock': Block, nlast: nat)
    requires Buffered(m, k, iv0, data, emitted, iv, lastBlock, nlast) && nlast <= 16
    ensures Buffered(m, k, iv0, data, emitted, iv, lastBlock', nlast) <==> lastBlock'[..nlast] == lastBlock[..nlast]
    ensures nlast <= |data| && emitted == Run(m, k, iv0, data[..|data|-nlast])
  {
  }

  /** The octets w that wait and the first of x make a block; the output of that block repeats what x has in its
      place afterwards. */
  predicate RestStays(m: Mode, k: Cipher, v: Block, w: seq<bv8>, x: seq<bv8>)
    requires |w| <= 16 && |w| + |x| >= 16
  {
    var more, end := 16 - |w|, if |x| < 16 then |x| else 16;
    Out(m, k, v, w + x[..more])[more..end] == x[more..end]
  }

  /** The rest of x, read after the first block of the buffer was written. */
  lemma OverRest(m: Mode, k: Cipher, v: Block, w: seq<bv8>, x: seq<bv8>, y: Block, b: seq<bv8>, b': seq<bv8>)
    requires |w| <= 16 && |w| + |x| >= 16 && |x| <= |b| && x == b[..|x|] && |b| >= 16
    requires y == Out(m, k, v, w + x[..16-|w|]) && b' == y + b[16..]
    ensures b'[16-|w|..|x|] == x[16-|w|..] <==> RestStays(m, k, v, w, x)
  {
    hide Out;
    var more, end := 16 - |w|, if |x| < 16 then |x| else 16;
    SameSlices(b', x, more, |x|);
    SameSlices(y, x, more, end);
    assert x[more..|x|] == x[more..];
    forall i | end <= i < |x| ensures b'[i] == x[i] {
      assert b'[i] == b[16..][i-16];
    }
    assert forall i | more <= i < end :: b'[i] == y[i];
  }

  lemma SameSlices(a: seq<bv8>, b: seq<bv8>, from: nat, to: nat)
    requires from <= to <= |a| && to <= |b|
    ensures a[from..to] == b[from..to] <==> forall i | from <= i < to :: a[i] == b[i]
  {
    var s, t := a[from..to], b[from..to];
    if s == t {
      forall i | from <= i < to ensures a[i] == b[i] {
        assert s[i-from] == t[i-from];
      }
    }
  }

  /** Whatever waits and whatever completes the block, some next octet makes this go wrong. */
  lemma WaitingFails(m: Mode, k: Cipher, v: Block, w: seq<bv8>, head: seq<bv8>) returns (x: seq<bv8>)
    requires 0 < |w| <= 16 && |w| + |head| == 16
    ensures |x| == |head| + 1 && head <= x && !RestStays(m, k, v, w, x)
  {
    var y := Out(m, k, v, w + head);
    var next := y[|head|] + 1;
    OctetMoves(y[|head|]);
    x := head + [next];
    hide Out;
    assert x[..|head|] == head && x[|head|..|head|+1] == [next] && y[|head|..|head|+1] == [y[|head|]];
  }

  lemma OctetMoves(b: bv8)
    ensures b + 1 != b
  {
  }

  /** What final must deliver for input d of which e is already out. */
  ghost predicate FinalResult(t: EncType, k: Cipher, iv0: Block, d: seq<bv8>, e: seq<bv8>, status: int, out: seq<bv8>)
    requires t != Cleared
  {
    var m := ModeOf(t);
    if Streams(m) then
      status == |out| && e + out == Crypt(m, k, iv0, d)
    else if PadsOutput(t) then
      status == |out| == 16 && e + out == Run(m, k, iv0, Pad(d))
    else if |d| % 16 != 0 || (KeepLast(t) && d == []) then
      status == -2 && out == []
    else if !KeepLast(t) then
      status == 0 && out == [] && e == Run(m, k, iv0, d)
    else
      var y := Run(m, k, iv0, d);
      match Strip(y[|y|-16..])
      case Rejected => status == -4 && out == []
      case Text(last) => status == |out| && out == last && e == y[..|y|-16]
  }

  class OnlineContext {
    const k: Cipher
    var encType: EncType
    var iv: Block
    var lastBlock: Block
    var nlast: nat

    // The initialization vector, the input so far and the output so far.
    ghost var iv0: Block
    ghost var data: seq<bv8>
    ghost var emitted: seq<bv8>

    /** Between calls: a partial block at most, or, when a block is held back, a full one as soon as
        there has been input at all. */
    ghost predicate Valid()
      reads this
    {
      && Waiting()
      && (KeepLast(encType) ==> (nlast == 0 <==> data == []))
      && (!KeepLast(encType) ==> nlast < 16)
    }

    ghost predicate Waiting()
      reads this
    {
      && encType != Cleared
      && nlast <= 16 && nlast <= |data|
      && Buffered(ModeOf(encType), k, iv0, data, emitted, iv, lastBlock, nlast)
    }

    /** lea_online_init_ex */
    constructor (t: EncType, iv: Block, k: Cipher)
      requires t != Cleared
      ensures Valid() && encType == t && this.k == k && iv0 == iv && data == [] && emitted == []
    {
      this.k, encType, this.iv, lastBlock, nlast := k, t, iv, ZERO, 0;
      iv0, data, emitted := iv, [], [];
      new;
      RunNothing(ModeOf(t), k, iv);
    }

    /** lea_online_update: the output octets, their number being the status; -3 without a type. */
    method Update(x: seq<bv8>, maxBlk: nat) returns (status: int, out: seq<bv8>)
      requires encType != Cleared ==> Valid()
      modifies this
      ensures encType == old(encType) && iv0 == old(iv0)
      ensures encType == Cleared ==> out == [] && status == (if x == [] then 0 else -3)
      ensures encType != Cleared ==>
        && Valid() && data == old(data) + x && emitted == old(emitted) + out && status == |out|
    {
      if x == [] {
        assert data + x == data && emitted + [] == emitted;
        return 0, [];
      }
      if encType == Cleared {
        return -3, [];
      }
      out := Take(x, maxBlk);
      status := |out|;
    }

    /** The body of update: wait for a block, complete the waiting one, then go on with the rest. */
    method Take(x: seq<bv8>, maxBlk: nat) returns (out: seq<bv8>)
      requires Valid() && x != []
      modifies this`lastBlock, this`nlast, this`iv, this`data, this`emitted
      ensures Valid() && data == old(data) + x && emitted == old(emitted) + out
    {
      hide Buffered, KeepLast;
      var keep, rest := KeepLast(encType), x;
      if |rest| + nlast <= 16 {
        Store(rest);
        if keep || nlast != 16 {
          return [];
        }
        rest := [];
      }
      if 0 < nlast < 16 {
        var more := 16 - nlast;
        Store(rest[..more]);
        rest := rest[more..];
        assert x == x[..more] + rest;
      }
      out := Drain(rest, keep, maxBlk);
    }

    /** Update over its own input, with nothing waiting. The output is right. What the next call starts from is
        right too, unless blocks went through CBC or CFB decryption directly, whose chaining value is then the
        last text block: that is the last ciphertext block only when this is its own text. */
    method UpdateInPlace(buf: array<bv8>, len: nat, maxBlk: nat) returns (status: int)
      requires Valid() && nlast == 0 && len <= buf.Length
      modifies this`lastBlock, this`nlast, this`iv, this`data, this`emitted, buf
      ensures 0 <= status <= len && nlast == len - status <= 16 && (!KeepLast(encType) ==> nlast < 16)
      ensures data == old(data) + old(buf[..len])
      ensures emitted == old(emitted) + buf[..status] && buf[status..] == old(buf[status..])
      ensures emitted == Run(ModeOf(encType), k, iv0, data[..|data|-nlast])
      ensures len > 16 ==> status >= 16 && status % 16 == 0
      ensures len > 16 && ChainsInput(ModeOf(encType)) ==> iv == buf[status-16..status]
      ensures Valid() <==>
        len <= 16 || !ChainsInput(ModeOf(encType)) || LastStays(ModeOf(encType), k, old(iv), old(buf[..status]))
    {
      hide Valid, Run, KeepLast, LastStays, DirectBlocks;
      if len <= 16 {
        status := StoreInPlace(buf, len, maxBlk);
      } else {
        status := DirectBlocks(len, KeepLast(encType));
        DrainInPlace(buf, len, status, maxBlk);
      }
    }

    /** Update over its own input with octets waiting. As long as no more than a block comes together everything is
        right. Otherwise the block that goes out is written over the octets after those that completed it, before
        they are stored to wait: they are right only when the output repeats them. */
    method UpdateWaiting(buf: array<bv8>, len: nat, maxBlk: nat) returns (status: int)
      requires Valid() && 0 < nlast && len <= buf.Length && 16 <= buf.Length
      requires nlast + len < 32 || (nlast + len == 32 && KeepLast(encType))
      modifies this`lastBlock, this`nlast, this`iv, this`data, this`emitted, buf
      ensures status == 0 || status == 16
      ensures data == old(data) + old(buf[..len]) && nlast == old(nlast) + len - status <= 16
      ensures emitted == old(emitted) + buf[..status] && buf[status..] == old(buf[status..])
      ensures emitted == Run(ModeOf(encType), k, iv0, data[..|data|-nlast])
      ensures Valid() <==>
        old(nlast) + len <= 16 || RestStays(ModeOf(encType), k, old(iv), old(lastBlock[..nlast]), old(buf[..len]))
    {
      hide Run, RunValue, KeepLast, Buffered, RestStays;
      if nlast + len <= 16 {
        status := StoreInPlace(buf, len, maxBlk);
      } else {
        OverwriteRest(buf, len, maxBlk);
        status := 16;
      }
    }

    method OverwriteRest(buf: array<bv8>, len: nat, maxBlk: nat)
      requires Waiting() && 16 < nlast + len <= 32 && len <= buf.Length && 16 <= buf.Length
      modifies this`lastBlock, this`nlast, this`iv, this`data, this`emitted, buf
      ensures data == old(data) + old(buf[..len]) && nlast == old(nlast) + len - 16
      ensures emitted == old(emitted) + buf[..16] && buf[16..] == old(buf[16..])
      ensures emitted == Run(ModeOf(encType), k, iv0, data[..|data|-nlast])
      ensures Waiting() <==>
        RestStays(ModeOf(encType), k, old(iv), old(lastBlock[..nlast]), old(buf[..len]))
    {
      hide Run, Buffered, RestStays;
      ghost var m, w, x, v, b := ModeOf(encType), lastBlock[..nlast], buf[..len], iv, buf[..];
      var more := 16 - nlast;
      var y := CompleteBlock(buf[..more], maxBlk);
      assert buf[..more] == x[..more];
      Deliver(buf, y);
      OverRest(m, k, v, w, x, y, b, buf[..]);
      KeepRest(buf, more, len, x[more..]);
      assert old(data) + x[..more] + x[more..] == old(data) + x by { assert x == x[..more] + x[more..]; }
    }

    /** The waiting octets and x make a block, which goes through the mode. */
    method CompleteBlock(x: seq<bv8>, maxBlk: nat) returns (y: Block)
      requires Waiting() && nlast + |x| == 16
      modifies this`lastBlock, this`nlast, this`iv, this`data, this`emitted
      ensures Waiting() && nlast == 0 && data == old(data) + x && emitted == old(emitted) + y
      ensures y == Out(ModeOf(encType), k, old(iv), old(lastBlock[..nlast]) + x)
    {
      hide Buffered, Out;
      ghost var w := lastBlock[..nlast];
      Store(x);
      assert lastBlock == w + x;
      var z := FlushBlock(maxBlk);
      y := z;
    }

    /** Part of a buffer, which may no longer be the rest of the data, is stored to wait. */
    method KeepRest(buf: array<bv8>, from: nat, to: nat, ghost rest: seq<bv8>)
      requires Waiting() && nlast == 0 && from <= to <= buf.Length && |rest| == to - from <= 16
      modifies this`lastBlock, this`nlast, this`data
      ensures data == old(data) + rest && nlast == |rest|
      ensures emitted == Run(ModeOf(encType), k, iv0, data[..|data|-nlast])
      ensures Waiting() <==> buf[from..to] == rest
    {
      hide Buffered, Run;
      Append(ModeOf(encType), k, iv0, data, emitted, iv, lastBlock, 0, rest);
      ghost var right: Block := lastBlock[..0] + rest + lastBlock[|rest|..];
      lastBlock := buf[from..to] + lastBlock[to-from..];
      nlast := to - from;
      data := data + rest;
      assert right[..nlast] == rest && lastBlock[..nlast] == buf[from..to];
      WaitingText(ModeOf(encType), k, iv0, data, emitted, iv, right, lastBlock, nlast);
    }

    /** What comes together is no more than a block: it is read before anything is written. */
    method StoreInPlace(buf: array<bv8>, len: nat, maxBlk: nat) returns (status: int)
      requires Valid() && len <= buf.Length && nlast + len <= 16 && (nlast == 0 || 16 <= buf.Length)
      modifies this`lastBlock, this`nlast, this`iv, this`data, this`emitted, buf
      ensures Valid() && data == old(data) + old(buf[..len]) && (!KeepLast(encType) ==> nlast < 16)
      ensures (status == 0 || status == 16) && status <= buf.Length && nlast == old(nlast) + len - status <= 16
      ensures emitted == old(emitted) + buf[..status] && buf[status..] == old(buf[status..])
      ensures emitted == Run(ModeOf(encType), k, iv0, data[..|data|-nlast])
    {
      hide Run, RunValue, KeepLast, Buffered;
      ghost var d := data;
      InChain(ModeOf(encType), k, iv0, data, emitted, iv, iv, lastBlock, nlast);
      if len == 0 {
        assert data + buf[..len] == data && emitted + buf[..0] == emitted;
        return 0;
      }
      var out := Take(buf[..len], maxBlk);
      InChain(ModeOf(encType), k, iv0, data, emitted, iv, iv, lastBlock, nlast);
      status := |out|;
      Deliver(buf, out);
    }

    /** What follows seen as a message of its own, from the present chaining value. */
    ghost method Rebase()
      requires encType != Cleared && nlast == 0
      modifies this`iv0, this`data, this`emitted
      ensures Valid() && iv0 == iv && data == [] && emitted == []
    {
      iv0, data, emitted := iv, [], [];
      RunNothing(ModeOf(encType), k, iv);
    }

    method Deliver(buf: array<bv8>, out: seq<bv8>)
      requires |out| <= buf.Length
      modifies buf
      ensures buf[..|out|] == out && buf[|out|..] == old(buf[|out|..])
    {
      forall i | 0 <= i < |out| {
        buf[i] := out[i];
      }
    }

    method DrainInPlace(buf: array<bv8>, len: nat, n: nat, maxBlk: nat)
      requires Valid() && nlast == 0 && 16 <= n <= len <= buf.Length && n % 16 == 0
      requires if KeepLast(encType) then n < len <= n + 16 else len < n + 16
      modifies this`lastBlock, this`nlast, this`iv, this`data, this`emitted, buf
      ensures nlast == len - n <= 16 && data == old(data) + old(buf[..len])
      ensures ChainsInput(ModeOf(encType)) ==> iv == buf[n-16..n]
      ensures emitted == old(emitted) + buf[..n] && buf[n..] == old(buf[n..])
      ensures emitted == Run(ModeOf(encType), k, iv0, data[..|data|-nlast])
      ensures Valid() <==>
        !ChainsInput(ModeOf(encType)) || LastStays(ModeOf(encType), k, old(iv), old(buf[..n]))
    {
      hide Run, RunValue, KeepLast, Buffered, LastText;
      var m := ModeOf(encType);
      ghost var x, v, b := buf[..len], iv, buf[n..];
      iv := BlocksInto(m, k, iv, buf, buf, n, maxBlk);
      assert x[..n] == old(buf[..n]) && old(buf[..])[n..] == old(buf[n..]);
      InFront(x, n, old(buf[..]), Run(m, k, v, x[..n]), buf[..]);
      DirectStep(m, k, iv0, data, emitted, v, lastBlock, x, n);
      if ChainsInput(m) {
        LastOfRun(m, k, v, x[..n]);
      }
      lastBlock := buf[n..len] + lastBlock[len-n..];
      nlast := len - n;
      data, emitted := data + x, emitted + buf[..n];
      InChain(m, k, iv0, data, emitted, RunValue(m, k, v, x[..n]), iv, lastBlock, nlast);
    }

    /** The part of update from a block boundary on: the full waiting block, if any, then whole
        blocks of the input, except a last one to be held back; the remainder waits. */
    method Drain(x: seq<bv8>, keep: bool, maxBlk: nat) returns (out: seq<bv8>)
      requires Waiting() && (nlast == 0 || nlast == 16)
      requires keep ==> x != []
      modifies this`lastBlock, this`nlast, this`iv, this`data, this`emitted
      ensures Waiting() && data == old(data) + x && emitted == old(emitted) + out
      ensures if keep then nlast > 0 else nlast < 16
    {
      hide Buffered;
      var blockLen := if x == [] then 0 else DirectBlocks(|x|, keep);
      out := [];
      if nlast != 0 {
        out := FlushBlock(maxBlk);
      }
      if blockLen != 0 {
        var y := PassBlocks(x[..blockLen], maxBlk);
        out := out + y;
      }
      var rest := x[blockLen..];
      assert x == x[..blockLen] + rest;
      if rest != [] {
        Store(rest);
      }
    }

    /** Octets copied behind the waiting ones. */
    method Store(x: seq<bv8>)
      requires Waiting() && nlast + |x| <= 16
      modifies this`lastBlock, this`nlast, this`data
      ensures Waiting() && data == old(data) + x && nlast == old(nlast) + |x|
      ensures lastBlock == old(lastBlock[..nlast]) + x + old(lastBlock[nlast+|x|..])
    {
      hide Buffered;
      Append(ModeOf(encType), k, iv0, data, emitted, iv, lastBlock, nlast, x);
      lastBlock := lastBlock[..nlast] + x + lastBlock[nlast+|x|..];
      nlast := nlast + |x|;
      data := data + x;
    }

    /** The full waiting block processed and cleared. */
    method FlushBlock(maxBlk: nat) returns (y: seq<bv8>)
      requires Waiting() && nlast == 16
      modifies this`lastBlock, this`nlast, this`iv, this`emitted
      ensures Waiting() && nlast == 0 && emitted == old(emitted) + y
      ensures y == Out(ModeOf(encType), k, old(iv), old(lastBlock))
    {
      hide Buffered, Run, RunValue;
      Flush(ModeOf(encType), k, iv0, data, emitted, iv, lastBlock);
      RunOne(ModeOf(encType), k, iv, lastBlock);
      y, iv := Blocks(ModeOf(encType), k, iv, lastBlock, maxBlk);
      lastBlock, nlast := ZERO, 0;
      emitted := emitted + y;
    }

    /** Whole blocks of input processed directly. */
    method PassBlocks(x: seq<bv8>, maxBlk: nat) returns (y: seq<bv8>)
      requires Waiting() && nlast == 0 && |x| % 16 == 0 && x != []
      modifies this`iv, this`data, this`emitted
      ensures Waiting() && data == old(data) + x && emitted == old(emitted) + y
    {
      hide Buffered, Run, RunValue;
      Pass(ModeOf(encType), k, iv0, data, emitted, iv, lastBlock, x);
      y, iv := Blocks(ModeOf(encType), k, iv, x, maxBlk);
      data := data + x;
      emitted := emitted + y;
    }

    /** lea_online_final: the last octets, their number being the status, or a negative status. */
    method Final(maxBlk: nat) returns (status: int, out: seq<bv8>)
      requires encType != Cleared ==> Valid()
      modifies this
      ensures iv0 == old(iv0) && data == old(data)
      ensures old(encType) == Cleared ==> status == -3 && out == []
      ensures old(encType) != Cleared ==> FinalResult(old(encType), k, iv0, data, old(emitted), status, out)
      ensures status >= 0 ==> encType == Cleared
    {
      if encType == Cleared {
        return -3, [];
      }
      status, out := Finish(maxBlk);
    }

    method Finish(maxBlk: nat) returns (status: int, out: seq<bv8>)
      requires Valid()
      modifies this`encType, this`nlast, this`lastBlock
      ensures FinalResult(old(encType), k, iv0, data, emitted, status, out)
      ensures status >= 0 ==> encType == Cleared
    {
      Flags(encType);
      hide Run, RunValue, Crypt, Pad, Strip, KeepLast, Len16, Code;
      if Len16(encType) && nlast % 16 > 0 {
        return -2, [];
      }
      if KeepLast(encType) && nlast != 16 {
        return -2, [];
      }
      if !KeepLast(encType) && nlast == 16 {
        return -3, [];
      }
      hide FinalResult, Buffered;
      if PadsOutput(encType) {
        status, out := FinishPadded(maxBlk);
      } else if nlast == 0 {
        status, out := FinishEmpty();
      } else if KeepLast(encType) {
        status, out := FinishStripped(maxBlk);
      } else {
        status, out := FinishStream(maxBlk);
      }
    }

    /** Pad the waiting octets to a block and encrypt it. */
    method FinishPadded(maxBlk: nat) returns (status: int, out: seq<bv8>)
      requires Valid() && PadsOutput(encType) && !KeepLast(encType)
      modifies this`encType, this`nlast, this`lastBlock
      ensures FinalResult(old(encType), k, iv0, data, emitted, status, out) && encType == Cleared
    {
      hide Run, RunValue, KeepLast;
      ghost var m, w := ModeOf(encType), |data| - nlast;
      PadTail(data, nlast);
      FillPadding();
      assert Pad(data) == data[..w] + lastBlock;
      RunConcat(m, k, iv0, data[..w], lastBlock);
      out := EncryptLast(maxBlk);
      encType := Cleared;
      status := 16;
    }

    /** The padding loop. */
    method FillPadding()
      requires nlast < 16
      modifies this`nlast, this`lastBlock
      ensures lastBlock == old(lastBlock[..nlast]) + Fill(16 - old(nlast))
    {
      hide Octet;
      ghost var n, b := nlast, lastBlock;
      var more := 16 - nlast;
      while nlast < 16
        invariant n <= nlast <= 16
        invariant forall j | 0 <= j < n :: lastBlock[j] == b[j]
        invariant forall j | n <= j < nlast :: lastBlock[j] == Octet(more)
      {
        lastBlock := lastBlock[nlast := Octet(more)];
        nlast := nlast + 1;
      }
    }

    /** The call of the mode function on the block. */
    method EncryptLast(maxBlk: nat) returns (y: Block)
      requires encType != Cleared
      ensures y == Run(ModeOf(encType), k, iv, lastBlock)
    {
      hide Run, RunValue;
      var z, v := Blocks(ModeOf(encType), k, iv, lastBlock, maxBlk);
      y := z;
    }

    method FinishEmpty() returns (status: int, out: seq<bv8>)
      requires Valid() && nlast == 0 && !PadsOutput(encType) && !KeepLast(encType)
      modifies this`encType
      ensures FinalResult(old(encType), k, iv0, data, emitted, status, out) && encType == Cleared
    {
      hide Run, RunValue, KeepLast;
      assert data[..|data|] == data;
      CryptWhole(ModeOf(encType), k, iv0, data);
      encType := Cleared;
      return 0, [];
    }

    /** Combine the waiting octets with the next key block. */
    method FinishStream(maxBlk: nat) returns (status: int, out: seq<bv8>)
      requires Valid() && 0 < nlast < 16 && Streams(ModeOf(encType))
      modifies this`encType, this`lastBlock
      ensures FinalResult(old(encType), k, iv0, data, emitted, status, out) && encType == Cleared
    {
      hide Run, RunValue, KeepLast, XorOctet;
      ghost var m, b, w := ModeOf(encType), lastBlock, |data| - nlast;
      RunOne(m, k, iv, b);
      lastBlock := EncryptLast(maxBlk);
      out := lastBlock[..nlast];
      assert |data| / 16 * 16 == w;
      RunShorter(m, k, iv0, data);
      assert out == Xor(data[w..], k.enc(iv)[..nlast]);
      encType := Cleared;
      status := nlast;
    }

    /** Decrypt the block held back and take the padding off. */
    method FinishStripped(maxBlk: nat) returns (status: int, out: seq<bv8>)
      requires Valid() && nlast == 16 && KeepLast(encType) && !Streams(ModeOf(encType)) && !PadsOutput(encType)
      modifies this`encType, this`lastBlock, this`nlast
      ensures FinalResult(old(encType), k, iv0, data, emitted, status, out)
      ensures status >= 0 ==> encType == Cleared
    {
      hide Run, RunValue, KeepLast;
      ghost var m, w := ModeOf(encType), |data| - 16;
      RunConcat(m, k, iv0, data[..w], lastBlock);
      assert data == data[..w] + lastBlock;
      lastBlock := EncryptLast(maxBlk);
      ghost var y := Run(m, k, iv0, data);
      assert y[|y|-16..] == lastBlock && y[..|y|-16] == emitted;
      status, out := StripLoop();
      if status >= 0 {
        encType := Cleared;
      }
    }

    /** The unpadding loop. */
    method StripLoop() returns (status: int, out: seq<bv8>)
      requires nlast == 16
      modifies this`nlast
      ensures match Strip(lastBlock)
              case Rejected => status == -4 && out == []
              case Text(last) => status == |out| && out == last
    {
      var i := Num(lastBlock[15]);
      ghost var i0 := i;
      if i > 0x16 {
        return -4, [];
      }
      while i > 0 && nlast > 0
        invariant 0 <= i <= i0 && nlast <= 16 && 16 - nlast == i0 - i
        invariant forall j | nlast <= j < 16 :: lastBlock[j] == lastBlock[15]
      {
        nlast := nlast - 1;
        if lastBlock[nlast] != lastBlock[15] {
          assert !LastEqual(lastBlock, if i0 <= 16 then i0 else 16);
          return -4, [];
        }
        i := i - 1;
      }
      out := lastBlock[..nlast];
      status := nlast;
    }
  }

  lemma PadTail(data: seq<bv8>, n: nat)
    requires n < 16 && n <= |data| && (|data| - n) % 16 == 0
    ensures Pad(data) == data[..|data|-n] + (data[|data|-n..] + Fill(16 - n))
  {
    assert |data| % 16 == n;
    hide Octet;
  }
}
