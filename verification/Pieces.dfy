/** Octet strings handed over piece by piece. */
module Pieces {

  function Concat(pieces: seq<seq<bv8>>): seq<bv8> {
    if pieces == [] then [] else Concat(pieces[..|pieces|-1]) + pieces[|pieces|-1]
  }

  lemma {:induction false} ConcatTake(pieces: seq<seq<bv8>>, i: nat)
    requires i < |pieces|
    ensures Concat(pieces[..i+1]) == Concat(pieces[..i]) + pieces[i]
    ensures |Concat(pieces[..i+1])| <= |Concat(pieces)|
    decreases |pieces|
  {
    assert pieces[..i+1][..i] == pieces[..i];
    if i + 1 < |pieces| {
      ConcatTake(pieces[..|pieces|-1], i);
      assert pieces[..|pieces|-1][..i+1] == pieces[..i+1];
      assert pieces[..|pieces|-1][..i] == pieces[..i];
    } else {
      assert pieces[..i+1] == pieces;
    }
  }

  /** x cut into successive pieces of the given sizes and a rest. */
  function Cut(x: seq<bv8>, sizes: seq<nat>): (pieces: seq<seq<bv8>>)
    ensures pieces != []
  {
    if sizes == [] then [x]
    else
      var k := if sizes[0] <= |x| then sizes[0] else |x|;
      [x[..k]] + Cut(x[k..], sizes[1..])
  }

  lemma {:induction false} ConcatCons(a: seq<bv8>, pieces: seq<seq<bv8>>)
    ensures Concat([a] + pieces) == a + Concat(pieces)
  {
    if pieces == [] {
      assert Concat([a]) == Concat([]) + a;
    } else {
      var n := |pieces|;
      ConcatCons(a, pieces[..n-1]);
      assert ([a] + pieces)[..n] == [a] + pieces[..n-1];
      assert a + Concat(pieces[..n-1]) + pieces[n-1] == a + (Concat(pieces[..n-1]) + pieces[n-1]);
    }
  }

  lemma {:induction false} ConcatCut(x: seq<bv8>, sizes: seq<nat>)
    ensures Concat(Cut(x, sizes)) == x
  {
    if sizes == [] {
      ConcatCons(x, []);
    } else {
      var k := if sizes[0] <= |x| then sizes[0] else |x|;
      ConcatCut(x[k..], sizes[1..]);
      ConcatCons(x[..k], Cut(x[k..], sizes[1..]));
    }
  }
}
