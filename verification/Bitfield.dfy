/** Piece bitfields, high bit first: what HAVE messages make of them, how their bits are counted and compared. */
module Bitfield {
  import opened Bits

  predicate Has(bf: seq<byte>, i: nat)
    requires i < 8 * |bf|
  {
    Bit(bf[i / 8], 7 - i % 8)
  }

  /** The pieces a bitfield stands for. */
  ghost function Pieces(bf: seq<byte>): set<int>
  {
    set i: int | 0 <= i < 8 * |bf| && Has(bf, i)
  }

  // ----- HAVE

  function Announce(bf: seq<byte>, i: nat): (r: seq<byte>)
    requires i < 8 * |bf|
    ensures |r| == |bf|
  {
    bf[i / 8 := SetBit(bf[i / 8], 7 - i % 8)]
  }

  lemma {:induction false} AnnounceAdds(bf: seq<byte>, i: nat)
    requires i < 8 * |bf|
    ensures Pieces(Announce(bf, i)) == Pieces(bf) + {i}
  {
    forall j | 0 <= j < 8 * |bf| ensures Has(Announce(bf, i), j) <==> Has(bf, j) || j == i {
    }
  }

  function AnnounceAll(bf: seq<byte>, ann: seq<nat>): (r: seq<byte>)
    requires forall k | 0 <= k < |ann| :: ann[k] < 8 * |bf|
    ensures |r| == |bf|
  {
    if |ann| == 0 then bf else Announce(AnnounceAll(bf, ann[..|ann| - 1]), ann[|ann| - 1])
  }

  /** After any run of HAVE messages the bitfield stands for the pieces it had and those announced. */
  lemma {:induction false} AnnounceAllAdds(bf: seq<byte>, ann: seq<nat>)
    requires forall k | 0 <= k < |ann| :: ann[k] < 8 * |bf|
    ensures Pieces(AnnounceAll(bf, ann)) == Pieces(bf) + set i: int | i in ann
  {
    if |ann| > 0 {
      var n := |ann| - 1;
      AnnounceAllAdds(bf, ann[..n]);
      AnnounceAdds(AnnounceAll(bf, ann[..n]), ann[n]);
      assert ann == ann[..n] + [ann[n]];
    }
  }

  // ----- counting

  function Ones(b: nat): nat
  {
    if b == 0 then 0 else b % 2 + Ones(b / 2)
  }

  /** b & (b - 1) clears one set bit. */
  lemma {:induction false} ClearsOne(b: nat)
    requires b > 0
    ensures And(b, b - 1) < b && Ones(b) == Ones(And(b, b - 1)) + 1
  {
    if b % 2 == 1 {
      assert (b - 1) / 2 == b / 2;
      AndSelf(b / 2);
    } else {
      assert (b - 1) / 2 == b / 2 - 1 && (b - 1) % 2 == 1;
      ClearsOne(b / 2);
    }
  }

  lemma {:induction false} AndSelf(b: nat)
    ensures And(b, b) == b
  {
    if b > 0 {
      AndSelf(b / 2);
    }
  }

  method CountCharBits(b: byte) returns (count: nat)
    ensures count == Ones(b)
  {
    var rest: byte := b;
    count := 0;
    while rest != 0
      invariant count + Ones(rest) == Ones(b)
      decreases rest
    {
      ClearsOne(rest);
      rest := And(rest, rest - 1);
      count := count + 1;
    }
  }

  function BitCount(bf: seq<byte>): nat
  {
    if |bf| == 0 then 0 else BitCount(bf[..|bf| - 1]) + Ones(bf[|bf| - 1])
  }

  /** The positions of b's set bits among its lowest k, with bit 0 at position top and higher bits to its left. */
  ghost function Positions(b: nat, top: int, k: nat): set<int>
    decreases b, k
  {
    if k == 0 then {} else Positions(b / 2, top - 1, k - 1) + if b % 2 == 1 then {top} else {}
  }

  lemma {:induction false} PositionsAre(b: nat, top: int, k: nat, x: int)
    ensures x in Positions(b, top, k) <==> top - k < x <= top && Bit(b, top - x)
    decreases b, k
  {
    if k > 0 {
      PositionsAre(b / 2, top - 1, k - 1, x);
    }
  }

  lemma {:induction false} PositionsSize(b: nat, top: int, k: nat)
    requires b < Pow2(k)
    ensures |Positions(b, top, k)| == Ones(b)
    decreases b, k
  {
    if k > 0 {
      PositionsSize(b / 2, top - 1, k - 1);
      PositionsAre(b / 2, top - 1, k - 1, top);
    }
  }

  ghost function BytePieces(b: byte, top: int): (s: set<int>)
    ensures |s| == Ones(b)
  {
    ByteBound(b);
    PositionsSize(b, top, 8);
    Positions(b, top, 8)
  }

  lemma {:induction false} BytePiecesAre(b: byte, top: int, x: int)
    ensures x in BytePieces(b, top) <==> top - 8 < x <= top && Bit(b, top - x)
  {
    PositionsAre(b, top, 8, x);
  }

  /** The pieces of the last byte. */
  ghost function LastPieces(bf: seq<byte>): set<int>
    requires |bf| > 0
  {
    BytePieces(bf[|bf| - 1], 8 * |bf| - 1)
  }

  lemma {:induction false} ByteBound(b: byte)
    ensures b < Pow2(8)
  {
    assert Pow2(8) == 256;
  }

  lemma {:induction false} HasInLast(bf: seq<byte>, x: nat, k: nat)
    requires |bf| > 0 && k < 8 && x == 8 * |bf| - 1 - k
    ensures Has(bf, x) <==> Bit(bf[|bf| - 1], k)
  {
    DivModUnique(x, 8, |bf| - 1, 7 - k);
    assert 7 - x % 8 == k;
  }

  lemma {:induction false} LastAre(bf: seq<byte>, x: int)
    requires |bf| > 0
    ensures x in LastPieces(bf) <==> 8 * (|bf| - 1) <= x < 8 * |bf| && Has(bf, x)
  {
    BytePiecesAre(bf[|bf| - 1], 8 * |bf| - 1, x);
    if 8 * (|bf| - 1) <= x < 8 * |bf| {
      HasInLast(bf, x, 8 * |bf| - 1 - x);
    }
  }

  lemma {:induction false} LastSize(bf: seq<byte>)
    requires |bf| > 0
    ensures |LastPieces(bf)| == Ones(bf[|bf| - 1])
  {
  }

  lemma {:induction false} PiecesSplit(bf: seq<byte>)
    requires |bf| > 0
    ensures Pieces(bf) == Pieces(bf[..|bf| - 1]) + LastPieces(bf) && Pieces(bf[..|bf| - 1]) !! LastPieces(bf)
  {
    var n := |bf| - 1;
    forall x: int ensures x in LastPieces(bf) <==> 8 * n <= x < 8 * n + 8 && Has(bf, x) {
      LastAre(bf, x);
    }
    forall x: nat | x < 8 * n ensures Has(bf[..n], x) == Has(bf, x) {
    }
  }

  lemma {:induction false} SplitSize(a: set<int>, b: set<int>, c: set<int>)
    requires a == b + c && b !! c
    ensures |a| == |b| + |c|
  {
  }

  /** The bits counted are as many as the pieces. */
  lemma {:induction false} BitCountIsSize(bf: seq<byte>)
    ensures BitCount(bf) == |Pieces(bf)|
  {
    if |bf| > 0 {
      var n := |bf| - 1;
      BitCountIsSize(bf[..n]);
      PiecesSplit(bf);
      LastSize(bf);
      SplitSize(Pieces(bf), Pieces(bf[..n]), LastPieces(bf));
    } else {
      assert Pieces(bf) == {};
    }
  }

  method CountBitfieldBits(bitfield: seq<byte>, len: nat) returns (count: nat)
    requires len <= |bitfield|
    ensures count == |Pieces(bitfield[..len])|
  {
    count := 0;
    for x := 0 to len
      invariant count == BitCount(bitfield[..x])
    {
      var bits := CountCharBits(bitfield[x]);
      count := count + bits;
      assert bitfield[..x + 1][..x] == bitfield[..x];
    }
    BitCountIsSize(bitfield[..len]);
  }

  // ----- comparing

  /** Every set bit of p is set in o. */
  ghost predicate Covers(o: nat, p: nat)
  {
    forall k: nat :: Bit(p, k) ==> Bit(o, k)
  }

  lemma {:induction false} CommonIsAllIff(p: nat, o: nat)
    ensures And(p, o) == p <==> Covers(o, p)
  {
    if Covers(o, p) {
      CoveredIsCommon(p, o);
    }
    forall k: nat ensures Bit(And(p, o), k) <==> Bit(p, k) && Bit(o, k) {
      BitOfAnd(p, o, k);
    }
  }

  lemma {:induction false} CoveredIsCommon(p: nat, o: nat)
    requires Covers(o, p)
    ensures And(p, o) == p
  {
    if p > 0 {
      forall k: nat | Bit(p / 2, k) ensures Bit(o / 2, k) {
        assert Bit(p, k + 1) && Bit(o, k + 1);
      }
      CoveredIsCommon(p / 2, o / 2);
      assert Bit(p, 0) ==> Bit(o, 0);
      var k := HasBit(p);
      ZeroHasNoBits(k);
    }
  }

  lemma {:induction false} HasBit(p: nat) returns (k: nat)
    requires p > 0
    ensures Bit(p, k)
  {
    if p % 2 == 1 {
      k := 0;
    } else {
      k := HasBit(p / 2);
      k := k + 1;
    }
  }

  lemma {:induction false} HighBitsClear(b: byte, k: nat)
    requires k >= 8
    ensures !Bit(b, k)
  {
    ByteBound(b);
    BoundedBits(b, 8, k);
  }

  lemma {:induction false} BoundedBits(b: nat, n: nat, k: nat)
    requires b < Pow2(n) && k >= n
    ensures !Bit(b, k)
  {
    if n > 0 {
      BoundedBits(b / 2, n - 1, k - 1);
    } else {
      ZeroHasNoBits(k);
    }
  }

  /** A byte has a bit the other lacks exactly if one of its eight pieces is missing there. */
  lemma {:induction false} ByteCoveredIff(peer: seq<byte>, own: seq<byte>, x: nat)
    requires x < |peer| && x < |own|
    ensures And(peer[x], own[x]) == peer[x] <==> forall i | 8 * x <= i < 8 * x + 8 && Has(peer, i) :: Has(own, i)
  {
    CommonIsAllIff(peer[x], own[x]);
    if And(peer[x], own[x]) == peer[x] {
      forall i | 8 * x <= i < 8 * x + 8 && Has(peer, i) ensures Has(own, i) {
        assert i / 8 == x;
      }
    }
    if forall i | 8 * x <= i < 8 * x + 8 && Has(peer, i) :: Has(own, i) {
      forall k: nat | Bit(peer[x], k) ensures Bit(own[x], k) {
        if k >= 8 {
          HighBitsClear(peer[x], k);
        } else {
          var i := 8 * x + (7 - k);
          assert i / 8 == x && 7 - i % 8 == k;
          assert Has(peer, i);
          assert Has(own, i);
        }
      }
    }
  }

  /** 1 if the peer has a piece, among those of the first n bytes, that we do not have, and 0 if not. */
  method PeerContainsUndownloadedPieces(peer: seq<byte>, own: seq<byte>, n: nat) returns (r: int)
    requires n <= |peer| && n <= |own|
    ensures r == if Pieces(peer[..n]) <= Pieces(own[..n]) then 0 else 1
  {
    var x := 0;
    while x < n
      invariant x <= n && forall i: nat | i < 8 * x && Has(peer, i) :: Has(own, i)
    {
      ByteCoveredIff(peer, own, x);
      var common := And(peer[x], own[x]);
      if peer[x] - common != 0 {
        ghost var i :| 8 * x <= i < 8 * x + 8 && Has(peer, i) && !Has(own, i);
        MissingPiece(peer, own, n, i);
        return 1;
      }
      x := x + 1;
    }
    forall i | i in Pieces(peer[..n]) ensures i in Pieces(own[..n]) {
      assert Has(peer[..n], i) == Has(peer, i) && Has(own[..n], i) == Has(own, i);
    }
    r := 0;
  }

  lemma {:induction false} MissingPiece(peer: seq<byte>, own: seq<byte>, n: nat, i: nat)
    requires n <= |peer| && n <= |own| && i < 8 * n && Has(peer, i) && !Has(own, i)
    ensures !(Pieces(peer[..n]) <= Pieces(own[..n]))
  {
    assert Has(peer[..n], i) && !Has(own[..n], i);
    assert i in Pieces(peer[..n]) && i !in Pieces(own[..n]);
  }

  /** The answer that the comment on the function asks for: whether a piece below n is missing. */
  ghost predicate MissingBelow(peer: seq<byte>, own: seq<byte>, n: nat)
    requires n <= 8 * |peer| && n <= 8 * |own|
  {
    exists i: nat | i < n :: Has(peer, i) && !Has(own, i)
  }

  /** Comparing n bytes gives the answer for n bits exactly if a piece below n is missing or none from n to 8 * n is. */
  lemma {:induction false} BytesForBitsIff(peer: seq<byte>, own: seq<byte>, n: nat)
    requires n <= |peer| && n <= |own|
    ensures (Pieces(peer[..n]) <= Pieces(own[..n]) <==> !MissingBelow(peer, own, n)) <==>
            MissingBelow(peer, own, n) || forall i: nat | n <= i < 8 * n && Has(peer, i) :: Has(own, i)
  {
    assert Pieces(peer[..n]) <= Pieces(own[..n]) <==> !MissingBelow(peer, own, 8 * n) by {
      forall i: nat | i < 8 * n ensures Has(peer[..n], i) == Has(peer, i) && Has(own[..n], i) == Has(own, i) {
      }
      if i: nat :| i < 8 * n && Has(peer, i) && !Has(own, i) {
        MissingPiece(peer, own, n, i);
      }
    }
  }

  /** Asked for one bit, the function reports the eighth piece. */
  lemma {:induction false} OneBitExample()
    ensures !MissingBelow([1], [0], 1) && !(Pieces([1][..1]) <= Pieces([0][..1]))
  {
    assert [1][..1] == [1] && [0][..1] == [0];
    assert !Has([1], 0) by {
      BoundedBits(1, 1, 7);
    }
    assert Has([1], 7);
    ZeroHasNoBits(0);
    MissingPiece([1], [0], 1, 7);
  }
}
