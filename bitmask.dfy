// The square bitmask of the block-bitmask encoding tests
// (test/e2e/deploy_e2e.rs and test/tests/deploy_e2e.rs): a block list is
// marked in a `[bool; 25]` array, packed into bits 0..24 of a `u32`, and
// decoded back into an ascending list of indices.
//
// The bit-vector operations live in the non-recursive Bit and SetBit only;
// the recursive definitions and proofs go through them.

module Bitmask {
  import opened Accounts
  import Helpers

  /** Bit `b` of the mask is set, for a 5-bit shift amount `b`. */
  predicate BitAt(mask: bv32, b: bv5) {
    mask & ((1 as bv32) << b) != 0
  }

  /** `mask & (1 << i) != 0`: bit `i` of the mask is set. The shift amount
      is taken as a 5-bit value, which is the index itself for `i < 32`. */
  predicate Bit(mask: bv32, i: nat)
    requires i < 32
  {
    BitAt(mask, i as bv5)
  }

  /** `mask | (1 << i)`: the mask with bit `i` set. */
  function SetBit(mask: bv32, i: nat): bv32
    requires i < 32
  {
    mask | ((1 as bv32) << (i as bv5))
  }

  lemma SetBitAtBits(mask: bv32, k: bv5, j: bv5)
    ensures BitAt(mask | ((1 as bv32) << k), j) <==> BitAt(mask, j) || j == k
  {
  }

  /** The 5-bit shift amount of an index below 32 converts back to the index. */
  lemma ShiftAmount(i: nat)
    requires i < 32
    ensures (i as bv5) as nat == i
  {
  }

  /** Distinct indices below 32 shift by distinct amounts. */
  lemma ShiftAmountInjective(j: nat, k: nat)
    requires j < 32 && k < 32
    ensures (j as bv5) == (k as bv5) <==> j == k
  {
    ShiftAmount(j);
    ShiftAmount(k);
  }

  lemma NoBitOfZero(j: nat)
    requires j < 32
    ensures !Bit(0, j)
  {
  }

  /** Setting bit `k` sets bit `k` and leaves every other bit as it was. */
  lemma SetBitBits(mask: bv32, k: nat, j: nat)
    requires k < 32 && j < 32
    ensures Bit(SetBit(mask, k), j) <==> Bit(mask, j) || j == k
  {
    SetBitAtBits(mask, k as bv5, j as bv5);
    ShiftAmountInjective(j, k);
  }

  /** The mask after the encoding loop has visited squares `0..n`. */
  function MaskUpTo(squares: seq<bool>, n: nat): bv32
    requires n <= |squares| && n < 32
  {
    if n == 0 then 0
    else if squares[n - 1] then SetBit(MaskUpTo(squares, n - 1), n - 1)
    else MaskUpTo(squares, n - 1)
  }

  /** The `u32` mask of a `[bool; 25]` selection. */
  function MaskOf(squares: seq<bool>): bv32
    requires |squares| == SQUARES
  {
    MaskUpTo(squares, SQUARES)
  }

  lemma {:induction false} MaskUpToBits(squares: seq<bool>, n: nat, j: nat)
    requires n <= |squares| && n < 32 && j < 32
    ensures Bit(MaskUpTo(squares, n), j) <==> j < n && squares[j]
  {
    if n == 0 {
      NoBitOfZero(j);
    } else {
      MaskUpToBits(squares, n - 1, j);
      if squares[n - 1] {
        SetBitBits(MaskUpTo(squares, n - 1), n - 1, j);
      }
    }
  }

  /** A mask with no bit set at 25 or above is below `1 << 25`. */
  lemma BelowBoardLimit(mask: bv32)
    requires forall j :: SQUARES <= j < 32 ==> !Bit(mask, j)
    ensures mask < 0x200_0000
  {
    assert !Bit(mask, 25) && !Bit(mask, 26) && !Bit(mask, 27) && !Bit(mask, 28);
    assert !Bit(mask, 29) && !Bit(mask, 30) && !Bit(mask, 31);
  }

  /** Encoding sets bit `i` exactly when square `i` is selected, so only bits
      0..24 can be set and the mask is below `1 << 25`. */
  lemma MaskOfBits(squares: seq<bool>)
    requires |squares| == SQUARES
    ensures forall j :: 0 <= j < 32 ==> (Bit(MaskOf(squares), j) <==> j < SQUARES && squares[j])
    ensures MaskOf(squares) < 0x200_0000
  {
    forall j | 0 <= j < 32
      ensures Bit(MaskOf(squares), j) <==> j < SQUARES && squares[j]
    {
      MaskUpToBits(squares, SQUARES, j);
    }
    BelowBoardLimit(MaskOf(squares));
  }

  /** The indices `0..n` whose bit is set, in ascending order. */
  function DecodeUpTo(mask: bv32, n: nat): (r: seq<nat>)
    requires n <= 32
    ensures forall k :: 0 <= k < |r| ==> r[k] < n && Bit(mask, r[k])
    ensures forall i :: 0 <= i < n && Bit(mask, i) ==> i in r
    ensures StrictlyAscending(r)
  {
    if n == 0 then []
    else if Bit(mask, n - 1) then DecodeUpTo(mask, n - 1) + [n - 1]
    else DecodeUpTo(mask, n - 1)
  }

  /** The block list a mask decodes to: the set bits among 0..24. */
  function Decoded(mask: bv32): seq<nat> {
    DecodeUpTo(mask, SQUARES)
  }

  /** Decoding any selection of squares lists exactly the selected squares,
      in ascending order. */
  lemma DecodeOfMask(squares: seq<bool>)
    requires |squares| == SQUARES
    ensures OnBoard(Decoded(MaskOf(squares))) && StrictlyAscending(Decoded(MaskOf(squares)))
    ensures forall i :: 0 <= i < SQUARES ==> (i in Decoded(MaskOf(squares)) <==> squares[i])
  {
    MaskOfBits(squares);
  }

  /** Round trip: an ascending list of distinct squares survives marking,
      encoding and decoding unchanged. */
  lemma EncodeDecodeRoundTrip(blocks: seq<nat>)
    requires OnBoard(blocks) && StrictlyAscending(blocks)
    ensures Decoded(MaskOf(Helpers.SquaresOf(blocks))) == blocks
  {
    var squares := Helpers.SquaresOf(blocks);
    var decoded := Decoded(MaskOf(squares));
    DecodeOfMask(squares);
    forall x
      ensures x in decoded <==> x in blocks
    {
      if x in decoded {
        var k :| 0 <= k < |decoded| && decoded[k] == x;
      }
      if x in blocks {
        var k :| 0 <= k < |blocks| && blocks[k] == x;
      }
    }
    AscendingUnique(decoded, blocks);
  }

  /** Conversely, only an ascending list of distinct on-board squares survives
      the guarded selection: an unsorted or repeated case list makes the test's
      comparison fail. (An off-board case list panics earlier, in the marking
      loop, and never reaches the comparison.) */
  lemma RoundTripNeedsAscending(blocks: seq<nat>)
    ensures Decoded(MaskOf(Helpers.SquaresOf(blocks))) == blocks ==>
              StrictlyAscending(blocks) && OnBoard(blocks)
  {
    DecodeOfMask(Helpers.SquaresOf(blocks));
  }

  /** The marking loop of the bitmask tests. Unlike the helper's loop it has
      no `< 25` guard: an index off the board would panic. */
  method MarkSquares(blocks: seq<nat>) returns (squares: array<bool>)
    requires OnBoard(blocks)
    ensures fresh(squares)
    ensures squares.Length == SQUARES
    ensures squares[..] == Helpers.SquaresOf(blocks)
  {
    squares := new bool[SQUARES](_ => false);
    for k := 0 to |blocks|
      invariant squares.Length == SQUARES
      invariant forall i :: 0 <= i < SQUARES ==> (squares[i] <==> i in blocks[..k])
    {
      squares[blocks[k]] := true;
      assert blocks[..k + 1] == blocks[..k] + [blocks[k]];
    }
    assert blocks[..|blocks|] == blocks;
  }

  /** The encoding loop: `mask |= 1 << i` for every selected square `i`. */
  method EncodeMask(squares: array<bool>) returns (mask: bv32)
    requires squares.Length == SQUARES
    ensures mask == MaskOf(squares[..])
    ensures forall j :: 0 <= j < 32 ==> (Bit(mask, j) <==> j < SQUARES && squares[j])
    ensures mask < 0x200_0000
  {
    mask := 0;
    for i := 0 to SQUARES
      invariant mask == MaskUpTo(squares[..], i)
    {
      if squares[i] {
        mask := mask | ((1 as bv32) << (i as bv5));
      }
    }
    MaskOfBits(squares[..]);
  }

  /** The decoding loop: push `i` for every `i` in 0..24 whose bit is set. */
  method DecodeMask(mask: bv32) returns (blocks: seq<nat>)
    ensures blocks == Decoded(mask)
    ensures OnBoard(blocks) && StrictlyAscending(blocks)
    ensures forall i :: 0 <= i < SQUARES ==> (i in blocks <==> Bit(mask, i))
  {
    blocks := [];
    for i := 0 to SQUARES
      invariant blocks == DecodeUpTo(mask, i)
    {
      if mask & ((1 as bv32) << (i as bv5)) != 0 {
        blocks := blocks + [i];
      }
    }
  }

  /** One case of the bitmask test: mark, encode and decode. The block list
      comes back, so the test's `assert_eq!` holds, exactly when the case
      list is strictly ascending. */
  method CheckBitmaskCase(blocks: seq<nat>) returns (decoded: seq<nat>)
    requires OnBoard(blocks)
    ensures decoded == blocks <==> StrictlyAscending(blocks)
  {
    var squares := MarkSquares(blocks);
    var mask := EncodeMask(squares);
    decoded := DecodeMask(mask);
    if StrictlyAscending(blocks) {
      EncodeDecodeRoundTrip(blocks);
    } else {
      RoundTripNeedsAscending(blocks);
    }
  }
}
