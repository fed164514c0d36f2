// The board-square helpers shared by the integration tests
// (test/src/helpers.rs): the available-square query, the squares selection
// built for a deploy instruction, and the post-deploy checks.

module Helpers {
  import opened Accounts

  /** Indices `from..|deployed|` whose deployed amount is strictly below
      `threshold`, in order: the `enumerate`/`filter`/`map` pipeline. */
  function AvailableFrom(deployed: seq<nat>, threshold: nat, from: nat): (r: seq<nat>)
    requires from <= |deployed|
    ensures forall k :: 0 <= k < |r| ==> from <= r[k] < |deployed| && deployed[r[k]] < threshold
    ensures forall i :: from <= i < |deployed| && deployed[i] < threshold ==> i in r
    ensures StrictlyAscending(r)
    ensures |r| <= |deployed| - from
    decreases |deployed| - from
  {
    if from == |deployed| then []
    else if deployed[from] < threshold then [from] + AvailableFrom(deployed, threshold, from + 1)
    else AvailableFrom(deployed, threshold, from + 1)
  }

  /** `get_available_blocks`, with the threshold already in lamports:
      the squares whose deployed amount is strictly below it. */
  function AvailableBlocks(round: Round, threshold: nat): (r: seq<nat>)
    ensures OnBoard(r) && StrictlyAscending(r) && |r| <= SQUARES
    ensures forall i :: 0 <= i < SQUARES ==> (i in r <==> round.deployed[i] < threshold)
  {
    AvailableFrom(round.deployed, threshold, 0)
  }

  /** A square whose deployed amount equals the threshold is not available. */
  lemma AtThresholdExcluded(round: Round, threshold: nat, i: nat)
    requires i < SQUARES && round.deployed[i] == threshold
    ensures i !in AvailableBlocks(round, threshold)
  {
  }

  /** Raising the threshold never removes a square from the result. */
  lemma AvailableMonotone(round: Round, low: nat, high: nat)
    requires low <= high
    ensures forall b :: b in AvailableBlocks(round, low) ==> b in AvailableBlocks(round, high)
  {
    var lowSet, highSet := AvailableBlocks(round, low), AvailableBlocks(round, high);
    forall b | b in lowSet ensures b in highSet {
      var k :| 0 <= k < |lowSet| && lowSet[k] == b;
    }
  }

  /** The selection of squares named by `blocks`, ignoring indices off the board. */
  function SquaresOf(blocks: seq<nat>): seq<bool> {
    seq(SQUARES, i => i in blocks)
  }

  /** Two block lists give the same selection exactly when they name the same
      squares of the board: order, repetition and off-board indices do not matter. */
  lemma SquaresOfSameOnBoard(a: seq<nat>, b: seq<nat>)
    ensures SquaresOf(a) == SquaresOf(b) <==>
            forall i :: 0 <= i < SQUARES ==> (i in a <==> i in b)
  {
    if SquaresOf(a) == SquaresOf(b) {
      forall i | 0 <= i < SQUARES ensures i in a <==> i in b {
        assert SquaresOf(a)[i] == SquaresOf(b)[i];
      }
    }
  }

  /** The squares loop of `create_deploy_instruction`: a `[bool; 25]` array
      with square `block` marked for every listed `block < 25`. */
  method BuildSquares(blocks: seq<nat>) returns (squares: array<bool>)
    ensures fresh(squares)
    ensures squares.Length == SQUARES
    ensures forall i :: 0 <= i < SQUARES ==> (squares[i] <==> i in blocks)
    ensures squares[..] == SquaresOf(blocks)
  {
    squares := new bool[SQUARES](_ => false);
    for k := 0 to |blocks|
      invariant squares.Length == SQUARES
      invariant forall i :: 0 <= i < SQUARES ==> (squares[i] <==> i in blocks[..k])
    {
      var block := blocks[k];
      if block < SQUARES {
        squares[block] := true;
      }
      assert blocks[..k + 1] == blocks[..k] + [block];
    }
    assert blocks[..|blocks|] == blocks;
  }

  /** `verify_deployment` passes: every listed block is on the board (an index
      off the board panics) and gained exactly `amount` and one deployer. The
      check depends only on which squares are listed, not on their order or
      repetition. */
  predicate VerifyDeployment(oldRound: Round, newRound: Round, blocks: seq<nat>, amount: nat): (ok: bool)
    ensures ok <==> forall b :: b in blocks ==>
      b < SQUARES &&
      newRound.deployed[b] == oldRound.deployed[b] + amount &&
      newRound.count[b] == oldRound.count[b] + 1
  {
    var passes := forall k :: 0 <= k < |blocks| ==>
      blocks[k] < SQUARES &&
      newRound.deployed[blocks[k]] == oldRound.deployed[blocks[k]] + amount &&
      newRound.count[blocks[k]] == oldRound.count[blocks[k]] + 1;
    assert passes <==> forall b :: b in blocks ==>
      b < SQUARES &&
      newRound.deployed[b] == oldRound.deployed[b] + amount &&
      newRound.count[b] == oldRound.count[b] + 1
    by {
      assert forall k :: 0 <= k < |blocks| ==> blocks[k] in blocks;
      forall b | passes && b in blocks
        ensures b < SQUARES && newRound.deployed[b] == oldRound.deployed[b] + amount
        ensures newRound.count[b] == oldRound.count[b] + 1
      {
        var k :| 0 <= k < |blocks| && blocks[k] == b;
      }
    }
    passes
  }

  /** `verify_miner_state` passes: the miner is on `roundId` and holds exactly
      `amount` on every listed block (an index off the board panics). The check
      depends only on which squares are listed. */
  predicate VerifyMinerState(miner: Miner, blocks: seq<nat>, amount: nat, roundId: nat): (ok: bool)
    ensures ok <==> (miner.roundId == roundId &&
                     forall b :: b in blocks ==> b < SQUARES && miner.deployed[b] == amount)
  {
    var passes := miner.roundId == roundId &&
      forall k :: 0 <= k < |blocks| ==> blocks[k] < SQUARES && miner.deployed[blocks[k]] == amount;
    assert passes <==> (miner.roundId == roundId &&
                        forall b :: b in blocks ==> b < SQUARES && miner.deployed[b] == amount)
    by {
      assert forall k :: 0 <= k < |blocks| ==> blocks[k] in blocks;
      forall b | passes && b in blocks ensures b < SQUARES && miner.deployed[b] == amount {
        var k :| 0 <= k < |blocks| && blocks[k] == b;
      }
    }
    passes
  }
}
