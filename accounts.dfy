// The on-chain accounts that the board-square logic reads and writes, and
// facts about the lists of square indices ("blocks") that select squares.

module Accounts {

  /** Number of squares on the board (a 5 x 5 grid). */
  const SQUARES: nat := 25

  /** One lamport amount (or one counter) per square: the `[u64; 25]` arrays. */
  type Amounts = s: seq<nat> | |s| == SQUARES witness seq(SQUARES, _ => 0)

  /** The fields of a round account that the board-square logic touches.
      Amounts are unbounded here; the account stores them as `u64`. */
  datatype Round = Round(
    id: nat,
    deployed: Amounts,
    count: Amounts,
    expiresAt: nat,
    motherlode: nat,
    topMinerReward: nat,
    totalDeployed: nat,
    totalVaulted: nat,
    totalWinnings: nat)

  /** The fields of a miner account that the board-square logic touches. */
  datatype Miner = Miner(
    deployed: Amounts,
    cumulative: Amounts,
    checkpointFee: nat,
    checkpointId: nat,
    lastClaimOreAt: nat,
    lastClaimSolAt: nat,
    rewardsOre: nat,
    rewardsSol: nat,
    refinedOre: nat,
    roundId: nat,
    lifetimeRewardsOre: nat,
    lifetimeRewardsSol: nat)

  /** Every listed block names a square of the board. */
  predicate OnBoard(blocks: seq<nat>) {
    forall k :: 0 <= k < |blocks| ==> blocks[k] < SQUARES
  }

  /** The list is in strictly ascending order (hence without repetition). */
  predicate StrictlyAscending(blocks: seq<nat>) {
    forall k, l :: 0 <= k < l < |blocks| ==> blocks[k] < blocks[l]
  }

  /** No block is listed twice. */
  predicate Distinct(blocks: seq<nat>) {
    forall k, l :: 0 <= k < l < |blocks| ==> blocks[k] != blocks[l]
  }

  lemma AscendingIsDistinct(blocks: seq<nat>)
    requires StrictlyAscending(blocks)
    ensures Distinct(blocks)
  {
  }

  /** A strictly ascending list is determined by the set of its elements. */
  lemma {:induction false} AscendingUnique(a: seq<nat>, b: seq<nat>)
    requires StrictlyAscending(a) && StrictlyAscending(b)
    requires forall x :: x in a <==> x in b
    ensures a == b
    decreases |a|
  {
    assert |b| > 0 ==> b[0] in b;
    if a == [] {
      assert b == [];
    } else {
      assert a[0] in b;
      assert b != [];
      assert b[0] in a;
      assert a[0] == b[0];
      forall x
        ensures x in a[1..] <==> x in b[1..]
      {
        if x in a[1..] {
          var k :| 0 <= k < |a[1..]| && a[1..][k] == x;
          assert a[0] < x;
          assert x in b;
          var l :| 0 <= l < |b| && b[l] == x;
          assert l != 0;
          assert b[1..][l - 1] == x;
        }
        if x in b[1..] {
          var k :| 0 <= k < |b[1..]| && b[1..][k] == x;
          assert b[0] < x;
          assert x in a;
          var l :| 0 <= l < |a| && a[l] == x;
          assert l != 0;
          assert a[1..][l - 1] == x;
        }
      }
      AscendingUnique(a[1..], b[1..]);
      assert a == [a[0]] + a[1..];
      assert b == [b[0]] + b[1..];
    }
  }

  /** In a list without repetition every element occurs exactly once. */
  lemma {:induction false} DistinctOccursOnce(blocks: seq<nat>, x: nat)
    requires Distinct(blocks)
    ensures multiset(blocks)[x] == if x in blocks then 1 else 0
  {
    if blocks != [] {
      var rest := blocks[1..];
      assert blocks == [blocks[0]] + rest;
      assert Distinct(rest) by {
        forall k, l | 0 <= k < l < |rest| ensures rest[k] != rest[l] {
          assert rest[k] == blocks[k + 1] && rest[l] == blocks[l + 1];
        }
      }
      DistinctOccursOnce(rest, x);
      if x == blocks[0] {
        assert forall l :: 0 <= l < |rest| ==> rest[l] != x by {
          forall l | 0 <= l < |rest| ensures rest[l] != x {
            assert rest[l] == blocks[l + 1];
          }
        }
      }
    }
  }

  /** A block listed at two positions occurs at least twice. */
  lemma RepeatedOccursTwice(blocks: seq<nat>, k: nat, l: nat)
    requires k < l < |blocks| && blocks[k] == blocks[l]
    ensures multiset(blocks)[blocks[k]] >= 2
  {
    var x := blocks[k];
    assert blocks == blocks[..l] + blocks[l..];
    assert x in blocks[..l];
    assert blocks[l..][0] == x;
    assert x in blocks[l..];
    assert multiset(blocks) == multiset(blocks[..l]) + multiset(blocks[l..]);
  }
}
