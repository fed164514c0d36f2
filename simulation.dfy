// The simulated deploy of the end-to-end tests (test/e2e/deploy_e2e.rs): the
// tests copy a round (or miner) account and apply a deploy to the copy in a
// loop, then check the copy with `verify_deployment` (or
// `verify_miner_state`). The loops are methods over the local copy, each
// proved equal to a function that folds the per-block update over the list.

module Simulation {
  import opened Accounts
  import Helpers

  /** One pass of the round update loop: square `block` gains `amount` and
      one deployer, and so does the round total. */
  function DeployOne(round: Round, block: nat, amount: nat): Round
    requires block < SQUARES
  {
    round.(deployed := round.deployed[block := round.deployed[block] + amount],
           count := round.count[block := round.count[block] + 1],
           totalDeployed := round.totalDeployed + amount)
  }

  /** The round after the update loop has visited every listed block, in order. */
  function DeployAll(round: Round, blocks: seq<nat>, amount: nat): Round
    requires OnBoard(blocks)
  {
    if blocks == [] then round
    else DeployOne(DeployAll(round, blocks[..|blocks| - 1], amount), blocks[|blocks| - 1], amount)
  }

  /** Appending a block adds one occurrence of it and of nothing else. */
  lemma CountAppend(init: seq<nat>, last: nat, x: nat)
    ensures multiset(init + [last])[x] == multiset(init)[x] + if x == last then 1 else 0
  {
    assert multiset(init + [last]) == multiset(init) + multiset{last};
  }

  /** One pass changes square `block` only. */
  lemma DeployOneAt(round: Round, block: nat, amount: nat, i: nat)
    requires block < SQUARES && i < SQUARES
    ensures DeployOne(round, block, amount).deployed[i] == round.deployed[i] + if i == block then amount else 0
    ensures DeployOne(round, block, amount).count[i] == round.count[i] + if i == block then 1 else 0
  {
  }

  lemma MulSucc(a: nat, m: nat)
    ensures a * (m + 1) == a * m + a
  {
  }

  /** Square `i` after the round update: it gains `amount` and one deployer
      per time it is listed. */
  lemma {:induction false} DeployAllAt(round: Round, blocks: seq<nat>, amount: nat, i: nat)
    requires OnBoard(blocks) && i < SQUARES
    ensures DeployAll(round, blocks, amount).deployed[i] == round.deployed[i] + amount * multiset(blocks)[i]
    ensures DeployAll(round, blocks, amount).count[i] == round.count[i] + multiset(blocks)[i]
  {
    if blocks != [] {
      var n := |blocks| - 1;
      var init: seq<nat>, last: nat := blocks[..n], blocks[n];
      assert blocks == init + [last];
      CountAppend(init, last, i);
      DeployAllAt(round, init, amount, i);
      DeployOneAt(DeployAll(round, init, amount), last, amount, i);
      MulSucc(amount, multiset(init)[i]);
    }
  }

  /** The round total after the update gains `amount` per listed block, and
      no field besides the per-square arrays and the total changes. */
  lemma {:induction false} DeployAllTotal(round: Round, blocks: seq<nat>, amount: nat)
    requires OnBoard(blocks)
    ensures DeployAll(round, blocks, amount).totalDeployed == round.totalDeployed + amount * |blocks|
    ensures DeployAll(round, blocks, amount) ==
      round.(deployed := DeployAll(round, blocks, amount).deployed,
             count := DeployAll(round, blocks, amount).count,
             totalDeployed := DeployAll(round, blocks, amount).totalDeployed)
  {
    if blocks != [] {
      var n := |blocks| - 1;
      DeployAllTotal(round, blocks[..n], amount);
      MulSucc(amount, n);
    }
  }

  /** The effect of the round update on every square and on the total. */
  lemma DeployAllEffect(round: Round, blocks: seq<nat>, amount: nat)
    requires OnBoard(blocks)
    ensures forall i: nat :: i < SQUARES ==>
      DeployAll(round, blocks, amount).deployed[i] == round.deployed[i] + amount * multiset(blocks)[i]
    ensures forall i: nat :: i < SQUARES ==>
      DeployAll(round, blocks, amount).count[i] == round.count[i] + multiset(blocks)[i]
    ensures DeployAll(round, blocks, amount).totalDeployed == round.totalDeployed + amount * |blocks|
  {
    forall i: nat | i < SQUARES
      ensures DeployAll(round, blocks, amount).deployed[i] == round.deployed[i] + amount * multiset(blocks)[i]
      ensures DeployAll(round, blocks, amount).count[i] == round.count[i] + multiset(blocks)[i]
    {
      DeployAllAt(round, blocks, amount, i);
    }
    DeployAllTotal(round, blocks, amount);
  }

  /** A square that is not listed keeps its amount and deployer count. */
  lemma UnlistedUnchanged(round: Round, blocks: seq<nat>, amount: nat, i: nat)
    requires OnBoard(blocks) && i < SQUARES && i !in blocks
    ensures DeployAll(round, blocks, amount).deployed[i] == round.deployed[i]
    ensures DeployAll(round, blocks, amount).count[i] == round.count[i]
  {
    DeployAllEffect(round, blocks, amount);
  }

  /** `verify_deployment` accepts the simulated deploy exactly when no block
      is listed twice: a repeated block gains two deployers, not one. */
  lemma DeployVerifiesIffDistinct(round: Round, blocks: seq<nat>, amount: nat)
    requires OnBoard(blocks)
    ensures Helpers.VerifyDeployment(round, DeployAll(round, blocks, amount), blocks, amount)
            <==> Distinct(blocks)
  {
    var post := DeployAll(round, blocks, amount);
    if Distinct(blocks) {
      forall k | 0 <= k < |blocks|
        ensures post.deployed[blocks[k]] == round.deployed[blocks[k]] + amount
        ensures post.count[blocks[k]] == round.count[blocks[k]] + 1
      {
        DeployAllAt(round, blocks, amount, blocks[k]);
        DistinctOccursOnce(blocks, blocks[k]);
      }
    } else {
      var k, l :| 0 <= k < l < |blocks| && blocks[k] == blocks[l];
      DeployAllAt(round, blocks, amount, blocks[k]);
      RepeatedOccursTwice(blocks, k, l);
      assert post.count[blocks[k]] != round.count[blocks[k]] + 1;
    }
  }

  /** The round update loop of the deploy tests, applied to a copy of the round. */
  method ApplyDeploy(round: Round, blocks: seq<nat>, amount: nat) returns (post: Round)
    requires OnBoard(blocks)
    ensures post == DeployAll(round, blocks, amount)
    ensures post.totalDeployed == round.totalDeployed + amount * |blocks|
    ensures Distinct(blocks) ==> Helpers.VerifyDeployment(round, post, blocks, amount)
  {
    post := round;
    for i := 0 to |blocks|
      invariant post == DeployAll(round, blocks[..i], amount)
    {
      var block := blocks[i];
      post := post.(deployed := post.deployed[block := post.deployed[block] + amount]);
      post := post.(count := post.count[block := post.count[block] + 1]);
      post := post.(totalDeployed := post.totalDeployed + amount);
      assert blocks[..i + 1][..i] == blocks[..i];
    }
    assert blocks[..|blocks|] == blocks;
    DeployAllTotal(round, blocks, amount);
    DeployVerifiesIffDistinct(round, blocks, amount);
  }

  /** One pass of the miner update loop: the miner's stake on `block` becomes `amount`. */
  function MinerDeployOne(miner: Miner, block: nat, amount: nat): Miner
    requires block < SQUARES
  {
    miner.(deployed := miner.deployed[block := amount])
  }

  /** The miner after the update loop has visited every listed block, in order. */
  function MinerDeployAll(miner: Miner, blocks: seq<nat>, amount: nat): Miner
    requires OnBoard(blocks)
  {
    if blocks == [] then miner
    else MinerDeployOne(MinerDeployAll(miner, blocks[..|blocks| - 1], amount), blocks[|blocks| - 1], amount)
  }

  /** The effect of the miner update: listed squares hold `amount`, the other
      squares and every other field are as before. */
  lemma {:induction false} MinerDeployAllEffect(miner: Miner, blocks: seq<nat>, amount: nat)
    requires OnBoard(blocks)
    ensures forall i :: 0 <= i < SQUARES ==>
      MinerDeployAll(miner, blocks, amount).deployed[i] == if i in blocks then amount else miner.deployed[i]
    ensures MinerDeployAll(miner, blocks, amount) ==
      miner.(deployed := MinerDeployAll(miner, blocks, amount).deployed)
  {
    if blocks != [] {
      var n := |blocks| - 1;
      var init: seq<nat>, last: nat := blocks[..n], blocks[n];
      assert blocks == init + [last];
      MinerDeployAllEffect(miner, init, amount);
      forall i | 0 <= i < SQUARES
        ensures MinerDeployAll(miner, blocks, amount).deployed[i] == if i in blocks then amount else miner.deployed[i]
      {
        assert i in blocks <==> i in init || i == last;
      }
    }
  }

  /** `verify_miner_state` accepts the simulated miner deploy exactly when the
      miner was already on the expected round: the update does not touch
      `round_id`, and a block listed twice still holds `amount`. */
  lemma MinerDeployVerifies(miner: Miner, blocks: seq<nat>, amount: nat, roundId: nat)
    requires OnBoard(blocks)
    ensures Helpers.VerifyMinerState(MinerDeployAll(miner, blocks, amount), blocks, amount, roundId)
            <==> miner.roundId == roundId
  {
    MinerDeployAllEffect(miner, blocks, amount);
    var post := MinerDeployAll(miner, blocks, amount);
    forall k | 0 <= k < |blocks| ensures post.deployed[blocks[k]] == amount {
      assert blocks[k] in blocks;
    }
  }

  /** The miner update loop of the miner-state test, applied to a copy of the miner. */
  method ApplyMinerDeploy(miner: Miner, blocks: seq<nat>, amount: nat) returns (post: Miner)
    requires OnBoard(blocks)
    ensures post == MinerDeployAll(miner, blocks, amount)
    ensures Helpers.VerifyMinerState(post, blocks, amount, miner.roundId)
  {
    post := miner;
    for i := 0 to |blocks|
      invariant post == MinerDeployAll(miner, blocks[..i], amount)
    {
      var block := blocks[i];
      post := post.(deployed := post.deployed[block := amount]);
      assert blocks[..i + 1][..i] == blocks[..i];
    }
    assert blocks[..|blocks|] == blocks;
    MinerDeployVerifies(miner, blocks, amount, miner.roundId);
  }
}
