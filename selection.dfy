// Block selection and the requested-quantity rules of the end-to-end tests
// (test/e2e/deploy_e2e.rs): the selection test and the multi-block flow take
// the first `quantity` available squares, and the flow deploys to them; the
// separate quantity-validation test clamps a requested quantity to the
// number available and checks the result.

module Selection {
  import opened Accounts
  import Helpers
  import Simulation

  datatype Option<T> = None | Some(value: T)

  /** `iter().copied().take(quantity).collect()`: the first `quantity`
      elements of the pool, or the whole pool when it is shorter; every
      selected block comes from the pool. */
  function TakeFirst(available: seq<nat>, quantity: nat): (r: seq<nat>)
    ensures |r| == if quantity <= |available| then quantity else |available|
    ensures forall k :: 0 <= k < |r| ==> r[k] == available[k]
    ensures forall b :: b in r ==> b in available
  {
    if quantity <= |available| then available[..quantity] else available
  }

  /** A selection taken from a strictly ascending pool is strictly ascending
      and on the board when the pool is. */
  lemma TakeFirstAscending(available: seq<nat>, quantity: nat)
    requires StrictlyAscending(available) && OnBoard(available)
    ensures StrictlyAscending(TakeFirst(available, quantity))
    ensures OnBoard(TakeFirst(available, quantity))
  {
  }

  /** `sort()` leaves a strictly ascending selection unchanged: the only
      non-decreasing list with the same elements, counted with repetition,
      is the selection itself. */
  lemma SortIsIdentity(selected: seq<nat>, sorted: seq<nat>)
    requires StrictlyAscending(selected)
    requires forall k, l :: 0 <= k < l < |sorted| ==> sorted[k] <= sorted[l]
    requires multiset(sorted) == multiset(selected)
    ensures sorted == selected
  {
    AscendingIsDistinct(selected);
    forall k, l | 0 <= k < l < |sorted| ensures sorted[k] < sorted[l] {
      if sorted[k] == sorted[l] {
        RepeatedOccursTwice(sorted, k, l);
        DistinctOccursOnce(selected, sorted[k]);
        assert false;
      }
    }
    forall x ensures x in sorted <==> x in selected {
      assert x in sorted <==> x in multiset(sorted);
      assert x in selected <==> x in multiset(selected);
    }
    AscendingUnique(sorted, selected);
  }

  /** `quantity.min(available_count)`: the smaller of the request and the
      number of available blocks. */
  function ClampQuantity(quantity: nat, availableCount: nat): (r: nat)
    ensures r <= quantity && r <= availableCount
    ensures r == quantity || r == availableCount
  {
    if quantity <= availableCount then quantity else availableCount
  }

  /** For a positive request against a non-empty pool the clamped quantity
      lies between one and the number available, and equals the request
      unless more were requested than are available. */
  lemma ClampQuantityInRange(quantity: nat, availableCount: nat)
    requires 0 < quantity && 0 < availableCount
    ensures 1 <= ClampQuantity(quantity, availableCount) <= availableCount
    ensures ClampQuantity(quantity, availableCount) <= quantity
    ensures ClampQuantity(quantity, availableCount) == quantity <==> quantity <= availableCount
  {
  }

  /** One row of the quantity-validation table: the requested quantity and
      whether the row expects the request to succeed. */
  datatype QuantityCase = QuantityCase(quantity: nat, shouldSucceed: bool)

  /** The table of the quantity-validation test, for `available_count` blocks. */
  function QuantityCases(availableCount: nat): seq<QuantityCase> {
    [QuantityCase(1, true), QuantityCase(3, true), QuantityCase(availableCount, true),
     QuantityCase(availableCount + 5, false), QuantityCase(0, false)]
  }

  /** One pass of the validation loop does not panic. A row expected to succeed
      asserts that the clamped quantity is in `1..available_count`, which holds
      exactly for a positive request against a non-empty pool. The branches of
      a row expected to fail only re-assert the condition that selected them,
      so such a row always passes. */
  function QuantityRowPasses(row: QuantityCase, availableCount: nat): (ok: bool)
    ensures ok <==> !row.shouldSucceed || (0 < row.quantity && 0 < availableCount)
  {
    row.shouldSucceed ==> 0 < ClampQuantity(row.quantity, availableCount) <= availableCount
  }

  /** The validation loop: it stops at the first row whose assertion fails. */
  method ValidateQuantities(cases: seq<QuantityCase>, availableCount: nat) returns (passed: bool)
    ensures passed <==> forall k :: 0 <= k < |cases| ==>
      !cases[k].shouldSucceed || (0 < cases[k].quantity && 0 < availableCount)
  {
    var i := 0;
    while i < |cases|
      invariant 0 <= i <= |cases|
      invariant forall k :: 0 <= k < i ==> QuantityRowPasses(cases[k], availableCount)
    {
      var row := cases[i];
      if row.shouldSucceed {
        var actual := ClampQuantity(row.quantity, availableCount);
        if !(actual > 0 && actual <= availableCount) {
          return false;
        }
      }
      i := i + 1;
    }
    return true;
  }

  /** The test's own table passes for its ten available blocks, and would for
      any non-empty pool; with no block available its "all available blocks"
      row would fail. */
  lemma QuantityTablePasses(availableCount: nat)
    ensures (forall k :: 0 <= k < |QuantityCases(availableCount)| ==>
               QuantityRowPasses(QuantityCases(availableCount)[k], availableCount))
            <==> 0 < availableCount
  {
    assert QuantityRowPasses(QuantityCases(availableCount)[2], availableCount) <==> 0 < availableCount;
  }

  /** The multi-block flow: query the squares below `threshold`, stop when
      fewer than `quantity` are available (no selection is made then, and
      `selected` is empty), otherwise take the first `quantity` of them and
      deploy `amount` to each on a copy of the round. */
  method MultiBlockDeploy(round: Round, threshold: nat, quantity: nat, amount: nat)
    returns (selected: seq<nat>, post: Option<Round>)
    ensures post.Some? <==> quantity <= |Helpers.AvailableBlocks(round, threshold)|
    ensures post.None? ==> selected == []
    ensures post.Some? ==> selected == TakeFirst(Helpers.AvailableBlocks(round, threshold), quantity)
    ensures post.Some? ==>
      && |selected| == quantity
      && (forall k :: 0 <= k < |selected| ==> round.deployed[selected[k]] < threshold)
      && StrictlyAscending(selected)
      && post.value == Simulation.DeployAll(round, selected, amount)
      && Helpers.VerifyDeployment(round, post.value, selected, amount)
      && post.value.totalDeployed - round.totalDeployed == amount * quantity
  {
    var available := Helpers.AvailableBlocks(round, threshold);
    if |available| < quantity {
      selected, post := [], None;
    } else {
      selected := TakeFirst(available, quantity);
      TakeFirstAscending(available, quantity);
      AscendingIsDistinct(selected);
      var deployed := Simulation.ApplyDeploy(round, selected, amount);
      post := Some(deployed);
    }
  }
}
