# ORE deploy board: a Dafny model of the integration-test board logic

The ORE integration-test crate exercises deploys on a 5 x 5 board of 25 squares.
A deploy stakes a lamport amount on a set of squares of the current round.
The crate contains a small body of board-square logic, which this project models and proves properties of:

- `get_available_blocks`: the squares whose deployed amount is strictly below a threshold.
- The `[bool; 25]` squares selection that `create_deploy_instruction` builds from a block list.
- The bitmask test. It marks squares, packs them into bits 0..24 of a `u32` with `mask |= 1 << i`, and decodes them back by pushing every index whose bit is set.
- The simulated deploy that the tests apply to a copy of a round account. Each listed square gets `deployed += amount` and `count += 1`, and `total_deployed += amount`.
- The simulated deploy on a miner account: `deployed[block] = amount`.
- The post-deploy checks `verify_deployment` and `verify_miner_state`.
- Block selection: the selection test and the multi-block flow take the first `quantity` available squares.
- Quantity validation, a separate table test: a requested quantity is clamped with `quantity.min(available_count)` and each row's expectation is checked.

Modules:

- `Accounts` (accounts.dfy) holds the round and miner records and facts about block lists.
- `Helpers` (helpers.dfy) covers test/src/helpers.rs.
- `Bitmask` (bitmask.dfy) covers the bitmask tests of both test files.
- `Simulation` (simulation.dfy) covers the deploy updates.
- `Selection` (selection.dfy) covers block selection, quantity rules and the multi-block flow.

Modelling choices:

- `Round` and `Miner` are `Copy` structs. The tests mutate a copy (`let mut post_round = initial_round;`). So they are datatypes here, and each update loop is a method over a local value.
- Each such method is proved equal to a function that folds the per-block update over the list. The lemmas are stated about that function.
- Amounts are `nat`. The threshold is taken directly in lamports.
- The mask is a `bv32`, as the source's `u32` is.
- Indexing a `[_; 25]` array with an index of 25 or more panics in Rust. The unguarded loops therefore require `OnBoard(blocks)`, and the checkers treat such an index as a failed check.
- `verify_deployment` and `verify_miner_state` are loops of assertions that either all pass or panic. They are predicates that hold exactly when no assertion fails.

## Model

| member | source | states |
|---|---|---|
| Helpers.AvailableFrom | test/src/helpers.rs:115-121 | every returned index is in range and strictly below the threshold; every such index is returned; the result is strictly ascending and no longer than the scanned range |
| Helpers.AvailableBlocks | test/src/helpers.rs:113-122 | a square is returned if and only if its deployed amount is strictly below the threshold; the result is strictly ascending, on the board and has at most 25 entries |
| Helpers.AtThresholdExcluded | test/src/helpers.rs:119 | a square whose deployed amount equals the threshold is not returned (the comparison is strict) |
| Helpers.AvailableMonotone | test/src/helpers.rs:119 | raising the threshold never removes a square from the result |
| Helpers.SquaresOfSameOnBoard | test/src/helpers.rs:132-138 | two block lists give the same squares selection exactly when they name the same on-board squares, so order, repetition and indices of 25 or more do not matter |
| Helpers.BuildSquares | test/src/helpers.rs:132-138 | the loop yields a fresh 25-entry array in which square `i` is marked if and only if `i` is listed; indices of 25 or more are skipped without error |
| Helpers.VerifyDeployment | test/src/helpers.rs:144-173 | the check passes exactly when every listed block is on the board and its new amount and deployer count are the old ones plus `amount` and plus one; only the set of listed squares matters, not order or repetition |
| Helpers.VerifyMinerState | test/src/helpers.rs:176-197 | the check passes exactly when the miner's round id is the expected one and every listed block is on the board and holds exactly `amount` |
| Bitmask.SetBitBits | test/e2e/deploy_e2e.rs:413 | `mask \| (1 << k)` has bit `k` set and every other bit as before |
| Bitmask.MaskUpToBits | test/e2e/deploy_e2e.rs:409-415 | after the encoding loop has visited squares `0..n`, bit `j` is set exactly when `j < n` and square `j` is selected |
| Bitmask.BelowBoardLimit | test/tests/deploy_e2e.rs:172-178 | a mask with no bit set at 25 or above is below `1 << 25` |
| Bitmask.MaskOfBits | test/e2e/deploy_e2e.rs:409-415 | bit `i` of the encoded mask is set exactly when square `i` is selected, so only bits 0..24 can be set and the mask is below `1 << 25` |
| Bitmask.DecodeUpTo | test/e2e/deploy_e2e.rs:417-423 | decoding the first `n` bits lists exactly the indices below `n` whose bit is set, in strictly ascending order |
| Bitmask.DecodeOfMask | test/e2e/deploy_e2e.rs:417-423 | decoding an encoded selection lists exactly the selected squares, ascending and on the board |
| Bitmask.EncodeDecodeRoundTrip | test/e2e/deploy_e2e.rs:391-425 | a strictly ascending list of on-board squares comes back unchanged after marking, encoding and decoding |
| Bitmask.RoundTripNeedsAscending | test/e2e/deploy_e2e.rs:425 | conversely, a list that comes back unchanged through the guarded selection is strictly ascending and on the board, so an unsorted or repeated case list fails the comparison; an off-board case list panics earlier, in the marking loop |
| Bitmask.MarkSquares | test/e2e/deploy_e2e.rs:403-407 | the unguarded marking loop gives the same selection as the helper's squares array when all indices are on the board |
| Bitmask.EncodeMask | test/tests/deploy_e2e.rs:172-178 | the `mask \|= 1 << i` loop computes the encoded mask: bit `i` is set if and only if square `i` is selected, and the mask is below `1 << 25` |
| Bitmask.DecodeMask | test/tests/deploy_e2e.rs:180-186 | the push loop yields the decoded list: strictly ascending, on the board, containing `i` if and only if bit `i` is set |
| Bitmask.CheckBitmaskCase | test/tests/deploy_e2e.rs:154-188 | for an on-board case list, mark, encode and decode return the list itself, so the test's `assert_eq!` holds, if and only if the list is strictly ascending |
| Simulation.DeployAllAt | test/e2e/deploy_e2e.rs:180-185 | after the round update, square `i` has gained `amount` and one deployer per time it is listed |
| Simulation.DeployAllTotal | test/e2e/deploy_e2e.rs:721-727 | the round total gains `amount` per listed block, and no field besides `deployed`, `count` and `total_deployed` changes |
| Simulation.DeployAllEffect | test/e2e/deploy_e2e.rs:180-185 | the per-square and total effect of the round update, for all squares at once |
| Simulation.UnlistedUnchanged | test/e2e/deploy_e2e.rs:180-185 | a square that is not listed keeps its amount and deployer count |
| Simulation.DeployVerifiesIffDistinct | test/src/helpers.rs:144-173 | `verify_deployment` accepts the simulated deploy if and only if no block is listed twice |
| Simulation.ApplyDeploy | test/e2e/deploy_e2e.rs:180-192 | the update loop computes the folded round update; the total grows by `amount` times the number of listed blocks; for distinct blocks `verify_deployment` passes |
| Simulation.MinerDeployAllEffect | test/e2e/deploy_e2e.rs:337-339 | after the miner update, listed squares hold `amount`; other squares and every other field, `round_id` included, are unchanged |
| Simulation.MinerDeployVerifies | test/src/helpers.rs:176-197 | `verify_miner_state` accepts the updated miner if and only if the miner was already on the expected round |
| Simulation.ApplyMinerDeploy | test/e2e/deploy_e2e.rs:337-346 | the update loop computes the folded miner update, and `verify_miner_state` passes against the miner's own round id |
| Selection.TakeFirst | test/e2e/deploy_e2e.rs:632-647 | `take(quantity)` yields exactly `quantity` blocks from a pool of at least that many, and the whole pool otherwise; they are the pool's first ones, so each comes from the pool |
| Selection.TakeFirstAscending | test/e2e/deploy_e2e.rs:632-635 | a selection taken from an ascending, on-board pool is ascending and on the board |
| Selection.SortIsIdentity | test/e2e/deploy_e2e.rs:636 | the only non-decreasing rearrangement of a strictly ascending selection is the selection itself, so `sort()` leaves it unchanged |
| Selection.ClampQuantity | test/e2e/deploy_e2e.rs:778 | `quantity.min(available_count)` is at most each of the two and equal to one of them |
| Selection.ClampQuantityInRange | test/e2e/deploy_e2e.rs:778-779 | for a positive request and a non-empty pool, `quantity.min(available_count)` lies in `1..available_count`, and equals the request exactly when the request fits |
| Selection.QuantityRowPasses | test/e2e/deploy_e2e.rs:777-789 | a table row passes its assertions exactly when it does not expect success, or it requests a positive quantity from a non-empty pool; the assertions of a row expected to fail cannot fail |
| Selection.ValidateQuantities | test/e2e/deploy_e2e.rs:774-790 | the validation loop completes exactly when every row expected to succeed requests a positive quantity from a non-empty pool |
| Selection.QuantityTablePasses | test/e2e/deploy_e2e.rs:766-772 | the test's five-row table passes exactly when at least one block is available, so it passes for its ten blocks |
| Selection.MultiBlockDeploy | test/e2e/deploy_e2e.rs:683-747 | the flow stops exactly when fewer than `quantity` squares are available, and then selects nothing. Otherwise it selects `quantity` distinct squares below the threshold, the deploy passes `verify_deployment`, and the total grows by `amount * quantity` |

## Left out

- The on-chain program is not part of this model: settlement, checkpoint, claim, staking and automation. `Round`, `Board` and `Miner` come from `ore_api` (test/src/lib.rs:5); only the fields the board logic touches are modelled.
- Some account fields are not modelled: `slot_hash`, `rent_payer` and `top_miner` of a round, and `authority` and `rewards_factor` of a miner. No board logic reads or writes them.
- Helpers.AvailableBlocks: the threshold is a lamport `nat`. The float SOL-to-lamports conversion (`(threshold_sol * 1e9) as u64`) is not modelled, and neither is `test_amount_encoding`.
- Simulation.ApplyDeploy: amounts are unbounded. The `u64` overflow of `+=` is not modelled, because the tests stay far below `u64::MAX`.
- Helpers.VerifyDeployment: the sums `old_deployed + amount` and `old_count + 1` are unbounded. The `u64` overflow panic they could raise is not modelled, for the same reason.
- Helpers.BuildSquares: the selection is modelled, but the instruction that `ore_api::sdk::deploy` encodes from it is not. Instruction encoding, PDA derivation and compute-budget assembly are foreign calls and hashing.
- Selection.SortIsIdentity: `sort()` is not modelled as an algorithm. It is characterised by its result, the non-decreasing rearrangement of its input.
- RPC and simulator plumbing: `fetch_mainnet_account`, `setup_test_context`, `fund_account`, `add_mainnet_account` and the async task spawning. These are I/O.
- Printing: the row descriptions and the "Valid", "Adjusted" and "Invalid" messages of the quantity-validation test, `display_board_state`, `display_deployment_summary`, the test summaries and the SOL formatting.
- `parse_board`, `parse_round` and `parse_miner`. They wrap an account deserialiser whose byte layout is not visible.
- The "random" selection is a deterministic stand-in: `take` followed by `sort` in the selection test (test/e2e/deploy_e2e.rs:632-636), and `take` alone in the multi-block flow (test/e2e/deploy_e2e.rs:691). The shell `shuf` it stands for is not modelled.
