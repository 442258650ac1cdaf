# Rule evaluation engine of the token authorization rules program

This project models, in Dafny, the rule engine of an on-chain authorization
program: a rule set is a tree of `Rule` values (`All`, `Any`, `Not` over
children, and the leaf predicates `AdditionalSigner`, `PubkeyMatch`,
`DerivedKeyMatch`, `ProgramOwned`, `Amount`, `Frequency`, `PubkeyTreeMatch`),
and evaluating it against a map of accounts and a payload yields an
allow/deny decision together with the error identity of the rule that
decided it.

Modules:

- `Base` — `uint8`, `uint64`, `int64`, 32-byte keys and hashes, `Option`,
  `Result`, `i64::checked_add`, the `RuleSetError` variants the engine
  reports, `ProgramError` and `ProgramResult`.
- `Payload` — the payload fields, the four-slot `ParsedPayload`, and the
  fold of a field list into it (`ParseFields`), with its last-write-wins
  lemma.
- `Merkle` — Rust's lexicographic `<=` on byte arrays, the sorted-pair
  combinator with its `0x01` prefix, the fold of a proof (`FoldRoot`), and
  the loop that computes it (`ComputeRoot`).
- `Rules` — the `Rule` datatype, `ToError`, the evaluator as a function
  (`Eval`, with `EvalAll`/`EvalAny` for the rest of a composite's loop), the
  methods `LlValidate` and `Validate` proved equal to it, and the
  derivation pre-flight as a function (`Derivations`) and a method
  (`AssertRulePdaDerivations`).
- `RuleProperties` — lemmas about `Eval` and `Derivations`.

The source's loops stay loops: `Validate` folds the payload with a `for`
loop, the `All`/`Any` arms of `LlValidate` and of `AssertRulePdaDerivations`
are `while` loops with early `return`, and the Merkle arm calls
`ComputeRoot`, a `while` loop. Each is proved against a specification
function, and the properties are proved about those functions.

Everything outside `rules.rs` becomes a field of the `Host` value: the
program's own id (`crate::id()`), the `FREQ_PDA` seed prefix, the clock
(`Some(unix_timestamp)` or `None` when `Clock::get()` fails), Keccak
(`hashv` of the concatenated slices), `assert_derivation` (program id,
claimed account, seeds; the bump or an error), and the payload getters
`get_pubkey`, `get_seeds` and `get_merkle_proof`. An account is its signer
flag, its owner, and the outcome of `FrequencyAccount::from_account_info` on
it (`None` when deserialisation fails).

Two details of the code that the model keeps:

- An `Any` in the derivation pre-flight whose children all fail returns its
  last child's error (program/src/state/rules.rs:269-276).
  `DataTypeMismatch` is returned only for an `Any` with no children. See
  `DerivationsAnyIsDisjunction` and `DerivationsAnyOfTwoFrequencies`.
- `last_update` and `period` are `i64`: their `checked_add` sum is compared
  with the `i64` `unix_timestamp` without a cast
  (program/src/state/rules.rs:197-200). A sum below `i64::MIN`, from a
  negative period, is therefore also an overflow.

## Model

| member | source | states |
|---|---|---|
| `Rules.ToError` | program/src/state/rules.rs:301-312 | a rule's identity is `NotImplemented` exactly for `All`, `Any` and `Not`; no rule's identity is `NumericalOverflow` or `DataTypeMismatch` |
| `RuleProperties.ToErrorDistinguishesLeaves` | program/src/state/rules.rs:303-309 | two leaves with the same identity are of the same kind, so each leaf kind has its own identity |
| `Rules.LlValidate` | program/src/state/rules.rs:81-254 | the recursive evaluator, with its `All`/`Any` loops and the Merkle arm, returns exactly `Eval` of the rule |
| `Rules.Validate` | program/src/state/rules.rs:55-79 | folds the payload fields in order, then returns `Ok` exactly when `Eval` of the folded payload passes, and otherwise `Err` carrying exactly the identity `Eval` reported |
| `Rules.AssertRulePdaDerivations` | program/src/state/rules.rs:256-299 | the pre-flight walk, with its `All`/`Any` loops, returns exactly `Derivations` of the rule |
| `Payload.ParseFieldsLastWriteWins` | program/src/state/rules.rs:60-70 | after the fold, a slot is empty exactly when no field of its kind was supplied; otherwise it holds the value of the last field of its kind |
| `Merkle.ComputeRoot` | program/src/state/rules.rs:226-245 | the proof loop returns `FoldRoot` of the leaf and the proof |
| `Merkle.CombineHashesSortedPair` | program/src/state/rules.rs:228-244 | whichever order the two values come in, a step hashes `0x01`, then the lexicographically smaller-or-equal value, then the other |
| `Merkle.CombineCommutative` | program/src/state/rules.rs:228-244 | a step gives the same hash with its arguments swapped |
| `Merkle.FoldRootEmpty` | program/src/state/rules.rs:226-227 | with an empty proof the computed root is the leaf |
| `Merkle.FoldRootSnoc` | program/src/state/rules.rs:227-245 | extending the proof by one element combines the previous root with that element |
| `Merkle.LexLeTotal` | program/src/state/rules.rs:228 | any two byte strings are ordered one way or the other by `<=` |
| `Merkle.LexLeAntisymmetric` | program/src/state/rules.rs:228 | two byte strings each `<=` the other are equal |
| `RuleProperties.EvalAllShortCircuits` | program/src/state/rules.rs:87-98 | when every child before `i` passes and child `i` fails, `All` returns child `i`'s result unchanged |
| `RuleProperties.EvalAllIsConjunction` | program/src/state/rules.rs:87-98 | `All` passes exactly when every child passes, and then reports the last child's identity, or `NotImplemented` for an empty `All` |
| `RuleProperties.EvalAnyShortCircuits` | program/src/state/rules.rs:99-110 | when every child before `i` fails and child `i` passes, `Any` returns child `i`'s result unchanged |
| `RuleProperties.EvalAnyIsDisjunction` | program/src/state/rules.rs:99-110 | `Any` passes exactly when some child passes; otherwise it reports the last child's own identity, or `NotImplemented` for an empty `Any` |
| `RuleProperties.EvalAnyMasksOverflow` | program/src/state/rules.rs:99-110 | a failing `Any` whose last child is a `Frequency` rule that overflowed reports `FrequencyCheckFailed`, not `NumericalOverflow` |
| `RuleProperties.EvalNotInverts` | program/src/state/rules.rs:111-114 | `Not` inverts the child's decision and passes its error through unchanged |
| `RuleProperties.EvalDoubleNegation` | program/src/state/rules.rs:111-114 | `Not(Not(r))` gives exactly the decision and identity of `r` |
| `RuleProperties.EvalAdditionalSigner` | program/src/state/rules.rs:115-122 | passes exactly when the account is in the map and is a signer; reports `AdditionalSignerCheckFailed` |
| `RuleProperties.EvalPubkeyMatch` | program/src/state/rules.rs:123-136 | passes exactly when the payload key holds that pubkey; reports `PubkeyMatchCheckFailed` |
| `RuleProperties.EvalDerivedKeyMatch` | program/src/state/rules.rs:137-156 | passes exactly when seeds are present under the key and the account derives from them under the program id; reports `DerivedKeyMatchCheckFailed` |
| `RuleProperties.EvalProgramOwned` | program/src/state/rules.rs:157-172 | passes exactly when the payload key holds a pubkey whose account is in the map and owned by the program; reports `ProgramOwnedCheckFailed` |
| `RuleProperties.EvalAmount` | program/src/state/rules.rs:173-184 | passes exactly when the payload amount is `Some(amount)`; reports `AmountCheckFailed` |
| `RuleProperties.EvalAmountOfFields` | program/src/state/rules.rs:60-72 | after the fold, `Amount(n)` passes exactly when the last amount field supplied carries `n` |
| `RuleProperties.LeafReportsOwnIdentity` | program/src/state/rules.rs:115-252 | every leaf reports its own identity, except an overflowing `Frequency` rule, which denies with `NumericalOverflow` |
| `RuleProperties.EvalFrequencyDecision` | program/src/state/rules.rs:185-217 | passes exactly when account, clock and state are present, `last_update + period` fits in `i64`, and the sum is strictly below now; reports `NumericalOverflow` exactly when the sum does not fit, `FrequencyCheckFailed` otherwise |
| `RuleProperties.FrequencyGateExamples` | program/src/state/rules.rs:197-207 | with 100 and 50, now = 151 passes and now = 150 fails; `i64::MAX` plus 1 is an overflow, not a wrapped pass |
| `RuleProperties.EvalPubkeyTreeMatch` | program/src/state/rules.rs:218-252 | passes exactly when a proof is present and its fold equals the root; with an empty proof, exactly when the leaf is the root; reports `PubkeyTreeMatchCheckFailed` |
| `RuleProperties.EvalIdentity` | program/src/state/rules.rs:86-253 | the identity a tree reports is its own, `NumericalOverflow` from a `Frequency` rule, or one of its descendants' |
| `RuleProperties.OverflowOnlyFromFrequency` | program/src/state/rules.rs:205-207 | a tree reports `NumericalOverflow` only if it contains a `Frequency` rule, and never reports `DataTypeMismatch` |
| `RuleProperties.DerivationsAllIsConjunction` | program/src/state/rules.rs:262-267 | the pre-flight of `All` succeeds exactly when every child's succeeds; otherwise it returns the error of the first child that fails |
| `RuleProperties.DerivationsAnyIsDisjunction` | program/src/state/rules.rs:268-277 | the pre-flight of `Any` succeeds exactly when some child's succeeds; otherwise it returns the last child's error, or `DataTypeMismatch` for an empty `Any` |
| `RuleProperties.DerivationsAnyOfTwoFrequencies` | program/src/state/rules.rs:268-277 | `Any` of two `Frequency` rules passes when either is derived correctly, in either order; when both are wrong it returns the second one's derivation error |
| `RuleProperties.DerivationsFrequency` | program/src/state/rules.rs:278-296 | a `Frequency` rule passes exactly when its account derives from `[FREQ_PDA, payer, rule_set_name, freq_name]` under the program id, and otherwise returns the derivation's error |
| `RuleProperties.DerivationsSkipsOtherRules` | program/src/state/rules.rs:297 | `Not` and every leaf other than `Frequency` pass the pre-flight, so a `Frequency` rule under `Not` is never checked |
| `RuleProperties.DerivationsSucceed` | program/src/state/rules.rs:256-299 | a tree whose visited `Frequency` rules are all derived correctly, and whose visited `Any` nodes are non-empty, passes the pre-flight |

## Left out

- `msg!` logging: it only writes to the log and does not affect any result.
- The serde `Serialize`/`Deserialize` derives on `Rule`: wire encoding belongs to the serialization library.
- Keccak (`solana_program::keccak::hashv`) is an arbitrary function in `Host`. No collision resistance is assumed, so nothing is claimed about a changed proof byte failing verification.
- `assert_derivation` (bump search and curve check) and `crate::id()`: the utility module and the program id declaration are not part of this model. They are `Host.assertDerivation` and `Host.programId`. The determinism of the derivation holds because it is a function.
- The `pda` module is not part of this model, so the value of `FREQ_PDA` is `Host.freqPda`.
- `Clock::get()`: the sysvar access is `Host.clock`, an optional `i64` timestamp.
- `FrequencyAccount::from_account_info` and `AccountInfo`: an account is reduced to its signer flag, its owner, and an optional `(last_update, period)` pair.
- The `payload` module is not part of this model. `get_pubkey`, `get_seeds` and `get_merkle_proof` are arbitrary lookups in `Host`, and the `PayloadKey` variants follow the four payload slots; `PayloadKey` also names the slot a field is stored in.
- `ParsedPayload`/`PayloadField`: the value type of the target, holder and authority slots belongs to the payload module; the model gives them a `Pubkey`, so seeds and Merkle proofs come only from `Host.getSeeds`/`Host.getMerkleProof` and are not tied to the supplied fields.
- The conversion of `RuleSetError` to `ProgramError` is the constructor `Custom`. The numeric error codes are not modelled.
- `String` names (`freq_name`, `rule_set_name`) are modelled as their UTF-8 bytes, which is what `as_bytes()` passes to the derivation.
