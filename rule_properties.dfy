/** What the rule engine guarantees: the short-circuit and error-reporting
    behaviour of the composites, the decision of each leaf, where a reported
    identity can come from, and the behaviour of the derivation pre-flight. */
module RuleProperties {
  import opened Base
  import opened Payload
  import opened Merkle
  import opened Rules

  // ----- All -----

  lemma {:induction false} EvalAllStopsAt(rules: seq<Rule>, h: Host, accounts: Accounts, p: ParsedPayload,
                                          last: RuleSetError, i: nat)
    requires i < |rules|
    requires forall j | 0 <= j < i :: Eval(rules[j], h, accounts, p).0
    requires !Eval(rules[i], h, accounts, p).0
    ensures EvalAll(rules, h, accounts, p, last) == Eval(rules[i], h, accounts, p)
  {
    if i > 0 {
      assert forall j | 0 <= j < i - 1 :: rules[1..][j] == rules[j + 1];
      EvalAllStopsAt(rules[1..], h, accounts, p, ToError(rules[0]), i - 1);
    }
  }

  lemma {:induction false} EvalAllSucceeds(rules: seq<Rule>, h: Host, accounts: Accounts, p: ParsedPayload,
                                           last: RuleSetError)
    ensures EvalAll(rules, h, accounts, p, last).0 <==>
              forall j | 0 <= j < |rules| :: Eval(rules[j], h, accounts, p).0
    ensures EvalAll(rules, h, accounts, p, last).0 ==>
              EvalAll(rules, h, accounts, p, last).1 == if rules == [] then last else ToError(rules[|rules| - 1])
    decreases |rules|
  {
    if rules != [] {
      EvalAllSucceeds(rules[1..], h, accounts, p, ToError(rules[0]));
      assert forall j | 0 <= j < |rules| - 1 :: rules[1..][j] == rules[j + 1];
    }
  }

  /** `All` stops at the first failing child and returns that child's result
      unchanged. */
  lemma EvalAllShortCircuits(rules: seq<Rule>, h: Host, accounts: Accounts, p: ParsedPayload, i: nat)
    requires i < |rules|
    requires forall j | 0 <= j < i :: Eval(rules[j], h, accounts, p).0
    requires !Eval(rules[i], h, accounts, p).0
    ensures Eval(All(rules), h, accounts, p) == Eval(rules[i], h, accounts, p)
  {
    EvalAllStopsAt(rules, h, accounts, p, NotImplemented, i);
  }

  /** `All` passes exactly when every child passes, and then reports the last
      child's identity (`NotImplemented` for an empty `All`). */
  lemma EvalAllIsConjunction(rules: seq<Rule>, h: Host, accounts: Accounts, p: ParsedPayload)
    ensures Eval(All(rules), h, accounts, p).0 <==>
              forall j | 0 <= j < |rules| :: Eval(rules[j], h, accounts, p).0
    ensures Eval(All(rules), h, accounts, p).0 ==>
              Eval(All(rules), h, accounts, p).1 ==
                if rules == [] then NotImplemented else ToError(rules[|rules| - 1])
  {
    EvalAllSucceeds(rules, h, accounts, p, NotImplemented);
  }

  // ----- Any -----

  lemma {:induction false} EvalAnyStopsAt(rules: seq<Rule>, h: Host, accounts: Accounts, p: ParsedPayload,
                                          last: RuleSetError, i: nat)
    requires i < |rules|
    requires forall j | 0 <= j < i :: !Eval(rules[j], h, accounts, p).0
    requires Eval(rules[i], h, accounts, p).0
    ensures EvalAny(rules, h, accounts, p, last) == Eval(rules[i], h, accounts, p)
  {
    if i > 0 {
      assert forall j | 0 <= j < i - 1 :: rules[1..][j] == rules[j + 1];
      EvalAnyStopsAt(rules[1..], h, accounts, p, ToError(rules[0]), i - 1);
    }
  }

  lemma {:induction false} EvalAnyFails(rules: seq<Rule>, h: Host, accounts: Accounts, p: ParsedPayload,
                                        last: RuleSetError)
    ensures !EvalAny(rules, h, accounts, p, last).0 <==>
              forall j | 0 <= j < |rules| :: !Eval(rules[j], h, accounts, p).0
    ensures !EvalAny(rules, h, accounts, p, last).0 ==>
              EvalAny(rules, h, accounts, p, last).1 == if rules == [] then last else ToError(rules[|rules| - 1])
    decreases |rules|
  {
    if rules != [] {
      EvalAnyFails(rules[1..], h, accounts, p, ToError(rules[0]));
      assert forall j | 0 <= j < |rules| - 1 :: rules[1..][j] == rules[j + 1];
    }
  }

  /** `Any` stops at the first passing child and returns that child's result
      unchanged. */
  lemma EvalAnyShortCircuits(rules: seq<Rule>, h: Host, accounts: Accounts, p: ParsedPayload, i: nat)
    requires i < |rules|
    requires forall j | 0 <= j < i :: !Eval(rules[j], h, accounts, p).0
    requires Eval(rules[i], h, accounts, p).0
    ensures Eval(Any(rules), h, accounts, p) == Eval(rules[i], h, accounts, p)
  {
    EvalAnyStopsAt(rules, h, accounts, p, NotImplemented, i);
  }

  /** `Any` fails exactly when every child fails, and then reports the last
      child's own identity, not the error that child returned
      (`NotImplemented` for an empty `Any`). */
  lemma EvalAnyIsDisjunction(rules: seq<Rule>, h: Host, accounts: Accounts, p: ParsedPayload)
    ensures Eval(Any(rules), h, accounts, p).0 <==>
              exists j | 0 <= j < |rules| :: Eval(rules[j], h, accounts, p).0
    ensures !Eval(Any(rules), h, accounts, p).0 ==>
              Eval(Any(rules), h, accounts, p).1 ==
                if rules == [] then NotImplemented else ToError(rules[|rules| - 1])
  {
    EvalAnyFails(rules, h, accounts, p, NotImplemented);
  }

  /** A failing `Any` whose last child is a `Frequency` rule that overflowed
      reports `FrequencyCheckFailed`, not `NumericalOverflow`. */
  lemma EvalAnyMasksOverflow(rules: seq<Rule>, h: Host, accounts: Accounts, p: ParsedPayload)
    requires rules != [] && rules[|rules| - 1].Frequency?
    requires Eval(rules[|rules| - 1], h, accounts, p) == (false, NumericalOverflow)
    requires forall j | 0 <= j < |rules| :: !Eval(rules[j], h, accounts, p).0
    ensures Eval(Any(rules), h, accounts, p) == (false, FrequencyCheckFailed)
  {
    EvalAnyIsDisjunction(rules, h, accounts, p);
  }

  // ----- Not -----

  /** `Not` inverts the decision and passes the child's error through. */
  lemma EvalNotInverts(rule: Rule, h: Host, accounts: Accounts, p: ParsedPayload)
    ensures Eval(Not(rule), h, accounts, p).0 == !Eval(rule, h, accounts, p).0
    ensures Eval(Not(rule), h, accounts, p).1 == Eval(rule, h, accounts, p).1
  {
  }

  /** A double negation evaluates exactly like the rule it wraps. */
  lemma EvalDoubleNegation(rule: Rule, h: Host, accounts: Accounts, p: ParsedPayload)
    ensures Eval(Not(Not(rule)), h, accounts, p) == Eval(rule, h, accounts, p)
  {
  }

  // ----- Leaves -----

  lemma EvalAdditionalSigner(account: Pubkey, h: Host, accounts: Accounts, p: ParsedPayload)
    ensures Eval(AdditionalSigner(account), h, accounts, p) ==
              (account in accounts && accounts[account].isSigner, AdditionalSignerCheckFailed)
  {
  }

  lemma EvalPubkeyMatch(pubkey: Pubkey, field: PayloadKey, h: Host, accounts: Accounts, p: ParsedPayload)
    ensures Eval(PubkeyMatch(pubkey, field), h, accounts, p) ==
              (h.getPubkey(p, field) == Some(pubkey), PubkeyMatchCheckFailed)
  {
  }

  lemma EvalDerivedKeyMatch(account: Pubkey, field: PayloadKey, h: Host, accounts: Accounts, p: ParsedPayload)
    ensures Eval(DerivedKeyMatch(account, field), h, accounts, p).1 == DerivedKeyMatchCheckFailed
    ensures Eval(DerivedKeyMatch(account, field), h, accounts, p).0 <==>
              exists seeds :: h.getSeeds(p, field) == Some(seeds) &&
                h.assertDerivation(h.programId, account, seeds.seeds).Success?
  {
  }

  lemma EvalProgramOwned(program: Pubkey, field: PayloadKey, h: Host, accounts: Accounts, p: ParsedPayload)
    ensures Eval(ProgramOwned(program, field), h, accounts, p).1 == ProgramOwnedCheckFailed
    ensures Eval(ProgramOwned(program, field), h, accounts, p).0 <==>
              exists key: Pubkey :: h.getPubkey(p, field) == Some(key) && key in accounts && accounts[key].owner == program
  {
  }

  lemma EvalAmount(amount: uint64, h: Host, accounts: Accounts, p: ParsedPayload)
    ensures Eval(Rule.Amount(amount), h, accounts, p) == (p.amount == Some(amount), AmountCheckFailed)
  {
  }

  /** Through the payload fold: an `Amount` rule passes exactly when the last
      amount field supplied carries that amount; so no amount field, or a
      later different one, fails it. */
  lemma EvalAmountOfFields(amount: uint64, h: Host, accounts: Accounts, fields: seq<PayloadField>)
    ensures Eval(Rule.Amount(amount), h, accounts, ParseFields(fields)).0 <==>
              exists i | 0 <= i < |fields| ::
                fields[i] == PayloadField.Amount(amount) &&
                forall j | i < j < |fields| :: !fields[j].Amount?
  {
    var p := ParseFields(fields);
    ParseFieldsLastWriteWins(fields, PayloadKey.Amount);
    assert forall f: PayloadField :: KeyOf(f) == PayloadKey.Amount <==> f.Amount?;
    assert Read(p, PayloadKey.Amount) == if p.amount.Some? then Some(PayloadField.Amount(p.amount.value)) else None;
  }

  /** Every leaf reports its own identity, except a `Frequency` rule whose
      sum overflowed, which reports `NumericalOverflow` with a denial. */
  lemma LeafReportsOwnIdentity(r: Rule, h: Host, accounts: Accounts, p: ParsedPayload)
    requires !IsComposite(r)
    ensures Eval(r, h, accounts, p).1 == ToError(r) ||
            (r.Frequency? && Eval(r, h, accounts, p) == (false, NumericalOverflow))
  {
  }

  /** Leaves of different kinds report different identities. */
  lemma ToErrorDistinguishesLeaves(r: Rule, s: Rule)
    requires !IsComposite(r) && !IsComposite(s) && ToError(r) == ToError(s)
    ensures r.AdditionalSigner? == s.AdditionalSigner? && r.PubkeyMatch? == s.PubkeyMatch? &&
            r.DerivedKeyMatch? == s.DerivedKeyMatch? && r.ProgramOwned? == s.ProgramOwned? &&
            r.Amount? == s.Amount? && r.Frequency? == s.Frequency? && r.PubkeyTreeMatch? == s.PubkeyTreeMatch?
  {
  }

  // ----- Frequency -----

  /** The rate-limit gate passes exactly when the account, the clock and the
      deserialised state are all there, `last_update + period` fits in an
      `i64`, and it is strictly below the current time. It reports
      `NumericalOverflow` exactly when the sum does not fit, and
      `FrequencyCheckFailed` otherwise. */
  lemma EvalFrequencyDecision(freqName: seq<uint8>, freqAccount: Pubkey, h: Host, accounts: Accounts, p: ParsedPayload)
    ensures Eval(Frequency(freqName, freqAccount), h, accounts, p).0 <==>
              freqAccount in accounts && h.clock.Some? && accounts[freqAccount].frequencyState.Some? &&
              var state := accounts[freqAccount].frequencyState.value;
              INT64_MIN <= state.lastUpdate + state.period <= INT64_MAX &&
              state.lastUpdate + state.period < h.clock.value
    ensures Eval(Frequency(freqName, freqAccount), h, accounts, p).1 == NumericalOverflow <==>
              freqAccount in accounts && h.clock.Some? && accounts[freqAccount].frequencyState.Some? &&
              var state := accounts[freqAccount].frequencyState.value;
              !(INT64_MIN <= state.lastUpdate + state.period <= INT64_MAX)
    ensures Eval(Frequency(freqName, freqAccount), h, accounts, p).1 in {FrequencyCheckFailed, NumericalOverflow}
  {
  }

  /** The boundary cases: the cooldown has not elapsed when the current time
      equals `last_update + period`, it has one second later, and a sum past
      `i64::MAX` is an overflow rather than a wrapped pass. */
  lemma FrequencyGateExamples(freqName: seq<uint8>, freqAccount: Pubkey, h: Host, accounts: Accounts, p: ParsedPayload)
    requires freqAccount in accounts
    ensures accounts[freqAccount].frequencyState == Some(FrequencyAccount(100, 50)) && h.clock == Some(151) ==>
              Eval(Frequency(freqName, freqAccount), h, accounts, p) == (true, FrequencyCheckFailed)
    ensures accounts[freqAccount].frequencyState == Some(FrequencyAccount(100, 50)) && h.clock == Some(150) ==>
              Eval(Frequency(freqName, freqAccount), h, accounts, p) == (false, FrequencyCheckFailed)
    ensures accounts[freqAccount].frequencyState == Some(FrequencyAccount(INT64_MAX, 1)) && h.clock.Some? ==>
              Eval(Frequency(freqName, freqAccount), h, accounts, p) == (false, NumericalOverflow)
  {
  }

  // ----- PubkeyTreeMatch -----

  /** The Merkle leaf passes exactly when a proof is supplied and folding it
      into its leaf yields the rule's root; with an empty proof that is the
      leaf itself. */
  lemma EvalPubkeyTreeMatch(root: Hash, field: PayloadKey, h: Host, accounts: Accounts, p: ParsedPayload)
    ensures Eval(PubkeyTreeMatch(root, field), h, accounts, p).1 == PubkeyTreeMatchCheckFailed
    ensures Eval(PubkeyTreeMatch(root, field), h, accounts, p).0 <==>
              exists mp :: h.getMerkleProof(p, field) == Some(mp) && FoldRoot(h.keccak, mp.leaf, mp.proof) == root
    ensures h.getMerkleProof(p, field).Some? && h.getMerkleProof(p, field).value.proof == [] ==>
              (Eval(PubkeyTreeMatch(root, field), h, accounts, p).0 <==> h.getMerkleProof(p, field).value.leaf == root)
  {
  }

  // ----- Where a reported identity comes from -----

  /** The identities a rule can report: its own, `NumericalOverflow` for a
      `Frequency` rule, and those of its descendants. */
  function Identities(r: Rule): set<RuleSetError>
    decreases r, 1
  {
    match r
    case All(rules) => {ToError(r)} + IdentitiesOf(rules)
    case Any(rules) => {ToError(r)} + IdentitiesOf(rules)
    case Not(rule) => {ToError(r)} + Identities(rule)
    case Frequency(_, _) => {ToError(r), NumericalOverflow}
    case _ => {ToError(r)}
  }

  function IdentitiesOf(rules: seq<Rule>): set<RuleSetError>
    decreases rules, 0
  {
    if rules == [] then {} else Identities(rules[0]) + IdentitiesOf(rules[1..])
  }

  /** Whether a `Frequency` rule occurs anywhere in the tree. */
  predicate HasFrequency(r: Rule)
    decreases r
  {
    match r
    case All(rules) => exists i | 0 <= i < |rules| :: HasFrequency(rules[i])
    case Any(rules) => exists i | 0 <= i < |rules| :: HasFrequency(rules[i])
    case Not(rule) => HasFrequency(rule)
    case Frequency(_, _) => true
    case _ => false
  }

  lemma {:induction false} EvalAllIdentity(rules: seq<Rule>, h: Host, accounts: Accounts, p: ParsedPayload,
                                           last: RuleSetError)
    ensures EvalAll(rules, h, accounts, p, last).1 in {last, NotImplemented} + IdentitiesOf(rules)
    decreases rules, 0
  {
    if rules != [] {
      EvalIdentity(rules[0], h, accounts, p);
      EvalAllIdentity(rules[1..], h, accounts, p, ToError(rules[0]));
    }
  }

  lemma {:induction false} EvalAnyIdentity(rules: seq<Rule>, h: Host, accounts: Accounts, p: ParsedPayload,
                                           last: RuleSetError)
    ensures EvalAny(rules, h, accounts, p, last).1 in {last, NotImplemented} + IdentitiesOf(rules)
    decreases rules, 0
  {
    if rules != [] {
      EvalIdentity(rules[0], h, accounts, p);
      EvalAnyIdentity(rules[1..], h, accounts, p, ToError(rules[0]));
    }
  }

  /** The identity reported for a rule is one of its `Identities`. */
  lemma {:induction false} EvalIdentity(r: Rule, h: Host, accounts: Accounts, p: ParsedPayload)
    ensures Eval(r, h, accounts, p).1 in Identities(r)
    decreases r, 1
  {
    match r
    case All(rules) => EvalAllIdentity(rules, h, accounts, p, NotImplemented);
    case Any(rules) => EvalAnyIdentity(rules, h, accounts, p, NotImplemented);
    case Not(rule) => EvalIdentity(rule, h, accounts, p);
    case _ =>
  }

  lemma {:induction false} OverflowIdentityNeedsFrequency(r: Rule)
    ensures NumericalOverflow in Identities(r) ==> HasFrequency(r)
    decreases r, 1
  {
    match r
    case All(rules) => OverflowIdentitiesOfNeedsFrequency(rules);
    case Any(rules) => OverflowIdentitiesOfNeedsFrequency(rules);
    case Not(rule) => OverflowIdentityNeedsFrequency(rule);
    case _ =>
  }

  lemma {:induction false} OverflowIdentitiesOfNeedsFrequency(rules: seq<Rule>)
    ensures NumericalOverflow in IdentitiesOf(rules) ==> exists i | 0 <= i < |rules| :: HasFrequency(rules[i])
    decreases rules, 0
  {
    if rules != [] {
      OverflowIdentityNeedsFrequency(rules[0]);
      OverflowIdentitiesOfNeedsFrequency(rules[1..]);
      if NumericalOverflow in IdentitiesOf(rules[1..]) {
        var i :| 0 <= i < |rules[1..]| && HasFrequency(rules[1..][i]);
        assert HasFrequency(rules[i + 1]);
      }
    }
  }

  /** `NumericalOverflow` is only ever reported for a tree that contains a
      `Frequency` rule, and `DataTypeMismatch` never is. */
  lemma OverflowOnlyFromFrequency(r: Rule, h: Host, accounts: Accounts, p: ParsedPayload)
    ensures Eval(r, h, accounts, p).1 == NumericalOverflow ==> HasFrequency(r)
    ensures Eval(r, h, accounts, p).1 != DataTypeMismatch
  {
    EvalIdentity(r, h, accounts, p);
    OverflowIdentityNeedsFrequency(r);
    IdentitiesNeverMismatch(r);
  }

  lemma {:induction false} IdentitiesNeverMismatch(r: Rule)
    ensures DataTypeMismatch !in Identities(r)
    decreases r, 1
  {
    match r
    case All(rules) => IdentitiesOfNeverMismatch(rules);
    case Any(rules) => IdentitiesOfNeverMismatch(rules);
    case Not(rule) => IdentitiesNeverMismatch(rule);
    case _ =>
  }

  lemma {:induction false} IdentitiesOfNeverMismatch(rules: seq<Rule>)
    ensures DataTypeMismatch !in IdentitiesOf(rules)
    decreases rules, 0
  {
    if rules != [] {
      IdentitiesNeverMismatch(rules[0]);
      IdentitiesOfNeverMismatch(rules[1..]);
    }
  }

  // ----- assert_rule_pda_derivations -----

  lemma {:induction false} DerivationsAllOutcome(rules: seq<Rule>, h: Host, payer: Pubkey, ruleSetName: seq<uint8>)
    ensures DerivationsAll(rules, h, payer, ruleSetName).Ok? <==>
              forall j | 0 <= j < |rules| :: Derivations(rules[j], h, payer, ruleSetName).Ok?
    ensures DerivationsAll(rules, h, payer, ruleSetName).Err? ==>
              exists i | 0 <= i < |rules| ::
                (forall j | 0 <= j < i :: Derivations(rules[j], h, payer, ruleSetName).Ok?) &&
                DerivationsAll(rules, h, payer, ruleSetName) == Derivations(rules[i], h, payer, ruleSetName)
    decreases |rules|
  {
    if rules != [] {
      DerivationsAllOutcome(rules[1..], h, payer, ruleSetName);
      assert forall j | 0 <= j < |rules| - 1 :: rules[1..][j] == rules[j + 1];
      if Derivations(rules[0], h, payer, ruleSetName).Ok? && DerivationsAll(rules, h, payer, ruleSetName).Err? {
        var i :| 0 <= i < |rules[1..]| &&
                 (forall j | 0 <= j < i :: Derivations(rules[1..][j], h, payer, ruleSetName).Ok?) &&
                 DerivationsAll(rules[1..], h, payer, ruleSetName) == Derivations(rules[1..][i], h, payer, ruleSetName);
        assert forall j | 0 <= j < i + 1 :: Derivations(rules[j], h, payer, ruleSetName).Ok?;
      }
    }
  }

  /** The pre-flight of an `All` succeeds exactly when that of every child
      does; otherwise it returns the error of the first child that failed. */
  lemma DerivationsAllIsConjunction(rules: seq<Rule>, h: Host, payer: Pubkey, ruleSetName: seq<uint8>)
    ensures Derivations(All(rules), h, payer, ruleSetName).Ok? <==>
              forall j | 0 <= j < |rules| :: Derivations(rules[j], h, payer, ruleSetName).Ok?
    ensures Derivations(All(rules), h, payer, ruleSetName).Err? ==>
              exists i | 0 <= i < |rules| ::
                (forall j | 0 <= j < i :: Derivations(rules[j], h, payer, ruleSetName).Ok?) &&
                Derivations(All(rules), h, payer, ruleSetName) == Derivations(rules[i], h, payer, ruleSetName)
  {
    DerivationsAllOutcome(rules, h, payer, ruleSetName);
  }

  lemma {:induction false} DerivationsAnyOutcome(rules: seq<Rule>, h: Host, payer: Pubkey, ruleSetName: seq<uint8>,
                                                 error: Option<ProgramResult>)
    requires error.Some? ==> error.value.Err?
    ensures DerivationsAny(rules, h, payer, ruleSetName, error).Ok? <==>
              exists j | 0 <= j < |rules| :: Derivations(rules[j], h, payer, ruleSetName).Ok?
    ensures DerivationsAny(rules, h, payer, ruleSetName, error).Err? ==>
              DerivationsAny(rules, h, payer, ruleSetName, error) ==
                if rules != [] then Derivations(rules[|rules| - 1], h, payer, ruleSetName)
                else if error.Some? then error.value
                else Err(Custom(DataTypeMismatch))
    decreases |rules|
  {
    if rules != [] {
      var res := Derivations(rules[0], h, payer, ruleSetName);
      if res.Err? {
        DerivationsAnyOutcome(rules[1..], h, payer, ruleSetName, Some(res));
        assert forall j | 0 <= j < |rules| - 1 :: rules[1..][j] == rules[j + 1];
      }
    }
  }

  /** The pre-flight of an `Any` succeeds exactly when that of some child
      does; otherwise it returns the error of the last child, and
      `DataTypeMismatch` only when the `Any` is empty. */
  lemma DerivationsAnyIsDisjunction(rules: seq<Rule>, h: Host, payer: Pubkey, ruleSetName: seq<uint8>)
    ensures Derivations(Any(rules), h, payer, ruleSetName).Ok? <==>
              exists j | 0 <= j < |rules| :: Derivations(rules[j], h, payer, ruleSetName).Ok?
    ensures Derivations(Any(rules), h, payer, ruleSetName).Err? ==>
              Derivations(Any(rules), h, payer, ruleSetName) ==
                if rules == [] then Err(Custom(DataTypeMismatch))
                else Derivations(rules[|rules| - 1], h, payer, ruleSetName)
  {
    DerivationsAnyOutcome(rules, h, payer, ruleSetName, None);
  }

  /** A `Frequency` rule passes the pre-flight exactly when its account is
      derived from the rate-limit prefix, the payer, the rule set name and
      the rule's own name, and otherwise fails with the derivation's error. */
  lemma DerivationsFrequency(freqName: seq<uint8>, freqAccount: Pubkey, h: Host, payer: Pubkey, ruleSetName: seq<uint8>)
    ensures Derivations(Frequency(freqName, freqAccount), h, payer, ruleSetName) ==
              var bump := h.assertDerivation(h.programId, freqAccount, [h.freqPda, payer, ruleSetName, freqName]);
              if bump.Success? then Ok else Err(bump.error)
  {
  }

  /** The pre-flight does not look beneath a `Not`, nor into any other leaf. */
  lemma DerivationsSkipsOtherRules(r: Rule, h: Host, payer: Pubkey, ruleSetName: seq<uint8>)
    requires !r.All? && !r.Any? && !r.Frequency?
    ensures Derivations(r, h, payer, ruleSetName) == Ok
  {
  }

  /** Every `Frequency` rule the pre-flight visits (those not under a `Not`)
      is correctly derived. */
  predicate FrequenciesDerived(r: Rule, h: Host, payer: Pubkey, ruleSetName: seq<uint8>)
    decreases r
  {
    match r
    case All(rules) => forall i | 0 <= i < |rules| :: FrequenciesDerived(rules[i], h, payer, ruleSetName)
    case Any(rules) => forall i | 0 <= i < |rules| :: FrequenciesDerived(rules[i], h, payer, ruleSetName)
    case Frequency(freqName, freqAccount) =>
      h.assertDerivation(h.programId, freqAccount, FrequencySeeds(h, payer, ruleSetName, freqName)).Success?
    case _ => true
  }

  /** No `Any` that the pre-flight visits is empty. */
  predicate NoEmptyAny(r: Rule)
    decreases r
  {
    match r
    case All(rules) => forall i | 0 <= i < |rules| :: NoEmptyAny(rules[i])
    case Any(rules) => rules != [] && forall i | 0 <= i < |rules| :: NoEmptyAny(rules[i])
    case _ => true
  }

  /** A tree whose visited `Frequency` rules are all correctly derived and
      whose visited `Any` nodes are non-empty passes the pre-flight. */
  lemma {:induction false} DerivationsSucceed(r: Rule, h: Host, payer: Pubkey, ruleSetName: seq<uint8>)
    requires FrequenciesDerived(r, h, payer, ruleSetName) && NoEmptyAny(r)
    ensures Derivations(r, h, payer, ruleSetName) == Ok
    decreases r
  {
    match r
    case All(rules) =>
      forall j | 0 <= j < |rules| ensures Derivations(rules[j], h, payer, ruleSetName).Ok? {
        DerivationsSucceed(rules[j], h, payer, ruleSetName);
      }
      DerivationsAllIsConjunction(rules, h, payer, ruleSetName);
    case Any(rules) =>
      DerivationsSucceed(rules[0], h, payer, ruleSetName);
      DerivationsAnyIsDisjunction(rules, h, payer, ruleSetName);
    case _ =>
  }

  /** An `Any` of two `Frequency` rules passes when either is correctly
      derived; when both are wrongly derived it fails with the second rule's
      derivation error. */
  lemma DerivationsAnyOfTwoFrequencies(f1: Rule, f2: Rule, h: Host, payer: Pubkey, ruleSetName: seq<uint8>)
    requires f1.Frequency? && f2.Frequency?
    ensures Derivations(f1, h, payer, ruleSetName).Ok? ==> Derivations(Any([f1, f2]), h, payer, ruleSetName) == Ok
    ensures Derivations(f1, h, payer, ruleSetName).Err? && Derivations(f2, h, payer, ruleSetName).Ok? ==>
              Derivations(Any([f1, f2]), h, payer, ruleSetName) == Ok
    ensures Derivations(f1, h, payer, ruleSetName).Err? && Derivations(f2, h, payer, ruleSetName).Err? ==>
              Derivations(Any([f1, f2]), h, payer, ruleSetName) == Derivations(f2, h, payer, ruleSetName)
  {
    DerivationsAnyIsDisjunction([f1, f2], h, payer, ruleSetName);
  }
}
