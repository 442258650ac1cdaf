/** The rule tree of an authorization rule set and its evaluation: the
    low-level evaluator that returns a decision together with the error
    identity of the rule that decided it, the payload-normalising entry point,
    and the pre-flight check of the derivation of rate-limit accounts. */
module Rules {
  import opened Base
  import opened Payload
  import opened Merkle

  datatype Rule =
    | All(rules: seq<Rule>)
    | Any(rules: seq<Rule>)
    | Not(rule: Rule)
    | AdditionalSigner(account: Pubkey)
    | PubkeyMatch(pubkey: Pubkey, field: PayloadKey)
    | DerivedKeyMatch(account: Pubkey, field: PayloadKey)
    | ProgramOwned(program: Pubkey, field: PayloadKey)
    | Amount(amount: uint64)
    | Frequency(freqName: seq<uint8>, freqAccount: Pubkey)
    | PubkeyTreeMatch(root: Hash, field: PayloadKey)

  predicate IsComposite(r: Rule)
  {
    r.All? || r.Any? || r.Not?
  }

  /** The persisted state of a rate-limit account. */
  datatype FrequencyAccount = FrequencyAccount(lastUpdate: int64, period: int64)

  /** What the engine reads of an account: its signer flag, its owner, and the
      outcome of deserialising its data as rate-limit state. */
  datatype AccountInfo = AccountInfo(
    isSigner: bool,
    owner: Pubkey,
    frequencyState: Option<FrequencyAccount>)

  type Accounts = map<Pubkey, AccountInfo>

  /** The program's environment: its own id, the fixed seed prefix of
      rate-limit accounts, the clock, the Keccak hash, the derivation check
      (program id, claimed account, seeds; the bump or an error), and the
      payload lookups by key. */
  datatype Host = Host(
    programId: Pubkey,
    freqPda: seq<uint8>,
    clock: Option<int64>,
    keccak: seq<uint8> -> Hash,
    assertDerivation: (Pubkey, Pubkey, seq<seq<uint8>>) -> Result<uint8, ProgramError>,
    getPubkey: (ParsedPayload, PayloadKey) -> Option<Pubkey>,
    getSeeds: (ParsedPayload, PayloadKey) -> Option<SeedsVec>,
    getMerkleProof: (ParsedPayload, PayloadKey) -> Option<MerkleProof>)

  /** The error identity of a rule: one per leaf kind, `NotImplemented` for
      the composites. */
  function ToError(r: Rule): (e: RuleSetError)
    ensures e == NotImplemented <==> IsComposite(r)
    ensures e != NumericalOverflow && e != DataTypeMismatch
  {
    match r
    case AdditionalSigner(_) => AdditionalSignerCheckFailed
    case PubkeyMatch(_, _) => PubkeyMatchCheckFailed
    case DerivedKeyMatch(_, _) => DerivedKeyMatchCheckFailed
    case ProgramOwned(_, _) => ProgramOwnedCheckFailed
    case Amount(_) => AmountCheckFailed
    case Frequency(_, _) => FrequencyCheckFailed
    case PubkeyTreeMatch(_, _) => PubkeyTreeMatchCheckFailed
    case _ => NotImplemented
  }

  /** The low-level evaluator: the decision and the error identity reported
      with it. */
  function Eval(r: Rule, h: Host, accounts: Accounts, p: ParsedPayload): (bool, RuleSetError)
    decreases r, 1
  {
    match r
    case All(rules) => EvalAll(rules, h, accounts, p, ToError(r))
    case Any(rules) => EvalAny(rules, h, accounts, p, ToError(r))
    case Not(rule) =>
      var res := Eval(rule, h, accounts, p);
      (!res.0, res.1)
    case AdditionalSigner(account) =>
      (account in accounts && accounts[account].isSigner, ToError(r))
    case PubkeyMatch(pubkey, field) =>
      var key := h.getPubkey(p, field);
      if key.None? then (false, ToError(r))
      else (key.value == pubkey, ToError(r))
    case DerivedKeyMatch(account, field) =>
      var seeds := h.getSeeds(p, field);
      if seeds.None? then (false, ToError(r))
      else (h.assertDerivation(h.programId, account, seeds.value.seeds).Success?, ToError(r))
    case ProgramOwned(program, field) =>
      var key := h.getPubkey(p, field);
      if key.None? then (false, ToError(r))
      else (key.value in accounts && accounts[key.value].owner == program, ToError(r))
    case Amount(amount) =>
      if p.amount.None? then (false, ToError(r))
      else (p.amount.value == amount, ToError(r))
    case Frequency(_, freqAccount) =>
      if freqAccount !in accounts || h.clock.None? then (false, ToError(r))
      else
        var state := accounts[freqAccount].frequencyState;
        if state.None? then (false, ToError(r))
        else
          var freqCheck := CheckedAdd(state.value.lastUpdate, state.value.period);
          if freqCheck.None? then (false, NumericalOverflow)
          else (freqCheck.value < h.clock.value, ToError(r))
    case PubkeyTreeMatch(root, field) =>
      var merkleProof := h.getMerkleProof(p, field);
      if merkleProof.None? then (false, ToError(r))
      else (FoldRoot(h.keccak, merkleProof.value.leaf, merkleProof.value.proof) == root, ToError(r))
  }

  /** The rest of an `All` loop, `last` being the identity remembered so far:
      stop at the first failing child, else pass with the last child's
      identity. */
  function EvalAll(rules: seq<Rule>, h: Host, accounts: Accounts, p: ParsedPayload,
                   last: RuleSetError): (bool, RuleSetError)
    decreases rules, 0
  {
    if rules == [] then (true, last)
    else
      var res := Eval(rules[0], h, accounts, p);
      if !res.0 then res else EvalAll(rules[1..], h, accounts, p, ToError(rules[0]))
  }

  /** The rest of an `Any` loop: stop at the first passing child, else fail
      with the last child's identity. */
  function EvalAny(rules: seq<Rule>, h: Host, accounts: Accounts, p: ParsedPayload,
                   last: RuleSetError): (bool, RuleSetError)
    decreases rules, 0
  {
    if rules == [] then (false, last)
    else
      var res := Eval(rules[0], h, accounts, p);
      if res.0 then res else EvalAny(rules[1..], h, accounts, p, ToError(rules[0]))
  }

  /** `Rule::ll_validate`. */
  method LlValidate(r: Rule, h: Host, accounts: Accounts, p: ParsedPayload)
    returns (status: bool, error: RuleSetError)
    ensures (status, error) == Eval(r, h, accounts, p)
    decreases r
  {
    match r
    case All(rules) =>
      var last := ToError(r);
      var i := 0;
      while i < |rules|
        invariant 0 <= i <= |rules|
        invariant EvalAll(rules[i..], h, accounts, p, last) == Eval(r, h, accounts, p)
      {
        last := ToError(rules[i]);
        var ok, err := LlValidate(rules[i], h, accounts, p);
        if !ok {
          return ok, err;
        }
        assert rules[i..][1..] == rules[i + 1..];
        i := i + 1;
      }
      return true, last;
    case Any(rules) =>
      var last := ToError(r);
      var i := 0;
      while i < |rules|
        invariant 0 <= i <= |rules|
        invariant EvalAny(rules[i..], h, accounts, p, last) == Eval(r, h, accounts, p)
      {
        last := ToError(rules[i]);
        var ok, err := LlValidate(rules[i], h, accounts, p);
        if ok {
          return ok, err;
        }
        assert rules[i..][1..] == rules[i + 1..];
        i := i + 1;
      }
      return false, last;
    case Not(rule) =>
      var ok, err := LlValidate(rule, h, accounts, p);
      return !ok, err;
    case PubkeyTreeMatch(root, field) =>
      var merkleProof := h.getMerkleProof(p, field);
      if merkleProof.None? {
        return false, ToError(r);
      }
      var computed := ComputeRoot(h.keccak, merkleProof.value.leaf, merkleProof.value.proof);
      return computed == root, ToError(r);
    case _ =>
      var res := Eval(r, h, accounts, p);
      return res.0, res.1;
  }

  /** `Rule::validate`: fold the payload fields into a record, evaluate, and
      turn a denial into an error carrying the reported identity. */
  method Validate(r: Rule, h: Host, accounts: Accounts, payload: seq<PayloadField>)
    returns (result: ProgramResult)
    ensures result.Ok? <==> Eval(r, h, accounts, ParseFields(payload)).0
    ensures result.Err? ==> result.error == Custom(Eval(r, h, accounts, ParseFields(payload)).1)
  {
    var parsed := EmptyPayload;
    for i := 0 to |payload|
      invariant parsed == ParseFields(payload[..i])
    {
      assert payload[..i + 1][..i] == payload[..i];
      match payload[i]
      case Target(target) => parsed := parsed.(target := Some(target));
      case Holder(holder) => parsed := parsed.(holder := Some(holder));
      case Authority(authority) => parsed := parsed.(authority := Some(authority));
      case Amount(amount) => parsed := parsed.(amount := Some(amount));
    }
    assert payload[..|payload|] == payload;
    var status, rollupErr := LlValidate(r, h, accounts, parsed);
    if status {
      result := Ok;
    } else {
      result := Err(Custom(rollupErr));
    }
  }

  /** The seeds a rate-limit account must be derived from. */
  function FrequencySeeds(h: Host, payer: Pubkey, ruleSetName: seq<uint8>, freqName: seq<uint8>): seq<seq<uint8>>
  {
    [h.freqPda, payer, ruleSetName, freqName]
  }

  /** What `assert_rule_pda_derivations` returns. */
  function Derivations(r: Rule, h: Host, payer: Pubkey, ruleSetName: seq<uint8>): ProgramResult
    decreases r, 1
  {
    match r
    case All(rules) => DerivationsAll(rules, h, payer, ruleSetName)
    case Any(rules) => DerivationsAny(rules, h, payer, ruleSetName, None)
    case Frequency(freqName, freqAccount) =>
      var bump := h.assertDerivation(h.programId, freqAccount, FrequencySeeds(h, payer, ruleSetName, freqName));
      if bump.Failure? then Err(bump.error) else Ok
    case _ => Ok
  }

  /** The rest of the `All` loop: the first error, else success. */
  function DerivationsAll(rules: seq<Rule>, h: Host, payer: Pubkey, ruleSetName: seq<uint8>): ProgramResult
    decreases rules, 0
  {
    if rules == [] then Ok
    else
      var res := Derivations(rules[0], h, payer, ruleSetName);
      if res.Err? then res else DerivationsAll(rules[1..], h, payer, ruleSetName)
  }

  /** The rest of the `Any` loop, `error` being the last failure seen so far:
      success at the first child that succeeds, else that last failure, or
      `DataTypeMismatch` when there was no child at all. */
  function DerivationsAny(rules: seq<Rule>, h: Host, payer: Pubkey, ruleSetName: seq<uint8>,
                          error: Option<ProgramResult>): ProgramResult
    decreases rules, 0
  {
    if rules == [] then
      if error.Some? then error.value else Err(Custom(DataTypeMismatch))
    else
      var res := Derivations(rules[0], h, payer, ruleSetName);
      if res.Ok? then Ok else DerivationsAny(rules[1..], h, payer, ruleSetName, Some(res))
  }

  /** `Rule::assert_rule_pda_derivations`. */
  method AssertRulePdaDerivations(r: Rule, h: Host, payer: Pubkey, ruleSetName: seq<uint8>)
    returns (result: ProgramResult)
    ensures result == Derivations(r, h, payer, ruleSetName)
    decreases r
  {
    match r
    case All(rules) =>
      var i := 0;
      while i < |rules|
        invariant 0 <= i <= |rules|
        invariant DerivationsAll(rules[i..], h, payer, ruleSetName) == Derivations(r, h, payer, ruleSetName)
      {
        var res := AssertRulePdaDerivations(rules[i], h, payer, ruleSetName);
        if res.Err? {
          return res;
        }
        assert rules[i..][1..] == rules[i + 1..];
        i := i + 1;
      }
      return Ok;
    case Any(rules) =>
      var error: Option<ProgramResult> := None;
      var i := 0;
      while i < |rules|
        invariant 0 <= i <= |rules|
        invariant DerivationsAny(rules[i..], h, payer, ruleSetName, error) == Derivations(r, h, payer, ruleSetName)
      {
        var res := AssertRulePdaDerivations(rules[i], h, payer, ruleSetName);
        if res.Ok? {
          return Ok;
        }
        error := Some(res);
        assert rules[i..][1..] == rules[i + 1..];
        i := i + 1;
      }
      if error.Some? {
        return error.value;
      }
      return Err(Custom(DataTypeMismatch));
    case Frequency(freqName, freqAccount) =>
      var bump := h.assertDerivation(h.programId, freqAccount, FrequencySeeds(h, payer, ruleSetName, freqName));
      if bump.Failure? {
        return Err(bump.error);
      }
      return Ok;
    case _ =>
      return Ok;
  }
}
