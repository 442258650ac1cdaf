/** The payload handed to a rule evaluation: the list of typed fields the
    caller supplies and the four-slot record they are folded into. */
module Payload {
  import opened Base

  /** Selects the payload entry a leaf rule reads. */
  datatype PayloadKey = Target | Holder | Authority | Amount

  /** One typed entry of the caller's payload list. */
  datatype PayloadField =
    | Target(target: Pubkey)
    | Holder(holder: Pubkey)
    | Authority(authority: Pubkey)
    | Amount(amount: uint64)

  /** The normalised payload: one optional slot per field kind. */
  datatype ParsedPayload = ParsedPayload(
    target: Option<Pubkey>,
    holder: Option<Pubkey>,
    authority: Option<Pubkey>,
    amount: Option<uint64>)

  /** Seed byte-strings for a derived-key check. */
  datatype SeedsVec = SeedsVec(seeds: seq<seq<uint8>>)

  /** A Merkle membership proof: the leaf and its sibling hashes, leaf first. */
  datatype MerkleProof = MerkleProof(leaf: Hash, proof: seq<Hash>)

  /** `ParsedPayload::default()`: every slot empty. */
  const EmptyPayload := ParsedPayload(None, None, None, None)

  /** Stores one field in its slot, overwriting what the slot held. */
  function Store(p: ParsedPayload, f: PayloadField): ParsedPayload
  {
    match f
    case Target(t) => p.(target := Some(t))
    case Holder(h) => p.(holder := Some(h))
    case Authority(a) => p.(authority := Some(a))
    case Amount(n) => p.(amount := Some(n))
  }

  /** The record obtained by storing the fields of `fields` in order into an
      empty payload. */
  function ParseFields(fields: seq<PayloadField>): ParsedPayload
  {
    if fields == [] then EmptyPayload
    else Store(ParseFields(fields[..|fields| - 1]), fields[|fields| - 1])
  }

  /** The key of the slot a field is stored in. */
  function KeyOf(f: PayloadField): PayloadKey
  {
    match f
    case Target(_) => PayloadKey.Target
    case Holder(_) => PayloadKey.Holder
    case Authority(_) => PayloadKey.Authority
    case Amount(_) => PayloadKey.Amount
  }

  /** The content of the slot of key `s`, wrapped back into the field that put it there. */
  function Read(p: ParsedPayload, s: PayloadKey): (r: Option<PayloadField>)
    ensures r.Some? ==> KeyOf(r.value) == s
  {
    match s
    case Target => if p.target.Some? then Some(PayloadField.Target(p.target.value)) else None
    case Holder => if p.holder.Some? then Some(PayloadField.Holder(p.holder.value)) else None
    case Authority => if p.authority.Some? then Some(PayloadField.Authority(p.authority.value)) else None
    case Amount => if p.amount.Some? then Some(PayloadField.Amount(p.amount.value)) else None
  }

  /** Storing a field changes its own slot to that field and no other slot. */
  lemma StoreReadBack(p: ParsedPayload, f: PayloadField, s: PayloadKey)
    ensures Read(Store(p, f), s) == if KeyOf(f) == s then Some(f) else Read(p, s)
  {
  }

  /** Last write wins: a slot is empty exactly when no field of its kind was
      supplied, and otherwise holds the last field of its kind. */
  lemma {:induction false} ParseFieldsLastWriteWins(fields: seq<PayloadField>, s: PayloadKey)
    ensures Read(ParseFields(fields), s).None? <==>
              forall i | 0 <= i < |fields| :: KeyOf(fields[i]) != s
    ensures forall i | 0 <= i < |fields| && KeyOf(fields[i]) == s &&
                       (forall j | i < j < |fields| :: KeyOf(fields[j]) != s) ::
              Read(ParseFields(fields), s) == Some(fields[i])
    ensures Read(ParseFields(fields), s).Some? ==>
              exists i | 0 <= i < |fields| ::
                KeyOf(fields[i]) == s && (forall j | i < j < |fields| :: KeyOf(fields[j]) != s) &&
                Read(ParseFields(fields), s) == Some(fields[i])
  {
    if fields != [] {
      var n := |fields| - 1;
      var init := fields[..n];
      ParseFieldsLastWriteWins(init, s);
      StoreReadBack(ParseFields(init), fields[n], s);
      assert forall i | 0 <= i < n :: init[i] == fields[i];
      if KeyOf(fields[n]) != s && Read(ParseFields(init), s).Some? {
        var i :| 0 <= i < |init| && KeyOf(init[i]) == s &&
                 (forall j | i < j < |init| :: KeyOf(init[j]) != s) &&
                 Read(ParseFields(init), s) == Some(init[i]);
        assert forall j | i < j < |fields| :: KeyOf(fields[j]) != s;
      }
    }
  }
}
