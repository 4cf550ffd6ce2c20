/**
 * Borrower registration: sanitise the phone number and SSN, validate the four
 * fields, refuse a duplicate SSN, and create the borrower under the next
 * six-digit card id.
 */
module Borrowers {
  import opened Wrappers
  import opened Text
  import opened Records

  const MaxNameLength: nat := 100
  const MaxAddressLength: nat := 255
  const SsnLength: nat := 9
  const MinPhoneDigits: nat := 7
  const MaxPhoneDigits: nat := 10
  const CardIdWidth: nat := 6

  /** The form fields the validator can reject. */
  datatype Field = Name | Ssn | Address | Phone

  datatype StoreError =
    | Invalid(fields: set<Field>)  // every field whose rules failed
    | DuplicateSsn

  // ---------------------------------------------------------------------------
  // Sanitising

  /**
   * The phone number as stored: the digits of the input, only the last ten
   * when there are more; None when there is no input or it has no digit.
   */
  function SanitizePhone(raw: Option<string>): (phone: Option<string>)
    ensures phone.None? <==> raw.None? || StripNonDigits(raw.value) == []
    ensures phone.Some? ==> AllDigits(phone.value) && 1 <= |phone.value| <= MaxPhoneDigits
    ensures phone.Some? ==>
      var digits := StripNonDigits(raw.value);
      && |phone.value| == (if |digits| > MaxPhoneDigits then MaxPhoneDigits else |digits|)
      && phone.value == digits[|digits| - |phone.value|..]
  {
    if raw.None? then None
    else
      var digits := StripNonDigits(raw.value);
      if digits == [] then None
      else if |digits| > MaxPhoneDigits then Some(digits[|digits| - MaxPhoneDigits..])
      else Some(digits)
  }

  /** A sanitised phone number sanitises to itself. */
  lemma SanitizePhoneIdempotent(raw: Option<string>)
    ensures SanitizePhone(SanitizePhone(raw)) == SanitizePhone(raw)
  {
    var p := SanitizePhone(raw);
    if p.Some? {
      assert StripNonDigits(p.value) == p.value;
    }
  }

  /** The SSN as validated: the digits of the input, None when there are none. */
  function SanitizeSsn(raw: Option<string>): (ssn: Option<string>)
    ensures ssn.None? <==> raw.None? || StripNonDigits(raw.value) == []
    ensures ssn.Some? ==> AllDigits(ssn.value) && ssn.value == StripNonDigits(raw.value)
  {
    if raw.None? then None
    else
      var digits := StripNonDigits(raw.value);
      if digits == [] then None else Some(digits)
  }

  // ---------------------------------------------------------------------------
  // Validation rules

  /** `required|string|max:n` */
  predicate RequiredText(v: Option<string>, maxLength: nat) {
    IsFilled(v) && |v.value| <= maxLength
  }

  /** `required|digits:9` on the sanitised SSN. */
  predicate SsnRule(ssn: Option<string>) {
    ssn.Some? && AllDigits(ssn.value) && |ssn.value| == SsnLength
  }

  /** `nullable|digits_between:7,10` on the sanitised phone. */
  predicate PhoneRule(phone: Option<string>) {
    phone.None? || (AllDigits(phone.value) && MinPhoneDigits <= |phone.value| <= MaxPhoneDigits)
  }

  /** Whether field `f` passes its rules. */
  predicate FieldPasses(f: Field, name: Option<string>, ssn: Option<string>, address: Option<string>,
                        phone: Option<string>) {
    match f
    case Name => RequiredText(name, MaxNameLength)
    case Ssn => SsnRule(ssn)
    case Address => RequiredText(address, MaxAddressLength)
    case Phone => PhoneRule(phone)
  }

  /** The fields that fail validation; the validator reports them all at once. */
  function FailedFields(name: Option<string>, ssn: Option<string>, address: Option<string>,
                        phone: Option<string>): (failed: set<Field>)
    ensures Name in failed <==> !RequiredText(name, MaxNameLength)
    ensures Ssn in failed <==> !SsnRule(ssn)
    ensures Address in failed <==> !RequiredText(address, MaxAddressLength)
    ensures Phone in failed <==> !PhoneRule(phone)
  {
    set f | f in {Name, Ssn, Address, Phone} && !FieldPasses(f, name, ssn, address, phone)
  }

  /**
   * The phone field is accepted exactly when the input has no digit at all or
   * at least seven: longer inputs are cut to their last ten digits, never refused.
   */
  lemma PhoneAccepted(raw: Option<string>)
    ensures PhoneRule(SanitizePhone(raw)) <==>
      raw.None? || |StripNonDigits(raw.value)| == 0 || |StripNonDigits(raw.value)| >= MinPhoneDigits
  {
  }

  /** The SSN field is accepted exactly when the input holds exactly nine digits, whatever else it holds. */
  lemma SsnAccepted(raw: Option<string>)
    ensures SsnRule(SanitizeSsn(raw)) <==> raw.Some? && |StripNonDigits(raw.value)| == SsnLength
  {
  }

  // ---------------------------------------------------------------------------
  // SSN uniqueness and card ids

  predicate SsnTaken(borrowers: seq<Borrower>, ssn: nat) {
    exists i :: 0 <= i < |borrowers| && borrowers[i].ssn == ssn
  }

  /** `MAX(CAST(Card_id AS UNSIGNED))`, with an empty table read as 0. */
  function MaxCardNumber(borrowers: seq<Borrower>): (m: nat)
    ensures forall i :: 0 <= i < |borrowers| ==> CastUnsigned(borrowers[i].cardId) <= m
    ensures m == 0 || exists i :: 0 <= i < |borrowers| && CastUnsigned(borrowers[i].cardId) == m
  {
    if borrowers == [] then 0
    else
      var prefix := borrowers[..|borrowers| - 1];
      var n := CastUnsigned(borrowers[|borrowers| - 1].cardId);
      var m := MaxCardNumber(prefix);
      assert forall i :: 0 <= i < |prefix| ==> borrowers[i] == prefix[i];
      if m >= n then m else n
  }

  /** The next card id: one past the largest numeric card id, zero-padded to six digits. */
  function NextCardId(borrowers: seq<Borrower>): (cardId: string)
    ensures AllDigits(cardId) && |cardId| >= CardIdWidth
    ensures CastUnsigned(cardId) == MaxCardNumber(borrowers) + 1
    ensures forall i :: 0 <= i < |borrowers| ==> CastUnsigned(borrowers[i].cardId) < CastUnsigned(cardId)
    ensures forall i :: 0 <= i < |borrowers| ==> borrowers[i].cardId != cardId
  {
    var n := MaxCardNumber(borrowers) + 1;
    PaddedNumberRoundTrip(n, CardIdWidth);
    PadLeft(NatToString(n), CardIdWidth, '0')
  }

  /** "000001" and "000042" are the padded forms of 1 and 42, so they cast back to 1 and 42. */
  lemma CardNumberExamples()
    ensures CastUnsigned("000001") == 1 && CastUnsigned("000042") == 42
  {
    assert NatToString(1) == "1";
    assert seq(5, _ => '0') + "1" == "000001";
    PaddedNumberRoundTrip(1, CardIdWidth);
    assert NatToString(42) == "42";
    assert seq(4, _ => '0') + "42" == "000042";
    PaddedNumberRoundTrip(42, CardIdWidth);
  }

  lemma MaxCardNumberOfTwo(a: Borrower, b: Borrower)
    ensures MaxCardNumber([a, b]) ==
      if CastUnsigned(a.cardId) >= CastUnsigned(b.cardId) then CastUnsigned(a.cardId) else CastUnsigned(b.cardId)
  {
    assert [a, b][..1] == [a] && [a][..0] == [];
  }

  lemma MaxCardNumberExample()
    ensures MaxCardNumber([Borrower("000001", 111223333, "Ann", "1 Main St", None),
                           Borrower("000042", 444556666, "Bob", "2 Main St", Some(5551234))]) == 42
  {
    CardNumberExamples();
    MaxCardNumberOfTwo(Borrower("000001", 111223333, "Ann", "1 Main St", None),
                       Borrower("000042", 444556666, "Bob", "2 Main St", Some(5551234)));
  }

  lemma PaddedExample()
    ensures PadLeft(NatToString(43), CardIdWidth, '0') == "000043"
  {
    assert NatToString(43) == "43";
    assert seq(4, _ => '0') + "43" == "000043";
  }

  lemma NextCardIdExample()
    ensures NextCardId([Borrower("000001", 111223333, "Ann", "1 Main St", None),
                        Borrower("000042", 444556666, "Bob", "2 Main St", Some(5551234))]) == "000043"
  {
    MaxCardNumberExample();
    PaddedExample();
  }

  // ---------------------------------------------------------------------------
  // store

  /**
   * store: the four form fields as they arrive (`Bname`, `Ssn`, `Address`,
   * `Phone`). On success the borrower is appended and the new card id returned.
   */
  method Store(db: Database, name: Option<string>, ssn: Option<string>, address: Option<string>,
               phone: Option<string>)
    returns (r: Result<string, StoreError>)
    requires db.Valid()
    modifies db
    ensures db.Valid()
    ensures db.loans == old(db.loans) && db.fines == old(db.fines)
    ensures r.Failure? ==> db.borrowers == old(db.borrowers)
    ensures var failed := FailedFields(name, SanitizeSsn(ssn), address, SanitizePhone(phone));
      && (r.Failure? && r.error.Invalid? <==> failed != {})
      && (r.Failure? && r.error.Invalid? ==> r.error.fields == failed)
    ensures FailedFields(name, SanitizeSsn(ssn), address, SanitizePhone(phone)) == {} ==>
      var ssnValue := DigitsValue(SanitizeSsn(ssn).value);
      && (r == Failure(DuplicateSsn) <==> SsnTaken(old(db.borrowers), ssnValue))
      && (r.Success? ==>
            var phoneValue := if SanitizePhone(phone).None? then None else Some(DigitsValue(SanitizePhone(phone).value));
            && r.value == NextCardId(old(db.borrowers))
            && db.borrowers == old(db.borrowers) + [Borrower(r.value, ssnValue, name.value, address.value, phoneValue)])
  {
    var phoneDigits := SanitizePhone(phone);
    var ssnDigits := SanitizeSsn(ssn);
    var failed := FailedFields(name, ssnDigits, address, phoneDigits);
    if failed != {} {
      return Failure(Invalid(failed));
    }

    var ssnValue := DigitsValue(ssnDigits.value);
    if SsnTaken(db.borrowers, ssnValue) {
      return Failure(DuplicateSsn);
    }

    var cardId := NextCardId(db.borrowers);
    var phoneValue := if phoneDigits.None? then None else Some(DigitsValue(phoneDigits.value));
    var borrower := Borrower(cardId, ssnValue, name.value, address.value, phoneValue);
    NewBorrowerKeepsKeys(db.borrowers, borrower);
    db.borrowers := db.borrowers + [borrower];
    r := Success(cardId);
  }

  /** A new borrower under the next card id and an untaken SSN keeps card ids and SSNs unique. */
  lemma NewBorrowerKeepsKeys(borrowers: seq<Borrower>, borrower: Borrower)
    requires UniqueCardIds(borrowers) && UniqueSsns(borrowers)
    requires borrower.cardId == NextCardId(borrowers) && !SsnTaken(borrowers, borrower.ssn)
    ensures UniqueCardIds(borrowers + [borrower]) && UniqueSsns(borrowers + [borrower])
  {
    var after := borrowers + [borrower];
    forall i, j | 0 <= i < j < |after|
      ensures after[i].cardId != after[j].cardId && after[i].ssn != after[j].ssn
    {
      assert after[i] == borrowers[i];
      if j < |borrowers| {
        assert after[j] == borrowers[j];
      } else {
        assert after[j] == borrower;
      }
    }
  }
}
