/**
 * Client creation: an ordered list of checks on the submitted strings, the
 * replacement of blank optional fields by NULL, and the insert of one new
 * row into the Client table under a freshly drawn identity.
 */
module ClientService {
  import opened Wrappers
  import opened Store

  /** The submitted client; every string may be null. */
  datatype ClientInput = ClientInput(firstName: Option<string>, lastName: Option<string>, email: Option<string>,
                                     telephone: Option<string>, pesel: Option<string>)

  /** The argument errors, one per check, in the order the checks run. */
  datatype InvalidInput = MissingFirstName | MissingLastName | MissingEmail | MalformedEmail | PeselLength

  /** The number of characters a PESEL has. */
  const PeselDigits := 11

  /**
   * .NET's Char.IsWhiteSpace: the Unicode space, line and paragraph
   * separators, the controls U+0009 to U+000D, and U+0085.
   */
  predicate IsWhiteSpace(c: char) {
    var n := c as int;
    (0x09 <= n <= 0x0D) || n == 0x20 || n == 0x85 || n == 0xA0 || n == 0x1680
    || (0x2000 <= n <= 0x200A) || n == 0x2028 || n == 0x2029 || n == 0x202F || n == 0x205F || n == 0x3000
  }

  /** String.IsNullOrWhiteSpace: null, empty, or white space only. */
  predicate IsNullOrWhiteSpace(s: Option<string>) {
    s.None? || forall i :: 0 <= i < |s.value| ==> IsWhiteSpace(s.value[i])
  }

  /** The checks, in the order they run; the first that fails decides the error. */
  function Validate(input: ClientInput): (r: Outcome<InvalidInput>)
    ensures r.Pass? ==> input.firstName.Some? && input.lastName.Some? && input.email.Some?
    ensures r.Pass? ==> '@' in input.email.value
    ensures r.Pass? ==> input.pesel.Some? ==> |input.pesel.value| == PeselDigits
  {
    if IsNullOrWhiteSpace(input.firstName) then Fail(MissingFirstName)
    else if IsNullOrWhiteSpace(input.lastName) then Fail(MissingLastName)
    else if IsNullOrWhiteSpace(input.email) then Fail(MissingEmail)
    else if '@' !in input.email.value then Fail(MalformedEmail)
    else if input.pesel.Some? && |input.pesel.value| != PeselDigits then Fail(PeselLength)
    else Pass
  }

  /** The value bound to a nullable column: NULL for a blank string, the string itself otherwise. */
  function NullIfBlank(s: Option<string>): (r: Option<string>)
    ensures r.None? <==> IsNullOrWhiteSpace(s)
    ensures r.Some? ==> r == s
  {
    if IsNullOrWhiteSpace(s) then None else s
  }

  /** The row inserted for a validated input. */
  function ClientRow(input: ClientInput): Client
    requires Validate(input).Pass?
  {
    Client(input.firstName.value, input.lastName.value, input.email.value,
           NullIfBlank(input.telephone), NullIfBlank(input.pesel))
  }

  /** Validation, then the insert that returns the new row's identity. */
  function Create(s: Tables, input: ClientInput): (r: Transition<Result<int, InvalidInput>>)
    ensures r.result.Failure? <==> Validate(input).Fail?
    ensures r.result.Failure? ==> r.after == s && Validate(input) == Fail(r.result.error)
    ensures r.after.trips == s.trips && r.after.registrations == s.registrations
  {
    match Validate(input)
    case Fail(e) => Transition(s, Failure(e))
    case Pass =>
      var id := s.nextClientId;
      Transition(s.(clients := s.clients[id := ClientRow(input)], nextClientId := id + 1), Success(id))
  }

  /** An input passes exactly when every check does. */
  lemma ValidateAcceptsExactly(input: ClientInput)
    ensures Validate(input).Pass? ==
              (!IsNullOrWhiteSpace(input.firstName) && !IsNullOrWhiteSpace(input.lastName)
               && !IsNullOrWhiteSpace(input.email) && '@' in input.email.value
               && (input.pesel.Some? ==> |input.pesel.value| == PeselDigits))
  {
  }

  /** A blank first name is reported whatever else is wrong; a blank last name whenever the first name is fine. */
  lemma ValidateNamesFirst(input: ClientInput)
    ensures IsNullOrWhiteSpace(input.firstName) ==> Validate(input) == Fail(MissingFirstName)
    ensures (!IsNullOrWhiteSpace(input.firstName) && IsNullOrWhiteSpace(input.lastName))
              ==> Validate(input) == Fail(MissingLastName)
  {
  }

  /** With the names present, a blank e-mail is missing, and a non-blank one without '@' is malformed. */
  lemma ValidateEmail(input: ClientInput)
    requires !IsNullOrWhiteSpace(input.firstName) && !IsNullOrWhiteSpace(input.lastName)
    ensures IsNullOrWhiteSpace(input.email) ==> Validate(input) == Fail(MissingEmail)
    ensures !IsNullOrWhiteSpace(input.email) ==> (Validate(input) == Fail(MalformedEmail) <==> '@' !in input.email.value)
  {
  }

  /**
   * Past the name and e-mail checks, the PESEL check fails exactly for a
   * non-null PESEL whose length is not 11, the empty string included; a null
   * PESEL passes.
   */
  lemma ValidatePesel(input: ClientInput)
    requires !IsNullOrWhiteSpace(input.firstName) && !IsNullOrWhiteSpace(input.lastName)
    requires !IsNullOrWhiteSpace(input.email) && '@' in input.email.value
    ensures (Validate(input) == Fail(PeselLength)) == (input.pesel.Some? && |input.pesel.value| != PeselDigits)
    ensures input.pesel == None ==> Validate(input) == Pass
  {
  }

  /** Blank-to-NULL is idempotent and never binds a blank string. */
  lemma NullIfBlankIdempotent(s: Option<string>)
    ensures NullIfBlank(NullIfBlank(s)) == NullIfBlank(s)
    ensures !IsNullOrWhiteSpace(NullIfBlank(s)) || NullIfBlank(s) == None
  {
  }

  /**
   * A successful create draws the identity counter, which no row uses yet,
   * adds exactly that one row (names and e-mail verbatim, blank optional
   * fields as NULL), and keeps the counter ahead of every key.
   */
  lemma CreateAddsOneFreshClient(s: Tables, input: ClientInput)
    requires IdentityAhead(s)
    requires Create(s, input).result.Success?
    ensures Create(s, input).result.value !in s.clients
    ensures Create(s, input).after.clients == s.clients[Create(s, input).result.value := ClientRow(input)]
    ensures |Create(s, input).after.clients| == |s.clients| + 1
    ensures IdentityAhead(Create(s, input).after)
  {
  }

  /** Creating a client keeps pair uniqueness, capacity, referential integrity and the identity counter ahead. */
  lemma CreatePreservesConsistency(s: Tables, input: ClientInput)
    requires Consistent(s)
    ensures Consistent(Create(s, input).after)
  {
  }

  /**
   * A PESEL of eleven white-space characters has the right length, so an
   * input that passes the other checks is accepted, yet the stored PESEL is
   * NULL: the length check runs on the raw string, the blank check only when
   * the row is written.
   */
  lemma BlankPeselStoredAsNull(s: Tables, input: ClientInput, p: string)
    requires !IsNullOrWhiteSpace(input.firstName) && !IsNullOrWhiteSpace(input.lastName)
    requires !IsNullOrWhiteSpace(input.email) && '@' in input.email.value
    requires input.pesel == Some(p) && |p| == PeselDigits
    requires forall i :: 0 <= i < |p| ==> IsWhiteSpace(p[i])
    ensures Validate(input) == Pass && ClientRow(input).pesel == None
    ensures Create(s, input).result == Success(s.nextClientId)
    ensures Create(s, input).after.clients[s.nextClientId].pesel == None
  {
  }

  /** Eleven U+0020 spaces as the PESEL of an otherwise valid client. */
  lemma BlankPeselExample()
    ensures var input := ClientInput(Some("Jan"), Some("Kowalski"), Some("jan@example.com"), None, Some("           "));
            Validate(input) == Pass && ClientRow(input).pesel == None
  {
    var input := ClientInput(Some("Jan"), Some("Kowalski"), Some("jan@example.com"), None, Some("           "));
    assert "Jan"[0] == 'J';
    assert "Kowalski"[0] == 'K';
    assert "jan@example.com"[3] == '@';
    assert |"           "| == 11;
  }

  /** The services' view of one database. */
  class ClientService {
    const db: Database

    constructor (db: Database)
      ensures this.db == db
    {
      this.db := db;
    }

    /**
     * Validates the input, then inserts one client row and returns its new
     * identity. `Create` is its specification, step for step.
     */
    method CreateClient(input: ClientInput) returns (result: Result<int, InvalidInput>)
      requires IdentityAhead(db.Snapshot())
      modifies db`clients, db`nextClientId
      ensures Transition(db.Snapshot(), result) == Create(old(db.Snapshot()), input)
      ensures IdentityAhead(db.Snapshot())
      ensures result.Success? ==> result.value !in old(db.clients)
    {
      match Validate(input) {
        case Fail(e) =>
          return Failure(e);
        case Pass =>
      }
      var newId := db.nextClientId;
      db.clients := db.clients[newId := ClientRow(input)];
      db.nextClientId := newId + 1;
      return Success(newId);
    }
  }
}
