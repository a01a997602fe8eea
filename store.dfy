/** Early-access sign-up (`POST /api/early-access`), contact intake
    (`POST /api/contact`) and the statistics read (`GET /api/stats`) over the
    document store. The store holds two append-only collections, `earlyaccess`
    and `contact`; every inserted record gets an identifier no other record
    has. When no store is configured, reads see nothing and inserts fail. */
module Store {
  import opened Wrappers
  import opened Stats

  /** The body of an early-access request; the email is already validated. */
  datatype EarlyAccessRequest = EarlyAccessRequest(email: string, source: Option<string>, ref: Option<string>)

  /** The body of a contact request; the email is already validated and the
      message may be empty. */
  datatype ContactRequest = ContactRequest(
    name: Option<string>, email: string, subject: Option<string>, message: string, source: Option<string>)

  /** A stored `earlyaccess` document with its store-assigned identifier. */
  datatype EarlyAccess = EarlyAccess(id: nat, email: string, source: Option<string>, ref: Option<string>)

  /** A stored `contact` document with its store-assigned identifier. */
  datatype Contact = Contact(
    id: nat, name: Option<string>, email: string, subject: Option<string>, message: string, source: Option<string>)

  /** Why an insert fails: no store is configured. */
  datatype StoreError = StoreUnavailable

  const AlreadySignedUpMessage: string := "Already signed up"

  /** A successful sign-up response: either the email was already there, or
      a record was created under `id`. */
  datatype SignupReply = AlreadySignedUp(message: string, email: string) | Created(id: nat)

  /** Some record of `records` has exactly this email (no case folding). */
  predicate HasEmail(records: seq<EarlyAccess>, email: string) {
    exists i :: 0 <= i < |records| && records[i].email == email
  }

  /** No email occurs twice among `records`. */
  predicate EmailsUnique(records: seq<EarlyAccess>) {
    forall i, j :: 0 <= i < j < |records| ==> records[i].email != records[j].email
  }

  /** Appending an email that is not there yet keeps emails unique. */
  lemma AppendNewEmailKeepsUnique(records: seq<EarlyAccess>, r: EarlyAccess)
    requires EmailsUnique(records) && !HasEmail(records, r.email)
    ensures EmailsUnique(records + [r])
  {
    var s := records + [r];
    forall i, j | 0 <= i < j < |s| ensures s[i].email != s[j].email {
      if j == |records| {
        assert s[i] == records[i];
      } else {
        assert s[i] == records[i] && s[j] == records[j];
      }
    }
  }

  /** The document store. `configured` stands for the module-wide handle being
      present; it is fixed when the service starts. */
  class Database {
    const configured: bool
    var earlyaccess: seq<EarlyAccess>
    var contact: seq<Contact>
    /** The next identifier the store hands out. */
    var nextId: nat

    /** Every identifier in use is below `nextId`, and no two records share one. */
    ghost predicate Valid()
      reads this
    {
      (forall i :: 0 <= i < |earlyaccess| ==> earlyaccess[i].id < nextId) &&
      (forall i :: 0 <= i < |contact| ==> contact[i].id < nextId) &&
      (forall i, j :: 0 <= i < j < |earlyaccess| ==> earlyaccess[i].id != earlyaccess[j].id) &&
      (forall i, j :: 0 <= i < j < |contact| ==> contact[i].id != contact[j].id) &&
      (forall i, j :: 0 <= i < |earlyaccess| && 0 <= j < |contact| ==> earlyaccess[i].id != contact[j].id)
    }

    /** The identifiers of all stored records. */
    ghost function Ids(): set<nat>
      reads this
    {
      (set i | 0 <= i < |earlyaccess| :: earlyaccess[i].id) +
      (set i | 0 <= i < |contact| :: contact[i].id)
    }

    constructor (configured: bool)
      ensures Valid()
      ensures this.configured == configured
      ensures earlyaccess == [] && contact == [] && nextId == 0
    {
      this.configured := configured;
      earlyaccess := [];
      contact := [];
      nextId := 0;
    }

    /** An identifier in use is below `nextId`, so `nextId` is fresh. */
    lemma NextIdFresh()
      requires Valid()
      ensures nextId !in Ids()
    {
    }

    /** `create_document("earlyaccess", ...)`: appends a record under a fresh
        identifier, or fails when no store is configured. */
    method CreateEarlyAccess(email: string, source: Option<string>, ref: Option<string>)
      returns (r: Result<nat, StoreError>)
      requires Valid()
      modifies this
      ensures Valid()
      ensures contact == old(contact)
      ensures !configured ==> r == Err(StoreUnavailable) && earlyaccess == old(earlyaccess) && nextId == old(nextId)
      ensures configured ==> r.Ok? && r.value !in old(Ids())
      ensures configured ==> earlyaccess == old(earlyaccess) + [EarlyAccess(r.value, email, source, ref)]
    {
      if !configured {
        return Err(StoreUnavailable);
      }
      NextIdFresh();
      var id := nextId;
      earlyaccess := earlyaccess + [EarlyAccess(id, email, source, ref)];
      nextId := nextId + 1;
      r := Ok(id);
    }

    /** `create_document("contact", ...)`: appends a record under a fresh
        identifier, or fails when no store is configured. */
    method CreateContact(c: ContactRequest) returns (r: Result<nat, StoreError>)
      requires Valid()
      modifies this
      ensures Valid()
      ensures earlyaccess == old(earlyaccess)
      ensures !configured ==> r == Err(StoreUnavailable) && contact == old(contact) && nextId == old(nextId)
      ensures configured ==> r.Ok? && r.value !in old(Ids())
      ensures configured ==>
        contact == old(contact) + [Contact(r.value, c.name, c.email, c.subject, c.message, c.source)]
    {
      if !configured {
        return Err(StoreUnavailable);
      }
      NextIdFresh();
      var id := nextId;
      contact := contact + [Contact(id, c.name, c.email, c.subject, c.message, c.source)];
      nextId := nextId + 1;
      r := Ok(id);
    }

    /** `signup_early_access`: look the email up; if a record has it, answer
        "Already signed up" and write nothing; otherwise insert a record.
        Without a store the lookup is skipped and the insert fails. */
    method SignupEarlyAccess(payload: EarlyAccessRequest) returns (r: Result<SignupReply, StoreError>)
      requires Valid()
      modifies this
      ensures Valid()
      ensures contact == old(contact)
      ensures !configured ==>
        r == Err(StoreUnavailable) && earlyaccess == old(earlyaccess) && nextId == old(nextId)
      ensures configured && HasEmail(old(earlyaccess), payload.email) ==>
        r == Ok(AlreadySignedUp(AlreadySignedUpMessage, payload.email))
        && earlyaccess == old(earlyaccess) && nextId == old(nextId)
      ensures configured && !HasEmail(old(earlyaccess), payload.email) ==>
        r.Ok? && r.value.Created? && r.value.id !in old(Ids())
        && earlyaccess == old(earlyaccess) + [EarlyAccess(r.value.id, payload.email, payload.source, payload.ref)]
      ensures EmailsUnique(old(earlyaccess)) ==> EmailsUnique(earlyaccess)
    {
      var existing := configured && HasEmail(earlyaccess, payload.email);
      if existing {
        return Ok(AlreadySignedUp(AlreadySignedUpMessage, payload.email));
      }
      ghost var before := earlyaccess;
      var inserted := CreateEarlyAccess(payload.email, payload.source, payload.ref);
      match inserted
      case Err(e) =>
        r := Err(e);
      case Ok(id) =>
        r := Ok(Created(id));
        if EmailsUnique(before) {
          AppendNewEmailKeepsUnique(before, EarlyAccess(id, payload.email, payload.source, payload.ref));
        }
    }

    /** `submit_contact`: insert the payload as a new record, unconditionally. */
    method SubmitContact(payload: ContactRequest) returns (r: Result<nat, StoreError>)
      requires Valid()
      modifies this
      ensures Valid()
      ensures earlyaccess == old(earlyaccess)
      ensures !configured ==> r == Err(StoreUnavailable) && contact == old(contact) && nextId == old(nextId)
      ensures configured ==> r.Ok? && r.value !in old(Ids())
      ensures configured ==> contact == old(contact) + [Contact(
        r.value, payload.name, payload.email, payload.subject, payload.message, payload.source)]
    {
      r := CreateContact(payload);
    }

    /** `get_stats`: the sign-up count against the cap; with no store the
        count is taken as zero rather than failing. */
    function GetStats(): (s: Stats)
      reads this
      ensures s.cap == Cap
      ensures s.totalOptedIn == if configured then |earlyaccess| else 0
      ensures !configured ==> s.spotsLeft == Cap
      ensures s.spotsLeft == StatsFor(s.totalOptedIn).spotsLeft
    {
      StatsFor(if configured then |earlyaccess| else 0)
    }
  }

  /** Signing up twice with a new email creates one record, then reports it
      as already signed up: the collection grows by exactly one. */
  method SignupTwice(db: Database, payload: EarlyAccessRequest)
    returns (first: Result<SignupReply, StoreError>, second: Result<SignupReply, StoreError>)
    requires db.Valid() && db.configured && !HasEmail(db.earlyaccess, payload.email)
    modifies db
    ensures db.Valid()
    ensures first.Ok? && first.value.Created?
    ensures second == Ok(AlreadySignedUp(AlreadySignedUpMessage, payload.email))
    ensures db.earlyaccess == old(db.earlyaccess) + [EarlyAccess(first.value.id, payload.email, payload.source, payload.ref)]
    ensures db.contact == old(db.contact)
    ensures db.GetStats().totalOptedIn == old(db.GetStats().totalOptedIn) + 1
  {
    first := db.SignupEarlyAccess(payload);
    assert db.earlyaccess[|db.earlyaccess| - 1].email == payload.email;
    second := db.SignupEarlyAccess(payload);
  }

  /** Submitting the same contact payload twice stores two records, under two
      different identifiers. */
  method ContactTwice(db: Database, payload: ContactRequest)
    returns (first: Result<nat, StoreError>, second: Result<nat, StoreError>)
    requires db.Valid() && db.configured
    modifies db
    ensures db.Valid()
    ensures first.Ok? && second.Ok? && first.value != second.value
    ensures db.contact == old(db.contact) + [
      Contact(first.value, payload.name, payload.email, payload.subject, payload.message, payload.source),
      Contact(second.value, payload.name, payload.email, payload.subject, payload.message, payload.source)]
    ensures db.earlyaccess == old(db.earlyaccess)
  {
    first := db.SubmitContact(payload);
    assert first.value in db.Ids() by {
      assert db.contact[|db.contact| - 1].id == first.value;
    }
    second := db.SubmitContact(payload);
  }
}
