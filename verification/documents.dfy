/** The document verification update (`PUT /documents/{doc_id}`): a request
    sets a document's `verified` flag; verifying a document that has no
    verification date stamps it with the current time and the verifier, and
    unverifying clears both. */
module Documents {
  import opened Wrappers

  /** A point in time; the handler's clock reading is passed in as one. */
  type Timestamp = int

  /** The verification fields of a document record, as a value. */
  datatype Verification = Verification(
    verified: bool,
    verificationDate: Option<Timestamp>,
    verifiedBy: Option<string>)

  /** The request body: the requested flag and who verifies. */
  datatype DocumentUpdate = DocumentUpdate(verified: bool, verifiedBy: Option<string>)

  /** The response status: 204 after an update, 404 for an unknown id. */
  datatype Status = NoContent | NotFound

  /** The verification fields agree: a document is verified exactly when it
      has a verification date, and an unverified one has no verifier. */
  predicate Consistent(v: Verification)
  {
    (v.verified <==> v.verificationDate.Some?) && (!v.verified ==> v.verifiedBy.None?)
  }

  /** The verification fields after an update at time `now`. The flag takes the
      requested value. The first verification records `now` and the verifier, a
      repeated one keeps the date and verifier already recorded, and
      unverifying clears both. Whatever the fields were before, they agree
      afterwards. */
  function Transition(v: Verification, u: DocumentUpdate, now: Timestamp): (w: Verification)
    ensures w.verified == u.verified
    ensures Consistent(w)
    ensures u.verified && v.verificationDate.None? ==> w.verificationDate == Some(now) && w.verifiedBy == u.verifiedBy
    ensures u.verified && v.verificationDate.Some? ==> w.verificationDate == v.verificationDate && w.verifiedBy == v.verifiedBy
    ensures !u.verified ==> w.verificationDate.None? && w.verifiedBy.None?
  {
    if u.verified && v.verificationDate.None? then
      Verification(true, Some(now), u.verifiedBy)
    else if !u.verified then
      Verification(false, None, None)
    else
      Verification(true, v.verificationDate, v.verifiedBy)
  }

  /** Sending the same update again, at any later time, changes nothing. */
  lemma TransitionIdempotent(v: Verification, u: DocumentUpdate, now: Timestamp, later: Timestamp)
    ensures Transition(Transition(v, u, now), u, later) == Transition(v, u, now)
  {
  }

  /** The first verification is the one on record: verifying again, by anyone
      and at any time, keeps its date and verifier. */
  lemma FirstVerificationKept(v: Verification, first: DocumentUpdate, again: DocumentUpdate,
                              now: Timestamp, later: Timestamp)
    requires first.verified && again.verified
    ensures Transition(Transition(v, first, now), again, later).verificationDate
            == Transition(v, first, now).verificationDate
    ensures Transition(Transition(v, first, now), again, later).verifiedBy
            == Transition(v, first, now).verifiedBy
  {
  }

  /** A document record; the update changes its verification fields in place. */
  class Document {
    var id: int
    var title: string
    var verified: bool
    var verificationDate: Option<Timestamp>
    var verifiedBy: Option<string>

    /** The verification fields as a value. */
    function State(): Verification
      reads this
    {
      Verification(verified, verificationDate, verifiedBy)
    }

    /** A new record: not verified, no date, no verifier. */
    constructor(id: int, title: string)
      ensures this.id == id && this.title == title
      ensures State() == Verification(false, None, None) && Consistent(State())
    {
      this.id := id;
      this.title := title;
      verified := false;
      verificationDate := None;
      verifiedBy := None;
    }

    /** The assignments of the handler on the fetched record: the verification
        fields take their values after the transition, and the id and title
        stay as they were. */
    method ApplyUpdate(u: DocumentUpdate, now: Timestamp)
      modifies this
      ensures State() == Transition(old(State()), u, now)
      ensures id == old(id) && title == old(title)
    {
      verified := u.verified;
      if u.verified && verificationDate.None? {
        verificationDate := Some(now);
        verifiedBy := u.verifiedBy;
      } else if !u.verified {
        verificationDate := None;
        verifiedBy := None;
      }
    }
  }

  /** `update_document`: look the id up among the stored records; an unknown id
      is a 404 and no record changes, otherwise that record is updated and the
      answer is a 204. */
  method UpdateDocument(docs: map<int, Document>, docId: int, u: DocumentUpdate, now: Timestamp)
    returns (status: Status)
    modifies if docId in docs then {docs[docId]} else {}
    ensures docId !in docs ==> status == NotFound
    ensures docId in docs ==>
              status == NoContent &&
              docs[docId].State() == Transition(old(docs[docId].State()), u, now) &&
              docs[docId].id == old(docs[docId].id) && docs[docId].title == old(docs[docId].title)
    ensures forall k :: k in docs && (docId !in docs || docs[k] != docs[docId]) ==> unchanged(docs[k])
  {
    if docId !in docs {
      return NotFound;
    }
    docs[docId].ApplyUpdate(u, now);
    return NoContent;
  }
}
