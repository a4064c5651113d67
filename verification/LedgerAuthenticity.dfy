/** What the signatures are for: a member's log holds nothing the coordinator did not seal. */
module LedgerAuthenticity {
  import opened Common
  import opened LedgerCodec
  import opened Ledger

  /** One thing a key was put under: an entry its holder sealed, or an intent it signed as an author. */
  datatype Signing =
    | OfEntry(sessionId: Bytes, entry: Entry)
    | OfIntent(sessionId: Bytes, author: Bytes, kind: EntryKind, payload: Bytes)

  function SignedBytes(x: Signing): Bytes {
    match x
    case OfEntry(sessionId, entry) => EntryPreimage(sessionId, entry)
    case OfIntent(sessionId, author, kind, payload) => IntentPreimage(sessionId, author, kind, payload)
  }

  ghost predicate ShortSigning(x: Signing) {
    x.OfEntry? ==> Short(x.sessionId) && ShortFields(x.entry)
  }

  /** The key accepts a signature only under a digest of something its holder signed. */
  ghost predicate Unforged(c: Crypto, key: PublicKey, signings: seq<Signing>) {
    && (forall x :: x in signings ==> ShortSigning(x))
    && forall digest, signature :: c.accepts(key, digest, signature) ==>
         exists x :: x in signings && digest == c.hash(SignedBytes(x))
  }

  /** The entry hashes like something signed that has other bytes. */
  ghost predicate Collides(c: Crypto, sessionId: Bytes, e: Entry, signings: seq<Signing>) {
    exists x :: x in signings && SignedBytes(x) != EntryPreimage(sessionId, e)
                && c.hash(SignedBytes(x)) == EntryHash(c, sessionId, e)
  }

  /** The holder of the key signed this entry, up to the signature itself. */
  ghost predicate WasSigned(sessionId: Bytes, e: Entry, signings: seq<Signing>) {
    exists x :: x in signings && x.OfEntry? && x.sessionId == sessionId && Covered(x.entry) == Covered(e)
  }

  /** The key accepts the entry's coordinator signature, as far as that can be said of its length. */
  ghost predicate Signed(c: Crypto, key: PublicKey, sessionId: Bytes, e: Entry) {
    && |e.coordinatorSignature| == LEDGER_SIGNATURE_BYTES
    && c.accepts(key, EntryHash(c, sessionId, e), e.coordinatorSignature)
  }

  /** One entry: its coordinator signature holds only if the coordinator sealed it, or it exposes a collision. */
  lemma AcceptedSignatureIsGenuine(c: Crypto, key: PublicKey, sessionId: Bytes, e: Entry, signings: seq<Signing>)
    requires Unforged(c, key, signings) && Short(sessionId) && ShortFields(e)
    requires Signed(c, key, sessionId, e)
    ensures WasSigned(sessionId, e, signings) || Collides(c, sessionId, e, signings)
  {
    var x :| x in signings && EntryHash(c, sessionId, e) == c.hash(SignedBytes(x));
    if SignedBytes(x) == EntryPreimage(sessionId, e) {
      SameBytesSameEntry(x, sessionId, e);
    }
  }

  lemma SameBytesSameEntry(x: Signing, sessionId: Bytes, e: Entry)
    requires ShortSigning(x) && Short(sessionId) && ShortFields(e)
    requires SignedBytes(x) == EntryPreimage(sessionId, e)
    ensures x.OfEntry? && x.sessionId == sessionId && Covered(x.entry) == Covered(e)
  {
    match x
    case OfEntry(s, sealed) => EntryPreimageInjective(s, sealed, sessionId, e);
    case OfIntent(s, author, kind, payload) => DomainsAreSeparate(sessionId, e, s, author, kind, payload);
  }

  /** Every entry in the log carries a signature that the coordinator in force accepts. */
  ghost predicate Vouched(c: Crypto, m: Member) {
    forall e :: e in m.log ==> Signed(c, m.verifier.coordinator, m.verifier.sessionId, e)
  }

  /** Whatever arrives, a member's log stays one that its coordinator vouches for. */
  lemma {:induction false} RunsStayVouched(c: Crypto, m: Member, events: seq<Event>)
    requires Vouched(c, m)
    ensures Vouched(c, WitnessAll(c, m, events))
    decreases |events|
  {
    if events != [] {
      RunsStayVouched(c, Witness(c, m, events[0]), events[1..]);
    }
  }

  /** In the writer's session and epoch its key was put under nothing but what it sealed there. */
  ghost predicate SealedAlone(w: Writer, sealed: seq<Entry>, signings: seq<Signing>) {
    forall x :: x in signings && x.OfEntry? && x.sessionId == w.sessionId && x.entry.epoch == w.epoch ==>
                  x.entry in sealed
  }

  /**
   * A member in the session and epoch of a writer whose key nobody else can sign with; the writer's positions
   * are below the ceiling of 64 bits.
   */
  ghost predicate UnderWriter(c: Crypto, m: Member, w: Writer, changes: seq<Change>, signings: seq<Signing>) {
    && Consistent(c, m) && Vouched(c, m)
    && m.verifier.sessionId == w.sessionId && m.verifier.epoch == w.epoch && Short(w.sessionId)
    && Unforged(c, m.verifier.coordinator, signings)
    && SealedAlone(w, SealAll(c, w, changes).1, signings)
    && w.nextSeq + |changes| <= U64_MAX
  }

  /** Some entry in the log hashes like something else that the coordinator signed. */
  ghost predicate LogCollides(c: Crypto, m: Member, signings: seq<Signing>) {
    exists e :: e in m.log && Collides(c, m.verifier.sessionId, e, signings)
  }

  /** The entry is the one sealed at its position, coordinator signatures aside. */
  ghost predicate SealedAtItsPosition(c: Crypto, w: Writer, changes: seq<Change>, e: Entry) {
    var sealed := SealAll(c, w, changes).1;
    w.nextSeq <= e.seqNo < w.nextSeq + |sealed| && Covered(e) == Covered(sealed[e.seqNo - w.nextSeq])
  }

  /** Below the ceiling an entry's position tells which it is of those sealed. */
  lemma PositionTells(c: Crypto, w: Writer, changes: seq<Change>, e: Entry)
    requires e in SealAll(c, w, changes).1 && w.nextSeq + |changes| <= U64_MAX
    ensures SealedAtItsPosition(c, w, changes, e) && e.seqNo < U64_MAX
  {
    var sealed := SealAll(c, w, changes).1;
    var k :| 0 <= k < |sealed| && sealed[k] == e;
    SealingMovesOn(c, w, changes);
    SealedPositions(c, w, changes, k);
  }

  lemma SameCovered(a: Entry, b: Entry)
    requires Covered(a) == Covered(b)
    ensures a.seqNo == b.seqNo && a.epoch == b.epoch
  {
    assert Covered(a).seqNo == Covered(b).seqNo && Covered(a).epoch == Covered(b).epoch;
  }

  /** Every entry of the log is the entry sealed at its position. */
  lemma LogEntryWasSealed(c: Crypto, m: Member, w: Writer, changes: seq<Change>, signings: seq<Signing>, e: Entry)
    requires UnderWriter(c, m, w, changes, signings) && !LogCollides(c, m, signings) && e in m.log
    ensures SealedAtItsPosition(c, w, changes, e) && e.seqNo < U64_MAX
  {
    AcceptedSignatureIsGenuine(c, m.verifier.coordinator, w.sessionId, e, signings);
    var x :| x in signings && x.OfEntry? && x.sessionId == w.sessionId && Covered(x.entry) == Covered(e);
    SameCovered(x.entry, e);
    PositionTells(c, w, changes, x.entry);
    SamePosition(c, w, changes, x.entry, e);
  }

  lemma SamePosition(c: Crypto, w: Writer, changes: seq<Change>, a: Entry, b: Entry)
    requires SealedAtItsPosition(c, w, changes, a) && a.seqNo == b.seqNo
    ensures SealedAtItsPosition(c, w, changes, b) <==> Covered(a) == Covered(b)
  {
  }

  lemma {:induction false} PositionsRunOn(c: Crypto, sessionId: Bytes, log: seq<Entry>, i: nat)
    requires Chained(c, sessionId, log) && i < |log|
    requires forall e :: e in log ==> e.seqNo < U64_MAX
    ensures log[i].seqNo == log[0].seqNo + i
    decreases i
  {
    if i > 0 {
      PositionsRunOn(c, sessionId, log, i - 1);
      assert Follows(c, sessionId, log[i - 1], log[i]) && log[i - 1] in log;
    }
  }

  /**
   * Authenticity. The log of a member is a contiguous slice of what the coordinator sealed in that epoch, in
   * every field but the coordinator's signature, or it holds an entry that exposes a collision.
   */
  lemma LogIsASliceOfTheSealed(c: Crypto, m: Member, w: Writer, changes: seq<Change>, signings: seq<Signing>)
    requires UnderWriter(c, m, w, changes, signings) && !LogCollides(c, m, signings)
    ensures forall e :: e in m.log ==> SealedAtItsPosition(c, w, changes, e)
    ensures forall i :: 0 <= i < |m.log| ==> m.log[i].seqNo == m.log[0].seqNo + i
  {
    forall e | e in m.log ensures SealedAtItsPosition(c, w, changes, e) && e.seqNo < U64_MAX {
      LogEntryWasSealed(c, m, w, changes, signings, e);
    }
    forall i | 0 <= i < |m.log| ensures m.log[i].seqNo == m.log[0].seqNo + i {
      PositionsRunOn(c, w.sessionId, m.log, i);
    }
  }

  /** So two members of one epoch hold the same entry wherever their positions overlap, wherever their heads are. */
  lemma MembersOfOneEpochAgree(
    c: Crypto, m1: Member, m2: Member, w: Writer, changes: seq<Change>, signings: seq<Signing>, e1: Entry, e2: Entry)
    requires UnderWriter(c, m1, w, changes, signings) && UnderWriter(c, m2, w, changes, signings)
    requires e1 in m1.log && e2 in m2.log && e1.seqNo == e2.seqNo
    ensures Covered(e1) == Covered(e2) || LogCollides(c, m1, signings) || LogCollides(c, m2, signings)
  {
    if !LogCollides(c, m1, signings) && !LogCollides(c, m2, signings) {
      LogEntryWasSealed(c, m1, w, changes, signings, e1);
      LogEntryWasSealed(c, m2, w, changes, signings, e2);
      SamePosition(c, w, changes, e1, e2);
    }
  }

  /** For a member from its first day on, whatever arrives and whomever it follows on the way. */
  lemma {:induction false} EveryRunIsAuthentic(
    c: Crypto, sessionId: Bytes, coordinator: PublicKey, epoch: U64, events: seq<Event>,
    w: Writer, changes: seq<Change>, signings: seq<Signing>)
    requires forall event :: event in events && event.Receive? ==> ShortFields(event.entry)
    requires var v := WitnessAll(c, Member(NewVerifier(sessionId, coordinator, epoch), []), events).verifier;
             && v.sessionId == w.sessionId && v.epoch == w.epoch && Unforged(c, v.coordinator, signings)
    requires Short(w.sessionId) && SealedAlone(w, SealAll(c, w, changes).1, signings)
    requires w.nextSeq + |changes| <= U64_MAX
    ensures var m := WitnessAll(c, Member(NewVerifier(sessionId, coordinator, epoch), []), events);
            LogCollides(c, m, signings) || forall e :: e in m.log ==> SealedAtItsPosition(c, w, changes, e)
  {
    var start := Member(NewVerifier(sessionId, coordinator, epoch), []);
    RunsStayConsistent(c, start, events);
    RunsStayVouched(c, start, events);
    var m := WitnessAll(c, start, events);
    if !LogCollides(c, m, signings) {
      LogIsASliceOfTheSealed(c, m, w, changes, signings);
    }
  }

  // ---------------------------------------------------------------------------
  // The author's half
  // ---------------------------------------------------------------------------

  /** The author's signature is left out, or it is one the author's key accepts over what the entry says. */
  ghost predicate Authored(c: Crypto, sessionId: Bytes, e: Entry) {
    KindFrom(e.kind).Some?
    && (e.authorSignature == []
        || VerifyIntent(c, sessionId, e.author, KindFrom(e.kind).value, e.payload, e.authorSignature))
  }

  /** Whether `error` is a true thing to say about the entry, given where the verifier stands. */
  ghost predicate Fault(c: Crypto, v: Verifier, e: Entry, error: LedgerError) {
    || (e.seqNo == 0 && error == Malformed("seq"))
    || (|e.prevHash| != 32 && error == Malformed("prev_hash"))
    || (e.author == [] && error == Malformed("author_peer_id"))
    || (|e.payload| > 4096 && error == Malformed("payload"))
    || (!(1 <= e.kind <= 4) && error == Malformed("kind"))
    || (e.epoch != v.epoch && error == WrongEpoch(v.epoch, e.epoch))
    || (v.expectedSeq.Some? && e.seqNo != v.expectedSeq.value && error == OutOfOrder(v.expectedSeq.value, e.seqNo))
    || (v.prevHash.Some? && e.prevHash != v.prevHash.value && error == Forked)
    || (KindFrom(e.kind).Some? && !Authored(c, v.sessionId, e) && error == BadAuthorSignature)
    || (|e.coordinatorSignature| != 64 && error == Malformed("coordinator_signature"))
    || (|e.coordinatorSignature| == 64 && !Signed(c, v.coordinator, v.sessionId, e)
        && error == BadCoordinatorSignature)
  }

  /** An entry is taken exactly when there is no fault with it, and else refused truthfully and without a trace. */
  lemma EntriesAreJudged(c: Crypto, v: Verifier, e: Entry)
    ensures match Accept(c, v, e).1
            case Success(_) => forall error :: !Fault(c, v, e, error)
            case Failure(error) => Fault(c, v, e, error) && Accept(c, v, e).0 == v
  {
  }

  /** An entry gets in only with an author's signature that holds, if it has one. */
  lemma AcceptedIsAuthored(c: Crypto, v: Verifier, e: Entry)
    requires Accept(c, v, e).1.Success?
    ensures Authored(c, v.sessionId, e)
  {
    EntriesAreJudged(c, v, e);
    assert !Fault(c, v, e, BadAuthorSignature) && !Fault(c, v, e, Malformed("kind"));
  }

  /** Whatever arrives, every entry of the log has an author's signature that holds, or none. */
  lemma {:induction false} RunsStayAuthored(c: Crypto, m: Member, events: seq<Event>)
    requires forall e :: e in m.log ==> Authored(c, m.verifier.sessionId, e)
    ensures var end := WitnessAll(c, m, events);
            && end.verifier.sessionId == m.verifier.sessionId
            && forall e :: e in end.log ==> Authored(c, end.verifier.sessionId, e)
    decreases |events|
  {
    if events != [] {
      if events[0].Receive? && Accept(c, m.verifier, events[0].entry).1.Success? {
        AcceptedIsAuthored(c, m.verifier, events[0].entry);
      }
      RunsStayAuthored(c, Witness(c, m, events[0]), events[1..]);
    }
  }

  /** Intents whose fields have lengths that 64 bits can name. */
  ghost predicate ShortIntent(x: Signing) {
    x.OfIntent? ==> Short(x.sessionId) && Short(x.author) && Short(x.payload)
  }

  ghost predicate Intended(x: Signing, sessionId: Bytes, e: Entry) {
    && x.OfIntent? && x.sessionId == sessionId
    && x.author == e.author && x.kind.Number() == e.kind && x.payload == e.payload
  }

  /** The author signed its intent to make this very change in this session. */
  ghost predicate WasIntended(sessionId: Bytes, e: Entry, signings: seq<Signing>) {
    exists x :: x in signings && Intended(x, sessionId, e)
  }

  /** Something the author signed has other bytes than its intent and hashes like it. */
  ghost predicate IntentCollides(c: Crypto, sessionId: Bytes, e: Entry, signings: seq<Signing>)
    requires KindFrom(e.kind).Some?
  {
    var intent := OfIntent(sessionId, e.author, KindFrom(e.kind).value, e.payload);
    exists x :: x in signings && SignedBytes(x) != SignedBytes(intent)
                && c.hash(SignedBytes(x)) == c.hash(SignedBytes(intent))
  }

  lemma SameBytesSameIntent(x: Signing, sessionId: Bytes, author: Bytes, kind: EntryKind, payload: Bytes)
    requires ShortIntent(x) && Short(sessionId) && Short(author) && Short(payload)
    requires SignedBytes(x) == SignedBytes(OfIntent(sessionId, author, kind, payload))
    ensures x == OfIntent(sessionId, author, kind, payload)
  {
    match x
    case OfEntry(s, sealed) => DomainsAreSeparate(s, sealed, sessionId, author, kind, payload);
    case OfIntent(s, a, k, p) => IntentPreimageInjective(s, a, k, p, sessionId, author, kind, payload);
  }

  /** One entry: its author's signature holds only if the author meant this change, or it exposes a collision. */
  lemma AuthorSignatureIsGenuine(c: Crypto, sessionId: Bytes, e: Entry, signings: seq<Signing>)
    requires Authored(c, sessionId, e) && e.authorSignature != []
    requires Unforged(c, e.author, signings) && forall x :: x in signings ==> ShortIntent(x)
    requires Short(sessionId) && ShortFields(e)
    ensures |e.author| == 32 && c.isKey(e.author)
    ensures WasIntended(sessionId, e, signings) || IntentCollides(c, sessionId, e, signings)
  {
    var kind := KindFrom(e.kind).value;
    var intent := OfIntent(sessionId, e.author, kind, e.payload);
    assert c.accepts(e.author, c.hash(SignedBytes(intent)), e.authorSignature);
    var x :| x in signings && c.hash(SignedBytes(intent)) == c.hash(SignedBytes(x));
    if SignedBytes(x) == SignedBytes(intent) {
      SameBytesSameIntent(x, sessionId, e.author, kind, e.payload);
      assert Intended(x, sessionId, e);
    }
  }

  /**
   * For a member from its first day on, whatever arrives and whomever it follows: an entry of its log that
   * bears the signature of an author whose key nobody else can use is a change that author meant to make in
   * this session, or it exposes a collision.
   */
  lemma EveryAuthorIsGenuine(
    c: Crypto, sessionId: Bytes, coordinator: PublicKey, epoch: U64, events: seq<Event>, e: Entry,
    signings: seq<Signing>)
    requires forall event :: event in events && event.Receive? ==> ShortFields(event.entry)
    requires e in WitnessAll(c, Member(NewVerifier(sessionId, coordinator, epoch), []), events).log
    requires e.authorSignature != [] && Short(sessionId)
    requires Unforged(c, e.author, signings) && forall x :: x in signings ==> ShortIntent(x)
    ensures KindFrom(e.kind).Some? && |e.author| == 32 && c.isKey(e.author)
    ensures WasIntended(sessionId, e, signings) || IntentCollides(c, sessionId, e, signings)
  {
    var start := Member(NewVerifier(sessionId, coordinator, epoch), []);
    RunsStayConsistent(c, start, events);
    RunsStayAuthored(c, start, events);
    AuthorSignatureIsGenuine(c, sessionId, e, signings);
  }

  /** What a member signs before it asks for a change. */
  function SignIntent(c: Crypto, sessionId: Bytes, secret: SecretKey, kind: EntryKind, payload: Bytes): Change {
    var author := c.publicOf(secret);
    Change(author, kind, payload, c.sign(secret, IntentHash(c, sessionId, author, kind, payload)))
  }

  /** A change its author signed is one that every member accepts once it is sealed. */
  lemma SignedIntentIsAccepted(
    c: Crypto, w: Writer, v: Verifier, secret: SecretKey, kind: EntryKind, payload: Bytes)
    requires Sound(c) && InSync(c, w, v) && |payload| <= MAX_LEDGER_PAYLOAD_BYTES
    requires |c.publicOf(secret)| == 32 && c.isKey(c.publicOf(secret))
    ensures var change := SignIntent(c, w.sessionId, secret, kind, payload);
            && change.authorSignature != []
            && Accept(c, v, Seal(c, w, change).1).1 == Success(())
  {
    SealedIsAccepted(c, w, v, SignIntent(c, w.sessionId, secret, kind, payload));
  }

  /** Wherever a writer resumes, even at no position at all, a member that turns to it takes what it seals first. */
  lemma ResumedIsAccepted(
    c: Crypto, sessionId: Bytes, secret: SecretKey, nextSeq: U64, prevHash: Digest, epoch: U64, change: Change)
    requires Sound(c) && WellFormed(c, sessionId, change)
    ensures var entry := Seal(c, Resume(sessionId, secret, nextSeq, prevHash, epoch), change).1;
            && Accept(c, NewVerifier(sessionId, c.publicOf(secret), epoch), entry).1 == Success(())
            && entry.seqNo == Max(1, nextSeq) && entry.prevHash == prevHash && entry.epoch == epoch
  {
    var w := Resume(sessionId, secret, nextSeq, prevHash, epoch);
    SealedIsAccepted(c, w, NewVerifier(sessionId, c.publicOf(secret), epoch), change);
  }

  /** The entry says what the change said. */
  ghost predicate Carries(e: Entry, change: Change) {
    && e.author == change.author && KindFrom(e.kind) == Some(change.kind)
    && e.payload == change.payload && e.authorSignature == change.authorSignature
  }

  /** Sealing loses and adds nothing: the k-th entry carries the k-th change, under the coordinator's signature. */
  lemma {:induction false} SealedCarries(c: Crypto, w: Writer, changes: seq<Change>, k: nat)
    requires Sound(c) && k < |changes|
    ensures |SealAll(c, w, changes).1| == |changes|
    ensures Carries(SealAll(c, w, changes).1[k], changes[k])
    ensures Signed(c, c.publicOf(w.secret), w.sessionId, SealAll(c, w, changes).1[k])
    decreases |changes|
  {
    SealingMovesOn(c, w, changes);
    if k == 0 {
      SealedHash(c, w, changes[0]);
    } else {
      SealedCarries(c, Seal(c, w, changes[0]).0, changes[1..], k - 1);
    }
  }

  /** So an entry of a member's log that was sealed carries the change asked for, with its author's own signature. */
  lemma LoggedIsWhatWasAsked(c: Crypto, w: Writer, changes: seq<Change>, e: Entry)
    requires Sound(c) && SealedAtItsPosition(c, w, changes, e)
    ensures e.seqNo - w.nextSeq < |changes| && Carries(e, changes[e.seqNo - w.nextSeq])
  {
    SealingMovesOn(c, w, changes);
    SealedCarries(c, w, changes, e.seqNo - w.nextSeq);
    var sealed := SealAll(c, w, changes).1[e.seqNo - w.nextSeq];
    assert Covered(e).author == Covered(sealed).author && Covered(e).kind == Covered(sealed).kind;
    assert Covered(e).payload == Covered(sealed).payload;
    assert Covered(e).authorSignature == Covered(sealed).authorSignature;
  }
}
