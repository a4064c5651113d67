/** The hash-chained ledger: what sealing and accepting mean, and what runs of both agree on. */
module Ledger {
  import opened Common
  import opened LedgerCodec

  type SecretKey = Bytes
  type PublicKey = Bytes
  type Digest = d: Bytes | |d| == LEDGER_HASH_BYTES witness Zeros(LEDGER_HASH_BYTES)
  type Signature = s: Bytes | |s| == LEDGER_SIGNATURE_BYTES witness Zeros(LEDGER_SIGNATURE_BYTES)

  const GENESIS_PREV_HASH: Digest := Zeros(LEDGER_HASH_BYTES)

  /** The primitives, as parameters: any hash, any signature scheme, any notion of a well-formed key. */
  datatype Crypto = Crypto(
    hash: Bytes -> Digest,
    sign: (SecretKey, Digest) -> Signature,
    accepts: (PublicKey, Digest, Signature) -> bool,
    publicOf: SecretKey -> PublicKey,
    isKey: Bytes -> bool)

  /** All that is asked of signing: what a secret signs, its public key accepts. */
  ghost predicate Sound(c: Crypto) {
    forall secret, digest :: c.accepts(c.publicOf(secret), digest, c.sign(secret, digest))
  }

  datatype LedgerError =
    | Malformed(field: string)
    | OutOfOrder(expected: U64, foundSeq: U64)
    | Forked
    | BadCoordinatorSignature
    | BadAuthorSignature
    | WrongEpoch(current: U64, found: U64)

  function EntryHash(c: Crypto, sessionId: Bytes, e: Entry): Digest {
    c.hash(EntryPreimage(sessionId, e))
  }

  function IntentHash(c: Crypto, sessionId: Bytes, author: Bytes, kind: EntryKind, payload: Bytes): Digest {
    c.hash(IntentPreimage(sessionId, author, kind, payload))
  }

  predicate VerifyIntent(
    c: Crypto, sessionId: Bytes, author: Bytes, kind: EntryKind, payload: Bytes, authorSignature: Bytes)
  {
    && |author| == 32 && c.isKey(author)
    && |authorSignature| == LEDGER_SIGNATURE_BYTES
    && c.accepts(author, IntentHash(c, sessionId, author, kind, payload), authorSignature)
  }

  // ---------------------------------------------------------------------------
  // The writer
  // ---------------------------------------------------------------------------

  datatype Writer = Writer(sessionId: Bytes, secret: SecretKey, nextSeq: U64, prevHash: Digest, epoch: U64)

  /** One change to seal, as the coordinator receives it. */
  datatype Change = Change(author: Bytes, kind: EntryKind, payload: Bytes, authorSignature: Bytes)

  function NewWriter(sessionId: Bytes, secret: SecretKey): Writer {
    Writer(sessionId, secret, 1, GENESIS_PREV_HASH, 0)
  }

  function Resume(sessionId: Bytes, secret: SecretKey, nextSeq: U64, prevHash: Digest, epoch: U64): Writer {
    Writer(sessionId, secret, if nextSeq == 0 then 1 else nextSeq, prevHash, epoch)
  }

  function Unsigned(w: Writer, change: Change): Entry {
    Entry(w.nextSeq, w.prevHash, change.author, change.kind.Number(), change.payload,
          change.authorSignature, [], w.epoch)
  }

  function Seal(c: Crypto, w: Writer, change: Change): (Writer, Entry) {
    var entry := Unsigned(w, change);
    var hash := EntryHash(c, w.sessionId, entry);
    (w.(nextSeq := SaturatingSucc(w.nextSeq), prevHash := hash),
     entry.(coordinatorSignature := c.sign(w.secret, hash)))
  }

  // ---------------------------------------------------------------------------
  // The verifier
  // ---------------------------------------------------------------------------

  datatype Verifier = Verifier(
    sessionId: Bytes,
    coordinator: PublicKey,
    expectedSeq: Option<U64>,
    prevHash: Option<Digest>,
    epoch: U64)

  function NewVerifier(sessionId: Bytes, coordinator: PublicKey, epoch: U64): Verifier {
    Verifier(sessionId, coordinator, None, None, epoch)
  }

  function Head(v: Verifier): (U64, Digest) {
    (if v.expectedSeq.Some? then v.expectedSeq.value else 1,
     if v.prevHash.Some? then v.prevHash.value else GENESIS_PREV_HASH)
  }

  function Check(c: Crypto, v: Verifier, e: Entry): Result<Digest, LedgerError> {
    var kind := KindFrom(e.kind);
    :- Need(e.seqNo != 0, Malformed("seq"));
    :- Need(|e.prevHash| == LEDGER_HASH_BYTES, Malformed("prev_hash"));
    :- Need(e.author != [], Malformed("author_peer_id"));
    :- Need(|e.payload| <= MAX_LEDGER_PAYLOAD_BYTES, Malformed("payload"));
    :- Need(kind.Some?, Malformed("kind"));
    :- Need(e.epoch == v.epoch, WrongEpoch(v.epoch, e.epoch));
    :- Need(v.expectedSeq.Some? ==> e.seqNo == v.expectedSeq.value,
            OutOfOrder(if v.expectedSeq.Some? then v.expectedSeq.value else 0, e.seqNo));
    :- Need(v.prevHash.Some? ==> e.prevHash == v.prevHash.value, Forked);
    :- Need(e.authorSignature == []
            || VerifyIntent(c, v.sessionId, e.author, kind.value, e.payload, e.authorSignature),
            BadAuthorSignature);
    var hash := EntryHash(c, v.sessionId, e);
    :- Need(|e.coordinatorSignature| == LEDGER_SIGNATURE_BYTES, Malformed("coordinator_signature"));
    :- Need(c.accepts(v.coordinator, hash, e.coordinatorSignature), BadCoordinatorSignature);
    Success(hash)
  }

  /** Moves past the entry when the check passes, and only then. */
  function Accept(c: Crypto, v: Verifier, e: Entry): (Verifier, Result<(), LedgerError>) {
    match Check(c, v, e)
    case Failure(error) => (v, Failure(error))
    case Success(hash) => (v.(expectedSeq := Some(SaturatingSucc(e.seqNo)), prevHash := Some(hash)), Success(()))
  }

  function Rotate(v: Verifier, coordinator: PublicKey, epoch: U64): (Verifier, Result<(), LedgerError>) {
    if epoch <= v.epoch then (v, Failure(WrongEpoch(v.epoch, epoch)))
    else (Verifier(v.sessionId, coordinator, None, None, epoch), Success(()))
  }

  // ---------------------------------------------------------------------------
  // Following a chain
  // ---------------------------------------------------------------------------

  /** What happens to a member: an entry arrives, or it decides on a new coordinator. */
  datatype Event = Receive(entry: Entry) | Follow(coordinator: PublicKey, epoch: U64)

  /** A verifier with the entries it has accepted since it last anchored. */
  datatype Member = Member(verifier: Verifier, log: seq<Entry>)

  function Witness(c: Crypto, m: Member, event: Event): Member {
    match event
    case Receive(e) =>
      var (v, r) := Accept(c, m.verifier, e);
      if r.Success? then Member(v, m.log + [e]) else Member(v, m.log)
    case Follow(coordinator, epoch) =>
      var (v, r) := Rotate(m.verifier, coordinator, epoch);
      if r.Success? then Member(v, []) else Member(v, m.log)
  }

  function WitnessAll(c: Crypto, m: Member, events: seq<Event>): Member
    decreases |events|
  {
    if events == [] then m else WitnessAll(c, Witness(c, m, events[0]), events[1..])
  }

  ghost predicate Chained(c: Crypto, sessionId: Bytes, log: seq<Entry>) {
    forall i :: 0 < i < |log| ==> Follows(c, sessionId, log[i - 1], log[i])
  }

  /** The verifier's position is its last accepted entry, and the entries before it form one chain. */
  ghost predicate Consistent(c: Crypto, m: Member) {
    var v := m.verifier;
    && Chained(c, v.sessionId, m.log)
    && (forall e :: e in m.log ==> e.epoch == v.epoch && e.seqNo != 0 && ShortFields(e))
    && if m.log == [] then v.expectedSeq.None? && v.prevHash.None?
       else
         var last := m.log[|m.log| - 1];
         && v.expectedSeq == Some(SaturatingSucc(last.seqNo))
         && v.prevHash == Some(EntryHash(c, v.sessionId, last))
  }

  lemma AcceptedEntryExtends(c: Crypto, m: Member, e: Entry)
    requires Consistent(c, m) && ShortFields(e) && Accept(c, m.verifier, e).1.Success?
    ensures Consistent(c, Member(Accept(c, m.verifier, e).0, m.log + [e]))
  {
    AcceptedFollows(c, m.verifier, e);
    JoinChains(c, m.verifier.sessionId, m.log, [e]);
  }

  /** What acceptance says about position and epoch, and where it leaves the verifier. */
  lemma AcceptedFollows(c: Crypto, v: Verifier, e: Entry)
    requires Accept(c, v, e).1.Success?
    ensures e.epoch == v.epoch && e.seqNo != 0
    ensures v.expectedSeq.Some? ==> e.seqNo == v.expectedSeq.value
    ensures v.prevHash.Some? ==> e.prevHash == v.prevHash.value
    ensures Accept(c, v, e).0
            == v.(expectedSeq := Some(SaturatingSucc(e.seqNo)), prevHash := Some(EntryHash(c, v.sessionId, e)))
  {
  }

  predicate Follows(c: Crypto, sessionId: Bytes, e: Entry, next: Entry) {
    next.seqNo == SaturatingSucc(e.seqNo) && next.prevHash == EntryHash(c, sessionId, e)
  }

  lemma JoinChains(c: Crypto, sessionId: Bytes, a: seq<Entry>, b: seq<Entry>)
    requires Chained(c, sessionId, a) && Chained(c, sessionId, b)
    requires a != [] && b != [] ==> Follows(c, sessionId, a[|a| - 1], b[0])
    ensures Chained(c, sessionId, a + b)
  {
    var both := a + b;
    forall i | 0 < i < |both| ensures Follows(c, sessionId, both[i - 1], both[i]) {
      if i < |a| {
        assert Follows(c, sessionId, a[i - 1], a[i]);
      } else if i > |a| {
        assert Follows(c, sessionId, b[i - |a| - 1], b[i - |a|]);
      }
    }
  }

  lemma WitnessKeepsConsistent(c: Crypto, m: Member, event: Event)
    requires Consistent(c, m)
    requires event.Receive? ==> ShortFields(event.entry)
    ensures Consistent(c, Witness(c, m, event))
    ensures m.verifier.epoch <= Witness(c, m, event).verifier.epoch
    ensures Witness(c, m, event).verifier.sessionId == m.verifier.sessionId
  {
    if event.Receive? && Accept(c, m.verifier, event.entry).1.Success? {
      AcceptedEntryExtends(c, m, event.entry);
    }
  }

  /** Whatever arrives, a member's log is one chain ending at its head, and its epoch never goes back. */
  lemma {:induction false} RunsStayConsistent(c: Crypto, m: Member, events: seq<Event>)
    requires Consistent(c, m)
    requires forall event :: event in events && event.Receive? ==> ShortFields(event.entry)
    ensures Consistent(c, WitnessAll(c, m, events))
    ensures m.verifier.epoch <= WitnessAll(c, m, events).verifier.epoch
    ensures WitnessAll(c, m, events).verifier.sessionId == m.verifier.sessionId
    decreases |events|
  {
    if events != [] {
      WitnessKeepsConsistent(c, m, events[0]);
      RunsStayConsistent(c, Witness(c, m, events[0]), events[1..]);
    }
  }

  /** Two entries, one of each log, that hash alike though their preimages differ. */
  ghost predicate Collision(c: Crypto, s1: Bytes, log1: seq<Entry>, s2: Bytes, log2: seq<Entry>) {
    exists i, j :: 0 <= i < |log1| && 0 <= j < |log2|
                   && EntryPreimage(s1, log1[i]) != EntryPreimage(s2, log2[j])
                   && EntryHash(c, s1, log1[i]) == EntryHash(c, s2, log2[j])
  }

  /** The `k` last entries of both logs are the same, coordinator signatures aside. */
  ghost predicate AgreeBack(log1: seq<Entry>, log2: seq<Entry>, k: nat)
    requires k <= |log1| && k <= |log2|
  {
    forall j :: 0 <= j < k ==> Covered(FromEnd(log1, j)) == Covered(FromEnd(log2, j))
  }

  function FromEnd(log: seq<Entry>, j: nat): Entry
    requires j < |log|
  {
    log[|log| - 1 - j]
  }

  lemma {:induction false} ChainsAgreeBack(c: Crypto, s1: Bytes, log1: seq<Entry>, s2: Bytes, log2: seq<Entry>, k: nat)
    requires Short(s1) && Short(s2) && 0 < k <= |log1| && k <= |log2|
    requires Chained(c, s1, log1) && Chained(c, s2, log2)
    requires forall e :: e in log1 || e in log2 ==> ShortFields(e)
    requires EntryHash(c, s1, FromEnd(log1, 0)) == EntryHash(c, s2, FromEnd(log2, 0))
    requires !Collision(c, s1, log1, s2, log2)
    ensures s1 == s2 && AgreeBack(log1, log2, k)
  {
    if k > 1 {
      ChainsAgreeBack(c, s1, log1, s2, log2, k - 1);
      HashesAgreeBelow(c, s1, log1, s2, log2, k - 2);
    }
    EntriesAgreeHere(c, s1, log1, s2, log2, k - 1);
  }

  /** Equal entries name equal hashes for the entries before them. */
  lemma HashesAgreeBelow(c: Crypto, s1: Bytes, log1: seq<Entry>, s2: Bytes, log2: seq<Entry>, j: nat)
    requires Chained(c, s1, log1) && Chained(c, s2, log2) && j + 1 < |log1| && j + 1 < |log2|
    requires Covered(FromEnd(log1, j)) == Covered(FromEnd(log2, j))
    ensures EntryHash(c, s1, FromEnd(log1, j + 1)) == EntryHash(c, s2, FromEnd(log2, j + 1))
  {
    LinkBack(c, s1, log1, j);
    LinkBack(c, s2, log2, j);
  }

  lemma EntriesAgreeHere(c: Crypto, s1: Bytes, log1: seq<Entry>, s2: Bytes, log2: seq<Entry>, j: nat)
    requires Short(s1) && Short(s2) && j < |log1| && j < |log2|
    requires forall e :: e in log1 || e in log2 ==> ShortFields(e)
    requires !Collision(c, s1, log1, s2, log2)
    requires EntryHash(c, s1, FromEnd(log1, j)) == EntryHash(c, s2, FromEnd(log2, j))
    ensures s1 == s2 && Covered(FromEnd(log1, j)) == Covered(FromEnd(log2, j))
  {
    NoCollisionHere(c, s1, log1, s2, log2, j);
    EntryPreimageInjective(s1, FromEnd(log1, j), s2, FromEnd(log2, j));
  }

  lemma LinkBack(c: Crypto, sessionId: Bytes, log: seq<Entry>, j: nat)
    requires Chained(c, sessionId, log) && j + 1 < |log|
    ensures Covered(FromEnd(log, j)).prevHash == EntryHash(c, sessionId, FromEnd(log, j + 1))
  {
    assert Follows(c, sessionId, log[|log| - 2 - j], log[|log| - 1 - j]);
  }

  lemma NoCollisionHere(c: Crypto, s1: Bytes, log1: seq<Entry>, s2: Bytes, log2: seq<Entry>, j: nat)
    requires j < |log1| && j < |log2|
    requires forall e :: e in log1 || e in log2 ==> ShortFields(e)
    requires !Collision(c, s1, log1, s2, log2)
    requires EntryHash(c, s1, FromEnd(log1, j)) == EntryHash(c, s2, FromEnd(log2, j))
    ensures EntryPreimage(s1, FromEnd(log1, j)) == EntryPreimage(s2, FromEnd(log2, j))
    ensures ShortFields(FromEnd(log1, j)) && ShortFields(FromEnd(log2, j))
  {
    assert FromEnd(log1, j) in log1 && FromEnd(log2, j) in log2;
  }

  /**
   * Equal heads mean equal histories, back to the later of the two anchors: two members that verified
   * their way to one head accepted the same entries, or hold two inputs that break the hash.
   */
  lemma EqualHeadsEqualHistories(c: Crypto, m1: Member, m2: Member)
    requires Consistent(c, m1) && Consistent(c, m2)
    requires Short(m1.verifier.sessionId) && Short(m2.verifier.sessionId)
    requires m1.log != [] && m2.log != [] && Head(m1.verifier) == Head(m2.verifier)
    ensures || Collision(c, m1.verifier.sessionId, m1.log, m2.verifier.sessionId, m2.log)
            || (&& m1.verifier.sessionId == m2.verifier.sessionId
                && m1.verifier.epoch == m2.verifier.epoch
                && AgreeBack(m1.log, m2.log, Min(|m1.log|, |m2.log|)))
  {
    if !Collision(c, m1.verifier.sessionId, m1.log, m2.verifier.sessionId, m2.log) {
      var k := Min(|m1.log|, |m2.log|);
      ChainsAgreeBack(c, m1.verifier.sessionId, m1.log, m2.verifier.sessionId, m2.log, k);
      assert Covered(FromEnd(m1.log, 0)) == Covered(FromEnd(m2.log, 0));
      assert FromEnd(m1.log, 0) in m1.log && FromEnd(m2.log, 0) in m2.log;
    }
  }

  // ---------------------------------------------------------------------------
  // Writer and verifier together
  // ---------------------------------------------------------------------------

  /** A change the coordinator may seal and every member must accept. */
  ghost predicate WellFormed(c: Crypto, sessionId: Bytes, change: Change) {
    && change.author != []
    && |change.payload| <= MAX_LEDGER_PAYLOAD_BYTES
    && (change.authorSignature == []
        || VerifyIntent(c, sessionId, change.author, change.kind, change.payload, change.authorSignature))
  }

  /** The verifier trusts this writer and is at its position, or not yet anchored. */
  ghost predicate InSync(c: Crypto, w: Writer, v: Verifier) {
    && v.sessionId == w.sessionId && v.epoch == w.epoch && v.coordinator == c.publicOf(w.secret)
    && w.nextSeq != 0
    && (v.expectedSeq.None? || v.expectedSeq == Some(w.nextSeq))
    && (v.prevHash.None? || v.prevHash == Some(w.prevHash))
  }

  ghost predicate Anchored(w: Writer, v: Verifier) {
    Head(v) == (w.nextSeq, w.prevHash)
  }

  /** The hash signed is the hash of the finished entry: the coordinator's signature is outside it. */
  lemma SealedHash(c: Crypto, w: Writer, change: Change)
    ensures EntryHash(c, w.sessionId, Seal(c, w, change).1) == Seal(c, w, change).0.prevHash
  {
    assert EntryPreimage(w.sessionId, Seal(c, w, change).1) == EntryPreimage(w.sessionId, Unsigned(w, change));
  }

  lemma SealedIsAccepted(c: Crypto, w: Writer, v: Verifier, change: Change)
    requires Sound(c) && InSync(c, w, v) && WellFormed(c, w.sessionId, change)
    ensures var ((next, entry), (seen, r)) := (Seal(c, w, change), Accept(c, v, Seal(c, w, change).1));
            r == Success(()) && InSync(c, next, seen) && Anchored(next, seen)
  {
    SealedHash(c, w, change);
    var entry := Seal(c, w, change).1;
    assert KindFrom(entry.kind) == Some(change.kind);
  }

  /** All changes sealed one after the other: the final writer and the entries. */
  function SealAll(c: Crypto, w: Writer, changes: seq<Change>): (Writer, seq<Entry>)
    decreases |changes|
  {
    if changes == [] then (w, [])
    else
      var (next, entry) := Seal(c, w, changes[0]);
      var (last, entries) := SealAll(c, next, changes[1..]);
      (last, [entry] + entries)
  }

  /** All entries accepted in turn, or `None` as soon as one is refused. */
  function AcceptAll(c: Crypto, v: Verifier, entries: seq<Entry>): Option<Verifier>
    decreases |entries|
  {
    if entries == [] then Some(v)
    else
      var (next, r) := Accept(c, v, entries[0]);
      if r.Failure? then None else AcceptAll(c, next, entries[1..])
  }

  lemma {:induction false} EverythingSealedIsAccepted(c: Crypto, w: Writer, v: Verifier, changes: seq<Change>)
    requires Sound(c) && InSync(c, w, v)
    requires forall change :: change in changes ==> WellFormed(c, w.sessionId, change)
    ensures var (last, entries) := SealAll(c, w, changes);
            var seen := AcceptAll(c, v, entries);
            && seen.Some? && InSync(c, last, seen.value)
            && (changes != [] || Anchored(w, v) ==> Anchored(last, seen.value))
    decreases |changes|
  {
    if changes != [] {
      SealedIsAccepted(c, w, v, changes[0]);
      var (next, entry) := Seal(c, w, changes[0]);
      var entries := SealAll(c, next, changes[1..]).1;
      EverythingSealedIsAccepted(c, next, Accept(c, v, entry).0, changes[1..]);
      assert ([entry] + entries)[1..] == entries;
    }
  }

  /** Position `i` steps after `first`, at the ceiling of 64 bits if it gets there. */
  function SeqAfter(first: U64, i: nat): U64 {
    if first + i > U64_MAX then U64_MAX else first + i
  }

  /** Where the writer stands after sealing, told by the entries. */
  lemma {:induction false} SealingMovesOn(c: Crypto, w: Writer, changes: seq<Change>)
    ensures var (last, entries) := SealAll(c, w, changes);
            && |entries| == |changes|
            && (entries != [] ==> entries[0].prevHash == w.prevHash)
            && last == w.(nextSeq := SeqAfter(w.nextSeq, |changes|), prevHash := last.prevHash)
            && last.prevHash == (if entries == [] then w.prevHash
                                 else EntryHash(c, w.sessionId, entries[|entries| - 1]))
    decreases |changes|
  {
    if changes != [] {
      var (next, entry) := Seal(c, w, changes[0]);
      var rest := SealAll(c, next, changes[1..]).1;
      SealedHash(c, w, changes[0]);
      SealingMovesOn(c, next, changes[1..]);
      assert ([entry] + rest)[|rest|] == if rest == [] then entry else rest[|rest| - 1];
    }
  }

  lemma {:induction false} SealedPositions(c: Crypto, w: Writer, changes: seq<Change>, i: nat)
    requires i < |SealAll(c, w, changes).1|
    ensures SealAll(c, w, changes).1[i].seqNo == SeqAfter(w.nextSeq, i)
    ensures SealAll(c, w, changes).1[i].epoch == w.epoch
    decreases |changes|
  {
    if i > 0 {
      var next := Seal(c, w, changes[0]).0;
      SealedPositions(c, next, changes[1..], i - 1);
      SeqAfterAdds(w.nextSeq, 1, i - 1);
    }
  }

  lemma {:induction false} SealedChain(c: Crypto, w: Writer, changes: seq<Change>)
    ensures Chained(c, w.sessionId, SealAll(c, w, changes).1)
    decreases |changes|
  {
    if changes != [] {
      var (next, entry) := Seal(c, w, changes[0]);
      var rest := SealAll(c, next, changes[1..]).1;
      SealedHash(c, w, changes[0]);
      SealedChain(c, next, changes[1..]);
      SealingMovesOn(c, next, changes[1..]);
      if rest != [] {
        SealedPositions(c, next, changes[1..], 0);
      }
      JoinChains(c, w.sessionId, [entry], rest);
    }
  }

  lemma SealedEntriesChain(c: Crypto, w: Writer, changes: seq<Change>)
    ensures var (last, entries) := SealAll(c, w, changes);
            && |entries| == |changes|
            && Chained(c, w.sessionId, entries)
            && (forall i :: 0 <= i < |entries| ==>
                  entries[i].seqNo == SeqAfter(w.nextSeq, i) && entries[i].epoch == w.epoch)
            && (entries != [] ==> entries[0].prevHash == w.prevHash)
            && last == w.(nextSeq := SeqAfter(w.nextSeq, |changes|), prevHash := last.prevHash)
            && last.prevHash == (if entries == [] then w.prevHash
                                 else EntryHash(c, w.sessionId, entries[|entries| - 1]))
  {
    var entries := SealAll(c, w, changes).1;
    SealingMovesOn(c, w, changes);
    SealedChain(c, w, changes);
    forall i | 0 <= i < |entries| ensures entries[i].seqNo == SeqAfter(w.nextSeq, i) && entries[i].epoch == w.epoch {
      SealedPositions(c, w, changes, i);
    }
  }

  /** What a deposed coordinator seals is refused as stale, and refusing it moves nothing. */
  lemma DeposedIsStale(c: Crypto, w: Writer, v: Verifier, change: Change)
    requires WellFormed(c, w.sessionId, change) && w.nextSeq != 0 && w.epoch != v.epoch
    ensures Accept(c, v, Seal(c, w, change).1) == (v, Failure(WrongEpoch(v.epoch, w.epoch)))
  {
    assert KindFrom(Seal(c, w, change).1.kind) == Some(change.kind);
  }

  /** The writer a promoted member starts: at the head it verified, with its own key, in the next epoch. */
  function Successor(c: Crypto, promoted: Verifier, sealed: seq<Entry>, secret: SecretKey, epoch: U64): Writer {
    var seen := AcceptAll(c, promoted, sealed);
    var head := Head(if seen.Some? then seen.value else promoted);
    Resume(promoted.sessionId, secret, head.0, head.1, epoch)
  }

  /** The successor stands exactly where the departed writer stood. */
  lemma SuccessorPicksUp(c: Crypto, w: Writer, promoted: Verifier, before: seq<Change>, secret: SecretKey, epoch: U64)
    requires Sound(c) && InSync(c, w, promoted) && (before != [] || Anchored(w, promoted))
    requires forall change :: change in before ==> WellFormed(c, w.sessionId, change)
    ensures var (deposed, sealed) := SealAll(c, w, before);
            Successor(c, promoted, sealed, secret, epoch) == deposed.(secret := secret, epoch := epoch)
  {
    EverythingSealedIsAccepted(c, w, promoted, before);
    SealedEntriesChain(c, w, before);
  }

  /** The successor's entries carry the departed writer's chain on, without a gap or a repeat. */
  lemma TakeoverIsOneChain(
    c: Crypto, w: Writer, promoted: Verifier, before: seq<Change>, secret: SecretKey, epoch: U64, after: seq<Change>)
    requires Sound(c) && InSync(c, w, promoted) && (before != [] || Anchored(w, promoted))
    requires forall change :: change in before ==> WellFormed(c, w.sessionId, change)
    ensures var sealed := SealAll(c, w, before).1;
            var all := sealed + SealAll(c, Successor(c, promoted, sealed, secret, epoch), after).1;
            && |all| == |before| + |after|
            && Chained(c, w.sessionId, all)
            && forall i :: 0 <= i < |all| ==> all[i].seqNo == SeqAfter(w.nextSeq, i)
  {
    SuccessorPicksUp(c, w, promoted, before, secret, epoch);
    HandedOverChain(c, w, before, SealAll(c, w, before).0.(secret := secret, epoch := epoch), after);
  }

  /** Two writers, the second of which stands where the first stopped, seal one chain. */
  lemma HandedOverChain(c: Crypto, w: Writer, before: seq<Change>, next: Writer, after: seq<Change>)
    requires next == SealAll(c, w, before).0.(secret := next.secret, epoch := next.epoch)
    ensures var all := SealAll(c, w, before).1 + SealAll(c, next, after).1;
            && |all| == |before| + |after|
            && Chained(c, w.sessionId, all)
            && forall i :: 0 <= i < |all| ==> all[i].seqNo == SeqAfter(w.nextSeq, i)
  {
    var sealed, added := SealAll(c, w, before).1, SealAll(c, next, after).1;
    SealedLengths(c, w, before, next, after);
    SealedChain(c, w, before);
    SealedChain(c, next, after);
    if sealed != [] && added != [] {
      HandedOverLink(c, w, before, next, after);
    }
    JoinChains(c, w.sessionId, sealed, added);
    forall i | 0 <= i < |sealed + added| ensures (sealed + added)[i].seqNo == SeqAfter(w.nextSeq, i) {
      HandedOverPosition(c, w, before, next, after, i);
    }
  }

  lemma SealedLengths(c: Crypto, w: Writer, before: seq<Change>, next: Writer, after: seq<Change>)
    requires next == SealAll(c, w, before).0.(secret := next.secret, epoch := next.epoch)
    ensures |SealAll(c, w, before).1| == |before| && |SealAll(c, next, after).1| == |after|
    ensures next.sessionId == w.sessionId && next.nextSeq == SeqAfter(w.nextSeq, |before|)
  {
    SealingMovesOn(c, w, before);
    SealingMovesOn(c, next, after);
  }

  lemma HandedOverPosition(
    c: Crypto, w: Writer, before: seq<Change>, next: Writer, after: seq<Change>, i: nat)
    requires next == SealAll(c, w, before).0.(secret := next.secret, epoch := next.epoch)
    requires i < |SealAll(c, w, before).1 + SealAll(c, next, after).1|
    ensures (SealAll(c, w, before).1 + SealAll(c, next, after).1)[i].seqNo == SeqAfter(w.nextSeq, i)
  {
    SealedLengths(c, w, before, next, after);
    if i < |before| {
      SealedPositions(c, w, before, i);
    } else {
      SealedPositions(c, next, after, i - |before|);
      SeqAfterAdds(w.nextSeq, |before|, i - |before|);
    }
  }

  /** The first entry of the second writer follows the last of the first. */
  lemma HandedOverLink(c: Crypto, w: Writer, before: seq<Change>, next: Writer, after: seq<Change>)
    requires next == SealAll(c, w, before).0.(secret := next.secret, epoch := next.epoch)
    requires SealAll(c, w, before).1 != [] && SealAll(c, next, after).1 != []
    ensures var sealed := SealAll(c, w, before).1;
            Follows(c, w.sessionId, sealed[|sealed| - 1], SealAll(c, next, after).1[0])
  {
    LastSealed(c, w, before);
    FirstSealed(c, next, after);
  }

  lemma FirstSealed(c: Crypto, w: Writer, changes: seq<Change>)
    requires SealAll(c, w, changes).1 != []
    ensures var first := SealAll(c, w, changes).1[0];
            first.prevHash == w.prevHash && first.seqNo == w.nextSeq
  {
    SealingMovesOn(c, w, changes);
    SealedPositions(c, w, changes, 0);
  }

  lemma LastSealed(c: Crypto, w: Writer, changes: seq<Change>)
    requires SealAll(c, w, changes).1 != []
    ensures var (next, entries) := SealAll(c, w, changes);
            var last := entries[|entries| - 1];
            next.prevHash == EntryHash(c, w.sessionId, last) && next.nextSeq == SaturatingSucc(last.seqNo)
  {
    SealingMovesOn(c, w, changes);
    SealedPositions(c, w, changes, |changes| - 1);
    SeqAfterAdds(w.nextSeq, |changes| - 1, 1);
  }

  lemma SeqAfterAdds(first: U64, i: nat, j: nat)
    ensures SeqAfter(SeqAfter(first, i), j) == SeqAfter(first, i + j)
  {
  }

  /** What reaches a member after it rotated: the next entry of the successor, or any entry from elsewhere. */
  datatype Arrival = FromSuccessor(change: Change) | FromElsewhere(entry: Entry)

  function ChangesIn(arrivals: seq<Arrival>): seq<Change> {
    if arrivals == [] then []
    else (if arrivals[0].FromSuccessor? then [arrivals[0].change] else []) + ChangesIn(arrivals[1..])
  }

  /** The successor and a member after all of it, entries refused being passed over. */
  function Arrive(c: Crypto, successor: Writer, v: Verifier, arrivals: seq<Arrival>): (Writer, Verifier)
    decreases |arrivals|
  {
    if arrivals == [] then (successor, v)
    else
      match arrivals[0]
      case FromSuccessor(change) =>
        var (next, entry) := Seal(c, successor, change);
        Arrive(c, next, Accept(c, v, entry).0, arrivals[1..])
      case FromElsewhere(entry) => Arrive(c, successor, Accept(c, v, entry).0, arrivals[1..])
  }

  /** Every change of the successor is well formed, and nothing from elsewhere carries its epoch. */
  ghost predicate Interleaved(c: Crypto, sessionId: Bytes, epoch: U64, arrivals: seq<Arrival>) {
    forall a :: a in arrivals ==>
      if a.FromSuccessor? then WellFormed(c, sessionId, a.change) else a.entry.epoch != epoch
  }

  lemma OtherEpochIsRefused(c: Crypto, v: Verifier, e: Entry)
    requires e.epoch != v.epoch
    ensures Accept(c, v, e).0 == v && Accept(c, v, e).1.Failure?
  {
  }

  lemma OneMoreSealed(c: Crypto, w: Writer, v: Verifier, change: Change, changes: seq<Change>)
    requires Accept(c, v, Seal(c, w, change).1).1.Success?
    ensures var (next, entry) := Seal(c, w, change);
            && SealAll(c, w, [change] + changes).0 == SealAll(c, next, changes).0
            && AcceptAll(c, v, SealAll(c, w, [change] + changes).1)
               == AcceptAll(c, Accept(c, v, entry).0, SealAll(c, next, changes).1)
  {
    var (next, entry) := Seal(c, w, change);
    assert ([change] + changes)[1..] == changes;
    var entries := SealAll(c, next, changes).1;
    assert ([entry] + entries)[1..] == entries;
  }

  /** Entries of other epochs, wherever they fall among the successor's, leave no trace. */
  lemma {:induction false} OtherEpochsLeaveNoTrace(c: Crypto, successor: Writer, v: Verifier, arrivals: seq<Arrival>)
    requires Sound(c) && InSync(c, successor, v)
    requires Interleaved(c, successor.sessionId, successor.epoch, arrivals)
    ensures var (last, entries) := SealAll(c, successor, ChangesIn(arrivals));
            var final := AcceptAll(c, v, entries);
            && final.Some? && Arrive(c, successor, v, arrivals) == (last, final.value)
            && InSync(c, last, final.value) && last.epoch == successor.epoch
    decreases |arrivals|
  {
    if arrivals != [] {
      var a, rest := arrivals[0], arrivals[1..];
      assert a in arrivals;
      if a.FromSuccessor? {
        SealedIsAccepted(c, successor, v, a.change);
        var (next, entry) := Seal(c, successor, a.change);
        OtherEpochsLeaveNoTrace(c, next, Accept(c, v, entry).0, rest);
        assert ChangesIn(arrivals) == [a.change] + ChangesIn(rest);
        OneMoreSealed(c, successor, v, a.change, ChangesIn(rest));
      } else {
        OtherEpochIsRefused(c, v, a.entry);
        OtherEpochsLeaveNoTrace(c, successor, v, rest);
        assert ChangesIn(arrivals) == ChangesIn(rest);
      }
    }
  }

  /**
   * A member in sync with a writer follows a takeover to the end: it accepts everything the departed
   * coordinator sealed and rotates. From then on, however entries of other epochs fall among the successor's,
   * it stands exactly where the successor's entries alone would have brought it, in sync with the successor;
   * and whatever the departed coordinator seals, it refuses as stale at every such point, without moving.
   */
  lemma TakeoverIsFollowed(
    c: Crypto, w: Writer, promoted: Verifier, follower: Verifier, before: seq<Change>,
    secret: SecretKey, epoch: U64, arrivals: seq<Arrival>, departed: Writer, late: Change)
    requires Sound(c) && InSync(c, w, promoted) && InSync(c, w, follower) && w.epoch < epoch
    requires before != [] || Anchored(w, promoted)
    requires forall change :: change in before ==> WellFormed(c, w.sessionId, change)
    requires Interleaved(c, w.sessionId, epoch, arrivals)
    requires departed.epoch == w.epoch && departed.nextSeq != 0 && WellFormed(c, departed.sessionId, late)
    ensures var sealed := SealAll(c, w, before).1;
            var seen := AcceptAll(c, follower, sealed);
            && seen.Some?
            && var (rotated, r) := Rotate(seen.value, c.publicOf(secret), epoch);
               var successor := Successor(c, promoted, sealed, secret, epoch);
               var (last, final) := Arrive(c, successor, rotated, arrivals);
               && r == Success(()) && InSync(c, last, final)
               && last == SealAll(c, successor, ChangesIn(arrivals)).0
               && AcceptAll(c, rotated, SealAll(c, successor, ChangesIn(arrivals)).1) == Some(final)
               && Accept(c, final, Seal(c, departed, late).1) == (final, Failure(WrongEpoch(epoch, w.epoch)))
  {
    EverythingSealedIsAccepted(c, w, follower, before);
    SuccessorPicksUp(c, w, promoted, before, secret, epoch);
    SealedEntriesChain(c, w, before);
    var (deposed, sealed) := SealAll(c, w, before);
    var rotated := Rotate(AcceptAll(c, follower, sealed).value, c.publicOf(secret), epoch).0;
    var successor := deposed.(secret := secret, epoch := epoch);
    OtherEpochsLeaveNoTrace(c, successor, rotated, arrivals);
    DeposedIsStale(c, departed, Arrive(c, successor, rotated, arrivals).1, late);
  }

  /** A member that lagged behind, or missed everything, follows as well: it anchors on what comes next. */
  lemma LaggardsFollow(c: Crypto, behind: Verifier, successor: Writer, after: seq<Change>)
    requires Sound(c) && behind.sessionId == successor.sessionId && successor.nextSeq != 0
    requires forall change :: change in after ==> WellFormed(c, successor.sessionId, change)
    ensures var (rotated, r) := Rotate(behind, c.publicOf(successor.secret), successor.epoch);
            var seen := AcceptAll(c, rotated, SealAll(c, successor, after).1);
            && (r.Success? <==> behind.epoch < successor.epoch)
            && (r.Failure? ==> rotated == behind)
            && (r.Success? ==> seen.Some? && InSync(c, SealAll(c, successor, after).0, seen.value))
  {
    var (rotated, r) := Rotate(behind, c.publicOf(successor.secret), successor.epoch);
    if r.Success? {
      EverythingSealedIsAccepted(c, successor, rotated, after);
    }
  }
}
