/** The byte strings the ledger hashes, and why no two different records share one. */
module LedgerCodec {
  import opened Common

  const LEDGER_HASH_BYTES: nat := 32
  const LEDGER_SIGNATURE_BYTES: nat := 64
  const MAX_LEDGER_PAYLOAD_BYTES: nat := 4096

  type I32 = x: int | -0x8000_0000 <= x < 0x8000_0000

  function Zeros(n: nat): (bytes: Bytes)
    ensures |bytes| == n
  {
    if n == 0 then [] else [0] + Zeros(n - 1)
  }

  datatype EntryKind = LayoutChange | PaneReady | Membership | CoordinatorChange {
    function Number(): I32 {
      match this
      case LayoutChange => 1
      case PaneReady => 2
      case Membership => 3
      case CoordinatorChange => 4
    }
  }

  function KindFrom(number: I32): (r: Option<EntryKind>)
    ensures r.Some? <==> 1 <= number <= 4
    ensures r.Some? ==> r.value.Number() == number
  {
    if number == 1 then Some(LayoutChange)
    else if number == 2 then Some(PaneReady)
    else if number == 3 then Some(Membership)
    else if number == 4 then Some(CoordinatorChange)
    else None
  }

  datatype Entry = Entry(
    seqNo: U64,
    prevHash: Bytes,
    author: Bytes,
    kind: I32,
    payload: Bytes,
    authorSignature: Bytes,
    coordinatorSignature: Bytes,
    epoch: U64)

  /** The entry as its hash sees it: everything but the coordinator's own signature. */
  function Covered(e: Entry): Entry {
    e.(coordinatorSignature := [])
  }

  // "p2pmux/ledger/entry/v1"
  const ENTRY_DOMAIN: Bytes := [
    0x70, 0x32, 0x70, 0x6D, 0x75, 0x78, 0x2F, 0x6C, 0x65, 0x64, 0x67, 0x65, 0x72, 0x2F,
    0x65, 0x6E, 0x74, 0x72, 0x79, 0x2F, 0x76, 0x31]

  // "p2pmux/ledger/intent/v1"
  const INTENT_DOMAIN: Bytes := [
    0x70, 0x32, 0x70, 0x6D, 0x75, 0x78, 0x2F, 0x6C, 0x65, 0x64, 0x67, 0x65, 0x72, 0x2F,
    0x69, 0x6E, 0x74, 0x65, 0x6E, 0x74, 0x2F, 0x76, 0x31]

  /** `n` bytes of `x`, least significant first. */
  function LittleEndian(x: nat, n: nat): (bytes: Bytes)
    ensures |bytes| == n
  {
    if n == 0 then [] else [x % 256] + LittleEndian(x / 256, n - 1)
  }

  function U64Bytes(x: U64): Bytes {
    LittleEndian(x, 8)
  }

  /** Two's complement. */
  function I32Bytes(x: I32): Bytes {
    LittleEndian(if x < 0 then x + 0x1_0000_0000 else x, 4)
  }

  /** A variable-length field, its length first; lengths are 64-bit. */
  function Absorb(bytes: Bytes): Bytes {
    U64Bytes(|bytes| % 0x1_0000_0000_0000_0000) + bytes
  }

  function EntryPreimage(sessionId: Bytes, e: Entry): Bytes {
    ENTRY_DOMAIN
    + (Absorb(sessionId)
       + (U64Bytes(e.seqNo)
          + (Absorb(e.prevHash)
             + (Absorb(e.author)
                + (I32Bytes(e.kind)
                   + (Absorb(e.payload)
                      + (Absorb(e.authorSignature)
                         + U64Bytes(e.epoch))))))))
  }

  function IntentPreimage(sessionId: Bytes, author: Bytes, kind: EntryKind, payload: Bytes): Bytes {
    INTENT_DOMAIN
    + (Absorb(sessionId)
       + (Absorb(author)
          + (I32Bytes(kind.Number())
             + Absorb(payload))))
  }

  predicate Short(bytes: Bytes) {
    |bytes| <= U64_MAX
  }

  /** Fields of a length that 64 bits can name: all that memory can hold. */
  predicate ShortFields(e: Entry) {
    Short(e.prevHash) && Short(e.author) && Short(e.payload) && Short(e.authorSignature)
  }

  // ---------------------------------------------------------------------------
  // Injectivity
  // ---------------------------------------------------------------------------

  function Power256(n: nat): nat {
    if n == 0 then 1 else 256 * Power256(n - 1)
  }

  lemma {:induction false} LittleEndianInjective(x: nat, y: nat, n: nat)
    requires x < Power256(n) && y < Power256(n)
    requires LittleEndian(x, n) == LittleEndian(y, n)
    ensures x == y
  {
    if n > 0 {
      var a, b := LittleEndian(x / 256, n - 1), LittleEndian(y / 256, n - 1);
      assert LittleEndian(x, n) == [x % 256] + a && LittleEndian(y, n) == [y % 256] + b;
      assert ([x % 256] + a)[0] == x % 256 && ([y % 256] + b)[0] == y % 256;
      assert ([x % 256] + a)[1..] == a && ([y % 256] + b)[1..] == b;
      LittleEndianInjective(x / 256, y / 256, n - 1);
    }
  }

  lemma U64BytesInjective(x: U64, y: U64)
    requires U64Bytes(x) == U64Bytes(y)
    ensures x == y
  {
    assert Power256(8) == 0x1_0000_0000_0000_0000;
    LittleEndianInjective(x, y, 8);
  }

  lemma I32BytesInjective(x: I32, y: I32)
    requires I32Bytes(x) == I32Bytes(y)
    ensures x == y
  {
    assert Power256(4) == 0x1_0000_0000;
    LittleEndianInjective(if x < 0 then x + 0x1_0000_0000 else x, if y < 0 then y + 0x1_0000_0000 else y, 4);
  }

  /** Two concatenations whose heads are equally long agree piecewise. */
  lemma Peel(a: Bytes, b: Bytes, restA: Bytes, restB: Bytes)
    requires |a| == |b| && a + restA == b + restB
    ensures a == b && restA == restB
  {
    assert a == (a + restA)[..|a|] && b == (b + restB)[..|b|];
    assert restA == (a + restA)[|a|..] && restB == (b + restB)[|b|..];
  }

  lemma PeelPrefixed(lengthA: Bytes, a: Bytes, restA: Bytes, lengthB: Bytes, b: Bytes, restB: Bytes)
    requires |lengthA| == |lengthB| && lengthA + a + restA == lengthB + b + restB
    requires lengthA == lengthB ==> |a| == |b|
    ensures a == b && restA == restB
  {
    assert lengthA + a + restA == lengthA + (a + restA);
    assert lengthB + b + restB == lengthB + (b + restB);
    Peel(lengthA, lengthB, a + restA, b + restB);
    Peel(a, b, restA, restB);
  }

  lemma AbsorbedShort(a: Bytes, rest: Bytes)
    requires Short(a)
    ensures Absorb(a) + rest == U64Bytes(|a|) + a + rest
  {
    assert |a| % 0x1_0000_0000_0000_0000 == |a|;
  }

  lemma U64BytesTellLengths(a: Bytes, b: Bytes)
    requires Short(a) && Short(b)
    ensures |U64Bytes(|a|)| == |U64Bytes(|b|)|
    ensures U64Bytes(|a|) == U64Bytes(|b|) ==> |a| == |b|
  {
    if U64Bytes(|a|) == U64Bytes(|b|) {
      U64BytesInjective(|a|, |b|);
    }
  }

  /** A length-prefixed field ends where its length says, so it cannot slide into the next. */
  lemma PeelField(a: Bytes, b: Bytes, restA: Bytes, restB: Bytes)
    requires Short(a) && Short(b) && Absorb(a) + restA == Absorb(b) + restB
    ensures a == b && restA == restB
  {
    U64BytesTellLengths(a, b);
    AbsorbedShort(a, restA);
    AbsorbedShort(b, restB);
    PeelPrefixed(U64Bytes(|a|), a, restA, U64Bytes(|b|), b, restB);
  }

  /** Equal entry preimages: one session, and entries equal in every field but the coordinator's signature. */
  lemma EntryPreimageInjective(s1: Bytes, e1: Entry, s2: Bytes, e2: Entry)
    requires Short(s1) && Short(s2) && ShortFields(e1) && ShortFields(e2)
    requires EntryPreimage(s1, e1) == EntryPreimage(s2, e2)
    ensures s1 == s2 && Covered(e1) == Covered(e2)
  {
    var (z1, z2) := (U64Bytes(e1.epoch), U64Bytes(e2.epoch));
    var (g1, g2) := (Absorb(e1.authorSignature) + z1, Absorb(e2.authorSignature) + z2);
    var (p1, p2) := (Absorb(e1.payload) + g1, Absorb(e2.payload) + g2);
    var (k1, k2) := (I32Bytes(e1.kind) + p1, I32Bytes(e2.kind) + p2);
    var (a1, a2) := (Absorb(e1.author) + k1, Absorb(e2.author) + k2);
    var (h1, h2) := (Absorb(e1.prevHash) + a1, Absorb(e2.prevHash) + a2);
    var (q1, q2) := (U64Bytes(e1.seqNo) + h1, U64Bytes(e2.seqNo) + h2);
    Peel(ENTRY_DOMAIN, ENTRY_DOMAIN, Absorb(s1) + q1, Absorb(s2) + q2);
    PeelField(s1, s2, q1, q2);
    Peel(U64Bytes(e1.seqNo), U64Bytes(e2.seqNo), h1, h2);
    U64BytesInjective(e1.seqNo, e2.seqNo);
    PeelField(e1.prevHash, e2.prevHash, a1, a2);
    PeelField(e1.author, e2.author, k1, k2);
    Peel(I32Bytes(e1.kind), I32Bytes(e2.kind), p1, p2);
    I32BytesInjective(e1.kind, e2.kind);
    PeelField(e1.payload, e2.payload, g1, g2);
    PeelField(e1.authorSignature, e2.authorSignature, z1, z2);
    U64BytesInjective(e1.epoch, e2.epoch);
  }

  lemma IntentPreimageInjective(
    s1: Bytes, a1: Bytes, k1: EntryKind, p1: Bytes, s2: Bytes, a2: Bytes, k2: EntryKind, p2: Bytes)
    requires Short(s1) && Short(s2) && Short(a1) && Short(a2) && Short(p1) && Short(p2)
    requires IntentPreimage(s1, a1, k1, p1) == IntentPreimage(s2, a2, k2, p2)
    ensures s1 == s2 && a1 == a2 && k1 == k2 && p1 == p2
  {
    var (y1, y2) := (I32Bytes(k1.Number()) + Absorb(p1), I32Bytes(k2.Number()) + Absorb(p2));
    var (x1, x2) := (Absorb(a1) + y1, Absorb(a2) + y2);
    Peel(INTENT_DOMAIN, INTENT_DOMAIN, Absorb(s1) + x1, Absorb(s2) + x2);
    PeelField(s1, s2, x1, x2);
    PeelField(a1, a2, y1, y2);
    Peel(I32Bytes(k1.Number()), I32Bytes(k2.Number()), Absorb(p1), Absorb(p2));
    I32BytesInjective(k1.Number(), k2.Number());
    PeelField(p1, p2, [], []) by {
      assert Absorb(p1) + [] == Absorb(p1) && Absorb(p2) + [] == Absorb(p2);
    }
  }

  /** The two domains never meet: a signature over one kind of hash is none over the other. */
  lemma DomainsAreSeparate(s1: Bytes, e: Entry, s2: Bytes, author: Bytes, kind: EntryKind, payload: Bytes)
    ensures EntryPreimage(s1, e) != IntentPreimage(s2, author, kind, payload)
  {
    var entry, intent := EntryPreimage(s1, e), IntentPreimage(s2, author, kind, payload);
    assert entry[14] == ENTRY_DOMAIN[14] == 0x65;
    assert intent[14] == INTENT_DOMAIN[14] == 0x69;
  }
}
