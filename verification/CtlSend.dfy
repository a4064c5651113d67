/** `p2pmux ctl send`: a payload cut into frames, and the frames put on the socket. */
module CtlSend {
  import opened Common
  import opened Utf8

  const SEND_CHUNK_BYTES: nat := 32_000
  const MAX_FRAME: nat := 1024 * 1024

  function Concat(pieces: seq<Bytes>): Bytes {
    if pieces == [] then [] else pieces[0] + Concat(pieces[1..])
  }

  function BoundaryAtOrBelow(b: Bytes, i: nat): nat
    requires i <= |b|
  {
    if i == 0 || IsBoundary(b, i) then i else BoundaryAtOrBelow(b, i - 1)
  }

  function ChunkEnd(rest: Bytes): nat {
    var end := BoundaryAtOrBelow(rest, Min(SEND_CHUNK_BYTES, |rest|));
    if end == 0 then ScalarLength(rest) else end
  }

  /** What `chunk_send` cuts a text into. */
  function Chunks(text: Bytes): seq<Bytes>
    requires WellFormed(text)
    decreases |text|
  {
    if text == [] then []
    else
      ChunkEndCuts(text);
      [text[..ChunkEnd(text)]] + Chunks(text[ChunkEnd(text)..])
  }

  lemma {:induction false} SearchFindsTheLast(b: Bytes, i: nat)
    requires i <= |b|
    ensures
      var end := BoundaryAtOrBelow(b, i);
      && end <= i
      && IsBoundary(b, end)
      && forall j :: end < j <= i ==> !IsBoundary(b, j)
  {
    if i != 0 && !IsBoundary(b, i) {
      SearchFindsTheLast(b, i - 1);
    }
  }

  /** The search always stops above zero, so the fallback to one whole character never runs. */
  lemma FallbackIsDead(rest: Bytes)
    requires WellFormed(rest) && rest != []
    ensures BoundaryAtOrBelow(rest, Min(SEND_CHUNK_BYTES, |rest|)) > 0
  {
    var i := Min(SEND_CHUNK_BYTES, |rest|);
    SearchFindsTheLast(rest, i);
    if i == |rest| {
      assert IsBoundary(rest, i);
    } else {
      BoundaryIsNear(rest, i);
    }
  }

  lemma ChunkEndCuts(rest: Bytes)
    requires WellFormed(rest) && rest != []
    ensures 0 < ChunkEnd(rest) <= Min(SEND_CHUNK_BYTES, |rest|)
    ensures WellFormed(rest[..ChunkEnd(rest)]) && WellFormed(rest[ChunkEnd(rest)..])
  {
    FallbackIsDead(rest);
    SearchFindsTheLast(rest, Min(SEND_CHUNK_BYTES, |rest|));
    CutsExactlyAtBoundaries(rest, ChunkEnd(rest));
  }

  lemma SearchFinds(rest: Bytes, end: nat)
    requires end <= |rest| && (end == 0 || IsBoundary(rest, end))
    requires BoundaryAtOrBelow(rest, end) == BoundaryAtOrBelow(rest, Min(SEND_CHUNK_BYTES, |rest|))
    ensures ChunkEnd(rest) == if end == 0 then ScalarLength(rest) else end
  {
  }

  lemma OneChunkOff(chunks: seq<Bytes>, rest: Bytes)
    requires WellFormed(rest) && rest != []
    ensures 0 < ChunkEnd(rest) <= |rest| && WellFormed(rest[ChunkEnd(rest)..])
    ensures chunks + Chunks(rest) == chunks + [rest[..ChunkEnd(rest)]] + Chunks(rest[ChunkEnd(rest)..])
  {
    ChunkEndCuts(rest);
    Regroup(chunks, [rest[..ChunkEnd(rest)]], Chunks(rest[ChunkEnd(rest)..]));
  }

  method ChunkSend(text: Bytes) returns (chunks: seq<Bytes>)
    requires WellFormed(text)
    ensures chunks == Chunks(text)
  {
    chunks := [];
    var rest := text;
    while rest != []
      invariant WellFormed(rest)
      invariant chunks + Chunks(rest) == Chunks(text)
      decreases |rest|
    {
      var end := Min(SEND_CHUNK_BYTES, |rest|);
      while end > 0 && !IsBoundary(rest, end)
        invariant 0 <= end <= |rest|
        invariant BoundaryAtOrBelow(rest, end) == BoundaryAtOrBelow(rest, Min(SEND_CHUNK_BYTES, |rest|))
      {
        end := end - 1;
      }
      SearchFinds(rest, end);
      if end == 0 {
        end := ScalarLength(rest);
      }
      OneChunkOff(chunks, rest);
      chunks := chunks + [rest[..end]];
      rest := rest[end..];
    }
  }

  // ---------------------------------------------------------------------------
  // What the cut keeps.

  predicate Fits(piece: Bytes) {
    piece != [] && |piece| <= SEND_CHUNK_BYTES && WellFormed(piece)
  }

  /** A piece stops only where the next character would not have fitted. */
  predicate IsChunking(pieces: seq<Bytes>, text: Bytes) {
    && Concat(pieces) == text
    && (forall i :: 0 <= i < |pieces| ==> Fits(pieces[i]))
    && (forall i :: 0 <= i < |pieces| - 1 ==> CutShort(pieces[i], pieces[i + 1]))
  }

  predicate CutShort(piece: Bytes, next: Bytes) {
    |piece| + ScalarLength(next) > SEND_CHUNK_BYTES
  }

  lemma ScalarOfAPrefix(b: Bytes, n: nat)
    requires 0 < n <= |b| && WellFormed(b[..n])
    ensures ScalarLength(b[..n]) == ScalarLength(b)
  {
  }

  lemma NextBoundaryIsOver(text: Bytes, end: nat)
    requires WellFormed(text) && end < |text|
    requires end == BoundaryAtOrBelow(text, Min(SEND_CHUNK_BYTES, |text|))
    ensures end + ScalarLength(text[end..]) > SEND_CHUNK_BYTES
  {
    SearchFindsTheLast(text, Min(SEND_CHUNK_BYTES, |text|));
    CutsExactlyAtBoundaries(text, end);
    var n := ScalarLength(text[end..]);
    CutsExactlyAtBoundaries(text[end..], n);
    assert text[end..][n..] == text[end + n..];
    if end + n < |text| {
      LeadIsNoTail(text[end + n..]);
    }
    assert IsBoundary(text, end + n);
  }

  lemma PiecePrepended(piece: Bytes, pieces: seq<Bytes>, text: Bytes)
    requires IsChunking(pieces, text) && Fits(piece)
    requires pieces != [] ==> CutShort(piece, pieces[0])
    ensures IsChunking([piece] + pieces, piece + text)
  {
    var all := [piece] + pieces;
    assert all[1..] == pieces;
    forall i | 0 <= i < |all| - 1 ensures CutShort(all[i], all[i + 1]) {
      assert i > 0 ==> CutShort(pieces[i - 1], pieces[i]);
    }
  }

  lemma FirstPieceIsFull(text: Bytes, rest: Bytes)
    requires WellFormed(text) && WellFormed(rest) && rest != []
    requires ChunkEnd(text) < |text| && rest == text[ChunkEnd(text)..]
    ensures CutShort(text[..ChunkEnd(text)], Chunks(rest)[0])
  {
    FallbackIsDead(text);
    NextBoundaryIsOver(text, ChunkEnd(text));
    ChunkEndCuts(rest);
    ScalarOfAPrefix(rest, ChunkEnd(rest));
  }

  /** The pieces are the text, each is whole characters, and each but the last is as long as it can be. */
  lemma {:induction false} ChunksAreAChunking(text: Bytes)
    requires WellFormed(text)
    ensures IsChunking(Chunks(text), text)
    decreases |text|
  {
    if text != [] {
      ChunkEndCuts(text);
      var end := ChunkEnd(text);
      ChunksAreAChunking(text[end..]);
      if end < |text| {
        FirstPieceIsFull(text, text[end..]);
      }
      PiecePrepended(text[..end], Chunks(text[end..]), text[end..]);
      CutInTwo(text, end);
    }
  }

  lemma CutInTwo(text: Bytes, n: nat)
    requires n <= |text|
    ensures text[..n] + text[n..] == text
  {
  }

  /** So every piece but the last is at most three bytes short of the limit. */
  lemma ChunksAreNearlyFull(text: Bytes, i: nat)
    requires WellFormed(text) && i + 1 < |Chunks(text)|
    ensures |Chunks(text)[i]| >= SEND_CHUNK_BYTES - 3
  {
    ChunksAreAChunking(text);
    assert CutShort(Chunks(text)[i], Chunks(text)[i + 1]);
  }

  lemma FirstPieceEnds(text: Bytes, first: Bytes, next: Bytes)
    requires WellFormed(text) && Fits(first) && first + next <= text
    requires next == [] ==> first == text
    requires next != [] ==> WellFormed(next) && CutShort(first, next)
    ensures ChunkEnd(text) == |first|
  {
    var limit := Min(SEND_CHUNK_BYTES, |text|);
    assert text[..|first|] == first;
    CutsExactlyAtBoundaries(text, |first|);
    SearchFindsTheLast(text, limit);
    var end := BoundaryAtOrBelow(text, limit);
    if |first| < end {
      NoBoundaryWithin(text, |first|, next, end);
    }
  }

  lemma NoBoundaryWithin(text: Bytes, from: nat, next: Bytes, end: nat)
    requires from < end <= |text| && next != [] && WellFormed(next) && next <= text[from..]
    requires end < from + ScalarLength(next)
    ensures !IsBoundary(text, end)
  {
    var after := text[from..];
    assert after[..|next|] == next;
    ScalarOfAPrefix(after, |next|);
    NoBoundaryInside(after, end - from);
    assert text[end] == after[end - from];
  }

  /** There is only one way to cut a text like that. */
  lemma {:induction false} ChunkingIsUnique(pieces: seq<Bytes>, text: Bytes)
    requires WellFormed(text) && IsChunking(pieces, text)
    ensures pieces == Chunks(text)
    decreases |pieces|
  {
    if pieces != [] {
      var first, rest := pieces[0], pieces[1..];
      var next := if rest == [] then [] else rest[0];
      assert rest != [] ==> Concat(rest) == rest[0] + Concat(rest[1..]);
      assert text == first + Concat(rest);
      assert first + next <= text;
      FirstPieceEnds(text, first, next);
      ChunkEndCuts(text);
      assert text[|first|..] == Concat(rest);
      forall i | 0 <= i < |rest| - 1 ensures CutShort(rest[i], rest[i + 1]) {
        assert CutShort(pieces[i + 1], pieces[i + 2]);
      }
      ChunkingIsUnique(rest, Concat(rest));
    }
  }

  /** The pieces decode to consecutive stretches of the text's characters. */
  lemma {:induction false} CharactersStayWhole(text: seq<Scalar>)
    ensures WellFormed(Encode(text))
    ensures forall i :: 0 <= i < |Chunks(Encode(text))| ==> WellFormed(Chunks(Encode(text))[i])
    ensures DecodeEach(Chunks(Encode(text))) == text
  {
    EncodedIsDecoded(text);
    var pieces := Chunks(Encode(text));
    ChunksAreAChunking(Encode(text));
    assert forall i :: 0 <= i < |pieces| ==> Fits(pieces[i]);
    DecodeJoins(pieces);
    EncodedIsDecoded(DecodeEach(pieces));
  }

  function DecodeEach(pieces: seq<Bytes>): seq<Scalar>
    requires forall i :: 0 <= i < |pieces| ==> WellFormed(pieces[i])
  {
    if pieces == [] then [] else Decode(pieces[0]) + DecodeEach(pieces[1..])
  }

  lemma {:induction false} DecodeJoins(pieces: seq<Bytes>)
    requires forall i :: 0 <= i < |pieces| ==> WellFormed(pieces[i])
    ensures Encode(DecodeEach(pieces)) == Concat(pieces)
  {
    if pieces != [] {
      DecodeJoins(pieces[1..]);
      DecodedIsEncoded(pieces[0]);
      EncodeJoins(Decode(pieces[0]), DecodeEach(pieces[1..]));
    }
  }

  // ---------------------------------------------------------------------------
  // The frame a piece goes out in.

  const QUOTE: Byte := 0x22
  const BACKSLASH: Byte := 0x5C
  const NEWLINE: Byte := 0x0A

  function Ascii(text: string): (r: Bytes)
    ensures |r| == |text|
  {
    seq(|text|, i requires 0 <= i < |text| => (text[i] as int % 0x80) as Byte)
  }

  function HexDigit(n: nat): Byte
    requires n < 16
  {
    if n < 10 then 0x30 + n else 0x57 + n
  }

  /** The letter of a two-character escape in section 7 of RFC 8259, as the JSON writer chooses it. */
  function ShortEscape(b: Byte): Option<Byte> {
    if b == QUOTE || b == BACKSLASH then Some(b)
    else if b == 0x08 then Some(0x62)
    else if b == 0x09 then Some(0x74)
    else if b == NEWLINE then Some(0x6E)
    else if b == 0x0C then Some(0x66)
    else if b == 0x0D then Some(0x72)
    else None
  }

  function EscapeByte(b: Byte): Bytes {
    if ShortEscape(b).Some? then [BACKSLASH, ShortEscape(b).value]
    else if b < 0x20 then [BACKSLASH, 0x75, 0x30, 0x30, HexDigit(b / 16), HexDigit(b % 16)]
    else [b]
  }

  function Escape(text: Bytes): Bytes {
    if text == [] then [] else EscapeByte(text[0]) + Escape(text[1..])
  }

  function Digits(n: nat): Bytes {
    if n < 10 then [0x30 + n] else Digits(n / 10) + [0x30 + n % 10]
  }

  function BeforePane(): Bytes { Ascii("{\"type\":\"send\",\"pane_id\":") }

  function BeforeKeys(): Bytes { Ascii(",\"keys\":\"") }

  function AfterKeys(): Bytes { Ascii("\"}") + [NEWLINE] }

  function SendFrame(paneId: U64, keys: Bytes): Bytes {
    BeforePane() + (Digits(paneId) + (BeforeKeys() + (Escape(keys) + AfterKeys())))
  }

  lemma {:induction false} EscapeGrowsSixfold(text: Bytes)
    ensures |text| <= |Escape(text)| <= 6 * |text|
    ensures NEWLINE !in Escape(text)
  {
    if text != [] {
      EscapeGrowsSixfold(text[1..]);
    }
  }

  /** Two bytes for what has a letter, six for the other control bytes, and nothing else is touched. */
  lemma EscapeByteExactly(b: Byte)
    ensures |EscapeByte(b)| == if b in [QUOTE, BACKSLASH, 0x08, 0x09, 0x0A, 0x0C, 0x0D] then 2
                               else if b < 0x20 then 6 else 1
    ensures |EscapeByte(b)| == 1 ==> EscapeByte(b) == [b]
    ensures forall i :: 0 <= i < |EscapeByte(b)| ==> EscapeByte(b)[i] >= 0x20
  {
  }

  /** Inside a JSON string no control byte stands for itself. */
  lemma {:induction false} EscapedIsPlain(text: Bytes)
    ensures forall i :: 0 <= i < |Escape(text)| ==> Escape(text)[i] >= 0x20
  {
    if text != [] {
      EscapedIsPlain(text[1..]);
      EscapeByteExactly(text[0]);
    }
  }

  function Power10(k: nat): nat {
    if k == 0 then 1 else 10 * Power10(k - 1)
  }

  lemma {:induction false} DigitsAreFew(n: nat, k: nat)
    requires n < Power10(k) && k > 0
    ensures 0 < |Digits(n)| <= k && NEWLINE !in Digits(n)
    decreases k
  {
    if n >= 10 {
      DigitsAreFew(n / 10, k - 1);
    }
  }

  lemma TwentyDigits(n: U64)
    ensures n < Power10(20)
  {
    assert Power10(10) == 10_000_000_000;
    assert Power10(20) == 100_000_000_000_000_000_000;
  }

  lemma AsciiIsOneLine(text: string)
    requires forall c :: c in text ==> ' ' <= c <= '~'
    ensures NEWLINE !in Ascii(text)
  {
    forall i | 0 <= i < |text| ensures Ascii(text)[i] != NEWLINE {
      assert text[i] in text;
    }
  }

  lemma FrameIsSmall(paneId: U64, keys: Bytes)
    requires |keys| <= SEND_CHUNK_BYTES
    ensures |SendFrame(paneId, keys)| <= MAX_FRAME
  {
    EscapeGrowsSixfold(keys);
    TwentyDigits(paneId);
    DigitsAreFew(paneId, 20);
    assert |BeforePane()| == 25 && |BeforeKeys()| == 9 && |AfterKeys()| == 3;
  }

  lemma FrameIsOneLine(paneId: U64, keys: Bytes)
    ensures IsOneLine(SendFrame(paneId, keys))
  {
    EscapeGrowsSixfold(keys);
    TwentyDigits(paneId);
    DigitsAreFew(paneId, 20);
    AsciiIsOneLine("{\"type\":\"send\",\"pane_id\":");
    AsciiIsOneLine(",\"keys\":\"");
    AsciiIsOneLine("\"}");
    OneLineEnds(Escape(keys), Ascii("\"}"));
    OneLineGoesOn(BeforeKeys(), Escape(keys) + AfterKeys());
    OneLineGoesOn(Digits(paneId), BeforeKeys() + (Escape(keys) + AfterKeys()));
    OneLineGoesOn(BeforePane(), Digits(paneId) + (BeforeKeys() + (Escape(keys) + AfterKeys())));
  }

  predicate IsOneLine(frame: Bytes) {
    |frame| > 0 && frame[|frame| - 1] == NEWLINE && NEWLINE !in frame[..|frame| - 1]
  }

  lemma OneLineEnds(text: Bytes, closing: Bytes)
    requires NEWLINE !in text && NEWLINE !in closing
    ensures IsOneLine(text + (closing + [NEWLINE]))
  {
    Regroup(text, closing, [NEWLINE]);
    var frame := text + closing + [NEWLINE];
    assert frame[..|frame| - 1] == text + closing;
  }

  lemma OneLineGoesOn(text: Bytes, frame: Bytes)
    requires NEWLINE !in text && IsOneLine(frame)
    ensures IsOneLine(text + frame)
  {
    assert (text + frame)[..|text + frame| - 1] == text + frame[..|frame| - 1];
  }

  /** Every frame of a send is within the limit `write_json` enforces, and is one line. */
  lemma ChunkFramesFit(text: Bytes, paneId: U64, i: nat)
    requires WellFormed(text) && i < |Chunks(text)|
    ensures
      var frame := SendFrame(paneId, Chunks(text)[i]);
      |frame| <= MAX_FRAME && IsOneLine(frame)
  {
    ChunksAreAChunking(text);
    assert Fits(Chunks(text)[i]);
    FrameIsSmall(paneId, Chunks(text)[i]);
    FrameIsOneLine(paneId, Chunks(text)[i]);
  }

  // ---------------------------------------------------------------------------
  // Reading a frame back.

  function UnescapeOne(b: Bytes): Option<(Byte, Bytes)> {
    if b == [] || b[0] == QUOTE then None
    else if b[0] != BACKSLASH then Some((b[0], b[1..]))
    else if |b| >= 6 && b[1] == 0x75 && IsHex(b[4]) && IsHex(b[5]) && HexValue(b[4]) < 8 then
      Some((16 * HexValue(b[4]) + HexValue(b[5]), b[6..]))
    else if |b| < 2 then None
    else if b[1] == 0x62 then Some((0x08, b[2..]))
    else if b[1] == 0x74 then Some((0x09, b[2..]))
    else if b[1] == 0x6E then Some((NEWLINE, b[2..]))
    else if b[1] == 0x66 then Some((0x0C, b[2..]))
    else if b[1] == 0x72 then Some((0x0D, b[2..]))
    else if b[1] == QUOTE || b[1] == BACKSLASH then Some((b[1], b[2..]))
    else None
  }

  predicate IsHex(b: Byte) {
    0x30 <= b < 0x3A || 0x61 <= b < 0x67
  }

  function HexValue(b: Byte): (n: nat)
    requires IsHex(b)
    ensures n < 16
  {
    if b < 0x3A then b as int - 0x30 else b as int - 0x57
  }

  lemma EscapedByteIsRead(b: Byte)
    ensures UnescapeOne(EscapeByte(b)) == Some((b, []))
  {
    var e := EscapeByte(b);
    assert e[|e|..] == [];
  }

  /** Reading one byte takes what it takes, whatever comes after. */
  lemma OnlyOneIsUnescaped(escaped: Bytes, rest: Bytes, b: Byte)
    requires UnescapeOne(escaped) == Some((b, []))
    ensures UnescapeOne(escaped + rest) == Some((b, rest))
  {
    var all := escaped + rest;
    assert forall i :: 0 <= i < |escaped| ==> all[i] == escaped[i];
    DropPrefix(escaped, rest);
  }

  lemma ByteIsUnescaped(b: Byte, rest: Bytes)
    ensures UnescapeOne(EscapeByte(b) + rest) == Some((b, rest))
  {
    EscapedByteIsRead(b);
    OnlyOneIsUnescaped(EscapeByte(b), rest, b);
  }

  lemma FirstByteIsUnescaped(a: Bytes, end: Bytes)
    ensures a != [] ==> UnescapeOne(Escape(a) + end) == Some((a[0], Escape(a[1..]) + end))
    ensures a == [] ==> Escape(a) + end == end
  {
    if a != [] {
      Regroup(EscapeByte(a[0]), Escape(a[1..]), end);
      ByteIsUnescaped(a[0], Escape(a[1..]) + end);
    }
  }

  /** Escaped text ends at its closing quote and nowhere before, so two of them cannot be confused. */
  lemma {:induction false} EscapedTextIsReadBack(a: Bytes, b: Bytes, restA: Bytes, restB: Bytes)
    requires Escape(a) + ([QUOTE] + restA) == Escape(b) + ([QUOTE] + restB)
    ensures a == b && restA == restB
  {
    var endA, endB := [QUOTE] + restA, [QUOTE] + restB;
    var all := Escape(a) + endA;
    FirstByteIsUnescaped(a, endA);
    FirstByteIsUnescaped(b, endB);
    if a == [] || b == [] {
      assert UnescapeOne(endA).None? && UnescapeOne(endB).None?;
      assert a == [] && b == [];
      assert endA == all == endB;
      assert restA == endA[1..] && restB == endB[1..];
    } else {
      EscapedTextIsReadBack(a[1..], b[1..], restA, restB);
      assert a == [a[0]] + a[1..] && b == [b[0]] + b[1..];
    }
  }

  function ReadNumber(b: Bytes, value: nat): (nat, Bytes) {
    if b != [] && 0x30 <= b[0] < 0x3A then ReadNumber(b[1..], 10 * value + (b[0] as int - 0x30))
    else (value, b)
  }

  lemma {:induction false} DigitsAreReadBack(n: nat, rest: Bytes)
    ensures ReadNumber(Digits(n) + rest, 0) == ReadNumber(rest, n)
    decreases n
  {
    if n < 10 {
      assert (Digits(n) + rest)[1..] == rest;
    } else {
      var digit: Bytes := [0x30 + n % 10];
      DigitsAreReadBack(n / 10, digit + rest);
      assert Digits(n) + rest == Digits(n / 10) + (digit + rest);
      assert (digit + rest)[1..] == rest;
    }
  }

  /** A frame names its pane and carries its keys exactly. */
  lemma FramesCarryTheirKeys(paneA: U64, a: Bytes, paneB: U64, b: Bytes)
    requires SendFrame(paneA, a) == SendFrame(paneB, b)
    ensures paneA == paneB && a == b
  {
    var restA := BeforeKeys() + (Escape(a) + AfterKeys());
    var restB := BeforeKeys() + (Escape(b) + AfterKeys());
    DropPrefix(BeforePane(), Digits(paneA) + restA);
    DropPrefix(BeforePane(), Digits(paneB) + restB);
    KeysAreSetOff(Escape(a) + AfterKeys());
    KeysAreSetOff(Escape(b) + AfterKeys());
    NumbersAreReadBack(paneA, restA, paneB, restB);
    DropPrefix(BeforeKeys(), Escape(a) + AfterKeys());
    DropPrefix(BeforeKeys(), Escape(b) + AfterKeys());
    KeysAreClosed();
    EscapedTextIsReadBack(a, b, [0x7D, NEWLINE], [0x7D, NEWLINE]);
  }

  lemma KeysAreSetOff(rest: Bytes)
    ensures BeforeKeys() + rest != [] && (BeforeKeys() + rest)[0] == 0x2C
  {
  }

  lemma KeysAreClosed()
    ensures AfterKeys() == [QUOTE] + [0x7D, NEWLINE]
  {
  }

  /** A number ends where something else begins. */
  lemma NumbersAreReadBack(m: nat, restM: Bytes, n: nat, restN: Bytes)
    requires restM != [] && restM[0] == 0x2C && restN != [] && restN[0] == 0x2C
    requires Digits(m) + restM == Digits(n) + restN
    ensures m == n && restM == restN
  {
    DigitsAreReadBack(m, restM);
    DigitsAreReadBack(n, restN);
    assert ReadNumber(restM, m) == (m, restM) && ReadNumber(restN, n) == (n, restN);
  }

  // ---------------------------------------------------------------------------
  // Sending every piece.

  function Decimal(n: nat): string {
    if n < 10 then [(0x30 + n) as char] else Decimal(n / 10) + [(0x30 + n % 10) as char]
  }

  function PartialSendMessage(error: string, delivered: nat): string {
    if delivered == 0 then error
    else error + " (" + Decimal(delivered) + " bytes were already delivered)"
  }

  lemma {:induction false} ConcatAppends(pieces: seq<Bytes>, k: nat)
    requires k < |pieces|
    ensures Concat(pieces[..k + 1]) == Concat(pieces[..k]) + pieces[k]
  {
    if k == 0 {
      assert pieces[..1] == [pieces[0]] && Concat(pieces[..1][1..]) == [];
    } else {
      ConcatAppends(pieces[1..], k - 1);
      assert pieces[..k + 1][1..] == pieces[1..][..k];
      assert pieces[..k][1..] == pieces[1..][..k - 1];
    }
  }

  lemma {:induction false} ConcatOfAPrefix(pieces: seq<Bytes>, k: nat)
    requires k <= |pieces|
    ensures
      var taken := Concat(pieces[..k]);
      |taken| <= |Concat(pieces)| && Concat(pieces)[..|taken|] == taken
  {
    if k > 0 {
      ConcatOfAPrefix(pieces[1..], k - 1);
      assert pieces[..k][1..] == pieces[1..][..k - 1];
    }
  }

  /** Frame `k` is the first the node refuses; the frames before it are `delivered` bytes of the text. */
  ghost predicate StopsAt(
    text: Bytes, pieces: seq<Bytes>, answers: nat -> Option<string>, k: nat, error: string, delivered: nat)
  {
    && k < |pieces|
    && (forall i :: 0 <= i < k ==> answers(i).None?)
    && answers(k).Some?
    && error == PartialSendMessage(answers(k).value, delivered)
    && delivered <= |text|
    && text[..delivered] == Concat(pieces[..k])
  }

  /**
   * `answers(i)` is the error the node gives to frame `i`, if it gives one. `delivered` counts the bytes
   * of the frames it took, which are a prefix of the text, and a failure names exactly that number.
   */
  method SendAll(paneId: U64, text: Bytes, answers: nat -> Option<string>)
    returns (r: Result<U64, string>, delivered: nat)
    requires WellFormed(text)
    ensures text == [] ==> r == Failure("nothing to send") && delivered == 0
    ensures r.Success? ==> r.value == paneId && delivered == |text|
    ensures text != [] ==> (r.Success? <==> forall i :: 0 <= i < |Chunks(text)| ==> answers(i).None?)
    ensures text != [] && r.Failure? ==>
      exists k: nat :: StopsAt(text, Chunks(text), answers, k, r.error, delivered)
  {
    delivered := 0;
    if text == [] {
      return Failure("nothing to send"), 0;
    }
    var chunks := ChunkSend(text);
    ChunksAreAChunking(text);
    for k := 0 to |chunks|
      invariant forall i :: 0 <= i < k ==> answers(i).None?
      invariant delivered == |Concat(chunks[..k])|
    {
      var answer := answers(k);
      if answer.Some? {
        ConcatOfAPrefix(chunks, k);
        assert StopsAt(text, chunks, answers, k, PartialSendMessage(answer.value, delivered), delivered);
        return Failure(PartialSendMessage(answer.value, delivered)), delivered;
      }
      ConcatAppends(chunks, k);
      delivered := delivered + |chunks[k]|;
    }
    assert chunks[..|chunks|] == chunks;
    r := Success(paneId);
  }
}
