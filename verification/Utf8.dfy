/** UTF-8 as section 3 of RFC 3629 lays it out, and where a byte sequence may be cut. */
module Utf8 {
  import opened Common

  type Scalar = c: int | 0 <= c < 0xD800 || 0xE000 <= c < 0x11_0000

  predicate IsTail(b: Byte) {
    0x80 <= b < 0xC0
  }

  /** The six bits a tail byte carries. */
  function Payload(tail: Byte): int {
    tail as int - 0x80
  }

  function EncodeScalar(c: Scalar): Bytes {
    if c < 0x80 then [c]
    else if c < 0x800 then [0xC0 + c / 0x40, 0x80 + c % 0x40]
    else if c < 0x1_0000 then [0xE0 + c / 0x1000, 0x80 + c / 0x40 % 0x40, 0x80 + c % 0x40]
    else [0xF0 + c / 0x4_0000, 0x80 + c / 0x1000 % 0x40, 0x80 + c / 0x40 % 0x40, 0x80 + c % 0x40]
  }

  function Encode(text: seq<Scalar>): Bytes {
    if text == [] then [] else EncodeScalar(text[0]) + Encode(text[1..])
  }

  /** The length of the well-formed scalar that `b` starts with, or 0: the grammar of section 4. */
  function ScalarLength(b: Bytes): nat {
    if b == [] then 0
    else if b[0] < 0x80 then 1
    else if |b| < 2 || !IsTail(b[1]) then 0
    else if 0xC2 <= b[0] < 0xE0 then 2
    else if |b| < 3 || !IsTail(b[2]) then 0
    else if b[0] == 0xE0 then if b[1] >= 0xA0 then 3 else 0
    else if b[0] == 0xED then if b[1] < 0xA0 then 3 else 0
    else if 0xE0 < b[0] < 0xF0 then 3
    else if |b| < 4 || !IsTail(b[3]) then 0
    else if b[0] == 0xF0 then if b[1] >= 0x90 then 4 else 0
    else if b[0] == 0xF4 then if b[1] < 0x90 then 4 else 0
    else if 0xF0 < b[0] < 0xF4 then 4
    else 0
  }

  function DecodeScalar(b: Bytes): Scalar
    requires ScalarLength(b) > 0
  {
    var lead: int, n := b[0], ScalarLength(b);
    if n == 1 then lead
    else if n == 2 then (lead - 0xC0) * 0x40 + Payload(b[1])
    else if n == 3 then (lead - 0xE0) * 0x1000 + Payload(b[1]) * 0x40 + Payload(b[2])
    else (lead - 0xF0) * 0x4_0000 + Payload(b[1]) * 0x1000 + Payload(b[2]) * 0x40 + Payload(b[3])
  }

  predicate WellFormed(b: Bytes) {
    b == [] || (0 < ScalarLength(b) <= |b| && WellFormed(b[ScalarLength(b)..]))
  }

  function Decode(b: Bytes): seq<Scalar>
    requires WellFormed(b)
  {
    if b == [] then [] else [DecodeScalar(b)] + Decode(b[ScalarLength(b)..])
  }

  /** `str::is_char_boundary`. */
  predicate IsBoundary(b: Bytes, i: nat) {
    i == 0 || i == |b| || (i < |b| && !IsTail(b[i]))
  }

  // ---------------------------------------------------------------------------
  // Well-formed bytes are exactly the encodings.

  lemma Sextets(c: nat)
    ensures c == c / 0x40 * 0x40 + c % 0x40
    ensures c / 0x40 == c / 0x1000 * 0x40 + c / 0x40 % 0x40
    ensures c / 0x1000 == c / 0x4_0000 * 0x40 + c / 0x1000 % 0x40
  {
  }

  lemma EncodedScalarIsRead(c: Scalar)
    ensures ScalarLength(EncodeScalar(c)) == |EncodeScalar(c)|
    ensures DecodeScalar(EncodeScalar(c)) == c
  {
    Sextets(c);
  }

  lemma OnlyTheScalarIsRead(b: Bytes, rest: Bytes)
    requires ScalarLength(b) == |b| > 0
    ensures ScalarLength(b + rest) == |b| && DecodeScalar(b + rest) == DecodeScalar(b)
  {
    var all := b + rest;
    assert forall i :: 0 <= i < |b| ==> all[i] == b[i];
  }

  lemma ScalarIsRead(c: Scalar, rest: Bytes)
    ensures ScalarLength(EncodeScalar(c) + rest) == |EncodeScalar(c)|
    ensures DecodeScalar(EncodeScalar(c) + rest) == c
    ensures (EncodeScalar(c) + rest)[|EncodeScalar(c)|..] == rest
  {
    EncodedScalarIsRead(c);
    OnlyTheScalarIsRead(EncodeScalar(c), rest);
  }

  lemma Reassembled(high: nat, mid: nat, low: nat)
    requires mid < 0x40 && low < 0x40
    ensures
      var c := high * 0x1000 + mid * 0x40 + low;
      c % 0x40 == low && c / 0x40 % 0x40 == mid && c / 0x1000 == high
  {
    var c := high * 0x1000 + mid * 0x40 + low;
    assert c / 0x40 == high * 0x40 + mid;
  }

  lemma FourBytesAreWritten(b: Bytes)
    requires ScalarLength(b) == 4
    ensures EncodeScalar(DecodeScalar(b)) == b[..4]
  {
    var lead: int := b[0];
    var high := (lead - 0xF0) * 0x40 + Payload(b[1]);
    Reassembled(high, Payload(b[2]), Payload(b[3]));
    assert high % 0x40 == Payload(b[1]);
    assert DecodeScalar(b) / 0x4_0000 == lead - 0xF0;
  }

  lemma ScalarIsWritten(b: Bytes)
    requires ScalarLength(b) > 0
    ensures EncodeScalar(DecodeScalar(b)) == b[..ScalarLength(b)]
  {
    var lead: int, n := b[0], ScalarLength(b);
    if n == 2 {
      Reassembled(0, lead - 0xC0, Payload(b[1]));
    } else if n == 3 {
      Reassembled(lead - 0xE0, Payload(b[1]), Payload(b[2]));
    } else if n == 4 {
      FourBytesAreWritten(b);
    }
  }

  /** Encoding gives well-formed bytes, and decoding them gives the text back. */
  lemma {:induction false} EncodedIsDecoded(text: seq<Scalar>)
    ensures WellFormed(Encode(text)) && Decode(Encode(text)) == text
  {
    if text != [] {
      EncodedIsDecoded(text[1..]);
      ScalarIsRead(text[0], Encode(text[1..]));
    }
  }

  /** Every well-formed sequence is the encoding of what it decodes to. */
  lemma {:induction false} DecodedIsEncoded(b: Bytes)
    requires WellFormed(b)
    ensures Encode(Decode(b)) == b
  {
    if b != [] {
      ScalarIsWritten(b);
      DecodedIsEncoded(b[ScalarLength(b)..]);
    }
  }

  lemma {:induction false} EncodeJoins(a: seq<Scalar>, b: seq<Scalar>)
    ensures Encode(a + b) == Encode(a) + Encode(b)
  {
    if a == [] {
      assert a + b == b;
    } else {
      EncodeJoins(a[1..], b);
      assert (a + b)[1..] == a[1..] + b;
      Regroup(EncodeScalar(a[0]), Encode(a[1..]), Encode(b));
    }
  }

  // ---------------------------------------------------------------------------
  // Cutting.

  lemma SlicesShift(b: Bytes, n: nat, i: nat)
    requires n <= i <= |b|
    ensures b[..i][n..] == b[n..][..i - n]
    ensures b[i..] == b[n..][i - n..]
  {
  }

  /** A prefix of a well-formed sequence is well formed exactly at a boundary, and then so is the rest. */
  lemma {:induction false} CutsExactlyAtBoundaries(b: Bytes, i: nat)
    requires WellFormed(b) && i <= |b|
    ensures WellFormed(b[..i]) <==> IsBoundary(b, i)
    ensures IsBoundary(b, i) ==> WellFormed(b[i..])
  {
    var n := ScalarLength(b);
    if 0 < i < |b| {
      if i < n {
        assert IsTail(b[i]);
        assert ScalarLength(b[..i]) == 0;
      } else {
        assert ScalarLength(b[..i]) == n;
        SlicesShift(b, n, i);
        CutsExactlyAtBoundaries(b[n..], i - n);
        if i == n {
          LeadIsNoTail(b[n..]);
        }
      }
    } else if i == 0 {
      assert b[0..] == b;
    } else {
      assert b[..i] == b;
    }
  }

  lemma LeadIsNoTail(b: Bytes)
    requires ScalarLength(b) > 0
    ensures !IsTail(b[0])
  {
  }

  /** Among four neighbouring positions one is a boundary. */
  lemma {:induction false} BoundaryIsNear(b: Bytes, i: nat)
    requires WellFormed(b) && i <= |b|
    ensures exists j: nat :: i - 3 <= j <= i && IsBoundary(b, j)
  {
    var n := ScalarLength(b);
    if i < 4 {
      assert IsBoundary(b, 0);
    } else {
      BoundaryIsNear(b[n..], i - n);
      var j: nat :| i - n - 3 <= j <= i - n && IsBoundary(b[n..], j);
      if j == 0 && n < |b| {
        LeadIsNoTail(b[n..]);
      }
      assert IsBoundary(b, j + n);
    }
  }

  /** Nothing inside a scalar is a boundary. */
  lemma NoBoundaryInside(b: Bytes, i: nat)
    requires 0 < i < ScalarLength(b)
    ensures !IsBoundary(b, i)
  {
  }
}
