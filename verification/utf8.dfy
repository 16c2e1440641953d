/** Decoding and encoding UTF-8 (unicode/utf8.h, unicode.h), as in sections 3 and 4 of RFC 3629. */
module Utf8 {
  import opened Options

  type Byte = b: int | 0 <= b < 0x100

  const DECODE_ERROR := -1

  predicate IsScalar(c: int) {
    0 <= c < 0xD800 || 0xE000 <= c <= 0x10FFFF
  }

  /** A trail byte holds six bits; shifting by six bits divides by 64. */
  function Trail(c: int): Byte {
    0x80 + c % 64
  }

  function Join6(high: int, low: int): int {
    high * 64 + low
  }

  lemma Digits(high: int, low: int)
    requires 0 <= low < 64
    ensures Join6(high, low) / 64 == high && Join6(high, low) % 64 == low
  {
  }

  /** The encoding of a Unicode scalar value. */
  function Encode(c: int): (s: seq<Byte>)
    requires IsScalar(c)
    ensures 1 <= |s| <= 4
  {
    if c <= 0x7F then [c]
    else if c <= 0x7FF then [0xC0 + c / 64, Trail(c)]
    else if c <= 0xFFFF then [0xE0 + c / 64 / 64, Trail(c / 64), Trail(c)]
    else [0xF0 + c / 64 / 64 / 64, Trail(c / 64 / 64), Trail(c / 64), Trail(c)]
  }

  function EncodeAll(cs: seq<int>): seq<Byte>
    requires forall i | 0 <= i < |cs| :: IsScalar(cs[i])
  {
    if cs == [] then [] else Encode(cs[0]) + EncodeAll(cs[1..])
  }

  // ----- The byte sequences of RFC 3629 -----

  predicate IsTrail(b: Byte) {
    0x80 <= b <= 0xBF
  }

  /** May this byte follow this lead byte?  The exceptions keep out overlong forms, surrogates and numbers
      that are too large. */
  predicate IsSecond(lead: Byte, b: Byte) {
    && IsTrail(b)
    && (lead == 0xE0 ==> b >= 0xA0) && (lead == 0xED ==> b < 0xA0)
    && (lead == 0xF0 ==> b >= 0x90) && (lead == 0xF4 ==> b < 0x90)
  }

  predicate IsSequence(b: seq<Byte>) {
    match |b|
    case 1 => b[0] < 0x80
    case 2 => 0xC2 <= b[0] < 0xE0 && IsSecond(b[0], b[1])
    case 3 => 0xE0 <= b[0] < 0xF0 && IsSecond(b[0], b[1]) && IsTrail(b[2])
    case 4 => 0xF0 <= b[0] <= 0xF4 && IsSecond(b[0], b[1]) && IsTrail(b[2]) && IsTrail(b[3])
    case _ => false
  }

  function Payload(b: Byte): int {
    if IsTrail(b) then b - 0x80
    else if b < 0x80 then b
    else if b < 0xE0 then b - 0xC0
    else if b < 0xF0 then b - 0xE0
    else b - 0xF0
  }

  function ValueOf(b: seq<Byte>): int
    requires IsSequence(b)
    decreases |b|
  {
    var first := Payload(b[0]);
    if |b| == 1 then first
    else if |b| == 2 then Join6(first, Payload(b[1]))
    else if |b| == 3 then Join6(Join6(first, Payload(b[1])), Payload(b[2]))
    else Join6(Join6(Join6(first, Payload(b[1])), Payload(b[2])), Payload(b[3]))
  }

  /** The valid sequences are the encodings of the scalar values. */
  lemma EncodingIsSequence(c: int)
    requires IsScalar(c)
    ensures IsSequence(Encode(c)) && ValueOf(Encode(c)) == c
  {
    var b := Encode(c);
    if c <= 0x7F {
    } else if c <= 0x7FF {
      assert 2 <= c / 64 < 32;
    } else if c <= 0xFFFF {
      assert c / 64 / 64 < 16 && (c / 64 / 64 == 0 ==> c / 64 % 64 >= 32);
      assert c / 64 / 64 == 13 ==> c / 64 % 64 < 32;
    } else {
      assert c / 64 / 64 / 64 <= 4 && (c / 64 / 64 / 64 == 0 ==> c / 64 / 64 % 64 >= 16);
      assert c / 64 / 64 / 64 == 4 ==> c / 64 / 64 % 64 < 16;
    }
  }

  lemma SequenceIsEncoding(b: seq<Byte>)
    requires IsSequence(b)
    ensures IsScalar(ValueOf(b)) && Encode(ValueOf(b)) == b
  {
    var first := Payload(b[0]);
    if |b| == 2 {
      Digits(first, Payload(b[1]));
    } else if |b| == 3 {
      var high := Join6(first, Payload(b[1]));
      Digits(first, Payload(b[1]));
      Digits(high, Payload(b[2]));
    } else if |b| == 4 {
      var high := Join6(first, Payload(b[1]));
      var higher := Join6(high, Payload(b[2]));
      Digits(first, Payload(b[1]));
      Digits(high, Payload(b[2]));
      Digits(higher, Payload(b[3]));
    }
  }

  // ----- The encoder -----

  /** Writes a code point at offset i and gives the offset after it. */
  method Append(buffer: array<Byte>, start: nat, c: int) returns (i: nat)
    requires IsScalar(c) && start + |Encode(c)| <= buffer.Length
    modifies buffer
    ensures start < i <= buffer.Length && buffer[start..i] == Encode(c)
    ensures buffer[..start] == old(buffer[..start]) && buffer[i..] == old(buffer[i..])
  {
    i := start;
    if c <= 0x7F {
      buffer[i] := c;
      i := i + 1;
    } else {
      if c <= 0x7FF {
        buffer[i] := c / 64 + 0xC0;
        i := i + 1;
      } else {
        if c <= 0xFFFF {
          buffer[i] := c / 64 / 64 + 0xE0;
          i := i + 1;
        } else {
          buffer[i] := c / 64 / 64 / 64 + 0xF0;
          i := i + 1;
          buffer[i] := Trail(c / 64 / 64);
          i := i + 1;
        }
        buffer[i] := Trail(c / 64);
        i := i + 1;
      }
      buffer[i] := Trail(c);
      i := i + 1;
    }
  }

  // ----- The decoder -----

  /** For a lead byte E0 to EF, by its low bits: which top three bits the next byte may have. */
  const LEAD3_T1_BITS: seq<nat> := [
    0x20, 0x30, 0x30, 0x30, 0x30, 0x30, 0x30, 0x30, 0x30, 0x30, 0x30, 0x30, 0x30, 0x10, 0x30, 0x30]

  /** For the byte after a lead byte F0 to F4, by its top bits: which low bits the lead byte may have. */
  const LEAD4_T1_BITS: seq<nat> := [
    0x00, 0x00, 0x00, 0x00, 0x00, 0x00, 0x00, 0x00, 0x1E, 0x0F, 0x0F, 0x0F, 0x00, 0x00, 0x00, 0x00]

  function Power2(k: nat): (p: nat)
    ensures p > 0
  {
    if k == 0 then 1 else 2 * Power2(k - 1)
  }

  predicate HasBit(bits: nat, k: nat) {
    bits / Power2(k) % 2 == 1
  }

  lemma Powers()
    ensures Power2(0) == 1 && Power2(1) == 2 && Power2(2) == 4 && Power2(3) == 8
    ensures Power2(4) == 16 && Power2(5) == 32 && Power2(6) == 64 && Power2(7) == 128
  {
    assert Power2(1) == 2 * Power2(0) && Power2(2) == 2 * Power2(1) && Power2(3) == 2 * Power2(2);
    assert Power2(4) == 2 * Power2(3) && Power2(5) == 2 * Power2(4) && Power2(6) == 2 * Power2(5);
    assert Power2(7) == 2 * Power2(6);
  }

  /** Looks up whether the table admits a second byte after a lead byte E0 to EF. */
  method AdmitsSecond3(lead: Byte, t: Byte) returns (yes: bool)
    requires 0xE0 <= lead < 0xF0
    ensures yes <==> IsSecond(lead, t)
  {
    Powers();
    var (bits, k) := (LEAD3_T1_BITS[lead % 16], t / 32);
    assert bits == if lead == 0xE0 then 0x20 else if lead == 0xED then 0x10 else 0x30;
    assert k == 0 || k == 1 || k == 2 || k == 3 || k == 4 || k == 5 || k == 6 || k == 7;
    yes := HasBit(bits, k);
  }

  /** Looks up whether the table admits a second byte after a lead byte F0 to F4. */
  method AdmitsSecond4(lead: Byte, t: Byte) returns (yes: bool)
    requires 0xF0 <= lead <= 0xF4
    ensures yes <==> IsSecond(lead, t)
  {
    Powers();
    var (bits, k) := (LEAD4_T1_BITS[t / 16], lead - 0xF0);
    assert bits == if t / 16 == 8 then 0x1E else if 9 <= t / 16 <= 11 then 0x0F else 0;
    assert k == 0 || k == 1 || k == 2 || k == 3 || k == 4;
    yes := HasBit(bits, k);
  }

  /** The low six bits of a byte. */
  function Low6(b: Byte): (t: Byte)
    ensures IsTrail(b) ==> t == Payload(b)
  {
    b % 64
  }

  /** A byte less 0x80, in eight bits. */
  function LessHighBit(b: Byte): (t: Byte)
    ensures t <= 0x3F <==> IsTrail(b)
    ensures t <= 0x3F ==> t == Payload(b)
  {
    if b >= 0x80 then b - 0x80 else b + 0x80
  }

  /** A valid sequence of n bytes starts here. */
  predicate IsSequenceAt(s: seq<Byte>, i: nat, n: nat) {
    && i + n <= |s|
    && match n
       case 1 => s[i] < 0x80
       case 2 => 0xC2 <= s[i] < 0xE0 && IsTrail(s[i + 1])
       case 3 => 0xE0 <= s[i] < 0xF0 && IsSecond(s[i], s[i + 1]) && IsTrail(s[i + 2])
       case 4 => 0xF0 <= s[i] <= 0xF4 && IsSecond(s[i], s[i + 1]) && IsTrail(s[i + 2]) && IsTrail(s[i + 3])
       case _ => false
  }

  function ValueAt(s: seq<Byte>, i: nat, n: nat): int
    requires IsSequenceAt(s, i, n)
  {
    if n == 1 then s[i]
    else if n == 2 then Join6(s[i] - 0xC0, Payload(s[i + 1]))
    else if n == 3 then Join6(Join6(s[i] - 0xE0, Payload(s[i + 1])), Payload(s[i + 2]))
    else Join6(Join6(Join6(s[i] - 0xF0, Payload(s[i + 1])), Payload(s[i + 2])), Payload(s[i + 3]))
  }

  lemma SlicedSequence(s: seq<Byte>, i: nat, n: nat)
    requires i + n <= |s|
    ensures IsSequence(s[i..i + n]) <==> IsSequenceAt(s, i, n)
    ensures IsSequenceAt(s, i, n) ==> ValueOf(s[i..i + n]) == ValueAt(s, i, n)
  {
    var b := s[i..i + n];
    assert |b| == n && forall k | 0 <= k < n :: b[k] == s[i + k];
  }

  /** Decodes the code point at the given offset: a valid sequence that starts there, or an error. */
  method Next(s: seq<Byte>, start: nat) returns (i: nat, c: int)
    requires start < |s|
    ensures start < i <= |s| && i <= start + 4
    ensures c != DECODE_ERROR ==> IsSequenceAt(s, start, i - start) && c == ValueAt(s, start, i - start)
    ensures c == DECODE_ERROR ==> forall n: nat :: !IsSequenceAt(s, start, n)
  {
    i, c := start, s[start];
    i := i + 1;
    if c >= 0x80 {
      var t: Byte := 0;
      var valid := false;
      if i != |s| {
        if c >= 0xE0 {
          if c < 0xF0 {
            c := c % 16;
            t := s[i];
            valid := AdmitsSecond3(s[start], t);
            t := Low6(t);
          } else {
            c := c - 0xF0;
            if c <= 4 {
              t := s[i];
              var admitted := AdmitsSecond4(s[start], t);
              if admitted {
                c := Join6(c, Low6(t));
                i := i + 1;
                if i != |s| {
                  t := LessHighBit(s[i]);
                  valid := t <= 0x3F;
                }
              }
            }
          }
          if valid {
            c := Join6(c, t);
            i := i + 1;
            valid := i != |s|;
          }
        } else {
          valid := c >= 0xC2;
          if valid {
            c := c % 32;
          }
        }
        if valid {
          t := LessHighBit(s[i]);
          valid := t <= 0x3F;
          if valid {
            c := Join6(c, t);
            i := i + 1;
          }
        }
      }
      if !valid {
        c := DECODE_ERROR;
      }
    }
  }

  // ----- Whole texts -----

  /** The length of the valid sequence at an offset, 0 if there is none; there is at most one. */
  function SequenceLength(s: seq<Byte>, i: nat): (n: nat)
    ensures n > 0 ==> IsSequenceAt(s, i, n)
    ensures forall k: nat | IsSequenceAt(s, i, k) :: k == n
  {
    if IsSequenceAt(s, i, 1) then 1
    else if IsSequenceAt(s, i, 2) then 2
    else if IsSequenceAt(s, i, 3) then 3
    else if IsSequenceAt(s, i, 4) then 4
    else 0
  }

  /** The code points from an offset on, if all of the text from there is valid. */
  function DecodeValid(s: seq<Byte>, i: nat): Option<seq<int>>
    requires i <= |s|
    decreases |s| - i
  {
    if i == |s| then Some([])
    else
      var n := SequenceLength(s, i);
      if n == 0 then None
      else
        var rest := DecodeValid(s, i + n);
        if rest == None then None else Some([ValueAt(s, i, n)] + rest.value)
  }

  function Prepend(c: int, rest: Option<seq<int>>): Option<seq<int>> {
    if rest == None then None else Some([c] + rest.value)
  }

  lemma DecodeStep(s: seq<Byte>, i: nat, n: nat)
    requires IsSequenceAt(s, i, n)
    ensures DecodeValid(s, i) == Prepend(ValueAt(s, i, n), DecodeValid(s, i + n))
  {
    assert SequenceLength(s, i) == n;
  }

  /** What has been decoded so far, followed by the rest; nothing once there was an error. */
  function Joined(cs: seq<int>, rest: Option<seq<int>>): Option<seq<int>> {
    if DECODE_ERROR in cs || rest == None then None else Some(cs + rest.value)
  }

  lemma JoinedStep(cs: seq<int>, c: int, rest: Option<seq<int>>)
    ensures Joined(cs + [c], rest) == if c == DECODE_ERROR then None else Joined(cs, Prepend(c, rest))
  {
    if rest.Some? {
      assert cs + ([c] + rest.value) == cs + [c] + rest.value;
    }
  }

  /** Decodes a text step by step. */
  method DecodeAll(s: seq<Byte>) returns (cs: seq<int>)
    ensures DecodeValid(s, 0) == if DECODE_ERROR in cs then None else Some(cs)
  {
    cs := [];
    var i := 0;
    assert DecodeValid(s, 0).Some? ==> [] + DecodeValid(s, 0).value == DecodeValid(s, 0).value;
    while i < |s|
      invariant i <= |s|
      invariant DecodeValid(s, 0) == Joined(cs, DecodeValid(s, i))
      decreases |s| - i
    {
      var next, c := Next(s, i);
      JoinedStep(cs, c, DecodeValid(s, next));
      if c != DECODE_ERROR {
        DecodeStep(s, i, next - i);
      }
      cs, i := cs + [c], next;
    }
    assert cs + [] == cs;
  }

  lemma SequenceIsScalar(s: seq<Byte>, i: nat, n: nat)
    requires IsSequenceAt(s, i, n)
    ensures IsScalar(ValueAt(s, i, n)) && Encode(ValueAt(s, i, n)) == s[i..i + n]
  {
    SlicedSequence(s, i, n);
    SequenceIsEncoding(s[i..i + n]);
  }

  /** Decoding an encoded text gives the text back. */
  lemma {:induction false} DecodeUndoesEncode(cs: seq<int>, before: seq<Byte>)
    requires forall k | 0 <= k < |cs| :: IsScalar(cs[k])
    ensures DecodeValid(before + EncodeAll(cs), |before|) == Some(cs)
    decreases |cs|
  {
    var s := before + EncodeAll(cs);
    if cs != [] {
      var (first, i) := (Encode(cs[0]), |before|);
      assert s == before + first + EncodeAll(cs[1..]);
      assert s[i..i + |first|] == first;
      EncodingIsSequence(cs[0]);
      SlicedSequence(s, i, |first|);
      DecodeStep(s, i, |first|);
      DecodeUndoesEncode(cs[1..], before + first);
      assert |before + first| == i + |first| && [cs[0]] + cs[1..] == cs;
    } else {
      assert s == before;
    }
  }

  /** A text decodes without an error only if it is the encoding of what it decodes to. */
  lemma {:induction false} EncodeUndoesDecode(s: seq<Byte>, i: nat)
    requires i <= |s| && DecodeValid(s, i).Some?
    ensures var cs := DecodeValid(s, i).value;
            (forall k | 0 <= k < |cs| :: IsScalar(cs[k])) && EncodeAll(cs) == s[i..]
    decreases |s| - i
  {
    if i == |s| {
    } else {
      var n := SequenceLength(s, i);
      SequenceIsScalar(s, i, n);
      EncodeUndoesDecode(s, i + n);
      var rest := DecodeValid(s, i + n).value;
      assert ([ValueAt(s, i, n)] + rest)[1..] == rest;
      assert s[i..] == s[i..i + n] + s[i + n..];
    }
  }

  /** Decoding step by step inverts encoding: a text decodes without error results exactly if it is the
      encoding of some scalar values, and then it decodes to these. */
  lemma RoundTrip(s: seq<Byte>, cs: seq<int>)
    requires forall k | 0 <= k < |cs| :: IsScalar(cs[k])
    ensures DecodeValid(s, 0) == Some(cs) <==> s == EncodeAll(cs)
  {
    if s == EncodeAll(cs) {
      DecodeUndoesEncode(cs, []);
      assert [] + s == s;
    }
    if DecodeValid(s, 0) == Some(cs) {
      EncodeUndoesDecode(s, 0);
      assert s[0..] == s;
    }
  }
}
