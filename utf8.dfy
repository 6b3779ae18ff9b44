/** The lenient UTF-8 to UTF-32 decoder `utf8_to_utf32` of src/font.cpp.

    Bytes and code points are integers. The C++ bit tests are written as the
    equivalent range tests on an unsigned byte: `(b & 0x80) == 0` is
    `b < 0x80`, `(b & 0xC0) == 0xC0` is `b >= 0xC0`, `(b & 0xE0) == 0xC0` is
    `b < 0xE0` once `b >= 0xC0`, and so on; `b & 0x1F` is `b % 0x20`, and
    `(code_pt << 6) | (b & 0x3F)` is `code_pt * 64 + b % 0x40` because the
    six low bits of the shifted value are zero. `code_pt` is a `uint32_t`;
    `StateBounded` shows it never leaves 21 bits, so it is a `nat` here. */
module Utf8 {

  type byte = b: int | 0 <= b < 256

  /** U+FFFD, substituted for every malformed unit. */
  const Replacement: nat := 0xFFFD

  /** The decoder's two variables, `code_pt` and `expected_bytes`. */
  datatype DecoderState = DecoderState(codePt: nat, expectedBytes: nat)

  const Start := DecoderState(0, 0)

  /** 0xC0, 0xC1 and 0xF5..0xFF never occur in UTF-8. */
  predicate IsInvalidByte(b: byte) {
    b == 0xC0 || b == 0xC1 || b >= 0xF5
  }

  predicate IsContinuation(b: byte) {
    0x80 <= b < 0xC0
  }

  /** A lead byte that passes the invalid-byte test. */
  predicate IsLead(b: byte) {
    0xC2 <= b < 0xF5
  }

  /** One iteration of the loop: the new state and what is appended. */
  function Step(s: DecoderState, b: byte): (DecoderState, seq<nat>)
  {
    if b == 0xC0 || b == 0xC1 || b >= 0xF5 then
      (s.(expectedBytes := 0), [Replacement])
    else if b < 0x80 then
      // ASCII: a pending sequence ended prematurely
      (s.(expectedBytes := 0), (if s.expectedBytes != 0 then [Replacement] else []) + [b])
    else if b >= 0xC0 then
      // lead byte
      var pending := if s.expectedBytes != 0 then [Replacement] else [];
      if b < 0xE0 then (DecoderState(b % 0x20, 1), pending)
      else if b < 0xF0 then (DecoderState(b % 0x10, 2), pending)
      else (DecoderState(b % 0x08, 3), pending)
    else
      // continuation byte
      if s.expectedBytes == 0 then (s, [Replacement])
      else
        var cp := s.codePt * 64 + b % 0x40;
        if s.expectedBytes - 1 == 0 then (DecoderState(cp, 0), [cp])
        else (DecoderState(cp, s.expectedBytes - 1), [])
  }

  /** The output of the decoder started in state `s` on `bs`, including the
      final check for a sequence left unfinished at the end of input. */
  function DecodeFrom(s: DecoderState, bs: seq<byte>): seq<nat>
    decreases |bs|
  {
    if |bs| == 0 then
      if s.expectedBytes > 0 then [Replacement] else []
    else
      var (s', out) := Step(s, bs[0]);
      out + DecodeFrom(s', bs[1..])
  }

  /** What `utf8_to_utf32(bs)` returns. */
  function Decode(bs: seq<byte>): seq<nat>
  {
    DecodeFrom(Start, bs)
  }

  /** `utf8_to_utf32`: the byte-at-a-time loop over `code_pt` and
      `expected_bytes`. */
  method Utf8ToUtf32(utf8: seq<byte>) returns (utf32: seq<nat>)
    ensures utf32 == Decode(utf8)
  {
    utf32 := [];
    var codePt: nat := 0;
    var expectedBytes: nat := 0;
    assert utf8[0..] == utf8;
    for i := 0 to |utf8|
      invariant utf32 + DecodeFrom(DecoderState(codePt, expectedBytes), utf8[i..]) == Decode(utf8)
    {
      var b := utf8[i];
      ghost var st := DecoderState(codePt, expectedBytes);
      ghost var before := utf32;
      assert utf8[i..][0] == b && utf8[i..][1..] == utf8[i + 1..];
      assert DecodeFrom(st, utf8[i..]) == Step(st, b).1 + DecodeFrom(Step(st, b).0, utf8[i + 1..]);
      if b == 0xC0 || b == 0xC1 || b >= 0xF5 {
        utf32 := utf32 + [Replacement];
        expectedBytes := 0;
      } else if b < 0x80 {
        if expectedBytes != 0 {
          utf32 := utf32 + [Replacement];
          expectedBytes := 0;
        }
        utf32 := utf32 + [b];
      } else if b >= 0xC0 {
        if expectedBytes != 0 {
          utf32 := utf32 + [Replacement];
        }
        if b < 0xE0 {
          codePt := b % 0x20;
          expectedBytes := 1;
        } else if b < 0xF0 {
          codePt := b % 0x10;
          expectedBytes := 2;
        } else {
          // 0xF0..0xF4: the lead bytes 0xF8..0xFF were rejected above
          codePt := b % 0x08;
          expectedBytes := 3;
        }
      } else {
        if expectedBytes == 0 {
          utf32 := utf32 + [Replacement];
        } else {
          codePt := codePt * 64 + b % 0x40;
          expectedBytes := expectedBytes - 1;
          if expectedBytes == 0 {
            utf32 := utf32 + [codePt];
          }
        }
      }
      assert DecoderState(codePt, expectedBytes) == Step(st, b).0 && utf32 == before + Step(st, b).1;
      AppendAssoc(before, Step(st, b).1, DecodeFrom(Step(st, b).0, utf8[i + 1..]));
    }
    if expectedBytes > 0 {
      utf32 := utf32 + [Replacement];
    }
  }

  lemma AppendAssoc(a: seq<nat>, b: seq<nat>, c: seq<nat>)
    ensures (a + b) + c == a + (b + c)
  {
  }

  // ---------------------------------------------------------------------
  // Encodings (RFC 3629 section 3) used to state what the decoder accepts.

  /** The 2-byte form `110xxxxx 10xxxxxx` of `c`. */
  function Encode2(c: nat): seq<byte>
    requires c < 0x800
  {
    [0xC0 + c / 0x40, 0x80 + c % 0x40]
  }

  /** The 3-byte form `1110xxxx 10xxxxxx 10xxxxxx` of `c`. */
  function Encode3(c: nat): seq<byte>
    requires c < 0x10000
  {
    [0xE0 + c / 0x1000, 0x80 + (c / 0x40) % 0x40, 0x80 + c % 0x40]
  }

  /** The 4-byte form `11110xxx 10xxxxxx 10xxxxxx 10xxxxxx` of `c`. */
  function Encode4(c: nat): seq<byte>
    requires c < 0x200000
  {
    [0xF0 + c / 0x40000, 0x80 + (c / 0x1000) % 0x40, 0x80 + (c / 0x40) % 0x40, 0x80 + c % 0x40]
  }

  /** The shortest (well-formed) encoding of `c`. */
  function Encode(c: nat): (bs: seq<byte>)
    requires c <= 0x10FFFF
    ensures 1 <= |bs| <= 4
  {
    if c < 0x80 then [c]
    else if c < 0x800 then Encode2(c)
    else if c < 0x10000 then Encode3(c)
    else Encode4(c)
  }

  function EncodeAll(cps: seq<nat>): seq<byte>
    requires forall i | 0 <= i < |cps| :: cps[i] <= 0x10FFFF
  {
    if |cps| == 0 then [] else Encode(cps[0]) + EncodeAll(cps[1..])
  }

  // ---------------------------------------------------------------------
  // Properties

  /** With no sequence pending, the leftover `code_pt` does not influence
      anything the decoder will ever produce. */
  lemma {:induction false} IdleStatesAgree(a: nat, c: nat, bs: seq<byte>)
    ensures DecodeFrom(DecoderState(a, 0), bs) == DecodeFrom(DecoderState(c, 0), bs)
    decreases |bs|
  {
    if |bs| > 0 {
      var (sa, _) := Step(DecoderState(a, 0), bs[0]);
      var (sc, _) := Step(DecoderState(c, 0), bs[0]);
      if sa != sc {
        IdleStatesAgree(sa.codePt, sc.codePt, bs[1..]);
      }
    }
  }

  /** With no sequence pending, decoding resumes exactly as from the start. */
  lemma IdleIsStart(a: nat, bs: seq<byte>)
    ensures DecodeFrom(DecoderState(a, 0), bs) == Decode(bs)
  {
    IdleStatesAgree(a, 0, bs);
  }

  /** ASCII bytes pass through unchanged. */
  lemma {:induction false} AsciiPassesThrough(bs: seq<byte>)
    requires forall i | 0 <= i < |bs| :: bs[i] < 0x80
    ensures Decode(bs) == bs
    decreases |bs|
  {
    if |bs| > 0 {
      assert Decode(bs) == [bs[0]] + DecodeFrom(Start, bs[1..]);
      AsciiPassesThrough(bs[1..]);
      assert bs == [bs[0]] + bs[1..];
    }
  }

  /** One step of `DecodeFrom` on a byte in front of the rest. */
  lemma Unfold(s: DecoderState, b: byte, rest: seq<byte>)
    ensures DecodeFrom(s, [b] + rest) == Step(s, b).1 + DecodeFrom(Step(s, b).0, rest)
  {
    assert ([b] + rest)[0] == b && ([b] + rest)[1..] == rest;
  }

  /** A 2-byte form with a lead byte that passes the invalid-byte test
      (0x80 <= c) decodes to `c`, wherever it stands. */
  lemma DecodeTwoByte(a: nat, c: nat, rest: seq<byte>)
    requires 0x80 <= c < 0x800
    ensures DecodeFrom(DecoderState(a, 0), Encode2(c) + rest) == [c] + DecodeFrom(DecoderState(c, 0), rest)
  {
    var e := Encode2(c);
    assert e + rest == [e[0]] + ([e[1]] + rest);
    var s1 := DecoderState(c / 0x40, 1);
    assert Step(DecoderState(a, 0), e[0]) == (s1, []);
    Unfold(DecoderState(a, 0), e[0], [e[1]] + rest);
    assert Step(s1, e[1]) == (DecoderState(c, 0), [c]);
    Unfold(s1, e[1], rest);
  }

  /** Every 3-byte form decodes to its value: overlong E0 forms and
      surrogates D800..DFFF are accepted, not rejected. */
  lemma DecodeThreeByte(a: nat, c: nat, rest: seq<byte>)
    requires c < 0x10000
    ensures DecodeFrom(DecoderState(a, 0), Encode3(c) + rest) == [c] + DecodeFrom(DecoderState(c, 0), rest)
  {
    var e := Encode3(c);
    assert e + rest == [e[0]] + ([e[1]] + ([e[2]] + rest));
    var s1 := DecoderState(c / 0x1000, 2);
    var s2 := DecoderState(c / 0x40, 1);
    assert Step(DecoderState(a, 0), e[0]) == (s1, []);
    Unfold(DecoderState(a, 0), e[0], [e[1]] + ([e[2]] + rest));
    assert (c / 0x1000) * 64 + (c / 0x40) % 0x40 == c / 0x40;
    assert Step(s1, e[1]) == (s2, []);
    Unfold(s1, e[1], [e[2]] + rest);
    assert Step(s2, e[2]) == (DecoderState(c, 0), [c]);
    Unfold(s2, e[2], rest);
  }

  /** Feeding the continuation byte `0x80 + d` (d < 0x40) to a state that
      expects `k` more bytes appends the six bits of `d`. */
  lemma FeedContinuation(q: nat, k: nat, d: nat, rest: seq<byte>)
    requires 1 <= k && d < 0x40
    ensures DecodeFrom(DecoderState(q, k), [0x80 + d] + rest)
         == (if k == 1 then [q * 64 + d] else []) + DecodeFrom(DecoderState(q * 64 + d, k - 1), rest)
  {
    Unfold(DecoderState(q, k), 0x80 + d, rest);
  }

  /** Shifting in the six bits of `c` at bit 12. */
  lemma ShiftIn12(c: nat)
    ensures (c / 0x40000) * 64 + (c / 0x1000) % 0x40 == c / 0x1000
  {
  }

  /** Shifting in the six bits of `c` at bit 6. */
  lemma ShiftIn6(c: nat)
    ensures (c / 0x1000) * 64 + (c / 0x40) % 0x40 == c / 0x40
  {
  }

  /** Shifting in the six low bits of `c`. */
  lemma ShiftIn0(c: nat)
    ensures (c / 0x40) * 64 + c % 0x40 == c
  {
  }

  /** A lead byte 0xF0..0xF4 starts a 4-byte sequence from any idle state. */
  lemma LeadFour(a: nat, c: nat, rest: seq<byte>)
    requires c < 0x140000
    ensures DecodeFrom(DecoderState(a, 0), [0xF0 + c / 0x40000] + rest)
         == DecodeFrom(DecoderState(c / 0x40000, 3), rest)
  {
    Unfold(DecoderState(a, 0), 0xF0 + c / 0x40000, rest);
  }

  /** Every 4-byte form whose lead byte is at most 0xF4 decodes to its value:
      overlong F0 forms and values up to 0x13FFFF are accepted. */
  lemma DecodeFourByte(a: nat, c: nat, rest: seq<byte>)
    requires c < 0x140000
    ensures DecodeFrom(DecoderState(a, 0), Encode4(c) + rest) == [c] + DecodeFrom(DecoderState(c, 0), rest)
  {
    var d1, d2, d3 := (c / 0x1000) % 0x40, (c / 0x40) % 0x40, c % 0x40;
    var r3 := [0x80 + d3] + rest;
    var r2 := [0x80 + d2] + r3;
    var r1 := [0x80 + d1] + r2;
    assert Encode4(c) + rest == [0xF0 + c / 0x40000] + r1;
    LeadFour(a, c, r1);
    ShiftIn12(c);
    FeedContinuation(c / 0x40000, 3, d1, r2);
    assert DecodeFrom(DecoderState(c / 0x40000, 3), r1) == DecodeFrom(DecoderState(c / 0x1000, 2), r2);
    ShiftIn6(c);
    FeedContinuation(c / 0x1000, 2, d2, r3);
    assert DecodeFrom(DecoderState(c / 0x1000, 2), r2) == DecodeFrom(DecoderState(c / 0x40, 1), r3);
    ShiftIn0(c);
    FeedContinuation(c / 0x40, 1, d3, rest);
  }

  /** The shortest encoding of any value up to U+10FFFF decodes to exactly
      that value and leaves the decoder ready for the next one. */
  lemma DecodeEncoded(a: nat, c: nat, rest: seq<byte>)
    requires c <= 0x10FFFF
    ensures DecodeFrom(DecoderState(a, 0), Encode(c) + rest) == [c] + Decode(rest)
  {
    if c < 0x80 {
      Unfold(DecoderState(a, 0), c, rest);
      IdleIsStart(a, rest);
    } else if c < 0x800 {
      DecodeTwoByte(a, c, rest);
      IdleIsStart(c, rest);
    } else if c < 0x10000 {
      DecodeThreeByte(a, c, rest);
      IdleIsStart(c, rest);
    } else {
      DecodeFourByte(a, c, rest);
      IdleIsStart(c, rest);
    }
  }

  /** Round trip: decoding the UTF-8 encoding of a sequence of values up to
      U+10FFFF (RFC 3629 section 3) gives back exactly that sequence. */
  lemma {:induction false} RoundTrip(cps: seq<nat>)
    requires forall i | 0 <= i < |cps| :: cps[i] <= 0x10FFFF
    ensures Decode(EncodeAll(cps)) == cps
    decreases |cps|
  {
    if |cps| > 0 {
      DecodeEncoded(0, cps[0], EncodeAll(cps[1..]));
      RoundTrip(cps[1..]);
      assert cps == [cps[0]] + cps[1..];
    }
  }

  /** The overlong 2-byte forms (lead 0xC0 or 0xC1) are rejected: the lead
      byte and the orphaned continuation byte give one U+FFFD each. */
  lemma OverlongTwoByteRejected(c: nat)
    requires c < 0x80
    ensures Decode(Encode2(c)) == [Replacement, Replacement]
  {
    var e := Encode2(c);
    assert e == [e[0]] + ([e[1]] + []);
    Unfold(Start, e[0], [e[1]]);
    Unfold(DecoderState(0, 0), e[1], []);
  }

  /** A byte 0xC0, 0xC1 or >= 0xF5 yields one U+FFFD, silently discards a
      pending sequence, and decoding resumes on the next byte. */
  lemma InvalidByteResyncs(s: DecoderState, b: byte, rest: seq<byte>)
    requires IsInvalidByte(b)
    ensures DecodeFrom(s, [b] + rest) == [Replacement] + Decode(rest)
  {
    assert ([b] + rest)[1..] == rest;
    IdleIsStart(s.codePt, rest);
  }

  /** A continuation byte when none is expected yields one U+FFFD and
      decoding resumes on the next byte. */
  lemma StrayContinuationResyncs(a: nat, b: byte, rest: seq<byte>)
    requires IsContinuation(b)
    ensures DecodeFrom(DecoderState(a, 0), [b] + rest) == [Replacement] + Decode(rest)
  {
    assert ([b] + rest)[1..] == rest;
    IdleIsStart(a, rest);
  }

  /** A sequence cut short by an ASCII byte yields one U+FFFD, then the
      ASCII value, then decoding resumes. */
  lemma CutShortByAscii(s: DecoderState, b: byte, rest: seq<byte>)
    requires s.expectedBytes > 0 && b < 0x80
    ensures DecodeFrom(s, [b] + rest) == [Replacement, b] + Decode(rest)
  {
    assert ([b] + rest)[1..] == rest;
    IdleIsStart(s.codePt, rest);
  }

  /** A sequence cut short by a lead byte yields one U+FFFD, and the lead
      byte then starts a new sequence exactly as if decoding began there. */
  lemma CutShortByLead(s: DecoderState, b: byte, rest: seq<byte>)
    requires s.expectedBytes > 0 && IsLead(b)
    ensures DecodeFrom(s, [b] + rest) == [Replacement] + Decode([b] + rest)
  {
    assert ([b] + rest)[0] == b && ([b] + rest)[1..] == rest;
  }

  /** Input ending in the middle of a well-formed sequence yields exactly one
      U+FFFD for it. */
  lemma CutShortByEnd(a: nat, c: nat, k: nat)
    requires c <= 0x10FFFF && 1 <= k < |Encode(c)|
    ensures DecodeFrom(DecoderState(a, 0), Encode(c)[..k]) == [Replacement]
  {
    var e := Encode(c);
    var s0 := DecoderState(a, 0);
    if c < 0x800 {
      assert e[..k] == [e[0]] + [];
      Unfold(s0, e[0], []);
    } else if c < 0x10000 {
      var s1 := DecoderState(c / 0x1000, 2);
      assert Step(s0, e[0]) == (s1, []);
      if k == 1 {
        assert e[..k] == [e[0]] + [];
        Unfold(s0, e[0], []);
      } else {
        assert e[..k] == [e[0]] + ([e[1]] + []);
        Unfold(s0, e[0], [e[1]]);
        Unfold(s1, e[1], []);
      }
    } else {
      var s1 := DecoderState(c / 0x40000, 3);
      assert Step(s0, e[0]) == (s1, []);
      var s2 := Step(s1, e[1]).0;
      assert Step(s1, e[1]).1 == [] && s2.expectedBytes == 2;
      if k == 1 {
        assert e[..k] == [e[0]] + [];
        Unfold(s0, e[0], []);
      } else if k == 2 {
        assert e[..k] == [e[0]] + ([e[1]] + []);
        Unfold(s0, e[0], [e[1]]);
        Unfold(s1, e[1], []);
      } else {
        assert e[..k] == [e[0]] + ([e[1]] + ([e[2]] + []));
        Unfold(s0, e[0], [e[1]] + [e[2]]);
        Unfold(s1, e[1], [e[2]]);
        Unfold(s2, e[2], []);
      }
    }
  }

  /** What the pending state satisfies: `code_pt` is small enough that the
      remaining continuation bytes cannot push it past 0x13FFFF. */
  ghost predicate StateBounded(s: DecoderState) {
    && s.expectedBytes <= 3
    && (s.expectedBytes == 0 ==> s.codePt <= 0x13FFFF)
    && (s.expectedBytes == 1 ==> s.codePt < 0x5000)
    && (s.expectedBytes == 2 ==> s.codePt < 0x140)
    && (s.expectedBytes == 3 ==> s.codePt < 5)
  }

  lemma StepBounded(s: DecoderState, b: byte)
    requires StateBounded(s)
    ensures StateBounded(Step(s, b).0)
    ensures forall c | c in Step(s, b).1 :: c == Replacement || c <= 0x13FFFF
    ensures |Step(s, b).1| + (if Step(s, b).0.expectedBytes > 0 then 1 else 0)
         <= 1 + (if s.expectedBytes > 0 then 1 else 0)
  {
  }

  lemma {:induction false} DecodeFromBounded(s: DecoderState, bs: seq<byte>)
    requires StateBounded(s)
    ensures forall c | c in DecodeFrom(s, bs) :: c == Replacement || c <= 0x13FFFF
    ensures |DecodeFrom(s, bs)| <= |bs| + (if s.expectedBytes > 0 then 1 else 0)
    decreases |bs|
  {
    if |bs| > 0 {
      StepBounded(s, bs[0]);
      DecodeFromBounded(Step(s, bs[0]).0, bs[1..]);
    }
  }

  /** Every value the decoder emits is U+FFFD or at most 0x13FFFF (so
      `code_pt` never overflows its 32 bits), and the output is never longer
      than the input. */
  lemma DecodeBounded(bs: seq<byte>)
    ensures forall c | c in Decode(bs) :: c == Replacement || c <= 0x13FFFF
    ensures |Decode(bs)| <= |bs|
  {
    DecodeFromBounded(Start, bs);
  }
}
