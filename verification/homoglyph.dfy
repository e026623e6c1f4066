/** The homoglyph codec of backend/text_based/text_in_text.py: every character of the
    terminated secret is shifted by 3, XOR-masked by `143 + index` and shuffled by the
    fixed order SHUFFLE_ORDER_H; each resulting bit is carried by one cover letter from
    a/e/o/c/p/x/y (either case), which stays Latin for '0' and becomes its Cyrillic
    look-alike for '1'. */
module Homoglyph {
  import opened Wrappers
  import opened Bits

  const SHUFFLE_ORDER_H: seq<int> := [3, 1, 6, 0, 7, 2, 5, 4]

  /** HOMOGLYPH_MAP: each Latin carrier letter and its Cyrillic look-alike. */
  const HOMOGLYPH_MAP: map<CodePoint, CodePoint> :=
    map['a' as CodePoint := 0x430, 'e' as CodePoint := 0x435, 'o' as CodePoint := 0x43E,
        'c' as CodePoint := 0x441, 'p' as CodePoint := 0x440, 'x' as CodePoint := 0x445,
        'y' as CodePoint := 0x443]

  lemma OrderIsPermutation()
    ensures IsPermutation8(SHUFFLE_ORDER_H)
  {
    assert SHUFFLE_ORDER_H[3] == 0 && SHUFFLE_ORDER_H[1] == 1 && SHUFFLE_ORDER_H[5] == 2;
    assert SHUFFLE_ORDER_H[0] == 3 && SHUFFLE_ORDER_H[7] == 4 && SHUFFLE_ORDER_H[6] == 5;
    assert SHUFFLE_ORDER_H[2] == 6 && SHUFFLE_ORDER_H[4] == 7;
  }

  /** Python's `c.lower()` restricted to ASCII: upper-case A..Z map to a..z. */
  function Lower(c: CodePoint): CodePoint
  {
    if 'A' as int <= c <= 'Z' as int then c + 32 else c
  }

  /** `c.lower() in HOMOGLYPH_MAP`: the cover letters that can carry a bit. */
  predicate IsCarrier(c: CodePoint)
  {
    Lower(c) in HOMOGLYPH_MAP
  }

  /** `c in REVERSE_HOMOGLYPH_MAP`: a Cyrillic look-alike, read as a '1'. */
  predicate IsLookAlike(c: CodePoint)
  {
    c in HOMOGLYPH_MAP.Values
  }

  predicate NoLookAlike(s: PyString)
  {
    forall i :: 0 <= i < |s| ==> !IsLookAlike(s[i])
  }

  /** `len([c for c in cover_text if c.lower() in HOMOGLYPH_MAP])` */
  function CountCarriers(s: PyString): nat
  {
    if s == [] then 0 else (if IsCarrier(s[0]) then 1 else 0) + CountCarriers(s[1..])
  }

  /** The eight bits the encoder writes for the character `ch` at index `idx`. */
  function Mask(ch: CodePoint, idx: nat): (r: BitString)
    ensures |r| == 8
  {
    OrderIsPermutation();
    MaskedByte(ch, idx, SHUFFLE_ORDER_H)
  }

  /** The character the decoder reads from eight collected bits at index `idx`. */
  function Unmask(bits: BitString, idx: nat): Result<CodePoint, string>
    requires |bits| == 8
  {
    OrderIsPermutation();
    UnmaskByte(bits, SHUFFLE_ORDER_H, idx)
  }

  /** Unmasking undoes masking for a shifted code and a mask that fit in a byte. */
  lemma UnmaskMask(ch: CodePoint, idx: nat)
    requires ch + SHIFT_KEY < 256 && BASE_XOR_KEY + idx < 256
    ensures Unmask(Mask(ch, idx), idx) == Success(ch)
  {
    OrderIsPermutation();
    UnmaskMasked(ch, idx, SHUFFLE_ORDER_H);
  }

  /** The `binary` of `encode_homoglyph_level` for the terminated secret `t`, whose first
      character has index `i`. */
  function SecretBits(t: PyString, i: nat): BitString
  {
    if t == [] then [] else Mask(t[0], i) + SecretBits(t[1..], i + 1)
  }

  /** The embedding loop of `encode_homoglyph_level`; `rest` is `binary[bit_index:]`. A
      carrier letter takes the next bit ('1' turns it into its look-alike); any other
      character, and every letter once the bits run out, is copied. */
  function EmbedBits(cover: PyString, rest: BitString): (r: PyString)
    ensures |r| == |cover|
  {
    if cover == [] then []
    else if |rest| > 0 && IsCarrier(cover[0]) then
      [if rest[0] then HOMOGLYPH_MAP[Lower(cover[0])] else cover[0]] + EmbedBits(cover[1..], rest[1..])
    else
      [cover[0]] + EmbedBits(cover[1..], rest)
  }

  /** `encode_homoglyph_level(cover_text, secret)`; the ValueError becomes `Failure`. */
  function Encode(cover: PyString, secret: PyString): Result<PyString, string>
  {
    var binary := SecretBits(secret + [EOM_CHAR], 0);
    if CountCarriers(cover) < |binary| then Failure("Not enough homoglyph-capable characters")
    else Success(EmbedBits(cover, binary))
  }

  /** The loop of `decode_homoglyph_level`: `bits` are the bits collected since the last
      full byte and `idx` the index of the character being read. A look-alike adds '1', a
      carrier letter adds '0'; each eighth bit completes a byte, which is unmasked (a code
      outside 0..0x10FFFF raises ValueError in `chr`) and ends decoding when it is U+0003. */
  function DecodeLoop(stego: PyString, bits: BitString, idx: nat): Result<PyString, string>
    requires |bits| < 8
    decreases |stego|
  {
    if stego == [] then Success([])
    else
      var bits' := bits + BitOf(stego[0]);
      if |bits'| == 8 then AfterByte(Unmask(bits', idx), DecodeLoop(stego[1..], [], idx + 1))
      else
        DecodeLoop(stego[1..], bits', idx)
  }

  /** `decode_homoglyph_level(stego_text)`; the ValueError becomes `Failure`. */
  function Decode(stego: PyString): Result<PyString, string>
  {
    DecodeLoop(stego, [], 0)
  }

  /** Every bit the decoder reads from `s`, in order. */
  function StegoBits(s: PyString): BitString
  {
    if s == [] then [] else BitOf(s[0]) + StegoBits(s[1..])
  }

  /** The bit one character carries: '1' for a look-alike, '0' for a carrier letter,
      none for anything else. */
  function BitOf(c: CodePoint): (b: BitString)
    ensures |b| <= 1
  {
    if IsLookAlike(c) then [true] else if IsCarrier(c) then [false] else []
  }

  /** Reading all bits first and then decoding them a byte at a time: the decoder as
      a reference definition. */
  function DecodeChunks(bits: BitString, idx: nat): Result<PyString, string>
    decreases |bits|
  {
    if |bits| < 8 then Success([])
    else
      AfterByte(Unmask(bits[..8], idx), DecodeChunks(bits[8..], idx + 1))
  }

  /** Decoding the whole stream starting with a full byte `b`. */
  lemma ChunkStep(b: BitString, rest: BitString, idx: nat)
    requires |b| == 8
    ensures DecodeChunks(b + rest, idx) == AfterByte(Unmask(b, idx), DecodeChunks(rest, idx + 1))
  {
    var all := b + rest;
    assert all[..8] == b && all[8..] == rest;
  }

  /** The streaming decoder reads exactly the bytes of the whole bit stream. */
  lemma {:induction false} DecodeLoopIsChunked(stego: PyString, bits: BitString, idx: nat)
    requires |bits| < 8
    ensures DecodeLoop(stego, bits, idx) == DecodeChunks(bits + StegoBits(stego), idx)
    decreases |stego|
  {
    if stego == [] {
      assert bits + StegoBits(stego) == bits;
    } else {
      var ch := stego[0];
      var bits' := bits + BitOf(ch);
      var later := StegoBits(stego[1..]);
      assert bits + StegoBits(stego) == bits' + later;
      if |bits'| == 8 {
        DecodeLoopIsChunked(stego[1..], [], idx + 1);
        assert [] + later == later;
        ChunkStep(bits', later, idx);
      } else {
        DecodeLoopIsChunked(stego[1..], bits', idx);
      }
    }
  }

  /** Every bit of `binary` is carried, and the letters left unconsumed read as the
      cover's own bits. */
  lemma {:induction false} EmbedBitsCarries(cover: PyString, rest: BitString)
    requires NoLookAlike(cover) && |rest| <= CountCarriers(cover)
    ensures |StegoBits(cover)| == CountCarriers(cover)
    ensures StegoBits(EmbedBits(cover, rest)) == rest + StegoBits(cover)[|rest|..]
  {
    StegoBitsCount(cover);
    if cover != [] {
      var ch := cover[0];
      var consumed := |rest| > 0 && IsCarrier(ch);
      var rest' := if consumed then rest[1..] else rest;
      assert NoLookAlike(cover[1..]) by {
        forall j | 0 <= j < |cover[1..]| ensures !IsLookAlike(cover[1..][j]) {
          assert cover[1..][j] == cover[j + 1];
        }
      }
      EmbedBitsCarries(cover[1..], rest');
      var out := EmbedBits(cover, rest);
      assert out[1..] == EmbedBits(cover[1..], rest');
      assert !IsLookAlike(ch);
      EmbedStep(out, cover, rest, rest');
    }
  }

  /** The first character of an embedding and the bits of the rest combine into the
      bits of the whole. */
  lemma EmbedStep(out: PyString, cover: PyString, rest: BitString, rest': BitString)
    requires |out| == |cover| > 0 && !IsLookAlike(cover[0])
    requires var consumed := |rest| > 0 && IsCarrier(cover[0]);
      && rest' == (if consumed then rest[1..] else rest)
      && out[0] == (if consumed && rest[0] then HOMOGLYPH_MAP[Lower(cover[0])] else cover[0])
      && |StegoBits(cover[1..])| >= |rest'|
      && StegoBits(out[1..]) == rest' + StegoBits(cover[1..])[|rest'|..]
    ensures StegoBits(out) == rest + StegoBits(cover)[|rest|..]
  {
    var ch := cover[0];
    var inCover := StegoBits(cover[1..]);
    assert StegoBits(out) == BitOf(out[0]) + StegoBits(out[1..]);
    assert StegoBits(cover) == BitOf(ch) + inCover;
    if |rest| > 0 && IsCarrier(ch) {
      LookAlikeBit(ch, rest[0]);
      assert BitOf(ch) == [false];
      assert rest == [rest[0]] + rest';
      ConsumedBits(rest[0], rest', inCover);
    } else {
      assert out[0] == ch && rest' == rest;
      SkippedBits(BitOf(ch), rest, inCover);
    }
  }

  lemma ConsumedBits(b: bool, rest: BitString, later: BitString)
    requires |rest| <= |later|
    ensures [b] + (rest + later[|rest|..]) == ([b] + rest) + ([false] + later)[|rest| + 1..]
  {
    assert ([false] + later)[|rest| + 1..] == later[|rest|..];
  }

  lemma SkippedBits(b: BitString, rest: BitString, later: BitString)
    requires b == [] || rest == []
    requires |rest| <= |later|
    ensures b + (rest + later[|rest|..]) == rest + (b + later)[|rest|..]
  {
    if b == [] {
      assert b + later == later;
    } else {
      assert later[0..] == later;
    }
  }

  lemma {:induction false} StegoBitsCount(s: PyString)
    requires NoLookAlike(s)
    ensures |StegoBits(s)| == CountCarriers(s)
  {
    if s != [] {
      assert NoLookAlike(s[1..]) by {
        forall j | 0 <= j < |s[1..]| ensures !IsLookAlike(s[1..][j]) {
          assert s[1..][j] == s[j + 1];
        }
      }
      StegoBitsCount(s[1..]);
    }
  }

  /** A carrier letter written for bit `b` reads back as `b`. */
  lemma LookAlikeBit(ch: CodePoint, b: bool)
    requires IsCarrier(ch) && !IsLookAlike(ch)
    ensures BitOf(if b then HOMOGLYPH_MAP[Lower(ch)] else ch) == [b]
  {
    if b {
      assert HOMOGLYPH_MAP[Lower(ch)] in HOMOGLYPH_MAP.Values;
    }
  }

  /** The terminated secret `s + [U+0003]`, masked from index `i`, decodes back to `s`
      whatever follows it. */
  lemma {:induction false} DecodeSecretBits(s: PyString, i: nat, tail: BitString)
    requires forall j :: 0 <= j < |s| ==> s[j] + SHIFT_KEY < 256 && s[j] != EOM_CHAR
    requires BASE_XOR_KEY + i + |s| < 256
    ensures DecodeChunks(SecretBits(s + [EOM_CHAR], i) + tail, i) == Success(s)
  {
    var t := s + [EOM_CHAR];
    var first := Mask(t[0], i);
    var later := SecretBits(t[1..], i + 1) + tail;
    assert SecretBits(t, i) + tail == first + later;
    ChunkStep(first, later, i);
    UnmaskMask(t[0], i);
    if s != [] {
      assert t[1..] == s[1..] + [EOM_CHAR];
      DecodeSecretBits(s[1..], i + 1, tail);
      assert s == [s[0]] + s[1..];
    }
  }

  lemma {:induction false} SecretBitsLength(t: PyString, i: nat)
    ensures |SecretBits(t, i)| == 8 * |t|
  {
    if t != [] {
      SecretBitsLength(t[1..], i + 1);
    }
  }

  /** Encoding raises ValueError exactly when the cover has fewer carrier letters than
      8 * (|secret| + 1), for every secret. */
  lemma EncodeFailsIff(cover: PyString, secret: PyString)
    ensures Encode(cover, secret).Failure? <==> CountCarriers(cover) < 8 * (|secret| + 1)
  {
    SecretBitsLength(secret + [EOM_CHAR], 0);
  }

  /** What embedding writes at each position: a carrier letter preceded by fewer than
      |rest| carriers takes the bit with that number; every other position keeps the
      cover's character. */
  lemma {:induction false} EmbedBitsAt(cover: PyString, rest: BitString, i: nat)
    requires i < |cover|
    ensures var n := CountCarriers(cover[..i]);
      EmbedBits(cover, rest)[i]
        == if IsCarrier(cover[i]) && n < |rest| && rest[n] then HOMOGLYPH_MAP[Lower(cover[i])] else cover[i]
  {
    var consumed := |rest| > 0 && IsCarrier(cover[0]);
    var rest' := if consumed then rest[1..] else rest;
    if i > 0 {
      EmbedBitsAt(cover[1..], rest', i - 1);
      assert cover[..i][1..] == cover[1..][..i - 1];
      assert cover[..i][0] == cover[0];
    }
  }

  /** A successful encoding has the cover's length and changes only consumed carrier
      letters, each into its look-alike: non-carriers and every letter after the
      8 * (|secret| + 1)-th carrier are unchanged. */
  lemma EncodeShape(cover: PyString, secret: PyString)
    requires Encode(cover, secret).Success?
    ensures var out := Encode(cover, secret).value;
      && |out| == |cover|
      && (forall i :: 0 <= i < |cover| && !IsCarrier(cover[i]) ==> out[i] == cover[i])
      && (forall i :: 0 <= i < |cover| && CountCarriers(cover[..i]) >= 8 * (|secret| + 1) ==> out[i] == cover[i])
      && (forall i :: 0 <= i < |cover| && out[i] != cover[i] ==>
            IsCarrier(cover[i]) && out[i] == HOMOGLYPH_MAP[Lower(cover[i])])
  {
    var binary := SecretBits(secret + [EOM_CHAR], 0);
    SecretBitsLength(secret + [EOM_CHAR], 0);
    var out := EmbedBits(cover, binary);
    forall i | 0 <= i < |cover|
      ensures var n := CountCarriers(cover[..i]);
        out[i] == if IsCarrier(cover[i]) && n < |binary| && binary[n] then HOMOGLYPH_MAP[Lower(cover[i])] else cover[i]
    {
      EmbedBitsAt(cover, binary, i);
    }
  }

  /** Homoglyph round trip: when the cover has enough carrier letters and no Cyrillic
      look-alike, the secret has at most 112 characters, and every secret code is at most
      252 and not U+0003, decoding the encoding gives back the secret. */
  lemma RoundTrip(cover: PyString, secret: PyString)
    requires NoLookAlike(cover)
    requires CountCarriers(cover) >= 8 * (|secret| + 1)
    requires |secret| + 1 <= 113
    requires forall j :: 0 <= j < |secret| ==> secret[j] + SHIFT_KEY <= 255 && secret[j] != EOM_CHAR
    ensures Encode(cover, secret).Success?
    ensures Decode(Encode(cover, secret).value) == Success(secret)
  {
    var binary := SecretBits(secret + [EOM_CHAR], 0);
    SecretBitsLength(secret + [EOM_CHAR], 0);
    var out := EmbedBits(cover, binary);
    EmbedBitsCarries(cover, binary);
    DecodeLoopIsChunked(out, [], 0);
    assert [] + StegoBits(out) == binary + StegoBits(cover)[|binary|..];
    DecodeSecretBits(secret, 0, StegoBits(cover)[|binary|..]);
  }
}
