/** The character-level codec of backend/text_based/text_in_text.py: every character of
    the secret (followed by the end-of-message character U+0003) becomes eight bits, the
    bits of each byte are permuted by a key-derived order, and the permuted byte is
    written as eight zero-width characters right after one cover character.

    The key-derived order (SHA-256 of the key seeding Python's Mersenne Twister) is not
    part of this model: every operation takes the resulting permutation `order` of 0..7
    as a parameter. */
module CharacterLevel {
  import opened Bits

  /** Zero-width space: carries a '0' bit. */
  const ZWC_ZERO: CodePoint := 0x200B
  /** Zero-width non-joiner: carries a '1' bit. */
  const ZWC_ONE: CodePoint := 0x200C

  predicate IsZwc(c: CodePoint)
  {
    c == ZWC_ZERO || c == ZWC_ONE
  }

  predicate NoZwc(s: PyString)
  {
    forall i :: 0 <= i < |s| ==> !IsZwc(s[i])
  }

  /** Every character's code is below 256 and is not the end-of-message character:
      the secrets the codec can carry without loss. */
  predicate IsCarriableSecret(secret: PyString)
  {
    forall i :: 0 <= i < |secret| ==> secret[i] < 256 && secret[i] != EOM_CHAR
  }

  /** `_char_text_to_binary`: the concatenated `format(ord(c), '08b')` of every character. */
  function CharTextToBinary(text: PyString): BitString
  {
    if text == [] then [] else Format08(text[0]) + CharTextToBinary(text[1..])
  }

  /** The bit of each zero-width character: ZWC_ONE for '1', ZWC_ZERO for '0'. */
  function ToZwc(bits: BitString): (r: PyString)
    ensures |r| == |bits| && forall i :: 0 <= i < |r| ==> IsZwc(r[i])
  {
    seq(|bits|, i requires 0 <= i < |bits| => if bits[i] then ZWC_ONE else ZWC_ZERO)
  }

  /** The loop of `encode_character_level` over the cover characters. `rest` is the part of
      `binary` not yet written (`binary[bit_index:]`): while eight bits remain, each cover
      character is followed by the next byte, shuffled, as zero-width characters. */
  function EmbedBits(cover: PyString, rest: BitString, order: seq<int>): PyString
    requires IsPermutation8(order)
    decreases |cover|
  {
    if cover == [] then []
    else if |rest| >= 8 then
      [cover[0]] + ToZwc(Shuffle(rest[..8], order)) + EmbedBits(cover[1..], rest[8..], order)
    else
      [cover[0]] + EmbedBits(cover[1..], rest, order)
  }

  /** `encode_character_level(cover_text, secret, secret_key)`, with the key's permutation. */
  function Encode(cover: PyString, secret: PyString, order: seq<int>): PyString
    requires IsPermutation8(order)
  {
    EmbedBits(cover, CharTextToBinary(secret + [EOM_CHAR]), order)
  }

  /** The first loop of `decode_character_level`: the bit of every zero-width character,
      in order; every other character is skipped. */
  function ZwcBits(stego: PyString): BitString
  {
    if stego == [] then []
    else
      var bit: BitString := if stego[0] == ZWC_ZERO then [false] else if stego[0] == ZWC_ONE then [true] else [];
      bit + ZwcBits(stego[1..])
  }

  /** The second loop of `decode_character_level`, consuming `bits` eight at a time from
      the front (the source steps an index `i` by 8): a short last group ends decoding, each
      full group is unshuffled and read as one character, and U+0003 ends decoding. */
  function DecodeBits(bits: BitString, order: seq<int>): PyString
    requires IsPermutation8(order)
    decreases |bits|
  {
    if |bits| < 8 then []
    else
      var c := ByteOf(Unshuffle(bits[..8], order));
      if c == EOM_CHAR then [] else [c] + DecodeBits(bits[8..], order)
  }

  /** `decode_character_level(stego_text, secret_key)`, with the key's permutation. */
  function Decode(stego: PyString, order: seq<int>): PyString
    requires IsPermutation8(order)
  {
    DecodeBits(ZwcBits(stego), order)
  }

  /** The stego text with every zero-width carrier character deleted. */
  function StripZwc(s: PyString): (r: PyString)
  {
    if s == [] then [] else (if IsZwc(s[0]) then [] else [s[0]]) + StripZwc(s[1..])
  }

  /** The characters of `u` before its first U+0003: what a decoder that stops at the
      end-of-message character reports for the characters `u`. */
  function TakeUntilEom(u: PyString): PyString
  {
    if u == [] || u[0] == EOM_CHAR then [] else [u[0]] + TakeUntilEom(u[1..])
  }

  /** Eight digits per character when every code is below 256; the digits of the first
      character come first. */
  lemma {:induction false} CharTextToBinaryBytes(text: PyString)
    requires forall i :: 0 <= i < |text| ==> text[i] < 256
    ensures |CharTextToBinary(text)| == 8 * |text|
    ensures |text| > 0 ==> CharTextToBinary(text)[..8] == BinDigits(text[0], 8)
    ensures |text| > 0 ==> CharTextToBinary(text)[8..] == CharTextToBinary(text[1..])
  {
    if text != [] {
      Format08Byte(text[0]);
      CharTextToBinaryBytes(text[1..]);
    }
  }

  lemma {:induction false} StripZwcAppend(a: PyString, b: PyString)
    ensures StripZwc(a + b) == StripZwc(a) + StripZwc(b)
  {
    if a == [] {
      assert a + b == b;
    } else {
      assert (a + b)[0] == a[0] && (a + b)[1..] == a[1..] + b;
      StripZwcAppend(a[1..], b);
    }
  }

  lemma {:induction false} ZwcBitsAppend(a: PyString, b: PyString)
    ensures ZwcBits(a + b) == ZwcBits(a) + ZwcBits(b)
  {
    if a == [] {
      assert a + b == b;
    } else {
      assert (a + b)[0] == a[0] && (a + b)[1..] == a[1..] + b;
      ZwcBitsAppend(a[1..], b);
    }
  }

  lemma {:induction false} ZwcRoundTrip(bits: BitString)
    ensures ZwcBits(ToZwc(bits)) == bits
    ensures StripZwc(ToZwc(bits)) == []
  {
    if bits != [] {
      assert ToZwc(bits)[1..] == ToZwc(bits[1..]);
      ZwcRoundTrip(bits[1..]);
    }
  }

  lemma {:induction false} StripZwcNone(s: PyString)
    requires NoZwc(s)
    ensures StripZwc(s) == s
  {
    if s != [] {
      StripZwcNone(s[1..]);
    }
  }

  /** The groups of shuffled bits that encoding writes: `k` bytes of `rest`, each shuffled. */
  function ShuffledGroups(rest: BitString, k: nat, order: seq<int>): (r: BitString)
    requires IsPermutation8(order) && |rest| >= 8 * k
    ensures |r| == 8 * k
  {
    if k == 0 then [] else Shuffle(rest[..8], order) + ShuffledGroups(rest[8..], k - 1, order)
  }

  function Min(a: int, b: int): int
  {
    if a < b then a else b
  }

  /** Encoding only inserts characters: deleting the zero-width characters from its output
      deletes them from the cover, and the output holds 8 more of them for every byte
      written, one byte directly after each of the first min(|cover|, |rest| / 8) cover
      characters (the `Layout`). */
  lemma EmbedBitsShape(cover: PyString, rest: BitString, order: seq<int>)
    requires IsPermutation8(order)
    ensures StripZwc(EmbedBits(cover, rest, order)) == StripZwc(cover)
    ensures |ZwcBits(EmbedBits(cover, rest, order))|
         == |ZwcBits(cover)| + 8 * Min(|cover|, |rest| / 8)
    ensures NoZwc(cover) ==>
      ZwcBits(EmbedBits(cover, rest, order)) == ShuffledGroups(rest, Min(|cover|, |rest| / 8), order)
    ensures Layout(cover, rest, order)
  {
    EmbedBitsStrip(cover, rest, order);
    EmbedBitsCarried(cover, rest, order);
    EmbedBitsLayout(cover, rest, order);
  }

  lemma {:induction false} EmbedBitsStrip(cover: PyString, rest: BitString, order: seq<int>)
    requires IsPermutation8(order)
    ensures StripZwc(EmbedBits(cover, rest, order)) == StripZwc(cover)
    decreases |cover|
  {
    if cover != [] {
      var head := [cover[0]];
      assert cover == head + cover[1..];
      StripZwcAppend(head, cover[1..]);
      if |rest| >= 8 {
        var z := ToZwc(Shuffle(rest[..8], order));
        var tail := EmbedBits(cover[1..], rest[8..], order);
        EmbedBitsStrip(cover[1..], rest[8..], order);
        ZwcRoundTrip(Shuffle(rest[..8], order));
        StripZwcAppend(head + z, tail);
        StripZwcAppend(head, z);
      } else {
        var tail := EmbedBits(cover[1..], rest, order);
        EmbedBitsStrip(cover[1..], rest, order);
        StripZwcAppend(head, tail);
      }
    }
  }

  lemma {:induction false} EmbedBitsCarried(cover: PyString, rest: BitString, order: seq<int>)
    requires IsPermutation8(order)
    ensures |ZwcBits(EmbedBits(cover, rest, order))|
         == |ZwcBits(cover)| + 8 * Min(|cover|, |rest| / 8)
    ensures NoZwc(cover) ==>
      ZwcBits(EmbedBits(cover, rest, order)) == ShuffledGroups(rest, Min(|cover|, |rest| / 8), order)
    decreases |cover|
  {
    if cover != [] {
      if |rest| >= 8 {
        EmbedBitsCarried(cover[1..], rest[8..], order);
        CarriedFull(cover, rest, order);
      } else {
        EmbedBitsCarried(cover[1..], rest, order);
        CarriedShort(cover, rest, order);
      }
    }
  }

  /** What the zero-width characters of an embedding carry: 8 bits for each of the first
      min(|cover|, |rest| / 8) cover characters, and for a cover without zero-width
      characters exactly the shuffled groups. */
  predicate Carries(cover: PyString, rest: BitString, order: seq<int>)
    requires IsPermutation8(order)
  {
    && |ZwcBits(EmbedBits(cover, rest, order))| == |ZwcBits(cover)| + 8 * Min(|cover|, |rest| / 8)
    && (NoZwc(cover) ==>
          ZwcBits(EmbedBits(cover, rest, order)) == ShuffledGroups(rest, Min(|cover|, |rest| / 8), order))
  }

  /** A cover character followed by a full group carries that group before the rest. */
  lemma CarriedFull(cover: PyString, rest: BitString, order: seq<int>)
    requires IsPermutation8(order) && cover != [] && |rest| >= 8
    requires Carries(cover[1..], rest[8..], order)
    ensures Carries(cover, rest, order)
  {
    var head := [cover[0]];
    assert cover == head + cover[1..];
    ZwcBitsAppend(head, cover[1..]);
    var z := ToZwc(Shuffle(rest[..8], order));
    var tail := EmbedBits(cover[1..], rest[8..], order);
    ZwcRoundTrip(Shuffle(rest[..8], order));
    ZwcBitsAppend(head + z, tail);
    ZwcBitsAppend(head, z);
    assert |rest[8..]| / 8 == |rest| / 8 - 1;
  }

  /** A cover character with fewer than eight bits left carries nothing. */
  lemma CarriedShort(cover: PyString, rest: BitString, order: seq<int>)
    requires IsPermutation8(order) && cover != [] && |rest| < 8
    requires Carries(cover[1..], rest, order)
    ensures Carries(cover, rest, order)
  {
    var head := [cover[0]];
    assert cover == head + cover[1..];
    ZwcBitsAppend(head, cover[1..]);
    ZwcBitsAppend(head, EmbedBits(cover[1..], rest, order));
  }

  /** The first `k` groups of eight digits read as characters in order, up to the
      first U+0003: what decoding finds once every group is unshuffled. */
  function PlainChars(bin: BitString, k: nat): PyString
    requires |bin| >= 8 * k
  {
    if k == 0 then [] else StopAtEom(ByteOf(bin[..8]), PlainChars(bin[8..], k - 1))
  }

  /** A character read from a group: U+0003 ends the text, any other character comes
      first. */
  function StopAtEom(c: CodePoint, rest: PyString): PyString
  {
    if c == EOM_CHAR then [] else [c] + rest
  }

  /** Decoding `k` shuffled groups undoes the shuffle of each group. */
  lemma {:induction false} DecodeShuffledIsPlain(bin: BitString, k: nat, order: seq<int>)
    requires IsPermutation8(order) && |bin| >= 8 * k
    ensures DecodeBits(ShuffledGroups(bin, k, order), order) == PlainChars(bin, k)
  {
    if k == 0 {
      PlainNone(bin, order);
    } else {
      DecodeShuffledIsPlain(bin[8..], k - 1, order);
      PlainStep(bin, k, order);
    }
  }

  /** No groups decode to no characters. */
  lemma PlainNone(bin: BitString, order: seq<int>)
    requires IsPermutation8(order)
    ensures DecodeBits(ShuffledGroups(bin, 0, order), order) == PlainChars(bin, 0) == []
  {
  }

  /** One group more: if the later groups decode to their plain characters, so do all. */
  lemma PlainStep(bin: BitString, k: nat, order: seq<int>)
    requires IsPermutation8(order) && k > 0 && |bin| >= 8 * k
    requires DecodeBits(ShuffledGroups(bin[8..], k - 1, order), order) == PlainChars(bin[8..], k - 1)
    ensures DecodeBits(ShuffledGroups(bin, k, order), order) == PlainChars(bin, k)
  {
    GroupsStep(bin, k, order);
  }

  /** The groups of the digits of `t` read back as `t`, up to its first U+0003. */
  lemma {:induction false} PlainCharsOfText(t: PyString, k: nat)
    requires k <= |t| && forall i :: 0 <= i < |t| ==> t[i] < 256
    ensures |CharTextToBinary(t)| >= 8 * k
    ensures PlainChars(CharTextToBinary(t), k) == TakeUntilEom(t[..k])
  {
    CharTextToBinaryLength(t);
    if k == 0 {
      assert t[..k] == [];
    } else {
      FirstGroup(t);
      TakeUntilEomStep(t, k);
      if t[0] != EOM_CHAR {
        BytesTail(t);
        PlainCharsOfText(t[1..], k - 1);
      }
    }
  }

  /** Decoding the shuffled bytes of the characters `t` gives back those characters, up to
      the first end-of-message character. */
  lemma DecodeShuffledGroups(t: PyString, k: nat, order: seq<int>)
    requires IsPermutation8(order)
    requires k <= |t| && forall i :: 0 <= i < |t| ==> t[i] < 256
    ensures |CharTextToBinary(t)| >= 8 * k
    ensures DecodeBits(ShuffledGroups(CharTextToBinary(t), k, order), order) == TakeUntilEom(t[..k])
  {
    PlainCharsOfText(t, k);
    DecodeShuffledIsPlain(CharTextToBinary(t), k, order);
  }

  lemma TakeUntilEomStep(t: PyString, k: nat)
    requires 0 < k <= |t|
    ensures TakeUntilEom(t[..k]) == if t[0] == EOM_CHAR then [] else [t[0]] + TakeUntilEom(t[1..][..k - 1])
  {
    var u := t[..k];
    assert u[0] == t[0];
    assert u[1..] == t[1..][..k - 1];
  }

  lemma BytesTail(t: PyString)
    requires |t| > 0 && forall i :: 0 <= i < |t| ==> t[i] < 256
    ensures forall i :: 0 <= i < |t[1..]| ==> t[1..][i] < 256
  {
    forall i | 0 <= i < |t[1..]| ensures t[1..][i] < 256 {
      assert t[1..][i] == t[i + 1];
    }
  }

  /** The first group of the digits of `t` reads back as `t[0]`, and the rest are the
      digits of the other characters. */
  lemma FirstGroup(t: PyString)
    requires |t| > 0 && forall i :: 0 <= i < |t| ==> t[i] < 256
    ensures |CharTextToBinary(t)| >= 8
    ensures ByteOf(CharTextToBinary(t)[..8]) == t[0]
    ensures CharTextToBinary(t)[8..] == CharTextToBinary(t[1..])
  {
    CharTextToBinaryBytes(t);
    assert Pow2(8) == 256;
    IntOfBinDigits(t[0], 8);
  }

  /** Decoding `k > 0` shuffled groups reads the first group, unshuffled, then the
      other `k - 1`. */
  lemma GroupsStep(bin: BitString, k: nat, order: seq<int>)
    requires IsPermutation8(order) && k > 0 && |bin| >= 8 * k
    ensures DecodeBits(ShuffledGroups(bin, k, order), order)
        == StopAtEom(ByteOf(bin[..8]), DecodeBits(ShuffledGroups(bin[8..], k - 1, order), order))
  {
    var first := Shuffle(bin[..8], order);
    var later := ShuffledGroups(bin[8..], k - 1, order);
    assert ShuffledGroups(bin, k, order) == first + later;
    DecodeBitsStep(first, later, order);
    UnshuffleShuffle(bin[..8], order);
    assert bin[..8][..8] == bin[..8];
  }

  /** Decoding a stream that starts with the full group `b`. */
  lemma DecodeBitsStep(b: BitString, rest: BitString, order: seq<int>)
    requires IsPermutation8(order) && |b| == 8
    ensures var c := ByteOf(Unshuffle(b, order));
      DecodeBits(b + rest, order) == if c == EOM_CHAR then [] else [c] + DecodeBits(rest, order)
  {
    var all := b + rest;
    assert all[..8] == b && all[8..] == rest;
  }

  lemma {:induction false} TakeUntilEomClean(s: PyString)
    requires IsCarriableSecret(s)
    ensures TakeUntilEom(s) == s
    ensures TakeUntilEom(s + [EOM_CHAR]) == s
  {
    if s != [] {
      assert (s + [EOM_CHAR])[1..] == s[1..] + [EOM_CHAR];
      TakeUntilEomClean(s[1..]);
    }
  }

  /** `_char_text_to_binary` yields exactly eight bits per character when every code is
      below 256. */
  lemma CharTextToBinaryLength(text: PyString)
    requires forall i :: 0 <= i < |text| ==> text[i] < 256
    ensures |CharTextToBinary(text)| == 8 * |text|
  {
    CharTextToBinaryBytes(text);
  }

  /** Encoding inserts exactly 8 * min(|cover|, |secret| + 1) zero-width characters and
      nothing else: deleting them gives back the cover (when the cover had none), and each
      character's eight sit directly after the cover character that carries it. */
  lemma EncodeInsertsOnlyZwc(cover: PyString, secret: PyString, order: seq<int>)
    requires IsPermutation8(order)
    requires forall i :: 0 <= i < |secret| ==> secret[i] < 256
    ensures |ZwcBits(Encode(cover, secret, order))| == |ZwcBits(cover)| + 8 * Min(|cover|, |secret| + 1)
    ensures StripZwc(Encode(cover, secret, order)) == StripZwc(cover)
    ensures NoZwc(cover) ==> StripZwc(Encode(cover, secret, order)) == cover
    ensures NoZwc(cover) ==> |Encode(cover, secret, order)| == |cover| + 8 * Min(|cover|, |secret| + 1)
    ensures |Encode(cover, secret, order)| == |cover| + 8 * Min(|cover|, |secret| + 1)
    ensures forall k :: 0 <= k < Min(|cover|, |secret| + 1) ==>
      Encode(cover, secret, order)[9 * k .. 9 * k + 9]
      == [cover[k]] + ToZwc(Shuffle(Format08((secret + [EOM_CHAR])[k]), order))
  {
    EncodeLayout(cover, secret, order);
    var t := secret + [EOM_CHAR];
    CharTextToBinaryBytes(t);
    EmbedBitsShape(cover, CharTextToBinary(t), order);
    if NoZwc(cover) {
      StripZwcNone(cover);
      EncodeLength(cover, CharTextToBinary(t), order);
    }
  }

  lemma {:induction false} EncodeLength(cover: PyString, rest: BitString, order: seq<int>)
    requires IsPermutation8(order)
    ensures |EmbedBits(cover, rest, order)| == |cover| + 8 * Min(|cover|, |rest| / 8)
    decreases |cover|
  {
    if cover != [] {
      if |rest| >= 8 {
        EncodeLength(cover[1..], rest[8..], order);
        assert |rest[8..]| / 8 == |rest| / 8 - 1;
      } else {
        EncodeLength(cover[1..], rest, order);
      }
    }
  }

  /** The layout of an embedding, with n = min(|cover|, |rest| / 8): the output is read in
      slots of nine, slot k holding cover character k directly followed by byte k of
      `rest`, shuffled, as zero-width characters; after the n slots the rest of the cover
      follows unchanged. */
  predicate Layout(cover: PyString, rest: BitString, order: seq<int>)
    requires IsPermutation8(order)
  {
    var n := Min(|cover|, |rest| / 8);
    var e := EmbedBits(cover, rest, order);
    && |e| == |cover| + 8 * n
    && (forall k :: 0 <= k < n ==>
          e[9 * k .. 9 * k + 9] == [cover[k]] + ToZwc(Shuffle(rest[8 * k .. 8 * k + 8], order)))
    && e[9 * n ..] == cover[n ..]
  }

  /** Fewer than eight bits left: the cover passes through unchanged. */
  lemma {:induction false} EmbedBitsShort(cover: PyString, rest: BitString, order: seq<int>)
    requires IsPermutation8(order) && |rest| < 8
    ensures EmbedBits(cover, rest, order) == cover
    decreases |cover|
  {
    if cover != [] {
      EmbedBitsShort(cover[1..], rest, order);
      assert cover == [cover[0]] + cover[1..];
    }
  }

  /** Each carried group sits directly after its cover character. */
  lemma {:induction false} EmbedBitsLayout(cover: PyString, rest: BitString, order: seq<int>)
    requires IsPermutation8(order)
    ensures Layout(cover, rest, order)
    decreases |cover|
  {
    EncodeLength(cover, rest, order);
    if cover == [] {
    } else if |rest| < 8 {
      EmbedBitsShort(cover, rest, order);
    } else {
      EmbedBitsLayout(cover[1..], rest[8..], order);
      LayoutFull(cover, rest, order);
    }
  }

  /** A cover character followed by a full group: slot 0 is that pair, and the later slots
      are the slots of the remaining embedding. */
  lemma LayoutFull(cover: PyString, rest: BitString, order: seq<int>)
    requires IsPermutation8(order) && cover != [] && |rest| >= 8
    requires |EmbedBits(cover, rest, order)| == |cover| + 8 * Min(|cover|, |rest| / 8)
    requires Layout(cover[1..], rest[8..], order)
    ensures Layout(cover, rest, order)
  {
    var n := Min(|cover|, |rest| / 8);
    var m := Min(|cover[1..]|, |rest[8..]| / 8);
    assert |rest[8..]| / 8 == |rest| / 8 - 1;
    assert n == m + 1;
    var head := [cover[0]] + ToZwc(Shuffle(rest[..8], order));
    var tail := EmbedBits(cover[1..], rest[8..], order);
    var e := EmbedBits(cover, rest, order);
    assert e == head + tail;
    assert |head| == 9;
    forall k | 0 <= k < n
      ensures e[9 * k .. 9 * k + 9] == [cover[k]] + ToZwc(Shuffle(rest[8 * k .. 8 * k + 8], order))
    {
      if k == 0 {
        assert e[0 .. 9] == head;
        assert rest[0 .. 8] == rest[..8];
      } else {
        var j := k - 1;
        assert 9 * k == 9 * j + 9 && 8 * k == 8 * j + 8;
        assert e[9 * k .. 9 * k + 9] == tail[9 * j .. 9 * j + 9];
        assert rest[8 * k .. 8 * k + 8] == rest[8..][8 * j .. 8 * j + 8];
        assert cover[k] == cover[1..][j];
      }
    }
    assert e[9 * n ..] == tail[9 * m ..];
    assert cover[n ..] == cover[1..][m ..];
  }

  /** Byte k of a byte-range text's bits is the eight digits of its character k. */
  lemma {:induction false} CharTextToBinaryAt(text: PyString, k: nat)
    requires forall i :: 0 <= i < |text| ==> text[i] < 256
    requires k < |text|
    ensures |CharTextToBinary(text)| == 8 * |text|
    ensures CharTextToBinary(text)[8 * k .. 8 * k + 8] == Format08(text[k])
    decreases k
  {
    CharTextToBinaryBytes(text);
    Format08Byte(text[k]);
    if k > 0 {
      CharTextToBinaryAt(text[1..], k - 1);
      assert 8 * k == 8 * (k - 1) + 8;
      assert CharTextToBinary(text)[8 * k .. 8 * k + 8]
          == CharTextToBinary(text[1..])[8 * (k - 1) .. 8 * (k - 1) + 8];
    }
  }

  /** The layout of the stego text: for each of the first min(|cover|, |secret| + 1) cover
      characters, the character and then the eight shuffled bits of the matching character
      of the secret (followed by U+0003) as zero-width characters; then the rest of the
      cover. */
  lemma EncodeLayout(cover: PyString, secret: PyString, order: seq<int>)
    requires IsPermutation8(order)
    requires forall i :: 0 <= i < |secret| ==> secret[i] < 256
    ensures var n := Min(|cover|, |secret| + 1);
      && |Encode(cover, secret, order)| == |cover| + 8 * n
      && (forall k :: 0 <= k < n ==>
            Encode(cover, secret, order)[9 * k .. 9 * k + 9]
            == [cover[k]] + ToZwc(Shuffle(Format08((secret + [EOM_CHAR])[k]), order)))
      && Encode(cover, secret, order)[9 * n ..] == cover[n ..]
  {
    var t := secret + [EOM_CHAR];
    var rest := CharTextToBinary(t);
    CharTextToBinaryBytes(t);
    assert |rest| / 8 == |secret| + 1;
    EmbedBitsLayout(cover, rest, order);
    forall k | 0 <= k < Min(|cover|, |secret| + 1)
      ensures rest[8 * k .. 8 * k + 8] == Format08(t[k])
    {
      CharTextToBinaryAt(t, k);
    }
  }

  /** Character-level round trip: decoding with the same permutation recovers the secret
      when the cover has at least |secret| characters, and otherwise its first |cover|
      characters, without any error, provided the cover holds no zero-width characters and
      every secret character is a byte other than U+0003. */
  lemma RoundTrip(cover: PyString, secret: PyString, order: seq<int>)
    requires IsPermutation8(order)
    requires NoZwc(cover) && IsCarriableSecret(secret)
    ensures Decode(Encode(cover, secret, order), order) == secret[..Min(|cover|, |secret|)]
    ensures |cover| >= |secret| ==> Decode(Encode(cover, secret, order), order) == secret
  {
    var t := secret + [EOM_CHAR];
    var k := Min(|cover|, |t|);
    TerminatedBytes(secret);
    EncodedGroups(cover, secret, order);
    DecodeShuffledGroups(t, k, order);
    TakeOfTerminated(secret, k);
  }

  /** Reading the first `k` characters of the terminated secret up to U+0003 gives the
      first `k` characters of the secret. */
  lemma TakeOfTerminated(secret: PyString, k: nat)
    requires IsCarriableSecret(secret) && k <= |secret| + 1
    ensures TakeUntilEom((secret + [EOM_CHAR])[..k]) == secret[..Min(k, |secret|)]
  {
    var t := secret + [EOM_CHAR];
    if k <= |secret| {
      assert t[..k] == secret[..k];
      TakeUntilEomClean(secret[..k]);
    } else {
      assert t[..k] == secret + [EOM_CHAR];
      TakeUntilEomClean(secret);
    }
  }

  lemma TerminatedBytes(secret: PyString)
    requires forall i :: 0 <= i < |secret| ==> secret[i] < 256
    ensures forall i :: 0 <= i < |secret| + 1 ==> (secret + [EOM_CHAR])[i] < 256
  {
  }

  /** The zero-width characters of an encoding carry the shuffled groups of the first
      min(|cover|, |secret| + 1) characters of the terminated secret. */
  lemma EncodedGroups(cover: PyString, secret: PyString, order: seq<int>)
    requires IsPermutation8(order) && NoZwc(cover)
    requires forall i :: 0 <= i < |secret| ==> secret[i] < 256
    ensures var bin := CharTextToBinary(secret + [EOM_CHAR]);
      && |bin| == 8 * (|secret| + 1)
      && ZwcBits(Encode(cover, secret, order)) == ShuffledGroups(bin, Min(|cover|, |secret| + 1), order)
  {
    var t := secret + [EOM_CHAR];
    var bin := CharTextToBinary(t);
    TerminatedBytes(secret);
    CharTextToBinaryLength(t);
    assert |bin| / 8 == |t|;
    EmbedBitsShape(cover, bin, order);
  }

  /** `encode_character_level` as the source writes it: one pass over the cover with a bit
      index into the binary of the secret. */
  method EncodeCharacterLevel(cover: PyString, secret: PyString, order: seq<int>) returns (encoded: PyString)
    requires IsPermutation8(order)
    ensures encoded == Encode(cover, secret, order)
  {
    var binary := CharTextToBinary(secret + [EOM_CHAR]);
    encoded := [];
    var bitIndex := 0;
    var k := 0;
    while k < |cover|
      invariant 0 <= k <= |cover| && 0 <= bitIndex <= |binary|
      invariant encoded + EmbedBits(cover[k..], binary[bitIndex..], order) == Encode(cover, secret, order)
    {
      var ch := cover[k];
      var piece := [ch];
      var next := bitIndex;
      if bitIndex + 8 <= |binary| {
        var shuffled := Shuffle(binary[bitIndex..bitIndex + 8], order);
        piece := piece + ToZwc(shuffled);
        next := bitIndex + 8;
      }
      EncodeLoopStep(encoded, cover, k, binary, bitIndex, order);
      encoded := encoded + piece;
      bitIndex := next;
      k := k + 1;
    }
  }

  /** One step of the encoding loop at cover position `k` and bit index `b`: the cover
      character, then the next group shuffled when eight bits remain. */
  lemma EncodeLoopStep(done: PyString, cover: PyString, k: nat, binary: BitString, b: nat, order: seq<int>)
    requires IsPermutation8(order) && k < |cover| && b <= |binary|
    ensures var full := b + 8 <= |binary|;
      var piece := if full then [cover[k]] + ToZwc(Shuffle(binary[b..b + 8], order)) else [cover[k]];
      done + EmbedBits(cover[k..], binary[b..], order)
        == (done + piece) + EmbedBits(cover[k + 1..], binary[if full then b + 8 else b..], order)
  {
    assert cover[k..][0] == cover[k] && cover[k..][1..] == cover[k + 1..];
    if b + 8 <= |binary| {
      assert binary[b..][..8] == binary[b..b + 8];
      assert binary[b..][8..] == binary[b + 8..];
    }
  }

  /** `decode_character_level` as the source writes it: collect the bits, then read them
      eight at a time from index 0, stopping at a short group or at U+0003. */
  method DecodeCharacterLevel(stego: PyString, order: seq<int>) returns (secret: PyString)
    requires IsPermutation8(order)
    ensures secret == Decode(stego, order)
  {
    var bits := ZwcBits(stego);
    ghost var target := DecodeBits(bits, order);
    assert bits[0..] == bits;
    secret := [];
    var i := 0;
    while i < |bits|
      invariant 0 <= i <= |bits|
      invariant secret + DecodeBits(bits[i..], order) == target
    {
      DecodeLoopStep(secret, bits, i, order);
      if |bits| - i < 8 {
        break;
      }
      var ch := ByteOf(Unshuffle(bits[i..i + 8], order));
      if ch == EOM_CHAR {
        break;
      }
      secret := secret + [ch];
      i := i + 8;
    }
  }

  /** One step of the decoding loop at bit index `i`: a short group or U+0003 ends the
      text, any other character is appended. */
  lemma DecodeLoopStep(done: PyString, bits: BitString, i: nat, order: seq<int>)
    requires IsPermutation8(order) && i <= |bits|
    ensures |bits| - i < 8 ==> DecodeBits(bits[i..], order) == []
    ensures |bits| - i >= 8 ==>
      var ch := ByteOf(Unshuffle(bits[i..i + 8], order));
      if ch == EOM_CHAR then DecodeBits(bits[i..], order) == []
      else done + DecodeBits(bits[i..], order) == (done + [ch]) + DecodeBits(bits[i + 8..], order)
  {
    if |bits| - i >= 8 {
      var byte := bits[i..i + 8];
      var later := bits[i + 8..];
      assert bits[i..] == byte + later;
      DecodeBitsStep(byte, later, order);
    }
  }
}
