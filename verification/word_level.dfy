/** The word-level codec of backend/text_based/text_in_text.py: the cover is split into
    words, and word `i` of the first |secret| + 1 words gets the masked byte of the `i`-th
    character of the terminated secret appended as four zero-width characters, two bits
    each; the words are then joined with single spaces. */
module WordLevel {
  import opened Wrappers
  import opened Bits

  const SHUFFLE_ORDER_W: seq<int> := [2, 5, 1, 7, 3, 0, 6, 4]

  /** The separator of `" ".join`. */
  const SPACE: CodePoint := 0x20

  lemma OrderIsPermutation()
    ensures IsPermutation8(SHUFFLE_ORDER_W)
  {
    assert SHUFFLE_ORDER_W[5] == 0 && SHUFFLE_ORDER_W[2] == 1 && SHUFFLE_ORDER_W[0] == 2;
    assert SHUFFLE_ORDER_W[4] == 3 && SHUFFLE_ORDER_W[7] == 4 && SHUFFLE_ORDER_W[1] == 5;
    assert SHUFFLE_ORDER_W[6] == 6 && SHUFFLE_ORDER_W[3] == 7;
  }

  /** ZWC_MAP: the zero-width character for a pair of bits. */
  function ZwcOfPair(hi: bool, lo: bool): CodePoint
  {
    if !hi && !lo then 0x200B
    else if !hi && lo then 0x200C
    else if hi && !lo then 0x200D
    else 0x2060
  }

  /** `ch in REVERSE_ZWC_MAP` */
  predicate IsMark(c: CodePoint)
  {
    c == 0x200B || c == 0x200C || c == 0x200D || c == 0x2060
  }

  /** REVERSE_ZWC_MAP: the two bits a zero-width character stands for. */
  function PairOfZwc(c: CodePoint): BitString
    requires IsMark(c)
  {
    if c == 0x200B then [false, false]
    else if c == 0x200C then [false, true]
    else if c == 0x200D then [true, false]
    else [true, true]
  }

  /** Characters for which Python's `str.isspace()` holds: the separators of `str.split()`. */
  predicate IsPySpace(c: CodePoint)
  {
    || 0x09 <= c <= 0x0D || 0x1C <= c <= 0x20 || c == 0x85 || c == 0xA0 || c == 0x1680
    || 0x2000 <= c <= 0x200A || c == 0x2028 || c == 0x2029 || c == 0x202F || c == 0x205F
    || c == 0x3000
  }

  /** A word as `str.split()` yields it: non-empty and free of whitespace. */
  predicate IsWord(w: PyString)
  {
    |w| > 0 && forall i :: 0 <= i < |w| ==> !IsPySpace(w[i])
  }

  function DropSpaces(s: PyString): (r: PyString)
    ensures |r| <= |s|
    ensures r == [] || !IsPySpace(r[0])
  {
    if s != [] && IsPySpace(s[0]) then DropSpaces(s[1..]) else s
  }

  /** The longest whitespace-free prefix of `s`. */
  function WordPrefix(s: PyString): (r: PyString)
    ensures |r| <= |s| && r == s[..|r|]
    ensures forall i :: 0 <= i < |r| ==> !IsPySpace(r[i])
    ensures s != [] && !IsPySpace(s[0]) ==> |r| > 0
  {
    if s == [] || IsPySpace(s[0]) then [] else [s[0]] + WordPrefix(s[1..])
  }

  /** Python's `s.split()`: the maximal runs of non-whitespace characters, in order. */
  function Split(s: PyString): (words: seq<PyString>)
    ensures forall i :: 0 <= i < |words| ==> IsWord(words[i])
    decreases |s|
  {
    var t := DropSpaces(s);
    if t == [] then []
    else
      var w := WordPrefix(t);
      [w] + Split(t[|w|..])
  }

  /** Python's `" ".join(words)`. */
  function JoinSpaces(words: seq<PyString>): PyString
  {
    if |words| == 0 then []
    else if |words| == 1 then words[0]
    else words[0] + [SPACE] + JoinSpaces(words[1..])
  }

  /** The four zero-width characters for eight bits, two bits each. */
  function Marks(bits: BitString): (r: PyString)
    requires |bits| == 8
    ensures |r| == 4 && forall i :: 0 <= i < 4 ==> IsMark(r[i])
  {
    [ZwcOfPair(bits[0], bits[1]), ZwcOfPair(bits[2], bits[3]),
     ZwcOfPair(bits[4], bits[5]), ZwcOfPair(bits[6], bits[7])]
  }

  /** The eight bits the encoder writes for the character `ch` of word `idx`. */
  function Mask(ch: CodePoint, idx: nat): (r: BitString)
    ensures |r| == 8
  {
    OrderIsPermutation();
    MaskedByte(ch, idx, SHUFFLE_ORDER_W)
  }

  /** The character the decoder reads from the eight bits of word `idx`. */
  function Unmask(bits: BitString, idx: nat): Result<CodePoint, string>
    requires |bits| == 8
  {
    OrderIsPermutation();
    UnmaskByte(bits, SHUFFLE_ORDER_W, idx)
  }

  /** Unmasking undoes masking for a shifted code and a mask that fit in a byte. */
  lemma UnmaskMask(ch: CodePoint, idx: nat)
    requires ch + SHIFT_KEY < 256 && BASE_XOR_KEY + idx < 256
    ensures Unmask(Mask(ch, idx), idx) == Success(ch)
  {
    OrderIsPermutation();
    UnmaskMasked(ch, idx, SHUFFLE_ORDER_W);
  }

  /** The words of the output: word `i` of the first |t| gets the marks of `t[i]`. */
  function StegoWords(words: seq<PyString>, t: PyString): seq<PyString>
  {
    seq(|words|, i requires 0 <= i < |words| =>
      if i < |t| then words[i] + Marks(Mask(t[i], i)) else words[i])
  }

  /** `encode_word_level(cover_text, secret)`; the ValueError becomes `Failure`. */
  function Encode(cover: PyString, secret: PyString): Result<PyString, string>
  {
    var words := Split(cover);
    var t := secret + [EOM_CHAR];
    if |words| < |t| then Failure("Not enough words in cover text")
    else Success(JoinSpaces(StegoWords(words, t)))
  }

  /** The bits of the zero-width characters of one word, in order. */
  function WordBits(word: PyString): BitString
  {
    if word == [] then []
    else (if IsMark(word[0]) then PairOfZwc(word[0]) else []) + WordBits(word[1..])
  }

  /** The loop of `decode_word_level` from word `i` on: a word carrying exactly eight bits
      is unmasked with its own index (a code outside 0..0x10FFFF raises ValueError in
      `chr`), U+0003 ends decoding, and every other word is skipped. */
  function DecodeWords(words: seq<PyString>, i: nat): Result<PyString, string>
    decreases |words| - i
  {
    if i >= |words| then Success([])
    else
      var bits := WordBits(words[i]);
      if |bits| == 8 then AfterByte(Unmask(bits, i), DecodeWords(words, i + 1))
      else DecodeWords(words, i + 1)
  }

  /** `decode_word_level(stego_text)`; the ValueError becomes `Failure`. */
  function Decode(stego: PyString): Result<PyString, string>
  {
    DecodeWords(Split(stego), 0)
  }

  predicate NoMarks(s: PyString)
  {
    forall i :: 0 <= i < |s| ==> !IsMark(s[i])
  }

  lemma {:induction false} WordPrefixOf(w: PyString, r: PyString)
    requires forall i :: 0 <= i < |w| ==> !IsPySpace(w[i])
    requires r == [] || IsPySpace(r[0])
    ensures WordPrefix(w + r) == w
  {
    if w == [] {
      assert w + r == r;
    } else {
      assert (w + r)[1..] == w[1..] + r;
      WordPrefixOf(w[1..], r);
    }
  }

  /** Splitting words joined by single spaces gives the words back. */
  lemma {:induction false} SplitJoin(words: seq<PyString>)
    requires forall i :: 0 <= i < |words| ==> IsWord(words[i])
    ensures Split(JoinSpaces(words)) == words
  {
    if |words| > 0 {
      var w := words[0];
      var rest: PyString := if |words| == 1 then [] else [SPACE] + JoinSpaces(words[1..]);
      var s := JoinSpaces(words);
      assert s == w + rest;
      assert DropSpaces(s) == s;
      WordPrefixOf(w, rest);
      assert s[|w|..] == rest;
      if |words| > 1 {
        SplitJoin(words[1..]);
        var j := JoinSpaces(words[1..]);
        assert rest[1..] == j;
        assert DropSpaces(rest) == DropSpaces(j);
        if |words| > 2 {
          assert j[0] == words[1][0];
        } else {
          assert j == words[1];
        }
        assert DropSpaces(j) == j;
        assert Split(rest) == Split(j);
        assert words == [w] + words[1..];
      }
    }
  }

  lemma {:induction false} WordBitsAppend(a: PyString, b: PyString)
    ensures WordBits(a + b) == WordBits(a) + WordBits(b)
  {
    if a == [] {
      assert a + b == b;
    } else {
      assert (a + b)[0] == a[0] && (a + b)[1..] == a[1..] + b;
      WordBitsAppend(a[1..], b);
    }
  }

  lemma {:induction false} WordBitsNone(w: PyString)
    requires NoMarks(w)
    ensures WordBits(w) == []
  {
    if w != [] {
      WordBitsNone(w[1..]);
    }
  }

  /** The marks of eight bits read back as those eight bits. */
  lemma WordBitsMarks(bits: BitString)
    requires |bits| == 8
    ensures WordBits(Marks(bits)) == bits
  {
    var m := Marks(bits);
    assert WordBits(m[3..]) == PairOfZwc(m[3]) + WordBits([]);
    assert m[2..][1..] == m[3..];
    assert WordBits(m[2..]) == PairOfZwc(m[2]) + WordBits(m[3..]);
    assert m[1..][1..] == m[2..];
    assert WordBits(m[1..]) == PairOfZwc(m[1]) + WordBits(m[2..]);
    assert WordBits(m) == PairOfZwc(m[0]) + WordBits(m[1..]);
  }

  lemma StegoWordsAreWords(words: seq<PyString>, t: PyString)
    requires forall i :: 0 <= i < |words| ==> IsWord(words[i])
    ensures forall i :: 0 <= i < |words| ==> IsWord(StegoWords(words, t)[i])
  {
    forall i | 0 <= i < |words|
      ensures IsWord(StegoWords(words, t)[i])
    {
      if i < |t| {
        var m := Marks(Mask(t[i], i));
        assert StegoWords(words, t)[i] == words[i] + m;
        forall k | 0 <= k < 4
          ensures !IsPySpace(m[k])
        {
          assert IsMark(m[k]);
        }
      }
    }
  }

  /** Encoding raises ValueError exactly when the cover has fewer than |secret| + 1 words. */
  lemma EncodeFailsIff(cover: PyString, secret: PyString)
    ensures Encode(cover, secret).Failure? <==> |Split(cover)| < |secret| + 1
  {
  }

  /** A successful encoding keeps the number of words; each of the first |secret| + 1
      words gets exactly four zero-width characters appended and the others are kept. */
  lemma EncodeShape(cover: PyString, secret: PyString)
    requires Encode(cover, secret).Success?
    ensures var words := Split(cover);
      var out := Split(Encode(cover, secret).value);
      && |out| == |words|
      && (forall i :: 0 <= i < |words| && i < |secret| + 1 ==>
            |out[i]| == |words[i]| + 4 && out[i][..|words[i]|] == words[i]
            && forall k :: |words[i]| <= k < |out[i]| ==> IsMark(out[i][k]))
      && (forall i :: |secret| + 1 <= i < |words| ==> out[i] == words[i])
  {
    var words := Split(cover);
    var t := secret + [EOM_CHAR];
    StegoWordsAreWords(words, t);
    SplitJoin(StegoWords(words, t));
  }

  /** Decoding the output words from index `i` gives back the secret from index `i`. */
  lemma {:induction false} DecodeStegoWords(words: seq<PyString>, secret: PyString, i: nat)
    requires forall j :: 0 <= j < |words| ==> NoMarks(words[j])
    requires |secret| + 1 <= |words| && i <= |secret|
    requires BASE_XOR_KEY + |secret| < 256
    requires forall j :: 0 <= j < |secret| ==> secret[j] + SHIFT_KEY < 256 && secret[j] != EOM_CHAR
    ensures DecodeWords(StegoWords(words, secret + [EOM_CHAR]), i) == Success(secret[i..])
    decreases |secret| - i
  {
    var t := secret + [EOM_CHAR];
    var sw := StegoWords(words, t);
    StegoWordBits(words, t, i);
    DecodeWordsStep(sw, i);
    UnmaskMask(t[i], i);
    if i < |secret| {
      DecodeStegoWords(words, secret, i + 1);
      assert secret[i..] == [secret[i]] + secret[i + 1..];
    }
  }

  /** Word `i` of the output carries the eight masked bits of `t[i]`. */
  lemma StegoWordBits(words: seq<PyString>, t: PyString, i: nat)
    requires forall j :: 0 <= j < |words| ==> NoMarks(words[j])
    requires i < |t| && i < |words|
    ensures |StegoWords(words, t)| == |words|
    ensures WordBits(StegoWords(words, t)[i]) == Mask(t[i], i)
  {
    var byte := Mask(t[i], i);
    assert StegoWords(words, t)[i] == words[i] + Marks(byte);
    WordBitsAppend(words[i], Marks(byte));
    WordBitsNone(words[i]);
    WordBitsMarks(byte);
  }

  /** Decoding at a word that carries eight bits reads its character first. */
  lemma DecodeWordsStep(words: seq<PyString>, i: nat)
    requires i < |words| && |WordBits(words[i])| == 8
    ensures DecodeWords(words, i) == AfterByte(Unmask(WordBits(words[i]), i), DecodeWords(words, i + 1))
  {
  }

  /** Word-level round trip: when the cover has at least |secret| + 1 words and no
      zero-width mark characters, the secret has at most 112 characters, and every
      secret code is at most 252 and not U+0003, decoding the encoding gives back the
      secret. */
  lemma RoundTrip(cover: PyString, secret: PyString)
    requires NoMarks(cover)
    requires |Split(cover)| >= |secret| + 1
    requires |secret| + 1 <= 113
    requires forall j :: 0 <= j < |secret| ==> secret[j] + SHIFT_KEY <= 255 && secret[j] != EOM_CHAR
    ensures Encode(cover, secret).Success?
    ensures Decode(Encode(cover, secret).value) == Success(secret)
  {
    var words := Split(cover);
    var t := secret + [EOM_CHAR];
    StegoWordsAreWords(words, t);
    SplitJoin(StegoWords(words, t));
    SplitNoMarks(cover);
    DecodeStegoWords(words, secret, 0);
  }

  /** Splitting never creates mark characters. */
  lemma {:induction false} SplitNoMarks(s: PyString)
    requires NoMarks(s)
    ensures forall j :: 0 <= j < |Split(s)| ==> NoMarks(Split(s)[j])
    decreases |s|
  {
    var t := DropSpaces(s);
    DropSpacesSuffix(s);
    if t != [] {
      var w := WordPrefix(t);
      SplitNoMarks(t[|w|..]);
    }
  }

  lemma {:induction false} DropSpacesSuffix(s: PyString)
    ensures DropSpaces(s) == s[|s| - |DropSpaces(s)|..]
  {
    if s != [] && IsPySpace(s[0]) {
      DropSpacesSuffix(s[1..]);
    }
  }
}
