/** The bit-level helpers shared by the three text-in-text codecs of
    backend/text_based/text_in_text.py: Python's `format(n, '08b')` and `int(s, 2)`,
    the `^` operator on non-negative integers, and the 8-position shuffle/unshuffle
    of a bit string by a permutation of 0..7. */
module Bits {
  import opened Wrappers

  /** One element of a Python `str`: a Unicode code point (surrogates included, as in
      Python). */
  type CodePoint = c: int | 0 <= c < 0x11_0000

  /** A Python `str`, as the sequence of its code points. */
  type PyString = seq<CodePoint>

  /** End-of-message delimiter appended to every secret by all three codecs. */
  const EOM_CHAR: CodePoint := 0x03
  /** Added to every secret code before masking (homoglyph and word codecs). */
  const SHIFT_KEY: nat := 3
  /** The mask of the character at index `i` is `BASE_XOR_KEY + i`. */
  const BASE_XOR_KEY: nat := 143

  /** A Python string of '0'/'1' digits, most significant first; `true` is '1'. */
  type BitString = seq<bool>

  function Pow2(w: nat): (p: nat)
    ensures p >= 1
  {
    if w == 0 then 1 else 2 * Pow2(w - 1)
  }

  /** The low `w` binary digits of `n`, most significant first. */
  function BinDigits(n: nat, w: nat): (r: BitString)
    ensures |r| == w
  {
    if w == 0 then [] else BinDigits(n / 2, w - 1) + [n % 2 == 1]
  }

  /** Number of binary digits of `n` (0 for 0), Python's `n.bit_length()`. */
  function BitLength(n: nat): nat
  {
    if n == 0 then 0 else 1 + BitLength(n / 2)
  }

  /** Python's `format(n, '08b')` for `n >= 0`: all binary digits of `n`, padded on the
      left with '0' to at least eight. */
  function Format08(n: nat): BitString
  {
    BinDigits(n, if BitLength(n) < 8 then 8 else BitLength(n))
  }

  /** Python's `int(bits, 2)`. */
  function IntOfBits(bits: BitString): (n: nat)
    ensures n < Pow2(|bits|)
  {
    if bits == [] then 0
    else 2 * IntOfBits(bits[..|bits| - 1]) + (if bits[|bits| - 1] then 1 else 0)
  }

  /** Python's `a ^ b` on non-negative integers: bitwise exclusive or. */
  function Xor(a: nat, b: nat): nat
    decreases a + b
  {
    if a == 0 && b == 0 then 0 else 2 * Xor(a / 2, b / 2) + (a + b) % 2
  }

  lemma {:induction false} BitLengthBound(n: nat, w: nat)
    requires n < Pow2(w)
    ensures BitLength(n) <= w
  {
    if n != 0 {
      BitLengthBound(n / 2, w - 1);
    }
  }

  /** Every code below 256 is formatted as exactly eight digits, and those are its
      low eight binary digits. */
  lemma Format08Byte(n: nat)
    requires n < 256
    ensures Format08(n) == BinDigits(n, 8)
    ensures |Format08(n)| == 8
  {
    assert Pow2(8) == 256;
    BitLengthBound(n, 8);
  }

  /** `int(format(n, '08b'), 2) == n` for the `w` digits of any `n < 2^w`. */
  lemma {:induction false} IntOfBinDigits(n: nat, w: nat)
    requires n < Pow2(w)
    ensures IntOfBits(BinDigits(n, w)) == n
  {
    if w > 0 {
      var d := BinDigits(n, w);
      var h := n / 2;
      assert Pow2(w) == 2 * Pow2(w - 1);
      assert h < Pow2(w - 1);
      assert d[..|d| - 1] == BinDigits(h, w - 1);
      assert d[|d| - 1] == (n % 2 == 1);
      IntOfBinDigits(h, w - 1);
      assert IntOfBits(d) == 2 * h + n % 2;
    }
  }

  lemma {:induction false} XorZero(a: nat)
    ensures Xor(a, 0) == a
  {
    if a != 0 {
      XorZero(a / 2);
    }
  }

  /** One step of `Xor`: the low bit is the parity of the two low bits, and the
      higher bits are the XOR of the higher bits. */
  lemma XorStep(a: nat, b: nat)
    ensures Xor(a, b) / 2 == Xor(a / 2, b / 2)
    ensures Xor(a, b) % 2 == (a + b) % 2
  {
    if !(a == 0 && b == 0) {
      var q := Xor(a / 2, b / 2);
      assert Xor(a, b) == 2 * q + (a + b) % 2;
    }
  }

  /** A number is fixed by its low bit and the rest. */
  lemma BitsDetermine(z: nat, v: nat)
    requires z / 2 == v / 2 && z % 2 == v % 2
    ensures z == v
  {
  }

  /** Adding the same low bit twice cancels. */
  lemma ParityCancels(y: nat, v: nat, k: nat)
    requires y % 2 == (v + k) % 2
    ensures (y + k) % 2 == v % 2
  {
  }

  /** `(v ^ k) ^ k == v`: the XOR step of the homoglyph and word codecs undoes itself. */
  lemma {:induction false} XorInvolution(v: nat, k: nat)
    ensures Xor(Xor(v, k), k) == v
    decreases v + k
  {
    var y := Xor(v, k);
    var z := Xor(y, k);
    XorStep(v, k);
    XorStep(y, k);
    var h := Xor(v / 2, k / 2);
    assert y / 2 == h;
    if v + k > 0 {
      XorInvolution(v / 2, k / 2);
      assert Xor(h, k / 2) == v / 2;
      assert z / 2 == v / 2;
    }
    ParityCancels(y, v, k);
    BitsDetermine(z, v);
  }

  /** Two values of `w` bits XOR to a value of `w` bits. */
  lemma {:induction false} XorBound(a: nat, b: nat, w: nat)
    requires a < Pow2(w) && b < Pow2(w)
    ensures Xor(a, b) < Pow2(w)
  {
    if !(a == 0 && b == 0) {
      XorBound(a / 2, b / 2, w - 1);
    }
  }

  /** Python's `chr(int(bits, 2))` for eight unshuffled digits: a code below 256. */
  function ByteOf(bits: BitString): (c: CodePoint)
    requires |bits| == 8
    ensures c < 256
  {
    assert Pow2(8) == 256;
    IntOfBits(bits)
  }

  /** `order` lists each of the positions 0..7 exactly once. */
  predicate IsPermutation8(order: seq<int>)
  {
    && |order| == 8
    && (forall i :: 0 <= i < 8 ==> 0 <= order[i] < 8)
    && (forall i, j :: 0 <= i < j < 8 ==> order[i] != order[j])
    && (forall p :: 0 <= p < 8 ==> p in order)
  }

  /** `''.join(bits[i] for i in order)`: digit `i` of the result is digit `order[i]`
      of the input. */
  function Shuffle(bits: BitString, order: seq<int>): BitString
    requires IsPermutation8(order) && |bits| >= 8
  {
    seq(8, i requires 0 <= i < 8 => bits[order[i]])
  }

  /** The loop `for i, pos in enumerate(order): out[pos] = bits[i]`, from iteration `i`
      on. Python starts `out` as eight empty strings; here the placeholder is `false`,
      and every placeholder is overwritten when `order` is a permutation. */
  function UnshuffleFrom(bits: BitString, order: seq<int>, i: nat, out: BitString): (r: BitString)
    requires IsPermutation8(order) && |bits| >= 8 && i <= 8 && |out| == 8
    ensures |r| == 8
    decreases 8 - i
  {
    if i == 8 then out else UnshuffleFrom(bits, order, i + 1, out[order[i] := bits[i]])
  }

  function Unshuffle(bits: BitString, order: seq<int>): (r: BitString)
    requires IsPermutation8(order) && |bits| >= 8
    ensures |r| == 8
  {
    UnshuffleFrom(bits, order, 0, seq(8, _ => false))
  }

  lemma {:induction false} UnshuffleFromPlaces(bits: BitString, order: seq<int>, i: nat, out: BitString)
    requires IsPermutation8(order) && |bits| >= 8 && i <= 8 && |out| == 8
    ensures |UnshuffleFrom(bits, order, i, out)| == 8
    ensures forall j :: i <= j < 8 ==> UnshuffleFrom(bits, order, i, out)[order[j]] == bits[j]
    decreases 8 - i
  {
    if i < 8 {
      var out' := out[order[i] := bits[i]];
      UnshuffleFromPlaces(bits, order, i + 1, out');
      var r := UnshuffleFrom(bits, order, i + 1, out');
      assert r == UnshuffleFrom(bits, order, i, out);
      if r[order[i]] != bits[i] {
        UnshuffleFromKeeps(bits, order, i + 1, out', order[i]);
        assert false;
      }
    }
  }

  /** A position that no remaining iteration writes keeps its value. */
  lemma {:induction false} UnshuffleFromKeeps(bits: BitString, order: seq<int>, i: nat, out: BitString, p: int)
    requires IsPermutation8(order) && |bits| >= 8 && i <= 8 && |out| == 8
    requires 0 <= p < 8 && forall j :: i <= j < 8 ==> order[j] != p
    ensures |UnshuffleFrom(bits, order, i, out)| == 8
    ensures UnshuffleFrom(bits, order, i, out)[p] == out[p]
    decreases 8 - i
  {
    if i < 8 {
      UnshuffleFromKeeps(bits, order, i + 1, out[order[i] := bits[i]], p);
    }
  }

  /** Unshuffling puts digit `j` back at position `order[j]`. */
  lemma UnshufflePlaces(bits: BitString, order: seq<int>)
    requires IsPermutation8(order) && |bits| >= 8
    ensures |Unshuffle(bits, order)| == 8
    ensures forall j :: 0 <= j < 8 ==> Unshuffle(bits, order)[order[j]] == bits[j]
  {
    UnshuffleFromPlaces(bits, order, 0, seq(8, _ => false));
  }

  /** unshuffle(shuffle(b)) == b for the first eight digits, for any permutation. */
  lemma UnshuffleShuffle(bits: BitString, order: seq<int>)
    requires IsPermutation8(order) && |bits| >= 8
    ensures Unshuffle(Shuffle(bits, order), order) == bits[..8]
  {
    var s := Shuffle(bits, order);
    var u := Unshuffle(s, order);
    UnshufflePlaces(s, order);
    forall p | 0 <= p < 8
      ensures u[p] == bits[p]
    {
      assert p in order;
      var j :| 0 <= j < |order| && order[j] == p;
      assert u[order[j]] == s[j] == bits[order[j]];
    }
    assert |u| == |bits[..8]|;
  }

  /** shuffle(unshuffle(b)) == b for any eight digits and any permutation. */
  lemma ShuffleUnshuffle(bits: BitString, order: seq<int>)
    requires IsPermutation8(order) && |bits| == 8
    ensures Shuffle(Unshuffle(bits, order), order) == bits
  {
    UnshufflePlaces(bits, order);
  }

  /** The eight bits the homoglyph and word codecs write for the secret character `ch`
      at index `idx`: `shuffle(format(_xor(ord(ch) + SHIFT_KEY, idx), '08b'))`. When the
      masked code needs more than eight digits only the first eight are kept, as the
      source's shuffle reads only positions 0..7. */
  function MaskedByte(ch: CodePoint, idx: nat, order: seq<int>): (r: BitString)
    requires IsPermutation8(order)
    ensures |r| == 8
  {
    Shuffle(Format08(Xor(ch + SHIFT_KEY, BASE_XOR_KEY + idx)), order)
  }

  /** The decoder's inverse step for eight collected bits at index `idx`:
      `chr(_xor(int(unshuffle(bits), 2), idx) - SHIFT_KEY)`, where `chr` raises
      ValueError for a code outside 0..0x10FFFF. */
  function UnmaskByte(bits: BitString, order: seq<int>, idx: nat): (r: Result<CodePoint, string>)
    requires IsPermutation8(order) && |bits| == 8
  {
    var original := Xor(IntOfBits(Unshuffle(bits, order)), BASE_XOR_KEY + idx) - SHIFT_KEY;
    if 0 <= original < 0x11_0000 then Success(original)
    else Failure("chr() arg not in range(0x110000)")
  }

  /** Unmasking undoes masking whenever the shifted code and the mask both fit in a
      byte: `ord(ch) + 3 <= 255` and `idx <= 112`. */
  lemma UnmaskMasked(ch: CodePoint, idx: nat, order: seq<int>)
    requires IsPermutation8(order)
    requires ch + SHIFT_KEY < 256 && BASE_XOR_KEY + idx < 256
    ensures UnmaskByte(MaskedByte(ch, idx, order), order, idx) == Success(ch)
  {
    var x := ch + SHIFT_KEY;
    var k := BASE_XOR_KEY + idx;
    assert Pow2(8) == 256;
    XorBound(x, k, 8);
    ByteRoundTrip(Xor(x, k), order);
    XorInvolution(x, k);
  }

  /** The eight shuffled digits of a byte-sized value read back as that value. */
  lemma ByteRoundTrip(y: nat, order: seq<int>)
    requires IsPermutation8(order) && y < 256
    ensures IntOfBits(Unshuffle(Shuffle(Format08(y), order), order)) == y
  {
    assert Pow2(8) == 256;
    Format08Byte(y);
    UnshuffleShuffle(Format08(y), order);
    assert Format08(y)[..8] == BinDigits(y, 8);
    IntOfBinDigits(y, 8);
  }

  function Prepend(c: CodePoint, r: Result<PyString, string>): Result<PyString, string>
  {
    match r
    case Success(s) => Success([c] + s)
    case Failure(e) => Failure(e)
  }

  /** What follows an unmasked byte in the homoglyph and word decoders: `chr` fails,
      U+0003 ends the text, and any other character comes before the rest of the
      decoding. */
  function AfterByte(u: Result<CodePoint, string>, rest: Result<PyString, string>): Result<PyString, string>
  {
    match u
    case Failure(e) => Failure(e)
    case Success(c) => if c == EOM_CHAR then Success([]) else Prepend(c, rest)
  }
}
