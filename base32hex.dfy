/** The "base32hex" encoding of section 7 of RFC 4648 (the Extended Hex alphabet), without the '='
    padding (section 3.2 of RFC 4648 allows leaving it out).

    Section 6 of RFC 4648 reads the input as one bit string, most significant bit of each byte
    first, appends zero bits on the right up to a multiple of five, and writes each 5-bit group as
    one character of the alphabet. The encoder below is defined that way, over bits, and the main
    result is that it preserves order: for inputs of one length, the byte strings compare
    lexicographically exactly as their encodings do.
 */
module Base32Hex {
  import opened LexOrder

  type Byte = x: nat | x < 256

  /** The 32-character alphabet of section 7 of RFC 4648. */
  const Alphabet: string := "0123456789ABCDEFGHIJKLMNOPQRSTUV"

  predicate IsBits(s: seq<nat>)
  {
    forall i :: 0 <= i < |s| ==> s[i] < 2
  }

  function Pow2(n: nat): (r: nat)
    ensures r > 0
  {
    if n == 0 then 1 else 2 * Pow2(n - 1)
  }

  /** The number a bit string denotes, most significant bit first. */
  function BitsValue(bits: seq<nat>): nat
  {
    if bits == [] then 0 else 2 * BitsValue(bits[..|bits| - 1]) + bits[|bits| - 1]
  }

  /** The n low bits of v, most significant first. */
  function ToBits(v: nat, n: nat): (r: seq<nat>)
    ensures |r| == n && IsBits(r)
  {
    if n == 0 then [] else ToBits(v / 2, n - 1) + [v % 2]
  }

  /** The input as one bit string, each byte most significant bit first. */
  function BytesToBits(bytes: seq<Byte>): (r: seq<nat>)
    ensures |r| == 8 * |bytes| && IsBits(r)
  {
    if bytes == [] then [] else ToBits(bytes[0], 8) + BytesToBits(bytes[1..])
  }

  function Zeros(n: nat): (r: seq<nat>)
    ensures |r| == n && IsBits(r)
  {
    seq(n, _ => 0)
  }

  /** How many zero bits complete the last 5-bit group of n bits. */
  function PadCount(n: nat): (k: nat)
    ensures (n + k) % 5 == 0 && k < 5
  {
    (5 - n % 5) % 5
  }

  /** Zero bits added on the right to complete the last 5-bit group. */
  function PadBits(bits: seq<nat>): (r: seq<nat>)
    ensures |r| % 5 == 0 && 0 <= |r| - |bits| < 5
    ensures IsBits(bits) ==> IsBits(r)
  {
    bits + Zeros(PadCount(|bits|))
  }

  /** The value of each successive 5-bit group. */
  function Groups(bits: seq<nat>): (r: seq<nat>)
    requires |bits| % 5 == 0 && IsBits(bits)
    ensures |r| == |bits| / 5
    ensures forall i :: 0 <= i < |r| ==> r[i] < 32
  {
    if bits == [] then []
    else
      BitsValueBound(bits[..5]);
      [BitsValue(bits[..5])] + Groups(bits[5..])
  }

  /** The alphabet entry of a 5-bit value: '0'..'9', then 'A'..'V'. */
  function DigitChar(d: nat): char
    requires d < 32
  {
    if d < 10 then ('0' as int + d) as char else ('A' as int + (d - 10)) as char
  }

  function Chars(digits: seq<nat>): (s: string)
    requires forall i :: 0 <= i < |digits| ==> digits[i] < 32
    ensures |s| == |digits|
  {
    if digits == [] then "" else [DigitChar(digits[0])] + Chars(digits[1..])
  }

  /** The 5-bit group values of the encoding. */
  function EncodeDigits(bytes: seq<Byte>): (r: seq<nat>)
    ensures |r| == (8 * |bytes| + 4) / 5
    ensures forall i :: 0 <= i < |r| ==> r[i] < 32
  {
    Groups(PadBits(BytesToBits(bytes)))
  }

  /** Unpadded base32hex text of a byte string: ceil(8n/5) characters, all from the alphabet. */
  function Encode(bytes: seq<Byte>): (s: string)
    ensures |s| == (8 * |bytes| + 4) / 5
    ensures forall i :: 0 <= i < |s| ==> s[i] in Alphabet
  {
    var digits := EncodeDigits(bytes);
    CharsInAlphabet(digits);
    Chars(digits)
  }

  /** Character codes, for comparing strings as Rust compares `String`s. */
  function Codes(s: string): (r: seq<nat>)
    ensures |r| == |s|
  {
    if s == "" then [] else [s[0] as nat] + Codes(s[1..])
  }

  /** Strict lexicographic order of strings. */
  predicate StrLess(s: string, t: string)
  {
    LexLess(Codes(s), Codes(t))
  }

  // ---------------------------------------------------------------- the alphabet

  /** DigitChar is the table of section 7 of RFC 4648. */
  lemma AlphabetTable(d: nat)
    requires d < 32
    ensures DigitChar(d) == Alphabet[d]
  {
    if d < 16 {
      if d < 8 {
        if d < 4 {
          if d < 2 { assert d == 0 || d == 1; } else { assert d == 2 || d == 3; }
        } else {
          if d < 6 { assert d == 4 || d == 5; } else { assert d == 6 || d == 7; }
        }
      } else {
        if d < 12 {
          if d < 10 { assert d == 8 || d == 9; } else { assert d == 10 || d == 11; }
        } else {
          if d < 14 { assert d == 12 || d == 13; } else { assert d == 14 || d == 15; }
        }
      }
    } else {
      if d < 24 {
        if d < 20 {
          if d < 18 { assert d == 16 || d == 17; } else { assert d == 18 || d == 19; }
        } else {
          if d < 22 { assert d == 20 || d == 21; } else { assert d == 22 || d == 23; }
        }
      } else {
        if d < 28 {
          if d < 26 { assert d == 24 || d == 25; } else { assert d == 26 || d == 27; }
        } else {
          if d < 30 { assert d == 28 || d == 29; } else { assert d == 30 || d == 31; }
        }
      }
    }
  }

  lemma {:induction false} CharsInAlphabet(digits: seq<nat>)
    requires forall i :: 0 <= i < |digits| ==> digits[i] < 32
    ensures forall i :: 0 <= i < |digits| ==> Chars(digits)[i] in Alphabet
  {
    if digits != [] {
      CharsInAlphabet(digits[1..]);
      AlphabetTable(digits[0]);
      forall i | 0 <= i < |digits|
        ensures Chars(digits)[i] in Alphabet
      {
        if i > 0 {
          assert Chars(digits)[i] == Chars(digits[1..])[i - 1];
        }
      }
    }
  }

  /** The alphabet is in ascending character order, so larger values get larger characters. */
  lemma DigitCharAscending(d: nat, e: nat)
    requires d < 32 && e < 32
    ensures DigitChar(d) < DigitChar(e) <==> d < e
  {
  }

  // ---------------------------------------------------------------- bits and numbers

  lemma {:induction false} BitsValueBound(bits: seq<nat>)
    requires IsBits(bits)
    ensures BitsValue(bits) < Pow2(|bits|)
  {
    if bits != [] {
      BitsValueBound(bits[..|bits| - 1]);
    }
  }

  lemma {:induction false} ToBitsValue(v: nat, n: nat)
    requires v < Pow2(n)
    ensures BitsValue(ToBits(v, n)) == v
  {
    if n > 0 {
      ToBitsValue(v / 2, n - 1);
      assert ToBits(v, n)[..n - 1] == ToBits(v / 2, n - 1);
    }
  }

  /** For bit strings of one length, lexicographic order is numeric order. */
  lemma {:induction false} BitsOrder(a: seq<nat>, b: seq<nat>)
    requires IsBits(a) && IsBits(b) && |a| == |b|
    ensures LexLess(a, b) <==> BitsValue(a) < BitsValue(b)
    ensures a == b <==> BitsValue(a) == BitsValue(b)
  {
    if a != [] {
      var n := |a| - 1;
      var a', b' := a[..n], b[..n];
      var x, y := a[n], b[n];
      BitsOrder(a', b');
      assert a == a' + [x] && b == b' + [y];
      assert BitsValue(a) == 2 * BitsValue(a') + x;
      assert BitsValue(b) == 2 * BitsValue(b') + y;
      LexAppend(a', [x], b', [y]);
      LexSingleton(x, y);
      assert x < 2 && y < 2;
    }
  }

  /** Bytes compare as their 8-bit expansions do. */
  lemma ByteBitsOrder(x: Byte, y: Byte)
    ensures LexLess(ToBits(x, 8), ToBits(y, 8)) <==> x < y
    ensures ToBits(x, 8) == ToBits(y, 8) <==> x == y
  {
    assert Pow2(8) == 256;
    ToBitsValue(x, 8);
    ToBitsValue(y, 8);
    BitsOrder(ToBits(x, 8), ToBits(y, 8));
  }

  // ---------------------------------------------------------------- order preservation, layer by layer

  lemma {:induction false} BytesToBitsOrder(a: seq<Byte>, b: seq<Byte>)
    requires |a| == |b|
    ensures LexLess(a, b) <==> LexLess(BytesToBits(a), BytesToBits(b))
  {
    if a != [] {
      BytesToBitsOrder(a[1..], b[1..]);
      LexAppend(ToBits(a[0], 8), BytesToBits(a[1..]), ToBits(b[0], 8), BytesToBits(b[1..]));
      ByteBitsOrder(a[0], b[0]);
    }
  }

  lemma PadBitsOrder(p: seq<nat>, q: seq<nat>)
    requires |p| == |q|
    ensures LexLess(p, q) <==> LexLess(PadBits(p), PadBits(q))
  {
    var z := Zeros(PadCount(|p|));
    assert PadBits(p) == p + z && PadBits(q) == q + z;
    LexCommonSuffix(p, q, z);
  }

  lemma {:induction false} GroupsOrder(p: seq<nat>, q: seq<nat>)
    requires |p| == |q| && |p| % 5 == 0 && IsBits(p) && IsBits(q)
    ensures LexLess(p, q) <==> LexLess(Groups(p), Groups(q))
  {
    if p != [] {
      assert p == p[..5] + p[5..] && q == q[..5] + q[5..];
      GroupsOrder(p[5..], q[5..]);
      LexAppend(p[..5], p[5..], q[..5], q[5..]);
      BitsOrder(p[..5], q[..5]);
      var u, v := BitsValue(p[..5]), BitsValue(q[..5]);
      LexAppend([u], Groups(p[5..]), [v], Groups(q[5..]));
      LexSingleton(u, v);
    }
  }

  lemma {:induction false} CharsOrder(g: seq<nat>, h: seq<nat>)
    requires forall i :: 0 <= i < |g| ==> g[i] < 32
    requires forall i :: 0 <= i < |h| ==> h[i] < 32
    ensures LexLess(g, h) <==> StrLess(Chars(g), Chars(h))
  {
    if g != [] && h != [] {
      CharsOrder(g[1..], h[1..]);
      DigitCharAscending(g[0], h[0]);
      DigitCharAscending(h[0], g[0]);
      assert Chars(g)[1..] == Chars(g[1..]) && Chars(h)[1..] == Chars(h[1..]);
    }
  }

  /** The encoding is strictly order-preserving on inputs of one length (a UUID is 16 bytes). */
  lemma EncodeOrder(a: seq<Byte>, b: seq<Byte>)
    requires |a| == |b|
    ensures LexLess(a, b) <==> StrLess(Encode(a), Encode(b))
  {
    var p, q := BytesToBits(a), BytesToBits(b);
    var g, h := EncodeDigits(a), EncodeDigits(b);
    BytesToBitsOrder(a, b);
    PadBitsOrder(p, q);
    GroupsOrder(PadBits(p), PadBits(q));
    assert g == Groups(PadBits(p)) && h == Groups(PadBits(q));
    CharsOrder(g, h);
    assert Encode(a) == Chars(g) && Encode(b) == Chars(h);
  }

  /** Distinct inputs of one length have distinct encodings. */
  lemma EncodeInjective(a: seq<Byte>, b: seq<Byte>)
    requires |a| == |b| && Encode(a) == Encode(b)
    ensures a == b
  {
    LexTrichotomy(a, b);
    EncodeOrder(a, b);
    EncodeOrder(b, a);
    LexIrreflexive(Codes(Encode(a)));
  }
}
