/**
 A model of `Color.init(hex:)`: a colour string is trimmed of the characters
 that are not ASCII letters or digits at both ends, the leading run of hex
 digits is read as an unsigned integer, the trimmed length (3, 6, 8 or other)
 picks how four channel bytes are cut out of that integer, and every byte is
 divided by 255. Division is over `real`, so it is exact.
 */
module HexColor {

  /** The four channel values the length switch produces (UInt64 in the source). */
  datatype Bytes = Bytes(red: nat, green: nat, blue: nat, alpha: nat)

  /** A colour in the sRGB space with one real number per channel. */
  datatype Rgba = Rgba(red: real, green: real, blue: real, opacity: real)

  /** Letters and digits, restricted to ASCII. */
  predicate IsAlnum(c: char) {
    ('a' <= c <= 'z') || ('A' <= c <= 'Z') || ('0' <= c <= '9')
  }

  predicate IsHexDigit(c: char) {
    ('0' <= c <= '9') || ('a' <= c <= 'f') || ('A' <= c <= 'F')
  }

  predicate AllHex(s: string) {
    forall k | 0 <= k < |s| :: IsHexDigit(s[k])
  }

  predicate NoAlnum(s: string) {
    forall k | 0 <= k < |s| :: !IsAlnum(s[k])
  }

  // ---------------------------------------------------------------------------
  // Trimming

  /** How many characters the trim drops at the front. */
  function LeadingTrimmed(s: string): (n: nat)
    ensures n <= |s|
    ensures forall k | 0 <= k < n :: !IsAlnum(s[k])
    ensures n < |s| ==> IsAlnum(s[n])
  {
    if |s| == 0 || IsAlnum(s[0]) then 0 else 1 + LeadingTrimmed(s[1..])
  }

  /** How many characters the trim drops at the back. */
  function TrailingTrimmed(s: string): (n: nat)
    ensures n <= |s|
    ensures forall k | |s| - n <= k < |s| :: !IsAlnum(s[k])
    ensures n < |s| ==> IsAlnum(s[|s| - 1 - n])
  {
    if |s| == 0 || IsAlnum(s[|s| - 1]) then 0 else 1 + TrailingTrimmed(s[..|s| - 1])
  }

  /** `trimmingCharacters(in: CharacterSet.alphanumerics.inverted)`. */
  function Trim(s: string): (t: string)
    ensures |t| <= |s|
    ensures t == [] <==> NoAlnum(s)
    ensures t != [] ==> IsAlnum(t[0]) && IsAlnum(t[|t| - 1])
  {
    var i := LeadingTrimmed(s);
    if i == |s| then [] else s[i..|s| - TrailingTrimmed(s)]
  }

  /** The trim is determined by its outcome: whatever slice of `s` has only
      non-alphanumeric characters outside it and alphanumeric ones at its two
      ends is the trimmed string. Inner characters of any kind are kept. */
  lemma TrimCharacterised(s: string, i: nat, j: nat)
    requires i <= j <= |s|
    requires forall k | 0 <= k < i :: !IsAlnum(s[k])
    requires forall k | j <= k < |s| :: !IsAlnum(s[k])
    requires i < j ==> IsAlnum(s[i]) && IsAlnum(s[j - 1])
    ensures Trim(s) == s[i..j]
  {
    if i == j {
      assert NoAlnum(s) by {
        forall k | 0 <= k < |s| ensures !IsAlnum(s[k]) {
          if k >= i { assert k >= j; }
        }
      }
    } else {
      var n := LeadingTrimmed(s);
      var m := TrailingTrimmed(s);
    }
  }

  /** Punctuation around a string does not change what the trim keeps. */
  lemma TrimIgnoresSurrounding(p: string, s: string, q: string)
    requires NoAlnum(p) && NoAlnum(q)
    ensures Trim(p + s + q) == Trim(s)
  {
    if NoAlnum(s) {
      NoAlnumConcat(p, s, q);
    } else {
      var i := LeadingTrimmed(s);
      var j := |s| - TrailingTrimmed(s);
      SurroundedSlice(p, s, q, i, j);
    }
  }

  lemma NoAlnumConcat(p: string, s: string, q: string)
    requires NoAlnum(p) && NoAlnum(s) && NoAlnum(q)
    ensures NoAlnum(p + s + q)
  {
    assert p + s + q == (p + s) + q;
  }

  /** The slice `s[i..j]` seen inside `p + s + q` still meets the
      characterisation of the trim when `p` and `q` are punctuation. */
  lemma SurroundedSlice(p: string, s: string, q: string, i: nat, j: nat)
    requires NoAlnum(p) && NoAlnum(q)
    requires i <= j <= |s|
    requires forall k | 0 <= k < i :: !IsAlnum(s[k])
    requires forall k | j <= k < |s| :: !IsAlnum(s[k])
    requires i < j ==> IsAlnum(s[i]) && IsAlnum(s[j - 1])
    ensures Trim(p + s + q) == s[i..j]
  {
    var w := p + s + q;
    var ps := p + s;
    assert w == ps + q;
    forall k | 0 <= k < |p| + i
      ensures !IsAlnum(w[k])
    {
      assert w[k] == ps[k];
      if k < |p| { assert ps[k] == p[k]; } else { assert ps[k] == s[k - |p|]; }
    }
    forall k | |p| + j <= k < |w|
      ensures !IsAlnum(w[k])
    {
      if k < |ps| { assert w[k] == ps[k] == s[k - |p|]; } else { assert w[k] == q[k - |ps|]; }
    }
    assert i < j ==> w[|p| + i] == s[i] && w[|p| + j - 1] == s[j - 1];
    TrimCharacterised(w, |p| + i, |p| + j);
    assert w[|p| + i..|p| + j] == s[i..j];
  }

  /** A string of hex digits is already trimmed. */
  lemma TrimHexDigits(s: string)
    requires AllHex(s)
    ensures Trim(s) == s
  {
    if s != [] {
      assert IsHexDigit(s[0]) && IsHexDigit(s[|s| - 1]);
      TrimCharacterised(s, 0, |s|);
    }
  }

  // ---------------------------------------------------------------------------
  // Scanning a hexadecimal integer

  function HexDigitValue(c: char): (d: nat)
    requires IsHexDigit(c)
    ensures d < 16
    ensures d < 10 <==> '0' <= c <= '9'
  {
    if '0' <= c <= '9' then c as int - '0' as int
    else if 'a' <= c <= 'f' then c as int - 'a' as int + 10
    else c as int - 'A' as int + 10
  }

  function Pow16(n: nat): (p: nat)
    ensures p >= 1
  {
    if n == 0 then 1 else 16 * Pow16(n - 1)
  }

  lemma {:induction false} Pow16Monotone(m: nat, n: nat)
    requires m <= n
    ensures Pow16(m) <= Pow16(n)
  {
    if m < n { Pow16Monotone(m, n - 1); }
  }

  /** The value of a string of hex digits, most significant digit first. */
  function HexValue(s: string): (v: nat)
    requires AllHex(s)
    ensures v < Pow16(|s|)
  {
    if s == [] then 0 else HexValue(s[..|s| - 1]) * 16 + HexDigitValue(s[|s| - 1])
  }

  /** Appending one digit shifts the value left by one digit. */
  lemma HexValueSnoc(s: string, c: char)
    requires AllHex(s) && IsHexDigit(c)
    ensures AllHex(s + [c])
    ensures HexValue(s + [c]) == HexValue(s) * 16 + HexDigitValue(c)
  {
    assert (s + [c])[..|s|] == s;
  }

  /** Reading two digit strings one after the other shifts the first left. */
  lemma {:induction false} HexValueAppend(s: string, t: string)
    requires AllHex(s) && AllHex(t)
    ensures AllHex(s + t)
    ensures HexValue(s + t) == HexValue(s) * Pow16(|t|) + HexValue(t)
  {
    if t == [] {
      assert s + t == s;
    } else {
      var t', c := t[..|t| - 1], t[|t| - 1];
      assert t == t' + [c];
      assert s + t == (s + t') + [c];
      HexValueAppend(s, t');
      HexValueSnoc(s + t', c);
      HexValueSnoc(t', c);
      ShiftDistributes(HexValue(s), Pow16(|t'|), HexValue(t'), HexDigitValue(c));
    }
  }

  lemma ShiftDistributes(a: nat, p: nat, b: nat, d: nat)
    ensures (a * p + b) * 16 + d == a * (16 * p) + (b * 16 + d)
  {
  }

  /** Length of the leading run of hex digits. */
  function HexRunLength(s: string): (n: nat)
    ensures n <= |s|
    ensures forall k | 0 <= k < n :: IsHexDigit(s[k])
    ensures n < |s| ==> !IsHexDigit(s[n])
  {
    if |s| == 0 || !IsHexDigit(s[0]) then 0 else 1 + HexRunLength(s[1..])
  }

  /** `Scanner(string: s).scanHexInt64(&int)` with `int` starting at 0: the
      value of the leading hex digits, or 0 when there are none. */
  function ScanHex(s: string): (v: nat)
    ensures v < Pow16(|s|)
    ensures AllHex(s) ==> v == HexValue(s)
    ensures s != [] && !IsHexDigit(s[0]) ==> v == 0
  {
    var n := HexRunLength(s);
    Pow16Monotone(n, |s|);
    HexRunOfDigits(s);
    HexValue(s[..n])
  }

  lemma HexRunOfDigits(s: string)
    ensures AllHex(s) ==> HexRunLength(s) == |s| && s[..HexRunLength(s)] == s
  {
    var n := HexRunLength(s);
  }

  /** A run of hex digits followed by a non-digit (or by nothing) is read
      exactly that far. */
  lemma {:induction false} RunStopsAtNonDigit(u: string, w: string)
    requires AllHex(u) && (w == [] || !IsHexDigit(w[0]))
    ensures HexRunLength(u + w) == |u|
  {
    if u == [] {
      assert u + w == w;
    } else {
      assert (u + w)[0] == u[0];
      assert (u + w)[1..] == u[1..] + w;
      RunStopsAtNonDigit(u[1..], w);
    }
  }

  /** The scan reads the value of the leading digits and ignores the rest:
      `12Z` scans as 0x12 and `F-A` as 0xF. */
  lemma ScanLeadingRun(u: string, w: string)
    requires AllHex(u) && (w == [] || !IsHexDigit(w[0]))
    ensures ScanHex(u + w) == HexValue(u)
  {
    RunStopsAtNonDigit(u, w);
    assert (u + w)[..|u|] == u;
  }

  // ---------------------------------------------------------------------------
  // The length switch and normalisation

  predicate IsByte(n: nat) { n <= 255 }

  predicate AllBytes(b: Bytes) {
    IsByte(b.red) && IsByte(b.green) && IsByte(b.blue) && IsByte(b.alpha)
  }

  /** The `switch hex.count` over the trimmed string. `>>`, `& 0xF` and `& 0xFF`
      on a non-negative integer are division by a power of two and remainder. */
  function SwitchOnLength(t: string): (b: Bytes)
    ensures AllBytes(b)
    ensures |t| == 3 || |t| == 6 ==> b.alpha == 255
    ensures |t| != 3 && |t| != 6 && |t| != 8 ==> b == Bytes(1, 1, 1, 1)
  {
    var value := ScanHex(t);  // `int` in the source
    if |t| == 3 then
      assert Pow16(3) == 0x1000;
      Bytes((value / 0x100) * 17, (value / 0x10 % 0x10) * 17, (value % 0x10) * 17, 255)
    else if |t| == 6 then
      assert Pow16(6) == 0x100_0000;
      Bytes(value / 0x1_0000, value / 0x100 % 0x100, value % 0x100, 255)
    else if |t| == 8 then
      assert Pow16(8) == 0x1_0000_0000;
      Bytes(value / 0x1_0000 % 0x100, value / 0x100 % 0x100, value % 0x100, value / 0x100_0000)
    else
      Bytes(1, 1, 1, 1)
  }

  /** The channel bytes `Color(hex:)` computes before dividing by 255. */
  function ParseBytes(hex: string): (b: Bytes)
    ensures AllBytes(b)
  {
    SwitchOnLength(Trim(hex))
  }

  /** `Double(byte) / 255`, exactly. */
  function Normalise(n: nat): (x: real)
    ensures IsByte(n) ==> 0.0 <= x <= 1.0
    ensures x * 255.0 == n as real
  {
    n as real / 255.0
  }

  /** `Color(hex:)`: every channel lies in [0, 1] and is its byte over 255. */
  function ColorFromHex(hex: string): (c: Rgba)
    ensures 0.0 <= c.red <= 1.0 && 0.0 <= c.green <= 1.0
    ensures 0.0 <= c.blue <= 1.0 && 0.0 <= c.opacity <= 1.0
    ensures var b := ParseBytes(hex);
      c.red * 255.0 == b.red as real && c.green * 255.0 == b.green as real &&
      c.blue * 255.0 == b.blue as real && c.opacity * 255.0 == b.alpha as real
  {
    var b := ParseBytes(hex);
    Rgba(Normalise(b.red), Normalise(b.green), Normalise(b.blue), Normalise(b.alpha))
  }

  // ---------------------------------------------------------------------------
  // The three formats

  /** The byte spelled by the two hex digits starting at `i`. */
  function ByteAt(s: string, i: nat): (n: nat)
    requires i + 1 < |s| && IsHexDigit(s[i]) && IsHexDigit(s[i + 1])
    ensures IsByte(n)
  {
    16 * HexDigitValue(s[i]) + HexDigitValue(s[i + 1])
  }

  lemma PairValue(s: string, i: nat)
    requires i + 1 < |s| && AllHex(s)
    ensures AllHex(s[i..i + 2]) && HexValue(s[i..i + 2]) == ByteAt(s, i)
  {
    assert s[i..i + 2] == [s[i]] + [s[i + 1]];
    HexValueSingle(s[i]);
    HexValueSnoc([s[i]], s[i + 1]);
  }

  lemma HexValueSingle(c: char)
    requires IsHexDigit(c)
    ensures AllHex([c]) && HexValue([c]) == HexDigitValue(c)
  {
    assert [c][..0] == [];
  }

  // Euclidean division by a constant, one divisor at a time.

  lemma DivMod16(q: nat, r: nat)
    requires r < 0x10
    ensures (q * 0x10 + r) / 0x10 == q && (q * 0x10 + r) % 0x10 == r
  {
  }

  lemma DivMod256(q: nat, r: nat)
    requires r < 0x100
    ensures (q * 0x100 + r) / 0x100 == q && (q * 0x100 + r) % 0x100 == r
  {
  }

  lemma Div65536(q: nat, r: nat)
    requires r < 0x1_0000
    ensures (q * 0x1_0000 + r) / 0x1_0000 == q
  {
  }

  lemma Div16777216(q: nat, r: nat)
    requires r < 0x100_0000
    ensures (q * 0x100_0000 + r) / 0x100_0000 == q
  {
  }

  /** The shifts and masks of the three-digit branch recover the digits. */
  lemma ExtractThree(v: nat, r: nat, g: nat, b: nat)
    requires r < 16 && g < 16 && b < 16 && v == r * 0x100 + g * 0x10 + b
    ensures v / 0x100 == r && v / 0x10 % 0x10 == g && v % 0x10 == b
  {
    DivMod16(r * 0x10 + g, b);
    DivMod16(r, g);
    DivMod256(r, g * 0x10 + b);
  }

  /** The shifts and masks of the six-digit branch recover the pairs. */
  lemma ExtractSix(v: nat, r: nat, g: nat, b: nat)
    requires IsByte(r) && IsByte(g) && IsByte(b) && v == r * 0x1_0000 + g * 0x100 + b
    ensures v / 0x1_0000 == r && v / 0x100 % 0x100 == g && v % 0x100 == b
  {
    DivMod256(r * 0x100 + g, b);
    DivMod256(r, g);
    Div65536(r, g * 0x100 + b);
  }

  /** The shifts and masks of the eight-digit branch recover the pairs. */
  lemma ExtractEight(v: nat, a: nat, r: nat, g: nat, b: nat)
    requires IsByte(a) && IsByte(r) && IsByte(g) && IsByte(b)
    requires v == a * 0x100_0000 + r * 0x1_0000 + g * 0x100 + b
    ensures v / 0x1_0000 % 0x100 == r && v / 0x100 % 0x100 == g
    ensures v % 0x100 == b && v / 0x100_0000 == a
  {
    DivMod256(a * 0x1_0000 + r * 0x100 + g, b);
    DivMod256(a * 0x100 + r, g);
    Div65536(a * 0x100 + r, g * 0x100 + b);
    DivMod256(a, r);
    Div16777216(a, r * 0x1_0000 + g * 0x100 + b);
  }

  // What the switch computes in each branch, for a string of hex digits.

  lemma SwitchThree(t: string)
    requires |t| == 3 && AllHex(t)
    ensures var v := HexValue(t);
      SwitchOnLength(t) == Bytes((v / 0x100) * 17, (v / 0x10 % 0x10) * 17, (v % 0x10) * 17, 255)
  {
  }

  lemma SwitchSix(t: string)
    requires |t| == 6 && AllHex(t)
    ensures var v := HexValue(t);
      SwitchOnLength(t) == Bytes(v / 0x1_0000, v / 0x100 % 0x100, v % 0x100, 255)
  {
  }

  lemma SwitchEight(t: string)
    requires |t| == 8 && AllHex(t)
    ensures var v := HexValue(t);
      SwitchOnLength(t) ==
        Bytes(v / 0x1_0000 % 0x100, v / 0x100 % 0x100, v % 0x100, v / 0x100_0000)
  {
  }

  /** `#RGB`: each digit is multiplied by 17 and alpha is opaque. */
  lemma ThreeDigits(s: string)
    requires |s| == 3 && AllHex(s)
    ensures ParseBytes(s) ==
      Bytes(17 * HexDigitValue(s[0]), 17 * HexDigitValue(s[1]), 17 * HexDigitValue(s[2]), 255)
  {
    TrimHexDigits(s);
    SwitchThree(s);
    var r, g, b := HexDigitValue(s[0]), HexDigitValue(s[1]), HexDigitValue(s[2]);
    assert s == ([s[0]] + [s[1]]) + [s[2]];
    HexValueSingle(s[0]);
    HexValueSnoc([s[0]], s[1]);
    HexValueSnoc([s[0]] + [s[1]], s[2]);
    ExtractThree(HexValue(s), r, g, b);
  }

  /** `#RRGGBB`: red, green and blue are the three digit pairs in order. */
  lemma SixDigits(s: string)
    requires |s| == 6 && AllHex(s)
    ensures ParseBytes(s) == Bytes(ByteAt(s, 0), ByteAt(s, 2), ByteAt(s, 4), 255)
  {
    TrimHexDigits(s);
    SwitchSix(s);
    SixDigitValue(s);
    ExtractSix(HexValue(s), ByteAt(s, 0), ByteAt(s, 2), ByteAt(s, 4));
  }

  /** `#AARRGGBB`: the first pair is alpha, then red, green and blue. */
  lemma EightDigits(s: string)
    requires |s| == 8 && AllHex(s)
    ensures ParseBytes(s) == Bytes(ByteAt(s, 2), ByteAt(s, 4), ByteAt(s, 6), ByteAt(s, 0))
  {
    TrimHexDigits(s);
    SwitchEight(s);
    EightDigitValue(s);
    ExtractEight(HexValue(s), ByteAt(s, 0), ByteAt(s, 2), ByteAt(s, 4), ByteAt(s, 6));
  }

  /** Each further digit pair shifts the prefix read so far left by one byte. */
  lemma PrefixPair(s: string, k: nat)
    requires k + 2 <= |s| && AllHex(s)
    ensures AllHex(s[..k]) && AllHex(s[..k + 2])
    ensures HexValue(s[..k + 2]) == HexValue(s[..k]) * 0x100 + ByteAt(s, k)
  {
    JoinSlices(s, 0, k, k + 2);
    assert s[..k] == s[0..k] && s[..k + 2] == s[0..k + 2];
    PairValue(s, k);
    AppendPair(s[..k], s[k..k + 2]);
  }

  lemma SixDigitValue(s: string)
    requires |s| == 6 && AllHex(s)
    ensures HexValue(s) == ByteAt(s, 0) * 0x1_0000 + ByteAt(s, 2) * 0x100 + ByteAt(s, 4)
  {
    assert s[..0] == [] && s[..6] == s;
    PrefixPair(s, 0);
    PrefixPair(s, 2);
    PrefixPair(s, 4);
  }

  lemma EightDigitValue(s: string)
    requires |s| == 8 && AllHex(s)
    ensures HexValue(s) ==
      ByteAt(s, 0) * 0x100_0000 + ByteAt(s, 2) * 0x1_0000 + ByteAt(s, 4) * 0x100 + ByteAt(s, 6)
  {
    assert s[..0] == [] && s[..8] == s;
    PrefixPair(s, 0);
    PrefixPair(s, 2);
    PrefixPair(s, 4);
    PrefixPair(s, 6);
  }

  lemma JoinSlices(s: string, i: nat, j: nat, k: nat)
    requires i <= j <= k <= |s|
    ensures s[i..j] + s[j..k] == s[i..k]
  {
  }

  /** Appending a digit pair shifts the value left by one byte. */
  lemma AppendPair(u: string, t: string)
    requires AllHex(u) && AllHex(t) && |t| == 2
    ensures AllHex(u + t) && HexValue(u + t) == HexValue(u) * 0x100 + HexValue(t)
  {
    HexValueAppend(u, t);
    assert Pow16(2) == 0x100;
  }

  /** `#RGB` is shorthand for `#RRGGBB` with every digit doubled. */
  lemma ShortFormDoubles(x: char, y: char, z: char)
    requires IsHexDigit(x) && IsHexDigit(y) && IsHexDigit(z)
    ensures ParseBytes([x, y, z]) == ParseBytes([x, x, y, y, z, z])
  {
    var long := [x, x, y, y, z, z];
    assert ByteAt(long, 0) == 17 * HexDigitValue(x);
    assert ByteAt(long, 2) == 17 * HexDigitValue(y);
    assert ByteAt(long, 4) == 17 * HexDigitValue(z);
    ThreeDigits([x, y, z]);
    SixDigits(long);
  }

  /** Leading and trailing punctuation, such as a `#`, is ignored. */
  lemma SurroundingIgnored(p: string, s: string, q: string)
    requires NoAlnum(p) && NoAlnum(q)
    ensures ParseBytes(p + s + q) == ParseBytes(s)
    ensures ColorFromHex(p + s + q) == ColorFromHex(s)
  {
    TrimIgnoresSurrounding(p, s, q);
  }

  /** The branch is picked by length alone: three characters that are not hex
      digits scan as 0 and still give opaque black. */
  lemma NonHexScansAsZero(s: string)
    requires |Trim(s)| == 3 || |Trim(s)| == 6 || |Trim(s)| == 8
    requires !IsHexDigit(Trim(s)[0])
    ensures ParseBytes(s) == Bytes(0, 0, 0, if |Trim(s)| == 8 then 0 else 255)
  {
  }

  // ---------------------------------------------------------------------------
  // Worked examples from the documentation and the view

  /** A leading `#` (or any other non-alphanumeric first character) is ignored. */
  lemma LeadingHashIgnored(s: string)
    requires s != [] && !IsAlnum(s[0])
    ensures ParseBytes(s) == ParseBytes(s[1..])
    ensures ColorFromHex(s) == ColorFromHex(s[1..])
  {
    assert s == s[..1] + s[1..] + [];
    SurroundingIgnored(s[..1], s[1..], []);
  }

  // Each example below is stated for the string its `requires` names.

  lemma ShortDigitsExample(s: string)
    requires s == "F0A"
    ensures ParseBytes(s) == Bytes(0xFF, 0x00, 0xAA, 0xFF)
  {
    ThreeDigits(s);
  }

  lemma LongDigitsExample(s: string)
    requires s == "FF00AA"
    ensures ParseBytes(s) == Bytes(0xFF, 0x00, 0xAA, 0xFF)
  {
    SixDigits(s);
  }

  lemma ArgbDigitsExample(s: string)
    requires s == "80FF00AA"
    ensures ParseBytes(s) == Bytes(0xFF, 0x00, 0xAA, 0x80)
    ensures ColorFromHex(s) == Rgba(1.0, 0.0, 170.0 / 255.0, 128.0 / 255.0)
  {
    assert ByteAt(s, 0) == 0x80 && ByteAt(s, 2) == 0xFF;
    assert ByteAt(s, 4) == 0x00 && ByteAt(s, 6) == 0xAA;
    EightDigits(s);
  }

  /** `#F0A` is `#FF00AA`. */
  lemma ExampleShortForm(short: string, long: string)
    requires short == "#F0A" && long == "#FF00AA"
    ensures ParseBytes(short) == ParseBytes(long) == Bytes(0xFF, 0x00, 0xAA, 0xFF)
  {
    LeadingHashIgnored(short);
    LeadingHashIgnored(long);
    ShortDigitsExample(short[1..]);
    LongDigitsExample(long[1..]);
  }

  /** `#80FF00AA` is alpha 0x80, red 0xFF, green 0x00, blue 0xAA. */
  lemma ExampleArgb(argb: string)
    requires argb == "#80FF00AA"
    ensures ParseBytes(argb) == Bytes(0xFF, 0x00, 0xAA, 0x80)
    ensures ColorFromHex(argb) == Rgba(1.0, 0.0, 170.0 / 255.0, 128.0 / 255.0)
  {
    LeadingHashIgnored(argb);
    ArgbDigitsExample(argb[1..]);
  }

  lemma ExampleWhite()
    ensures ColorFromHex("FFF") == ColorFromHex("FFFFFF") == Rgba(1.0, 1.0, 1.0, 1.0)
  {
    ThreeDigits("FFF");
    SixDigits("FFFFFF");
  }

  lemma ExampleNotHex()
    ensures ParseBytes("ZZZ") == Bytes(0, 0, 0, 255)
  {
    TrimCharacterised("ZZZ", 0, 3);
  }

  /** Only the ends are trimmed: `#F-A` keeps its inner `-`, has length 3, and
      scans only as far as the `-`, so the value 0xF lands in blue. */
  lemma ExampleInnerCharacterKept()
    ensures Trim("#F-A") == "F-A"
    ensures ParseBytes("#F-A") == Bytes(0, 0, 0xFF, 255)
  {
    TrimCharacterised("#F-A", 1, 4);
    assert "F-A"[..1] == "F";
    assert HexRunLength("F-A") == 1;
  }

  // ---------------------------------------------------------------------------
  // The fallback

  /** Any other trimmed length gives the bytes (1, 1, 1, 1), so each channel is
      1/255: a nearly transparent near-black, not the white that the doc
      comment of `Color(hex:)` promises. */
  lemma FallbackIsNotWhite(hex: string)
    requires |Trim(hex)| != 3 && |Trim(hex)| != 6 && |Trim(hex)| != 8
    ensures ColorFromHex(hex) == Rgba(1.0 / 255.0, 1.0 / 255.0, 1.0 / 255.0, 1.0 / 255.0)
    ensures ColorFromHex(hex) != Rgba(1.0, 1.0, 1.0, 1.0)
  {
  }

  lemma ExampleFallbacks()
    ensures ColorFromHex("") == ColorFromHex("ZZ") == ColorFromHex("12345")
    ensures ColorFromHex("12345").opacity == 1.0 / 255.0
  {
    TrimCharacterised("ZZ", 0, 2);
    TrimCharacterised("12345", 0, 5);
    FallbackIsNotWhite("");
    FallbackIsNotWhite("ZZ");
    FallbackIsNotWhite("12345");
  }

  /** A trimmed string that one of the three formats accepts as written. */
  predicate Supported(t: string) {
    (|t| == 3 || |t| == 6 || |t| == 8) && AllHex(t)
  }

  /** The behaviour the doc comment describes: an invalid string (one whose
      trimmed form is not made of hex digits) or an unsupported length gives
      opaque white; a valid string in one of the three formats is unchanged. */
  function ColorFromHexWhiteDefault(hex: string): (c: Rgba)
    ensures !Supported(Trim(hex)) ==> c == Rgba(1.0, 1.0, 1.0, 1.0)
    ensures Supported(Trim(hex)) ==> c == ColorFromHex(hex)
    ensures 0.0 <= c.red <= 1.0 && 0.0 <= c.green <= 1.0
    ensures 0.0 <= c.blue <= 1.0 && 0.0 <= c.opacity <= 1.0
  {
    if Supported(Trim(hex)) then ColorFromHex(hex)
    else
      var white := Bytes(255, 255, 255, 255);
      Rgba(Normalise(white.red), Normalise(white.green), Normalise(white.blue), Normalise(white.alpha))
  }

  /** With the documented default, `ZZZ` is white, where the code as written
      gives opaque black. */
  lemma WhiteDefaultNotHex()
    ensures ColorFromHexWhiteDefault("ZZZ") == Rgba(1.0, 1.0, 1.0, 1.0)
  {
    TrimCharacterised("ZZZ", 0, 3);
  }

  /** With the documented default, `#F-A` is white, where the code as written
      gives opaque blue. */
  lemma WhiteDefaultInnerCharacter()
    ensures ColorFromHexWhiteDefault("#F-A") == Rgba(1.0, 1.0, 1.0, 1.0)
  {
    TrimCharacterised("#F-A", 1, 4);
    assert !IsHexDigit("F-A"[1]);
  }
}
