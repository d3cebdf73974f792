/** Base64 as the browser's `atob` decodes it: the "forgiving-base64 decode"
    of the WHATWG Infra standard, over the alphabet of section 4 of RFC 4648,
    together with the padded encoding of that section, which is its inverse. */
module Base64 {
  import opened JsStrings

  newtype byte = x: int | 0 <= x < 256

  /** The 64 characters of the alphabet in RFC 4648, section 4 (Table 1). */
  predicate IsBase64Char(c: char)
  {
    'A' <= c <= 'Z' || 'a' <= c <= 'z' || '0' <= c <= '9' || c == '+' || c == '/'
  }

  /** ASCII whitespace as the Infra standard defines it: TAB, LF, FF, CR, SPACE. */
  predicate IsAsciiWhitespace(c: char)
  {
    c == '\t' || c == '\n' || c as int == 0x0C || c == '\r' || c == ' '
  }

  predicate AllBase64(s: string)
  {
    forall i :: 0 <= i < |s| ==> IsBase64Char(s[i])
  }

  /** The 6-bit value a character of the alphabet stands for. */
  function Sextet(c: char): (v: nat)
    requires IsBase64Char(c)
    ensures v < 64
  {
    if 'A' <= c <= 'Z' then c as int - 'A' as int
    else if 'a' <= c <= 'z' then c as int - 'a' as int + 26
    else if '0' <= c <= '9' then c as int - '0' as int + 52
    else if c == '+' then 62
    else 63
  }

  /** The character of the alphabet that stands for a 6-bit value. */
  function Digit(v: nat): (c: char)
    requires v < 64
    ensures IsBase64Char(c) && Sextet(c) == v
  {
    if v < 26 then (v + 'A' as int) as char
    else if v < 52 then (v - 26 + 'a' as int) as char
    else if v < 62 then (v - 52 + '0' as int) as char
    else if v == 62 then '+'
    else '/'
  }

  // ---------------------------------------------------------------- encoding

  /** Three bytes as four characters. */
  function Quad(x: byte, y: byte, z: byte): string
  {
    [Digit(x as int / 4), Digit(x as int % 4 * 16 + y as int / 16),
     Digit(y as int % 16 * 4 + z as int / 64), Digit(z as int % 64)]
  }

  /** Two trailing bytes as three characters (the last one padded with zero bits). */
  function Triple(x: byte, y: byte): string
  {
    [Digit(x as int / 4), Digit(x as int % 4 * 16 + y as int / 16), Digit(y as int % 16 * 4)]
  }

  /** One trailing byte as two characters (the last one padded with zero bits). */
  function Pair(x: byte): string
  {
    [Digit(x as int / 4), Digit(x as int % 4 * 16)]
  }

  /** Lengths that differ by one group leave the same remainder. */
  lemma Shift3(n: nat)
    ensures (n + 3) % 3 == n % 3
  {
  }

  lemma Shift4(n: nat)
    ensures (n + 4) % 4 == n % 4
  {
  }

  /** The encoding without its trailing `=` characters. */
  function EncodeDigits(b: seq<byte>): (r: string)
    ensures AllBase64(r)
    ensures |r| % 4 == (if |b| % 3 == 0 then 0 else |b| % 3 + 1)
    ensures |b| > 0 ==> |r| > 0
    decreases |b|
  {
    if |b| >= 3 then
      var rest := EncodeDigits(b[3..]);
      Shift3(|b[3..]|);
      Shift4(|rest|);
      Quad(b[0], b[1], b[2]) + rest
    else if |b| == 2 then Triple(b[0], b[1])
    else if |b| == 1 then Pair(b[0])
    else ""
  }

  /** The padded encoding of RFC 4648, section 4. */
  function Encode(b: seq<byte>): (r: string)
    ensures |r| % 4 == 0
  {
    EncodeDigits(b) + (if |b| % 3 == 1 then "==" else if |b| % 3 == 2 then "=" else "")
  }

  // ---------------------------------------------------------------- decoding

  /** Removes every ASCII whitespace character, keeping the others in order. */
  function StripWhitespace(s: string): (r: string)
    ensures forall i :: 0 <= i < |r| ==> !IsAsciiWhitespace(r[i])
    ensures |r| <= |s|
  {
    if s == [] then ""
    else if IsAsciiWhitespace(s[0]) then StripWhitespace(s[1..])
    else [s[0]] + StripWhitespace(s[1..])
  }

  /** When the length is a multiple of four, one or two trailing `=` go. */
  function DropPadding(s: string): (r: string)
    ensures |s| % 4 != 0 ==> r == s
    ensures r <= s && |s| - 2 <= |r|
  {
    if |s| % 4 != 0 then s
    else if |s| >= 2 && s[|s| - 2..] == "==" then s[..|s| - 2]
    else if |s| >= 1 && s[|s| - 1] == '=' then s[..|s| - 1]
    else s
  }

  /** The first byte a group's digits carry: six bits of `a`, two of `b`. */
  function Byte0(a: nat, b: nat): byte
    requires a < 64 && b < 64
  {
    (a * 4 + b / 16) as byte
  }

  /** The second byte: the last four bits of `b`, the first four of `c`. */
  function Byte1(b: nat, c: nat): byte
    requires b < 64 && c < 64
  {
    (b % 16 * 16 + c / 4) as byte
  }

  /** The third byte: the last two bits of `c`, all six of `d`. */
  function Byte2(c: nat, d: nat): byte
    requires c < 64 && d < 64
  {
    (c % 4 * 64 + d) as byte
  }

  /** Turns the digits, four at a time, back into bytes; a final group of
      three digits gives two bytes and one of two digits gives one byte.
      The bits below the last full byte are dropped without being checked. */
  function DecodeDigits(t: string): (r: seq<byte>)
    requires AllBase64(t) && |t| % 4 != 1
    decreases |t|
  {
    if |t| >= 4 then
      var a, b, c, d := Sextet(t[0]), Sextet(t[1]), Sextet(t[2]), Sextet(t[3]);
      assert |t[4..]| % 4 == |t| % 4;
      [Byte0(a, b), Byte1(b, c), Byte2(c, d)] + DecodeDigits(t[4..])
    else if |t| == 3 then
      var a, b, c := Sextet(t[0]), Sextet(t[1]), Sextet(t[2]);
      [Byte0(a, b), Byte1(b, c)]
    else if |t| == 2 then
      [Byte0(Sextet(t[0]), Sextet(t[1]))]
    else []
  }

  /** The forgiving-base64 decode of the Infra standard: strip whitespace,
      drop padding, refuse a length of the form 4k+1 and any character not in
      the alphabet, and otherwise decode. `None` is the failure that makes
      `atob` throw an "InvalidCharacterError" exception. */
  function ForgivingDecode(s: string): (r: Option<seq<byte>>)
  {
    var t := DropPadding(StripWhitespace(s));
    if |t| % 4 == 1 then None
    else if !AllBase64(t) then None
    else Some(DecodeDigits(t))
  }

  /** The code unit for each byte, giving the "binary string" `atob` returns. */
  function BinaryString(b: seq<byte>): (r: string)
    ensures |r| == |b|
    ensures forall i :: 0 <= i < |b| ==> r[i] as int == b[i] as int
  {
    seq(|b|, i requires 0 <= i < |b| => (b[i] as int) as char)
  }

  /** `atob(s)`: the decoded bytes as a string of code units, or `None` where it throws. */
  function Atob(s: string): (r: Option<string>)
    ensures r.Some? <==> ForgivingDecode(s).Some?
    ensures r.Some? ==> forall i :: 0 <= i < |r.value| ==> r.value[i] as int < 256
  {
    match ForgivingDecode(s)
    case None => None
    case Some(b) => Some(BinaryString(b))
  }

  // ---------------------------------------------------------------- failures

  /** Every character of `s` that is not whitespace survives `StripWhitespace`. */
  lemma {:induction false} StripKeeps(s: string, i: nat)
    requires i < |s| && !IsAsciiWhitespace(s[i])
    ensures s[i] in StripWhitespace(s)
    decreases |s|
  {
    if i == 0 {
      assert StripWhitespace(s)[0] == s[0];
    } else {
      StripKeeps(s[1..], i - 1);
      assert s[1..][i - 1] == s[i];
      var w := StripWhitespace(s[1..]);
      if !IsAsciiWhitespace(s[0]) {
        var j :| 0 <= j < |w| && w[j] == s[i];
        assert StripWhitespace(s)[j + 1] == w[j];
      }
    }
  }

  /** Only trailing `=` characters are dropped, so any other character stays. */
  lemma DropKeeps(w: string, c: char)
    requires c in w && c != '='
    ensures c in DropPadding(w)
  {
    var j :| 0 <= j < |w| && w[j] == c;
    var t := DropPadding(w);
    assert j < |t|;
    assert t[j] == c;
  }

  /** A character that is neither whitespace, nor `=`, nor in the alphabet
      makes the decode fail, and so `atob` throw, wherever it occurs. */
  lemma ForeignCharFails(s: string, i: nat)
    requires i < |s| && !IsAsciiWhitespace(s[i]) && s[i] != '=' && !IsBase64Char(s[i])
    ensures ForgivingDecode(s).None?
    ensures Atob(s).None?
  {
    var w := StripWhitespace(s);
    StripKeeps(s, i);
    DropKeeps(w, s[i]);
    var t := DropPadding(w);
    var j :| 0 <= j < |t| && t[j] == s[i];
    assert !AllBase64(t);
  }

  /** An `=` that is not one of the one or two trailing padding characters
      of a length divisible by four stays in the text and is refused. */
  lemma MisplacedPaddingFails(s: string, i: nat)
    requires var w := StripWhitespace(s);
      i < |w| && w[i] == '=' &&
      (|w| % 4 != 0 || i < |w| - 2 || (i == |w| - 2 && w[|w| - 1] != '='))
    ensures ForgivingDecode(s).None?
    ensures Atob(s).None?
  {
    var w := StripWhitespace(s);
    var t := DropPadding(w);
    assert i < |t| && t[i] == w[i];
    assert !IsBase64Char(t[i]);
  }

  /** Once whitespace is gone, a length of the form 4k+1 is refused outright. */
  lemma LengthFails(s: string)
    requires |StripWhitespace(s)| % 4 == 1
    ensures ForgivingDecode(s).None?
    ensures Atob(s).None?
  {
  }

  // ---------------------------------------------------------------- round trip

  /** `hi * 16 + lo` keeps `hi` above and `lo` below bit 4. */
  lemma Mix16(hi: nat, lo: nat)
    requires lo < 16
    ensures (hi * 16 + lo) / 16 == hi && (hi * 16 + lo) % 16 == lo
  {
  }

  /** `hi * 4 + lo` keeps `hi` above and `lo` below bit 2. */
  lemma Mix4(hi: nat, lo: nat)
    requires lo < 4
    ensures (hi * 4 + lo) / 4 == hi && (hi * 4 + lo) % 4 == lo
  {
  }

  /** The first digit and the top of the second give back the first byte. */
  lemma FirstByteBack(x: nat, y: nat)
    requires x < 256 && y < 256
    ensures x / 4 < 64 && x % 4 * 16 + y / 16 < 64
    ensures Byte0(x / 4, x % 4 * 16 + y / 16) as int == x
  {
    Mix16(x % 4, y / 16);
  }

  /** The bottom of the second digit and the top of the third give back the second byte. */
  lemma SecondByteBack(x: nat, y: nat, z: nat)
    requires x < 256 && y < 256 && z < 256
    ensures x % 4 * 16 + y / 16 < 64 && y % 16 * 4 + z / 64 < 64
    ensures Byte1(x % 4 * 16 + y / 16, y % 16 * 4 + z / 64) as int == y
  {
    Mix16(x % 4, y / 16);
    Mix4(y % 16, z / 64);
  }

  /** In a trailing pair the third digit carries the bottom of the second
      byte padded with zero bits, and gives that byte back. */
  lemma LastSecondByteBack(x: nat, y: nat)
    requires x < 256 && y < 256
    ensures x % 4 * 16 + y / 16 < 64 && y % 16 * 4 < 64
    ensures Byte1(x % 4 * 16 + y / 16, y % 16 * 4) as int == y
  {
    Mix16(x % 4, y / 16);
    Mix4(y % 16, 0);
  }

  /** The bottom of the third digit and the fourth give back the third byte. */
  lemma ThirdByteBack(y: nat, z: nat)
    requires y < 256 && z < 256
    ensures y % 16 * 4 + z / 64 < 64 && z % 64 < 64
    ensures Byte2(y % 16 * 4 + z / 64, z % 64) as int == z
  {
    Mix4(y % 16, z / 64);
  }

  /** Decoding the digits of one full group gives back its three bytes. */
  lemma QuadRoundTrip(x: byte, y: byte, z: byte)
    ensures AllBase64(Quad(x, y, z))
    ensures DecodeDigits(Quad(x, y, z)) == [x, y, z]
  {
    var xi, yi, zi := x as int, y as int, z as int;
    FirstByteBack(xi, yi);
    SecondByteBack(xi, yi, zi);
    ThirdByteBack(yi, zi);
    var v0, v1, v2, v3 := xi / 4, xi % 4 * 16 + yi / 16, yi % 16 * 4 + zi / 64, zi % 64;
    var q := Quad(x, y, z);
    assert q == [Digit(v0), Digit(v1), Digit(v2), Digit(v3)];
    assert q[4..] == [];
    assert DecodeDigits(q) == [Byte0(v0, v1), Byte1(v1, v2), Byte2(v2, v3)];
  }

  /** Decoding the digits of a trailing pair of bytes gives them back. */
  lemma TripleRoundTrip(x: byte, y: byte)
    ensures AllBase64(Triple(x, y))
    ensures DecodeDigits(Triple(x, y)) == [x, y]
  {
    var xi, yi := x as int, y as int;
    FirstByteBack(xi, yi);
    LastSecondByteBack(xi, yi);
    var v0, v1, v2 := xi / 4, xi % 4 * 16 + yi / 16, yi % 16 * 4;
    var q := Triple(x, y);
    assert q == [Digit(v0), Digit(v1), Digit(v2)];
    assert Sextet(q[0]) == v0 && Sextet(q[1]) == v1 && Sextet(q[2]) == v2;
    assert DecodeDigits(q) == [Byte0(v0, v1), Byte1(v1, v2)];
  }

  /** Decoding the digits of a trailing single byte gives it back. */
  lemma PairRoundTrip(x: byte)
    ensures AllBase64(Pair(x))
    ensures DecodeDigits(Pair(x)) == [x]
  {
    var xi := x as int;
    FirstByteBack(xi, 0);
    var v0, v1 := xi / 4, xi % 4 * 16;
    var q := Pair(x);
    assert q == [Digit(v0), Digit(v1)];
    assert DecodeDigits(q) == [Byte0(v0, v1)];
  }

  /** A full group decodes on its own, independently of what follows it. */
  lemma DecodeGroup(q: string, rest: string)
    requires |q| == 4 && AllBase64(q) && AllBase64(rest) && |rest| % 4 != 1
    ensures AllBase64(q + rest) && |q + rest| % 4 != 1
    ensures DecodeDigits(q + rest) == DecodeDigits(q) + DecodeDigits(rest)
  {
    var t := q + rest;
    assert t[..4] == q && t[4..] == rest;
    assert q[4..] == [];
  }

  /** Decoding the digits of any byte sequence gives back that sequence. */
  lemma {:induction false} DigitsRoundTrip(b: seq<byte>)
    ensures |EncodeDigits(b)| % 4 != 1
    ensures DecodeDigits(EncodeDigits(b)) == b
    decreases |b|
  {
    if |b| >= 3 {
      var q, rest := Quad(b[0], b[1], b[2]), EncodeDigits(b[3..]);
      DigitsRoundTrip(b[3..]);
      QuadRoundTrip(b[0], b[1], b[2]);
      DecodeGroup(q, rest);
      assert b == [b[0], b[1], b[2]] + b[3..];
    } else if |b| == 2 {
      TripleRoundTrip(b[0], b[1]);
      assert b == [b[0], b[1]];
    } else if |b| == 1 {
      PairRoundTrip(b[0]);
      assert b == [b[0]];
    }
  }

  /** A string without whitespace is left as it is by `StripWhitespace`. */
  lemma {:induction false} StripNoWhitespace(s: string)
    requires forall i :: 0 <= i < |s| ==> !IsAsciiWhitespace(s[i])
    ensures StripWhitespace(s) == s
    decreases |s|
  {
    if s != [] {
      StripNoWhitespace(s[1..]);
      assert s == [s[0]] + s[1..];
    }
  }

  /** The padding `Encode` appends is exactly what `DropPadding` removes. */
  lemma PaddingDropped(b: seq<byte>)
    ensures DropPadding(Encode(b)) == EncodeDigits(b)
  {
    var digits, e := EncodeDigits(b), Encode(b);
    var pad := if |b| % 3 == 1 then "==" else if |b| % 3 == 2 then "=" else "";
    assert e == digits + pad;
    if |b| % 3 == 1 {
      assert e[|e| - 2..] == "==" && e[..|e| - 2] == digits;
    } else if |b| % 3 == 2 {
      assert |digits| >= 3;
      assert e[|e| - 2] == digits[|digits| - 1];
      assert IsBase64Char(digits[|digits| - 1]);
      assert e[|e| - 2..] != "==";
      assert e[|e| - 1] == '=' && e[..|e| - 1] == digits;
    } else {
      assert e == digits;
      if |e| >= 1 { assert IsBase64Char(e[|e| - 1]); }
    }
  }

  /** No character of an encoding is whitespace. */
  lemma EncodeHasNoWhitespace(b: seq<byte>)
    ensures StripWhitespace(Encode(b)) == Encode(b)
  {
    var digits, e := EncodeDigits(b), Encode(b);
    forall i | 0 <= i < |e| ensures !IsAsciiWhitespace(e[i]) {
      if i < |digits| { assert e[i] == digits[i]; } else { assert e[i] == '='; }
    }
    StripNoWhitespace(e);
  }

  /** `atob` inverts the padded encoding of RFC 4648, section 4: for every
      byte sequence, decoding its encoding succeeds and gives it back. */
  lemma EncodeDecodeRoundTrip(b: seq<byte>)
    ensures ForgivingDecode(Encode(b)) == Some(b)
    ensures Atob(Encode(b)) == Some(BinaryString(b))
  {
    EncodeHasNoWhitespace(b);
    PaddingDropped(b);
    DigitsRoundTrip(b);
  }

  // ---------------------------------------------------------------- test vectors

  /** The groups the test vectors of section 10 of RFC 4648 are made of. */
  lemma TestVectorGroups()
    ensures Pair(102) == "Zg" && Pair(98) == "Yg"
    ensures Triple(102, 111) == "Zm8" && Triple(98, 97) == "YmE"
    ensures Quad(102, 111, 111) == "Zm9v" && Quad(98, 97, 114) == "YmFy"
  {
    assert Digit(25) == 'Z' && Digit(32) == 'g' && Digit(38) == 'm' && Digit(60) == '8';
    assert Digit(61) == '9' && Digit(47) == 'v' && Digit(24) == 'Y' && Digit(4) == 'E';
    assert Digit(5) == 'F' && Digit(50) == 'y';
  }

  /** The test vectors of section 10 of RFC 4648: the encodings of "", "f",
      "fo", "foo", "foob", "fooba" and "foobar". */
  lemma EncodeTestVectors()
    ensures Encode([]) == ""
    ensures Encode([102]) == "Zg=="
    ensures Encode([102, 111]) == "Zm8="
    ensures Encode([102, 111, 111]) == "Zm9v"
    ensures Encode([102, 111, 111, 98]) == "Zm9vYg=="
    ensures Encode([102, 111, 111, 98, 97]) == "Zm9vYmE="
    ensures Encode([102, 111, 111, 98, 97, 114]) == "Zm9vYmFy"
  {
    TestVectorGroups();
    var foo: seq<byte> := [102, 111, 111];
    assert foo[3..] == [];
    assert (foo + [98])[3..] == [98];
    assert (foo + [98, 97])[3..] == [98, 97];
    assert (foo + [98, 97, 114])[3..] == [98, 97, 114];
    var bar: seq<byte> := [98, 97, 114];
    assert bar[3..] == [];
  }
}
