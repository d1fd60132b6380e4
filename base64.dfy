/** The Base64 alphabet and codec of section 4 of RFC 4648, as
    `Convert.ToBase64String` and `Convert.FromBase64String` apply it to the
    existence bitmap: every three bytes become four characters of the
    64-character alphabet, and a final group of one or two bytes is padded
    with `=` to four characters. */
module Base64 {
  import opened Wrappers

  type Byte = x: int | 0 <= x < 256
  type Sextet = x: int | 0 <= x < 64

  /** Value `n` of the alphabet: `A`-`Z`, `a`-`z`, `0`-`9`, `+`, `/`. */
  function CharOf(n: Sextet): (c: char)
    ensures c != '='
  {
    if n < 26 then ('A' as int + n) as char
    else if n < 52 then ('a' as int + (n - 26)) as char
    else if n < 62 then ('0' as int + (n - 52)) as char
    else if n == 62 then '+'
    else '/'
  }

  /** The value of an alphabet character; anything else is not Base64. */
  function ValueOf(c: char): (r: Option<Sextet>)
  {
    if 'A' <= c <= 'Z' then Some(c as int - 'A' as int)
    else if 'a' <= c <= 'z' then Some(c as int - 'a' as int + 26)
    else if '0' <= c <= '9' then Some(c as int - '0' as int + 52)
    else if c == '+' then Some(62)
    else if c == '/' then Some(63)
    else None
  }

  /** The alphabet is a bijection between the 64 values and its characters. */
  lemma {:induction false} AlphabetRoundTrip(n: Sextet)
    ensures ValueOf(CharOf(n)) == Some(n)
  {
  }

  lemma {:induction false} AlphabetOnto(c: char)
    requires ValueOf(c).Some?
    ensures CharOf(ValueOf(c).value) == c
  {
  }

  /** Three bytes, or the last one or two, as four characters. */
  function EncodeGroup(g: seq<Byte>): (r: string)
    requires 1 <= |g| <= 3
    ensures |r| == 4
  {
    var a := g[0];
    var b := if |g| > 1 then g[1] else 0;
    var c := if |g| > 2 then g[2] else 0;
    [CharOf(a / 4), CharOf((a % 4) * 16 + b / 16)]
    + (if |g| > 1 then [CharOf((b % 16) * 4 + c / 64)] else ['='])
    + (if |g| > 2 then [CharOf(c % 64)] else ['='])
  }

  /** The four characters of a group are of the alphabet, but for the
      padding of a short group, which fills its last one or two places. */
  lemma {:induction false} GroupAlphabet(g: seq<Byte>)
    requires 1 <= |g| <= 3
    ensures forall i :: 0 <= i < 4 ==>
      ValueOf(EncodeGroup(g)[i]).Some? || (EncodeGroup(g)[i] == '=' && |g| < 3 && i >= |g| + 1)
  {
    var a := g[0];
    var b := if |g| > 1 then g[1] else 0;
    var c := if |g| > 2 then g[2] else 0;
    AlphabetRoundTrip(a / 4);
    AlphabetRoundTrip((a % 4) * 16 + b / 16);
    AlphabetRoundTrip((b % 16) * 4 + c / 64);
    AlphabetRoundTrip(c % 64);
  }

  /** The arithmetic of a group: the four sextets put back together give
      the three bytes. */
  lemma {:induction false} SextetsRejoin(a: Byte, b: Byte, c: Byte)
    ensures var s0, s1, s2, s3 := a / 4, (a % 4) * 16 + b / 16, (b % 16) * 4 + c / 64, c % 64;
      s0 * 4 + s1 / 16 == a && (s1 % 16) * 16 + s2 / 4 == b && (s2 % 4) * 64 + s3 == c
  {
  }

  /** Four sextets rejoined give three values that each fit in a byte. */
  lemma {:induction false} SextetsFit(s0: Sextet, s1: Sextet, s2: Sextet, s3: Sextet)
    ensures 0 <= s0 * 4 + s1 / 16 < 256
    ensures 0 <= (s1 % 16) * 16 + s2 / 4 < 256
    ensures 0 <= (s2 % 4) * 64 + s3 < 256
  {
  }

  /** `Convert.ToBase64String`. */
  function Encode(bytes: seq<Byte>): (r: string)
    ensures |r| == (|bytes| + 2) / 3 * 4
    decreases |bytes|
  {
    if bytes == [] then ""
    else if |bytes| <= 3 then EncodeGroup(bytes)
    else EncodeGroup(bytes[..3]) + Encode(bytes[3..])
  }

  /** Four characters back to one, two or three bytes: `==` ends a group of
      one byte, `=` a group of two. The bits the padding leaves over are
      dropped, as the .NET decoder does. */
  function DecodeGroup(q: string, last: bool): (r: Result<seq<Byte>>)
    requires |q| == 4
    ensures r.Success? ==> 1 <= |r.value| <= 3
  {
    var pad := if last && q[3] == '=' then (if q[2] == '=' then 2 else 1) else 0;
    var v0, v1 := ValueOf(q[0]), ValueOf(q[1]);
    var v2 := if pad < 2 then ValueOf(q[2]) else Some(0);
    var v3 := if pad < 1 then ValueOf(q[3]) else Some(0);
    if v0.None? || v1.None? || v2.None? || v3.None? then Failure("FormatException: not a Base64 character")
    else
      var s0, s1, s2, s3 := v0.value as int, v1.value as int, v2.value as int, v3.value as int;
      SextetsFit(s0, s1, s2, s3);
      var a: Byte := s0 * 4 + s1 / 16;
      var b: Byte := (s1 % 16) * 16 + s2 / 4;
      var c: Byte := (s2 % 4) * 64 + s3;
      var tail: seq<Byte> := (if pad < 2 then [b] else []) + (if pad < 1 then [c] else []);
      Success([a] + tail)
  }

  /** `Convert.FromBase64String`: a length that is not a multiple of four,
      a character outside the alphabet or padding before the last group is
      a `FormatException`. */
  function Decode(s: string): (r: Result<seq<Byte>>)
    decreases |s|
  {
    if s == [] then Success([])
    else if |s| < 4 then Failure("FormatException: length is not a multiple of four")
    else
      match DecodeGroup(s[..4], |s| == 4)
      case Failure(e) => Failure(e)
      case Success(g) =>
        match Decode(s[4..])
        case Failure(e) => Failure(e)
        case Success(rest) => Success(g + rest)
  }

  lemma {:induction false} GroupRoundTrip(g: seq<Byte>, last: bool)
    requires 1 <= |g| <= 3 && (|g| < 3 ==> last)
    ensures DecodeGroup(EncodeGroup(g), last) == Success(g)
  {
    if |g| == 1 {
      OneByteRoundTrip(g[0]);
      assert g == [g[0]];
    } else if |g| == 2 {
      TwoBytesRoundTrip(g[0], g[1]);
      assert g == [g[0], g[1]];
    } else {
      ThreeBytesRoundTrip(g[0], g[1], g[2], last);
      assert g == [g[0], g[1], g[2]];
    }
  }

  /** A one-byte group, padded with `==`, decodes back. */
  lemma {:induction false} OneByteRoundTrip(a: Byte)
    ensures DecodeGroup(EncodeGroup([a]), true) == Success([a])
  {
    var q := EncodeGroup([a]);
    AlphabetRoundTrip(a / 4);
    AlphabetRoundTrip((a % 4) * 16);
    SextetsRejoin(a, 0, 0);
    assert q[0] == CharOf(a / 4) && q[1] == CharOf((a % 4) * 16);
    assert q[2] == '=' && q[3] == '=';
    DecodedBytes(q, true, 2);
    var r := DecodeGroup(q, true).value;
    assert r[0] == a;
    assert r == [a];
  }

  /** A two-byte group, padded with `=`, decodes back. */
  lemma {:induction false} TwoBytesRoundTrip(a: Byte, b: Byte)
    ensures DecodeGroup(EncodeGroup([a, b]), true) == Success([a, b])
  {
    var q := EncodeGroup([a, b]);
    AlphabetRoundTrip(a / 4);
    AlphabetRoundTrip((a % 4) * 16 + b / 16);
    AlphabetRoundTrip((b % 16) * 4);
    SextetsRejoin(a, b, 0);
    assert q[0] == CharOf(a / 4) && q[1] == CharOf((a % 4) * 16 + b / 16);
    assert q[2] == CharOf((b % 16) * 4) && q[2] != '=' && q[3] == '=';
    DecodedBytes(q, true, 1);
    var r := DecodeGroup(q, true).value;
    assert r[0] == a && r[1] == b;
    assert r == [a, b];
  }

  /** A full group decodes back, whether or not it is the last. */
  lemma {:induction false} ThreeBytesRoundTrip(a: Byte, b: Byte, c: Byte, last: bool)
    ensures DecodeGroup(EncodeGroup([a, b, c]), last) == Success([a, b, c])
  {
    var q := EncodeGroup([a, b, c]);
    AlphabetRoundTrip(a / 4);
    AlphabetRoundTrip((a % 4) * 16 + b / 16);
    AlphabetRoundTrip((b % 16) * 4 + c / 64);
    AlphabetRoundTrip(c % 64);
    SextetsRejoin(a, b, c);
    assert q[0] == CharOf(a / 4) && q[1] == CharOf((a % 4) * 16 + b / 16);
    assert q[2] == CharOf((b % 16) * 4 + c / 64) && q[3] == CharOf(c % 64) && q[3] != '=';
    DecodedBytes(q, last, 0);
    var r := DecodeGroup(q, last).value;
    assert r[0] == a && r[1] == b && r[2] == c;
    assert r == [a, b, c];
  }

  /** What a group with valid characters decodes to, given its padding. */
  lemma {:induction false} DecodedBytes(q: string, last: bool, pad: nat)
    requires |q| == 4 && pad <= 2
    requires pad == (if last && q[3] == '=' then (if q[2] == '=' then 2 else 1) else 0)
    requires ValueOf(q[0]).Some? && ValueOf(q[1]).Some?
    requires pad < 2 ==> ValueOf(q[2]).Some?
    requires pad < 1 ==> ValueOf(q[3]).Some?
    ensures var r := DecodeGroup(q, last);
      var s0, s1 := ValueOf(q[0]).value as int, ValueOf(q[1]).value as int;
      var s2 := if pad < 2 then ValueOf(q[2]).value as int else 0;
      var s3 := if pad < 1 then ValueOf(q[3]).value as int else 0;
      r.Success? && |r.value| == 3 - pad && r.value[0] == s0 * 4 + s1 / 16
      && (pad < 2 ==> r.value[1] == (s1 % 16) * 16 + s2 / 4)
      && (pad < 1 ==> r.value[2] == (s2 % 4) * 64 + s3)
  {
  }

  /** Decoding an encoding gives the bytes back. */
  lemma {:induction false} EncodeDecode(bytes: seq<Byte>)
    ensures Decode(Encode(bytes)) == Success(bytes)
    decreases |bytes|
  {
    if bytes == [] {
    } else if |bytes| <= 3 {
      GroupRoundTrip(bytes, true);
      var s := Encode(bytes);
      assert s[..4] == s && s[4..] == [];
      assert Decode(s[4..]) == Success([]);
      assert bytes + [] == bytes;
    } else {
      GroupRoundTrip(bytes[..3], false);
      EncodeDecode(bytes[3..]);
      var s := Encode(bytes);
      assert s[..4] == EncodeGroup(bytes[..3]) && s[4..] == Encode(bytes[3..]);
      assert bytes[..3] + bytes[3..] == bytes;
    }
  }

  /** Every character of an encoding is of the alphabet or padding, and
      padding only ends it. */
  lemma {:induction false} EncodeAlphabet(bytes: seq<Byte>)
    ensures var s := Encode(bytes);
      forall i :: 0 <= i < |s| ==> (ValueOf(s[i]).Some? || (s[i] == '=' && i >= |s| - 2))
    decreases |bytes|
  {
    if |bytes| > 3 {
      EncodeAlphabet(bytes[3..]);
      GroupAlphabet(bytes[..3]);
      var s := Encode(bytes);
      var g := EncodeGroup(bytes[..3]);
      forall i | 0 <= i < |s| ensures ValueOf(s[i]).Some? || (s[i] == '=' && i >= |s| - 2) {
        if i < 4 {
          assert |bytes[..3]| == 3 && s[i] == g[i];
          assert ValueOf(g[i]).Some?;
        } else {
          assert s[i] == Encode(bytes[3..])[i - 4];
        }
      }
    } else if bytes != [] {
      GroupAlphabet(bytes);
    }
  }
}
