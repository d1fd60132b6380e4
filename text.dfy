/** Text primitives the modelled code takes from the .NET runtime:
    `String.Split`, `int.TryParse`, `double.TryParse` (decimal and
    scientific notation), `ToLower` on ASCII and integer formatting. */
module Text {
  import opened Wrappers

  const Int32Min: int := -0x8000_0000
  const Int32Max: int := 0x7FFF_FFFF

  /** `s.Split(sep)`: the pieces between separators, empty pieces kept. */
  function Split(s: string, sep: char): (r: seq<string>)
    ensures |r| >= 1
    ensures forall i :: 0 <= i < |r| ==> sep !in r[i]
    decreases |s|
  {
    if |s| == 0 then [""]
    else
      var rest := Split(s[1..], sep);
      if s[0] == sep then [""] + rest
      else [[s[0]] + rest[0]] + rest[1..]
  }

  /** The pieces glued back with one separator between neighbours. */
  function Join(parts: seq<string>, sep: char): string
    requires |parts| >= 1
  {
    if |parts| == 1 then parts[0] else parts[0] + [sep] + Join(parts[1..], sep)
  }

  lemma {:induction false} SplitJoin(s: string, sep: char)
    ensures Join(Split(s, sep), sep) == s
    decreases |s|
  {
    if |s| > 0 {
      var rest := Split(s[1..], sep);
      SplitJoin(s[1..], sep);
      if s[0] == sep {
        assert Split(s, sep) == [""] + rest;
        assert ([""] + rest)[1..] == rest;
      } else {
        var r := [[s[0]] + rest[0]] + rest[1..];
        assert Split(s, sep) == r;
        if |rest| == 1 {
          assert Join(r, sep) == [s[0]] + rest[0];
        } else {
          assert r[1..] == rest[1..];
          assert Join(r, sep) == [s[0]] + rest[0] + [sep] + Join(rest[1..], sep);
          assert Join(rest, sep) == rest[0] + [sep] + Join(rest[1..], sep);
        }
        assert s == [s[0]] + s[1..];
      }
    }
  }

  lemma {:induction false} SplitPrefix(p: string, t: string, sep: char)
    requires sep !in p
    ensures Split(p + t, sep) == [p + Split(t, sep)[0]] + Split(t, sep)[1..]
    decreases |p|
  {
    if |p| > 0 {
      var r := Split(t, sep);
      assert (p + t)[1..] == p[1..] + t;
      SplitPrefix(p[1..], t, sep);
      var rest := Split(p[1..] + t, sep);
      assert rest == [p[1..] + r[0]] + r[1..];
      assert (p + t)[0] == p[0] && p[0] != sep;
      assert Split(p + t, sep) == [[p[0]] + rest[0]] + rest[1..];
      assert [p[0]] + (p[1..] + r[0]) == p + r[0];
    } else {
      var r := Split(t, sep);
      assert p + t == t;
      assert p + r[0] == r[0];
      assert r == [r[0]] + r[1..];
    }
  }

  lemma {:induction false} JoinSplit(parts: seq<string>, sep: char)
    requires |parts| >= 1
    requires forall i :: 0 <= i < |parts| ==> sep !in parts[i]
    ensures Split(Join(parts, sep), sep) == parts
    decreases |parts|
  {
    if |parts| == 1 {
      SplitPrefix(parts[0], "", sep);
      assert parts[0] + "" == parts[0];
    } else {
      var tail := Join(parts[1..], sep);
      JoinSplit(parts[1..], sep);
      assert Join(parts, sep) == parts[0] + ([sep] + tail);
      SplitPrefix(parts[0], [sep] + tail, sep);
      assert ([sep] + tail)[1..] == tail;
      assert Split([sep] + tail, sep) == [""] + parts[1..];
      assert parts[0] + "" == parts[0];
      assert parts == [parts[0]] + parts[1..];
    }
  }

  /** The pieces that are not empty, in order. */
  function NonEmpty(pieces: seq<string>): (r: seq<string>)
    ensures forall i :: 0 <= i < |r| ==> r[i] != [] && r[i] in pieces
  {
    if pieces == [] then []
    else if pieces[0] == [] then NonEmpty(pieces[1..])
    else [pieces[0]] + NonEmpty(pieces[1..])
  }

  /** `line.Split(new[] {' '}, StringSplitOptions.RemoveEmptyEntries)`. */
  function Tokens(line: string): (r: seq<string>)
    ensures forall i :: 0 <= i < |r| ==> r[i] != [] && ' ' !in r[i]
  {
    NonEmpty(Split(line, ' '))
  }

  lemma {:induction false} NonEmptyKeeps(pieces: seq<string>)
    requires forall i :: 0 <= i < |pieces| ==> pieces[i] != []
    ensures NonEmpty(pieces) == pieces
  {
    if pieces != [] {
      NonEmptyKeeps(pieces[1..]);
      assert pieces == [pieces[0]] + pieces[1..];
    }
  }

  /** Tokenising a line written as tokens separated by single spaces gives the tokens back. */
  lemma {:induction false} TokensOfJoin(ts: seq<string>)
    requires |ts| >= 1
    requires forall i :: 0 <= i < |ts| ==> ts[i] != [] && ' ' !in ts[i]
    ensures Tokens(Join(ts, ' ')) == ts
  {
    JoinSplit(ts, ' ');
    NonEmptyKeeps(ts);
  }

  predicate IsDigit(c: char) { '0' <= c <= '9' }

  predicate AllDigits(s: string) { forall i :: 0 <= i < |s| ==> IsDigit(s[i]) }

  /** The value of a string of decimal digits. */
  function DigitsValue(s: string): nat
    requires AllDigits(s)
  {
    if s == [] then 0 else 10 * DigitsValue(s[..|s| - 1]) + (s[|s| - 1] as int - '0' as int)
  }

  /** A sign character, if any, is split off the rest. */
  function Unsigned(s: string): string
  {
    if |s| > 0 && (s[0] == '-' || s[0] == '+') then s[1..] else s
  }

  predicate Negative(s: string) { |s| > 0 && s[0] == '-' }

  /** An optional sign, then at least one digit, as an unbounded integer. */
  function ParseSigned(s: string): (r: Option<int>)
    ensures r.Some? <==> Unsigned(s) != [] && AllDigits(Unsigned(s))
  {
    var body := Unsigned(s);
    if body == [] || !AllDigits(body) then None
    else Some(if Negative(s) then -(DigitsValue(body) as int) else DigitsValue(body))
  }

  /** `int.TryParse(s, out v)`: an optional sign, then at least one digit,
      and the value must fit in 32 bits. */
  function ParseInt(s: string): (r: Option<int>)
    ensures r.Some? ==> Int32Min <= r.value <= Int32Max
    ensures r.Some? ==> Unsigned(s) != [] && AllDigits(Unsigned(s))
  {
    match ParseSigned(s)
    case None => None
    case Some(v) => if Int32Min <= v <= Int32Max then Some(v) else None
  }

  function DigitChar(d: nat): char
    requires d < 10
  {
    ('0' as int + d) as char
  }

  function NatToString(n: nat): (s: string)
    ensures |s| >= 1 && AllDigits(s)
  {
    if n < 10 then [DigitChar(n)] else NatToString(n / 10) + [DigitChar(n % 10)]
  }

  /** Integer formatting with the invariant culture: a minus sign for negatives. */
  function IntToString(n: int): string
  {
    if n < 0 then "-" + NatToString(-n) else NatToString(n)
  }

  lemma {:induction false} NatToStringValue(n: nat)
    ensures DigitsValue(NatToString(n)) == n
  {
    if n >= 10 {
      NatToStringValue(n / 10);
      var s := NatToString(n);
      assert s[..|s| - 1] == NatToString(n / 10);
    }
  }

  /** Formatting then parsing an `int` gives it back. */
  lemma {:induction false} ParseIntToString(n: int)
    requires Int32Min <= n <= Int32Max
    ensures ParseInt(IntToString(n)) == Some(n)
  {
    var s := IntToString(n);
    if n < 0 {
      assert s[1..] == NatToString(-n);
      NatToStringValue(-n);
    } else {
      assert IsDigit(s[0]);
      NatToStringValue(n);
    }
  }

  lemma {:induction false} IntToStringHasNoSpace(n: int)
    ensures IntToString(n) != [] && ' ' !in IntToString(n) && '/' !in IntToString(n)
  {
    var s := NatToString(if n < 0 then -n else n);
    assert forall i :: 0 <= i < |s| ==> IsDigit(s[i]);
  }

  function Pow10(k: nat): (r: nat)
    ensures r >= 1
  {
    if k == 0 then 1 else 10 * Pow10(k - 1)
  }

  /** `m` scaled by ten to the power `e`. */
  function Scale10(m: real, e: int): real
  {
    if e >= 0 then m * Pow10(e) as real else m / Pow10(-e) as real
  }

  /** Unsigned decimal notation: digits with at most one decimal point and
      at least one digit overall. */
  function ParseMantissa(s: string): (r: Option<real>)
    ensures r.Some? ==> r.value >= 0.0
  {
    var parts := Split(s, '.');
    if |parts| > 2 then None
    else
      var ip := parts[0];
      var fp := if |parts| == 2 then parts[1] else "";
      if !AllDigits(ip) || !AllDigits(fp) || |ip| + |fp| == 0 then None
      else Some(DigitsValue(ip) as real + DigitsValue(fp) as real / Pow10(|fp|) as real)
  }

  /** `double.TryParse` on scientific notation: an optional sign, a
      mantissa, then optionally `e` or `E` and a signed exponent. */
  function ParseDecimal(s: string): Option<real>
  {
    var parts := Split(Lower(Unsigned(s)), 'e');
    if |parts| > 2 then None
    else
      var e := if |parts| == 2 then ParseSigned(parts[1]) else Some(0);
      match (ParseMantissa(parts[0]), e)
      case (Some(m), Some(k)) =>
        var magnitude := Scale10(m, k);
        Some(if Negative(s) then -magnitude else magnitude)
      case _ => None
  }

  /** A string without the separator splits into itself. */
  lemma {:induction false} SplitWhole(s: string, sep: char)
    requires sep !in s
    ensures Split(s, sep) == [s]
  {
    SplitPrefix(s, "", sep);
    assert s + "" == s;
  }

  /** Formatting an integer then reading it back as a signed exponent gives it back. */
  lemma {:induction false} ParseSignedIntToString(n: int)
    ensures ParseSigned(IntToString(n)) == Some(n)
  {
    var s := IntToString(n);
    if n < 0 {
      assert s[1..] == NatToString(-n);
      NatToStringValue(-n);
    } else {
      assert IsDigit(s[0]);
      NatToStringValue(n);
    }
  }

  /** Two pieces without the separator, joined by it, split back apart. */
  lemma {:induction false} SplitPair(m: string, t: string, sep: char)
    requires sep !in m && sep !in t
    ensures Split(m + [sep] + t, sep) == [m, t]
  {
    SplitPrefix(m, [sep] + t, sep);
    assert ([sep] + t)[1..] == t;
    SplitWhole(t, sep);
    assert Split([sep] + t, sep) == [""] + [t];
    assert m + [sep] + t == m + ([sep] + t) && m + "" == m;
  }

  /** A string without capital letters is its own lower case. */
  lemma {:induction false} LowerKeeps(s: string)
    requires forall i :: 0 <= i < |s| ==> !('A' <= s[i] <= 'Z')
    ensures Lower(s) == s
  {
    assert forall i :: 0 <= i < |s| ==> Lower(s)[i] == s[i];
  }

  /** Digits alone are a mantissa worth their value. */
  lemma {:induction false} ParseMantissaDigits(m: string)
    requires m != [] && AllDigits(m)
    ensures ParseMantissa(m) == Some(DigitsValue(m) as real)
  {
    assert '.' !in m;
    SplitWhole(m, '.');
    assert DigitsValue("") == 0;
  }

  /** An unsigned string whose lower case splits at `e` into a mantissa
      and an exponent is worth the mantissa scaled by the exponent. */
  lemma {:induction false} ParseDecimalOf(s: string, m: string, t: string, a: real, k: int)
    requires |s| > 0 && IsDigit(s[0])
    requires Split(Lower(s), 'e') == [m, t]
    requires ParseMantissa(m) == Some(a) && ParseSigned(t) == Some(k)
    ensures ParseDecimal(s) == Some(Scale10(a, k))
  {
    assert Unsigned(s) == s && !Negative(s);
  }

  /** Digits, `e` or `E`, then a signed exponent `t` worth `k`: the
      digits' value times ten to the power `k`. */
  lemma {:induction false} ParseDecimalExponent(m: string, e: char, t: string)
    requires m != [] && AllDigits(m) && (e == 'e' || e == 'E')
    requires ParseSigned(t).Some?
    ensures ParseDecimal(m + [e] + t) == Some(Scale10(DigitsValue(m) as real, ParseSigned(t).value))
  {
    var s := m + [e] + t;
    assert forall i :: 0 <= i < |t| ==> t[i] == '-' || t[i] == '+' || IsDigit(t[i]) by {
      forall i | 0 <= i < |t| ensures t[i] == '-' || t[i] == '+' || IsDigit(t[i]) {
        if i > 0 || !(t[0] == '-' || t[0] == '+') {
          assert Unsigned(t)[if t[0] == '-' || t[0] == '+' then i - 1 else i] == t[i];
        }
      }
    }
    var low := m + "e" + t;
    LowerKeeps(low);
    assert forall i :: 0 <= i < |s| ==> LowerChar(s[i]) == low[i];
    assert Lower(s) == low;
    SplitPair(m, t, 'e');
    ParseMantissaDigits(m);
    assert s[0] == m[0];
    ParseDecimalOf(s, m, t, DigitsValue(m) as real, ParseSigned(t).value);
  }

  /** Digits, `e` or `E`, then a formatted integer `k`: formatting the
      exponent and parsing the whole gives the scaled value. */
  lemma {:induction false} ParseDecimalIntExponent(m: string, e: char, k: int)
    requires m != [] && AllDigits(m) && (e == 'e' || e == 'E')
    ensures ParseDecimal(m + [e] + IntToString(k)) == Some(Scale10(DigitsValue(m) as real, k))
  {
    ParseSignedIntToString(k);
    ParseDecimalExponent(m, e, IntToString(k));
  }

  /** The form the program's own output takes for a small UV coordinate,
      "1E-05", reads as 0.00001. */
  lemma {:induction false} ParseDecimalSample(m: string, t: string)
    requires m == "1" && t == "-05"
    ensures ParseDecimal(m + ['E'] + t) == Some(0.00001)
  {
    var u := Unsigned(t);
    assert u == t[1..] && |u| == 2 && u[0] == '0' && u[1] == '5' && Negative(t);
    assert u[..1][..0] == "" && DigitsValue(u[..1]) == 0;
    assert DigitsValue(u) == 5;
    assert ParseSigned(t) == Some(-5);
    assert m[..0] == "" && DigitsValue(m) == 1;
    ParseDecimalExponent(m, 'E', t);
  }

  function LowerChar(c: char): char
  {
    if 'A' <= c <= 'Z' then (c as int + 32) as char else c
  }

  /** `ToLower()` on ASCII letters; other characters are kept. */
  function Lower(s: string): (r: string)
    ensures |r| == |s|
  {
    seq(|s|, i requires 0 <= i < |s| => LowerChar(s[i]))
  }
}
