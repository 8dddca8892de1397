/**
 * Bytes and the few text conversions the identifier and trust code relies on:
 * decimal rendering and parsing, Python's int() on a string, lowercase hex
 * (bytes.hex() and bytes.fromhex()), ASCII lowering and str.split.
 */
module Text {
  import opened Wrappers

  type Byte = b: int | 0 <= b < 256
  type Bytes = seq<Byte>

  // ---------------------------------------------------------------------------
  // Decimal digits

  predicate IsDigit(c: char) { '0' <= c <= '9' }

  predicate AllDigits(s: string) { forall i :: 0 <= i < |s| ==> IsDigit(s[i]) }

  /** One or more ASCII decimal digits. */
  predicate IsDigits(s: string) { |s| > 0 && AllDigits(s) }

  /** The grammar `0|[1-9][0-9]*`: a decimal number without a leading zero. */
  predicate IsCanonicalNat(s: string) { IsDigits(s) && (|s| > 1 ==> s[0] != '0') }

  function DigitChar(d: nat): (c: char)
    requires d < 10
    ensures IsDigit(c)
  {
    (('0' as int) + d) as char
  }

  function DigitValue(c: char): (d: nat)
    requires IsDigit(c)
    ensures d < 10 && DigitChar(d) == c
  {
    (c as int) - ('0' as int)
  }

  /** Python's f"{n}" for a non-negative integer. */
  function NatToString(n: nat): string
  {
    if n < 10 then [DigitChar(n)] else NatToString(n / 10) + [DigitChar(n % 10)]
  }

  /** The value of a string of decimal digits, leading zeros allowed. */
  function DigitsValue(s: string): nat
    requires AllDigits(s)
  {
    if |s| == 0 then 0 else DigitsValue(s[..|s| - 1]) * 10 + DigitValue(s[|s| - 1])
  }

  /** Rendering a number gives canonical digits that read back as the number. */
  lemma {:induction false} NatToStringRoundTrip(n: nat)
    ensures IsCanonicalNat(NatToString(n))
    ensures DigitsValue(NatToString(n)) == n
  {
    if n >= 10 {
      NatToStringRoundTrip(n / 10);
      var s := NatToString(n / 10);
      var t := s + [DigitChar(n % 10)];
      assert t[..|t| - 1] == s;
      assert DigitValue(DigitChar(n % 10)) == n % 10;
    } else {
      assert DigitValue(DigitChar(n)) == n;
    }
  }

  /** Canonical digits are what f"{n}" prints for their value. */
  lemma {:induction false} CanonicalDigitsRoundTrip(s: string)
    requires IsCanonicalNat(s)
    ensures NatToString(DigitsValue(s)) == s
  {
    if |s| > 1 {
      var init := s[..|s| - 1];
      assert IsCanonicalNat(init) && init[0] == s[0];
      LeadingDigitPositive(init);
      CanonicalDigitsRoundTrip(init);
      assert DigitChar(DigitValue(s[|s| - 1])) == s[|s| - 1];
      assert init + [s[|s| - 1]] == s;
    } else {
      assert [DigitChar(DigitValue(s[0]))] == s;
    }
  }

  /** Digits that start with a non-zero digit have a positive value. */
  lemma {:induction false} LeadingDigitPositive(s: string)
    requires IsDigits(s) && s[0] != '0'
    ensures DigitsValue(s) >= 1
  {
    if |s| > 1 {
      var init := s[..|s| - 1];
      assert init[0] == s[0];
      LeadingDigitPositive(init);
    }
  }

  /** Python's f"{i}" for any integer: a minus sign and the digits of |i|. */
  function IntToString(i: int): string
  {
    if i < 0 then "-" + NatToString(-i) else NatToString(i)
  }

  /** An optional sign followed by one or more ASCII digits (leading zeros allowed), or None. */
  function ParseSignedDigits(s: string): (r: Option<int>)
    ensures r.Some? <==> (IsDigits(s) || (|s| > 1 && (s[0] == '-' || s[0] == '+') && IsDigits(s[1..])))
  {
    if |s| > 0 && (s[0] == '-' || s[0] == '+') then
      if IsDigits(s[1..]) then
        Some(if s[0] == '-' then 0 - (DigitsValue(s[1..]) as int) else DigitsValue(s[1..]))
      else None
    else if IsDigits(s) then Some(DigitsValue(s))
    else None
  }

  /** The signed digits of `str(i)` read back as `i`. */
  lemma SignedDigitsOfIntToString(i: int)
    ensures ParseSignedDigits(IntToString(i)) == Some(i)
  {
    if i < 0 {
      SignedDigitsOfNegative(-i);
    } else {
      NatToStringRoundTrip(i);
      var s := NatToString(i);
      assert IsDigit(s[0]);
    }
  }

  lemma SignedDigitsOfNegative(n: nat)
    requires n > 0
    ensures ParseSignedDigits("-" + NatToString(n)) == Some(-(n as int))
  {
    NatToStringRoundTrip(n);
    var s := "-" + NatToString(n);
    assert s[1..] == NatToString(n);
  }

  // ---------------------------------------------------------------------------
  // Whitespace: str.strip() and int()

  /** str.isspace(): the characters Python's strip() removes. */
  predicate IsPySpace(c: char)
  {
    var n := c as int;
    (0x09 <= n <= 0x0D) || (0x1C <= n <= 0x20) || n == 0x85 || n == 0xA0 || n == 0x1680
    || (0x2000 <= n <= 0x200A) || n == 0x2028 || n == 0x2029 || n == 0x202F || n == 0x205F
    || n == 0x3000
  }

  /**
   * The two whitespace sets Python trims: str.strip() removes every
   * str.isspace() character; int() maps non-ASCII whitespace to a space but
   * then skips only the C-locale ASCII whitespace, so the information
   * separators U+001C..U+001F are not whitespace to it.
   */
  datatype Spaces = StrSpaces | IntSpaces

  predicate IsSpace(w: Spaces, c: char)
  {
    IsPySpace(c) && (w == IntSpaces ==> !(0x1C <= c as int <= 0x1F))
  }

  predicate AllSpace(w: Spaces, s: string) { forall i :: 0 <= i < |s| ==> IsSpace(w, s[i]) }

  function StripLeading(w: Spaces, s: string): (r: string)
    ensures |r| <= |s|
  {
    if |s| > 0 && IsSpace(w, s[0]) then StripLeading(w, s[1..]) else s
  }

  function StripTrailing(w: Spaces, s: string): (r: string)
    ensures |r| <= |s|
  {
    if |s| > 0 && IsSpace(w, s[|s| - 1]) then StripTrailing(w, s[..|s| - 1]) else s
  }

  /** Whitespace of the given set removed from both ends. */
  function Strip(w: Spaces, s: string): (r: string)
    ensures |r| <= |s|
  {
    StripTrailing(w, StripLeading(w, s))
  }

  /** str.strip(). */
  function PyStrip(s: string): (r: string)
    ensures |r| <= |s|
  {
    Strip(StrSpaces, s)
  }

  lemma {:induction false} StripLeadingPadded(w: Spaces, pre: string, t: string)
    requires AllSpace(w, pre) && |t| > 0 && !IsSpace(w, t[0])
    ensures StripLeading(w, pre + t) == t
  {
    if |pre| > 0 {
      assert (pre + t)[1..] == pre[1..] + t;
      StripLeadingPadded(w, pre[1..], t);
    }
  }

  lemma {:induction false} StripTrailingPadded(w: Spaces, t: string, post: string)
    requires AllSpace(w, post) && |t| > 0 && !IsSpace(w, t[|t| - 1])
    ensures StripTrailing(w, t + post) == t
  {
    if |post| > 0 {
      var s := t + post;
      assert s[..|s| - 1] == t + post[..|post| - 1];
      StripTrailingPadded(w, t, post[..|post| - 1]);
    } else {
      assert t + post == t;
    }
  }

  /** Stripping removes exactly the whitespace padding around a core that starts and ends with non-space. */
  lemma StripPadded(w: Spaces, pre: string, core: string, post: string)
    requires AllSpace(w, pre) && AllSpace(w, post)
    requires |core| > 0 && !IsSpace(w, core[0]) && !IsSpace(w, core[|core| - 1])
    ensures Strip(w, pre + core + post) == core
  {
    assert (core + post)[0] == core[0];
    StripLeadingPadded(w, pre, core + post);
    assert pre + core + post == pre + (core + post);
    StripTrailingPadded(w, core, post);
  }

  /** Text that neither starts nor ends with whitespace is left as it is. */
  lemma StripUnpadded(w: Spaces, t: string)
    requires |t| > 0 && !IsSpace(w, t[0]) && !IsSpace(w, t[|t| - 1])
    ensures Strip(w, t) == t
  {
  }

  lemma {:induction false} StripLeadingKeeps(w: Spaces, s: string, i: int)
    requires 0 <= i < |s| && !IsSpace(w, s[i])
    ensures s[i] in StripLeading(w, s)
  {
    if IsSpace(w, s[0]) {
      assert s[1..][i - 1] == s[i];
      StripLeadingKeeps(w, s[1..], i - 1);
    }
  }

  lemma {:induction false} StripTrailingKeeps(w: Spaces, s: string, i: int)
    requires 0 <= i < |s| && !IsSpace(w, s[i])
    ensures s[i] in StripTrailing(w, s)
  {
    if IsSpace(w, s[|s| - 1]) {
      assert s[..|s| - 1][i] == s[i];
      StripTrailingKeeps(w, s[..|s| - 1], i);
    }
  }

  /** Stripping removes only whitespace: every other character stays. */
  lemma StripKeepsNonSpace(w: Spaces, s: string, i: int)
    requires 0 <= i < |s| && !IsSpace(w, s[i])
    ensures s[i] in Strip(w, s)
  {
    StripLeadingKeeps(w, s, i);
    var t := StripLeading(w, s);
    var j :| 0 <= j < |t| && t[j] == s[i];
    StripTrailingKeeps(w, t, j);
  }

  /**
   * Python's int() on a string: int()'s whitespace around an optional sign
   * and one or more ASCII digits.
   */
  function ParsePyInt(s: string): (r: Option<int>)
    ensures var t := Strip(IntSpaces, s);
      r.Some? <==> (IsDigits(t) || (|t| > 1 && (t[0] == '-' || t[0] == '+') && IsDigits(t[1..])))
  {
    ParseSignedDigits(Strip(IntSpaces, s))
  }

  /** int(str(i)) == i, also with whitespace around the text. */
  lemma ParsePyIntOfIntToString(pre: string, i: int, post: string)
    requires AllSpace(IntSpaces, pre) && AllSpace(IntSpaces, post)
    ensures ParsePyInt(pre + IntToString(i) + post) == Some(i)
  {
    var s := IntToString(i);
    NatToStringRoundTrip(if i < 0 then -i else i);
    assert |s| > 0 && !IsSpace(IntSpaces, s[0]) && !IsSpace(IntSpaces, s[|s| - 1]) by {
      if i < 0 {
        assert s[|s| - 1] == NatToString(-i)[|NatToString(-i)| - 1];
      }
    }
    StripPadded(IntSpaces, pre, s, post);
    SignedDigitsOfIntToString(i);
  }

  /** The information separators U+001C..U+001F are whitespace to strip() but not to int(). */
  lemma InformationSeparatorsAreNotIntSpace(c: char)
    requires 0x1C <= c as int <= 0x1F
    ensures IsSpace(StrSpaces, c) && !IsSpace(IntSpaces, c)
    ensures ParsePyInt([c] + "5").None?
  {
    var s := [c] + "5";
    assert s[0] == c;
    StripKeepsNonSpace(IntSpaces, s, 0);
    var t := Strip(IntSpaces, s);
    var j :| 0 <= j < |t| && t[j] == c;
    assert !IsDigit(t[j]);
    if j > 0 {
      assert t[1..][j - 1] == t[j];
    }
  }

  // ---------------------------------------------------------------------------
  // Hexadecimal

  predicate IsHexDigit(c: char) { '0' <= c <= '9' || 'a' <= c <= 'f' || 'A' <= c <= 'F' }

  predicate IsLowerHexDigit(c: char) { '0' <= c <= '9' || 'a' <= c <= 'f' }

  predicate AllHex(s: string) { forall i :: 0 <= i < |s| ==> IsHexDigit(s[i]) }

  function HexDigitValue(c: char): (d: nat)
    requires IsHexDigit(c)
    ensures d < 16
  {
    if c <= '9' then (c as int) - ('0' as int)
    else if c <= 'F' then (c as int) - ('A' as int) + 10
    else (c as int) - ('a' as int) + 10
  }

  function HexDigitChar(d: nat): (c: char)
    requires d < 16
    ensures IsLowerHexDigit(c) && HexDigitValue(c) == d
  {
    if d < 10 then (('0' as int) + d) as char else (('a' as int) + d - 10) as char
  }

  /** bytes.hex(): two lowercase hex digits per byte. */
  function HexEncode(b: Bytes): (s: string)
    ensures |s| == 2 * |b|
    ensures forall i :: 0 <= i < |s| ==> IsLowerHexDigit(s[i])
  {
    if |b| == 0 then "" else [HexDigitChar(b[0] / 16), HexDigitChar(b[0] % 16)] + HexEncode(b[1..])
  }

  /** bytes.fromhex() on pairs of hex digits of either case, with no separators. */
  function HexDecode(s: string): (r: Option<Bytes>)
    ensures r.Some? ==> |r.value| * 2 == |s|
  {
    if |s| == 0 then Some([])
    else if |s| == 1 || !IsHexDigit(s[0]) || !IsHexDigit(s[1]) then None
    else match HexDecode(s[2..])
      case None => None
      case Some(rest) => Some([HexDigitValue(s[0]) * 16 + HexDigitValue(s[1])] + rest)
  }

  /** Decoding succeeds exactly on even-length strings of hex digits. */
  lemma {:induction false} HexDecodeDefined(s: string)
    ensures HexDecode(s).Some? <==> (|s| % 2 == 0 && AllHex(s))
  {
    if |s| >= 2 {
      HexDecodeDefined(s[2..]);
      if IsHexDigit(s[0]) && IsHexDigit(s[1]) && AllHex(s[2..]) {
        forall i | 0 <= i < |s| ensures IsHexDigit(s[i]) {
          if i >= 2 { assert s[i] == s[2..][i - 2]; }
        }
      }
      if AllHex(s) {
        forall i | 0 <= i < |s| - 2 ensures IsHexDigit(s[2..][i]) {
          assert s[2..][i] == s[i + 2];
        }
      }
    }
  }

  /** bytes.fromhex(b.hex()) == b. */
  lemma {:induction false} HexRoundTrip(b: Bytes)
    ensures HexDecode(HexEncode(b)) == Some(b)
  {
    if |b| > 0 {
      HexRoundTrip(b[1..]);
      var s := HexEncode(b);
      assert s[2..] == HexEncode(b[1..]);
      assert HexDigitValue(s[0]) * 16 + HexDigitValue(s[1]) == b[0];
      assert [b[0]] + b[1..] == b;
    }
  }

  /** Equal hex renderings come from equal bytes. */
  lemma HexEncodeInjective(a: Bytes, b: Bytes)
    requires HexEncode(a) == HexEncode(b)
    ensures a == b
  {
    HexRoundTrip(a);
    HexRoundTrip(b);
  }

  /** Removes one leading "0x" (`s[2:] if s.startswith("0x")`). */
  function StripHexPrefix(s: string): (r: string)
    ensures |r| <= |s|
  {
    if |s| >= 2 && s[..2] == "0x" then s[2..] else s
  }

  // ---------------------------------------------------------------------------
  // Case and splitting

  function AsciiLowerChar(c: char): char
  {
    if 'A' <= c <= 'Z' then ((c as int) - ('A' as int) + ('a' as int)) as char else c
  }

  /** No ASCII capital letter occurs in the text. */
  predicate NoAsciiUpper(s: string) { forall i :: 0 <= i < |s| ==> !('A' <= s[i] <= 'Z') }

  /** str.lower() on ASCII letters; every other character is kept. */
  function AsciiLower(s: string): (r: string)
    ensures |r| == |s|
    ensures forall i :: 0 <= i < |s| ==> r[i] == AsciiLowerChar(s[i])
    ensures NoAsciiUpper(r)
  {
    if |s| == 0 then "" else [AsciiLowerChar(s[0])] + AsciiLower(s[1..])
  }

  /** Lowering hex text leaves it as it was: bytes.hex().lower() == bytes.hex(). */
  lemma HexEncodeIsLower(b: Bytes)
    ensures AsciiLower(HexEncode(b)) == HexEncode(b)
  {
    var s := HexEncode(b);
    assert forall i :: 0 <= i < |s| ==> AsciiLowerChar(s[i]) == s[i];
  }

  /** str.split(sep) for a one-character separator. */
  function Split(s: string, sep: char): (r: seq<string>)
    ensures |r| >= 1
  {
    if |s| == 0 then [""]
    else
      var rest := Split(s[1..], sep);
      if s[0] == sep then [""] + rest else [[s[0]] + rest[0]] + rest[1..]
  }

  /** No character of `s` is `sep`. */
  predicate Lacks(s: string, sep: char) { forall i :: 0 <= i < |s| ==> s[i] != sep }

  /** A string without the separator is one field. */
  lemma {:induction false} SplitNoSeparator(s: string, sep: char)
    requires Lacks(s, sep)
    ensures Split(s, sep) == [s]
  {
    if |s| > 0 {
      assert Lacks(s[1..], sep) by { assert forall i :: 0 <= i < |s| - 1 ==> s[1..][i] == s[i + 1]; }
      SplitNoSeparator(s[1..], sep);
      assert [s[0]] + s[1..] == s;
    }
  }

  /** A field followed by the separator splits off as the first element. */
  lemma {:induction false} SplitFirstField(a: string, sep: char, t: string)
    requires Lacks(a, sep)
    ensures Split(a + [sep] + t, sep) == [a] + Split(t, sep)
  {
    if |a| == 0 {
      assert a + [sep] + t == [sep] + t;
      assert ([sep] + t)[1..] == t;
    } else {
      assert Lacks(a[1..], sep) by { assert forall i :: 0 <= i < |a| - 1 ==> a[1..][i] == a[i + 1]; }
      SplitFirstField(a[1..], sep, t);
      assert (a + [sep] + t)[1..] == a[1..] + [sep] + t;
      assert [a[0]] + a[1..] == a;
    }
  }

  /** str.join for a one-character separator. */
  function Join(parts: seq<string>, sep: char): string
  {
    if |parts| == 0 then ""
    else if |parts| == 1 then parts[0]
    else parts[0] + [sep] + Join(parts[1..], sep)
  }

  /** `sep.join(s.split(sep)) == s`: the fields of a split put back together give the string. */
  lemma {:induction false} SplitRejoins(s: string, sep: char)
    ensures Join(Split(s, sep), sep) == s
  {
    if |s| > 0 {
      var rest := Split(s[1..], sep);
      SplitRejoins(s[1..], sep);
      if s[0] == sep {
        assert Split(s, sep)[1..] == rest;
        assert [sep] + s[1..] == s;
      } else {
        JoinExtendsFirst([s[0]], rest, sep);
        assert [s[0]] + s[1..] == s;
      }
    }
  }

  lemma JoinExtendsFirst(c: string, parts: seq<string>, sep: char)
    requires |parts| >= 1
    ensures Join([c + parts[0]] + parts[1..], sep) == c + Join(parts, sep)
  {
    var q := [c + parts[0]] + parts[1..];
    if |parts| > 1 {
      assert q[1..] == parts[1..];
    }
  }

  /** Three fields of a split rejoin as `a.b.c`. */
  lemma SplitThreeRejoins(s: string, sep: char)
    requires |Split(s, sep)| == 3
    ensures var p := Split(s, sep); s == p[0] + [sep] + p[1] + [sep] + p[2]
  {
    var p := Split(s, sep);
    SplitRejoins(s, sep);
    assert p[1..][1..] == [p[2]];
    assert Join(p[1..], sep) == p[1] + [sep] + p[2];
    assert p[0] + [sep] + (p[1] + [sep] + p[2]) == p[0] + [sep] + p[1] + [sep] + p[2];
  }

  /** Two fields of a split rejoin as `a-b`. */
  lemma SplitTwoRejoins(s: string, sep: char)
    requires |Split(s, sep)| == 2
    ensures var p := Split(s, sep); s == p[0] + [sep] + p[1]
  {
    SplitRejoins(s, sep);
  }
}
