/** The port setting of the test-kit server (tck/server.py). */
module TckServer {
  import opened Wrappers
  import opened Text

  datatype PortError =
    | NotAnInteger(text: string)
    | OutOfRange(port: int)

  /** The value used when TCK_PORT is not set. */
  const DefaultPort: string := "8544"

  predicate InPortRange(p: int) { 1 <= p <= 65535 }

  /**
   * _parse_port: int() of the text, which must then lie in 1..65535; text
   * that int() refuses and numbers out of range are reported differently.
   */
  function ParsePort(s: string): (r: Result<int, PortError>)
    ensures r.Ok? ==> InPortRange(r.value) && ParsePyInt(s) == Some(r.value)
    ensures ParsePyInt(s).None? <==> r == Err(NotAnInteger(s))
    ensures r.Err? && r.error.OutOfRange? ==> ParsePyInt(s) == Some(r.error.port) && !InPortRange(r.error.port)
    ensures ParsePyInt(s).Some? && InPortRange(ParsePyInt(s).value) ==> r == Ok(ParsePyInt(s).value)
    ensures ParsePyInt(s).Some? && !InPortRange(ParsePyInt(s).value) ==> r == Err(OutOfRange(ParsePyInt(s).value))
  {
    match ParsePyInt(s)
    case None => Err(NotAnInteger(s))
    case Some(p) => if InPortRange(p) then Ok(p) else Err(OutOfRange(p))
  }

  /** Every port in range, written as Python writes it, with or without surrounding whitespace, is read back. */
  lemma ParsePortOfPortText(pre: string, p: int, post: string)
    requires AllSpace(IntSpaces, pre) && AllSpace(IntSpaces, post)
    ensures InPortRange(p) ==> ParsePort(pre + IntToString(p) + post) == Ok(p)
    ensures !InPortRange(p) ==> ParsePort(pre + IntToString(p) + post) == Err(OutOfRange(p))
  {
    ParsePyIntOfIntToString(pre, p, post);
  }

  /** The same without whitespace: `_parse_port(str(p))`. */
  lemma ParsePortOfIntText(p: int)
    ensures ParsePort(IntToString(p)) == if InPortRange(p) then Ok(p) else Err(OutOfRange(p))
  {
    ParsePortOfPortText("", p, "");
    assert "" + IntToString(p) + "" == IntToString(p);
  }

  /** The default setting gives port 8544. */
  lemma DefaultPortIs8544()
    ensures ParsePort(DefaultPort) == Ok(8544)
  {
    assert IntToString(8544) == DefaultPort;
    ParsePortOfIntText(8544);
  }

  /** 0 and 65536, just outside the range, are refused with the number they name. */
  lemma PortRangeOuterEnds()
    ensures ParsePort("0") == Err(OutOfRange(0))
    ensures ParsePort("65536") == Err(OutOfRange(65536))
  {
    PortLiteral(0, "0");
    PortLiteral(65536, "65536");
  }

  /** A negative number is refused as out of range, not as malformed text. */
  lemma NegativePortIsOutOfRange()
    ensures ParsePort("-1") == Err(OutOfRange(-1))
  {
    assert IntToString(-1) == "-" + NatToString(1);
    PortLiteral(-1, "-1");
  }

  /** 1 and 65535, the ends of the range, are accepted. */
  lemma PortRangeInnerEnds()
    ensures ParsePort("1") == Ok(1) && ParsePort("65535") == Ok(65535)
  {
    PortLiteral(1, "1");
    PortLiteral(65535, "65535");
  }

  lemma PortLiteral(p: int, text: string)
    requires IntToString(p) == text
    ensures ParsePort(text) == if InPortRange(p) then Ok(p) else Err(OutOfRange(p))
  {
    ParsePortOfIntText(p);
  }

  /** Text holding a character other than a sign, a digit or int()'s whitespace is not an integer. */
  lemma NonIntegerTextIsRefused(s: string, i: int)
    requires 0 <= i < |s| && !IsDigit(s[i]) && !IsSpace(IntSpaces, s[i]) && s[i] != '-' && s[i] != '+'
    ensures ParsePort(s) == Err(NotAnInteger(s))
  {
    var t := Strip(IntSpaces, s);
    StripKeepsNonSpace(IntSpaces, s, i);
    var j :| 0 <= j < |t| && t[j] == s[i];
    assert !AllDigits(t);
    if j > 0 {
      assert t[1..][j - 1] == t[j];
      assert !AllDigits(t[1..]);
    }
  }

  /** An empty setting is not an integer. */
  lemma EmptyPortIsRefused()
    ensures ParsePort("") == Err(NotAnInteger(""))
  {
    assert Strip(IntSpaces, "") == "";
  }

  /** An information separator before the digits makes int() refuse the text. */
  lemma SeparatorPaddedPortIsRefused(c: char)
    requires 0x1C <= c as int <= 0x1F
    ensures ParsePort([c] + DefaultPort) == Err(NotAnInteger([c] + DefaultPort))
  {
    InformationSeparatorsAreNotIntSpace(c);
    NonIntegerTextIsRefused([c] + DefaultPort, 0);
  }

  /** int() also reads a leading "+" and leading zeros: "+80" and "080" are port 80. */
  lemma SignedAndZeroPaddedPorts()
    ensures ParsePort("+80") == Ok(80)
    ensures ParsePort("080") == Ok(80)
  {
    assert Strip(IntSpaces, "+80") == "+80";
    assert "+80"[1..] == "80";
    assert DigitsValue("80") == 80 by { assert "80"[..1] == "8"; }
    assert Strip(IntSpaces, "080") == "080";
    assert DigitsValue("080") == 80 by { assert "080"[..2] == "08"; assert "08"[..1] == "0"; }
  }
}
