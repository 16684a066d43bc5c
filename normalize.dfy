/**
 * The number normaliser of the station importer: a decoded JSON field is
 * turned into a string, trimmed, stripped of trailing commas and read with
 * parseFloat; null, undefined and NaN all become absent.
 */
module Normalize {
  import opened Wrappers
  import opened JsNumbers

  /** A number JSON.parse produces: a canonical decimal, or an infinity for a literal too large. */
  type JsonNumber = d: Decimal | WfDecimal(d) witness Finite(false, 0, 0)

  /** A decoded JSON value as a record field holds it; a missing field reads as JUndefined. */
  datatype Json =
    | JUndefined
    | JNull
    | JBool(b: bool)
    | JNumber(n: JsonNumber)
    | JString(s: string)
    | JObject(fields: map<string, Json>)

  predicate IsNullish(v: Json) { v.JUndefined? || v.JNull? }

  /** The outcome of evaluating a JavaScript expression: its value, or a thrown TypeError. */
  datatype Outcome<T> = Returns(value: T) | Throws

  /**
   * The string conversion of an object with its own "toString" field throws:
   * a decoded value is never callable, so OrdinaryToPrimitive passes over
   * that field, and the valueOf the object inherits returns the object itself.
   */
  predicate ThrowsOnString(v: Json) { v.JObject? && "toString" in v.fields }

  /**
   * String(v), and equally a template literal's ${v}, for the values a record
   * field can hold; a number is written by Number::toString, which parseFloat
   * reads back (negative zero as zero).
   */
  function ToStr(v: Json): (r: Outcome<string>)
    ensures r.Throws? <==> ThrowsOnString(v)
    ensures v.JNumber? ==> r.Returns? && ParseFloat(r.value) == Some(DropNegativeZero(v.n))
  {
    match v
    case JUndefined => Returns("undefined")
    case JNull => Returns("null")
    case JBool(b) => Returns(if b then "true" else "false")
    case JNumber(n) =>
      ParseFloatNumberToString(n); Returns(NumberToString(n))
    case JString(s) => Returns(s)
    case JObject(f) => if "toString" in f then Throws else Returns("[object Object]")
  }

  /** An object with its own "toString" field cannot be turned into a string. */
  lemma ToStrThrowsExample()
    ensures ToStr(JObject(map["toString" := JNumber(Finite(false, 1, 0))])) == Throws
    ensures ToStr(JObject(map["valueOf" := JNumber(Finite(false, 1, 0))])) == Returns("[object Object]")
  {
  }

  /** s.replace(/,+$/, ""): the longest run of commas at the very end is removed. */
  function StripTrailingCommas(s: string): (r: string)
    ensures |r| <= |s|
    ensures r == [] || r[|r| - 1] != ','
  {
    if s != [] && s[|s| - 1] == ',' then StripTrailingCommas(s[..|s| - 1]) else s
  }

  predicate AllCommas(k: string) { forall i :: 0 <= i < |k| ==> k[i] == ',' }

  /** Stripping removes exactly a run of commas from the back. */
  lemma {:induction false} StripShape(s: string)
    ensures var r := StripTrailingCommas(s);
      s == r + s[|r|..] && AllCommas(s[|r|..])
  {
    if s != [] && s[|s| - 1] == ',' {
      var t := s[..|s| - 1];
      StripShape(t);
      var r := StripTrailingCommas(s);
      assert r == StripTrailingCommas(t);
      assert t == r + t[|r|..];
      assert s[|r|..] == t[|r|..] + [s[|s| - 1]];
      assert s == t + [s[|s| - 1]];
    } else {
      assert s[|s|..] == [];
    }
  }

  /**
   * normalizeNumber: absent for null and undefined, otherwise parseFloat of the
   * cleaned string; it throws where the string conversion does.
   */
  function NormalizeNumber(v: Json): (r: Outcome<Option<Decimal>>)
    ensures IsNullish(v) ==> r == Returns(None)
    ensures r.Throws? <==> ThrowsOnString(v)
    ensures r.Returns? && r.value.Some? ==> WfDecimal(r.value.value)
  {
    if IsNullish(v) then Returns(None)
    else
      match ToStr(v)
      case Throws => Throws
      case Returns(s) => Returns(ParseFloat(StripTrailingCommas(Trim(s))))
  }

  lemma SpaceSplit(e: string, w: string)
    requires AllWhiteSpace(w)
    ensures TrimStart(e + w) == (if TrimStart(e) == [] then [] else TrimStart(e) + w)
  {
    TrimStartAppend(e, w);
    TrimStartOfWhiteSpace(w);
  }

  /** Commas then whitespace cannot continue a literal. */
  lemma CommasThenSpace(k: string, w: string)
    requires AllCommas(k) && AllWhiteSpace(w)
    ensures Stops(k + w)
  {
    if k != [] {
      assert (k + w)[0] == ',';
    } else {
      assert k + w == w;
    }
  }

  lemma AppendAssociative(a: string, b: string, c: string)
    ensures (a + b) + c == a + (b + c)
  {
  }

  /** What parseFloat reads from a string is what it reads from the cleaned string. */
  /** s split as a trimmed start t followed by whitespace w, and t as c followed by commas k. */
  lemma CleanPieces(s: string, e: string, w: string, c: string, k: string)
    requires s == e + w && AllWhiteSpace(w) && AllCommas(k)
    requires TrimStart(e) == c + k && (c == [] || !IsWhiteSpace(c[0]))
    ensures ParseFloat(c) == ParseFloat(s)
  {
    SpaceSplit(e, w);
    if c + k != [] {
      CommasThenSpace(k, w);
      assert TrimStart(s) == (c + k) + w;
      AppendAssociative(c, k, w);
      ParseFloatOfTrimmed(s, c, k + w);
    } else {
      assert c == [];
      ParseFloatOfTrimmed(s, c, []);
    }
  }

  lemma ParseFloatClean(s: string)
    ensures ParseFloat(StripTrailingCommas(Trim(s))) == ParseFloat(s)
  {
    var e := TrimEnd(s);
    var t := TrimStart(e);
    var c := StripTrailingCommas(t);
    TrimEndShape(s);
    StripShape(t);
    assert c != [] ==> c[0] == t[0];
    CleanPieces(s, e, s[|e|..], c, t[|c|..]);
  }

  /**
   * Trimming and stripping trailing commas change nothing parseFloat reads:
   * the normaliser of a value is parseFloat of its string form.
   */
  lemma NormalizeIsParseFloat(v: Json)
    requires !IsNullish(v) && !ThrowsOnString(v)
    ensures NormalizeNumber(v) == Returns(ParseFloat(ToStr(v).value))
  {
    ParseFloatClean(ToStr(v).value);
  }

  /**
   * normalizeNumber is never NaN: it is absent exactly for null, undefined and
   * values whose string form starts with no literal after whitespace.
   */
  lemma NormalizeNone(v: Json)
    ensures NormalizeNumber(v) == Returns(None) <==>
      IsNullish(v) || (!ThrowsOnString(v) && forall l :: WfLiteral(l) ==> !(Text(l) <= TrimStart(ToStr(v).value)))
  {
    if !IsNullish(v) && !ThrowsOnString(v) {
      NormalizeIsParseFloat(v);
      ParseFloatNone(ToStr(v).value);
    }
  }

  /** An object with its own "toString" field makes normalizeNumber throw. */
  lemma NormalizeThrowsExample()
    ensures NormalizeNumber(JObject(map["toString" := JNumber(Finite(false, 1, 0))])) == Throws
  {
  }

  /** Any number of commas appended to a string leaves its normalised value unchanged. */
  lemma TrailingCommasIgnored(s: string, k: string)
    requires AllCommas(k)
    ensures NormalizeNumber(JString(s + k)) == NormalizeNumber(JString(s))
  {
    NormalizeIsParseFloat(JString(s + k));
    NormalizeIsParseFloat(JString(s));
    ParseFloatTrailingCommas(s, k);
  }

  lemma ParseFloatTrailingCommas(s: string, k: string)
    requires AllCommas(k)
    ensures ParseFloat(s + k) == ParseFloat(s)
  {
    if k == [] {
      assert s + k == s;
    } else {
      assert k[0] == ',';
      TrimStartOfNonSpace(k);
      ParseFloatStop(s, k);
    }
  }

  /** Whitespace around a string leaves its normalised value unchanged. */
  lemma SurroundingSpaceIgnored(v: string, s: string, w: string)
    requires AllWhiteSpace(v) && AllWhiteSpace(w)
    ensures NormalizeNumber(JString(v + s + w)) == NormalizeNumber(JString(s))
  {
    NormalizeIsParseFloat(JString(v + s + w));
    NormalizeIsParseFloat(JString(s));
    ParseFloatSurroundingSpace(v, s, w);
  }

  /** A decoded number normalises to itself, except that negative zero becomes zero. */
  lemma NormalizeNumberValue(d: Decimal)
    requires WfDecimal(d)
    ensures NormalizeNumber(JNumber(d)) == Returns(Some(DropNegativeZero(d)))
    ensures !(d.Finite? && d.mantissa == 0) ==> NormalizeNumber(JNumber(d)) == Returns(Some(d))
  {
    NormalizeIsParseFloat(JNumber(d));
  }

  /** String(-0) is "0", so a negative zero coordinate is stored as zero. */
  lemma NormalizeNegativeZero()
    ensures NormalizeNumber(JNumber(Finite(true, 0, 0))) == Returns(Some(Finite(false, 0, 0)))
  {
    NormalizeNumberValue(Finite(true, 0, 0));
  }

  /** A literal followed by text no literal can continue normalises to the literal's value. */
  lemma NormalizeLiteralPrefix(l: Literal, w: string)
    requires WfLiteral(l) && Stops(w)
    ensures NormalizeNumber(JString(Text(l) + w)) == Returns(Some(Meaning(l)))
  {
    NormalizeIsParseFloat(JString(Text(l) + w));
    ParseFloatLiteralPrefix(l, w);
  }

  /** A string that starts with nothing a number can start with normalises to absent. */
  lemma NoNumberIn(s: string)
    requires NoNumberStart(s)
    ensures NormalizeNumber(JString(s)) == Returns(None)
  {
    NormalizeIsParseFloat(JString(s));
    ParseFloatNoNumber(s);
  }

  lemma DigitsValue123()
    ensures DigitsValue("12" + "3") == 123
  {
    assert "12" + "3" == "123";
    assert "123"[..2] == "12";
    assert "12"[..1] == "1";
    assert "1"[..0] == "";
  }

  lemma DigitsValue10()
    ensures DigitsValue("10" + "") == 10
  {
    assert "10" + "" == "10";
    assert "10"[..1] == "1";
    assert "1"[..0] == "";
  }

  lemma DigitsValue452()
    ensures DigitsValue("45" + "2") == 452
  {
    assert "45" + "2" == "452";
    assert "452"[..2] == "45";
    assert "45"[..1] == "4";
    assert "4"[..0] == "";
  }

  /** Digits, a point and junk: the number before the junk. */
  lemma ExampleJunkAfterNumber()
    ensures NormalizeNumber(JString("12.3abc")) == Returns(Some(Finite(false, 123, -1)))
  {
    var l := Literal(NoSign, DigitsBody("12", true, "3", None));
    DigitsValue123();
    assert Meaning(l) == Finite(false, 123, -1);
    assert Text(l) + "abc" == "12.3abc";
    NormalizeLiteralPrefix(l, "abc");
  }

  /** A trailing comma is dropped. */
  lemma ExampleTrailingComma()
    ensures NormalizeNumber(JString("10,")) == Returns(Some(Finite(false, 1, 1)))
  {
    var l := Literal(NoSign, DigitsBody("10", false, "", None));
    DigitsValue10();
    assert Meaning(l) == Normal(false, 10, 0);
    assert Normal(false, 10, 0) == Normal(false, 1, 1) == Finite(false, 1, 1);
    assert Text(l) + "," == "10,";
    NormalizeLiteralPrefix(l, ",");
  }

  /** Several trailing commas are dropped. */
  lemma ExampleTrailingCommas()
    ensures NormalizeNumber(JString("45.2,,")) == Returns(Some(Finite(false, 452, -1)))
  {
    var l := Literal(NoSign, DigitsBody("45", true, "2", None));
    DigitsValue452();
    assert Meaning(l) == Finite(false, 452, -1);
    assert Text(l) + ",," == "45.2,,";
    NormalizeLiteralPrefix(l, ",,");
  }

  /** The text "-0" keeps its sign: parseFloat gives negative zero. */
  lemma ExampleNegativeZeroText()
    ensures NormalizeNumber(JString("-0")) == Returns(Some(Finite(true, 0, 0)))
  {
    var l := Literal(Minus, DigitsBody("0", false, "", None));
    assert "0" + "" == "0";
    assert "0"[..0] == "";
    assert DigitsValue("0" + "") == 0;
    assert Meaning(l) == Finite(true, 0, 0);
    assert Text(l) + "" == "-0";
    NormalizeLiteralPrefix(l, "");
  }

  /** The empty string normalises to absent. */
  lemma ExampleEmpty()
    ensures NormalizeNumber(JString("")) == Returns(None)
  {
    NoNumberIn("");
  }

  /** Text with no number in front normalises to absent. */
  lemma ExampleLetters()
    ensures NormalizeNumber(JString("abc")) == Returns(None)
  {
    NoNumberIn("abc");
  }

  lemma ExampleNotAvailable()
    ensures NormalizeNumber(JString("N/A")) == Returns(None)
  {
    NoNumberIn("N/A");
  }

  /** "true" starts with a letter of Infinity but is no number either. */
  lemma ExampleTrueText()
    ensures NormalizeNumber(JString("true")) == Returns(None)
  {
    NoNumberIn("true");
  }
}
