/**
 * The two global number parsers of ECMA-262 that the service relies on:
 * parseFloat (section 19.2.4, grammar StrDecimalLiteral of section 7.1.4.1)
 * and parseInt with no radix (section 19.2.5), together with the
 * whitespace trimming of TrimString (section 22.1.3.32.1).
 *
 * Numbers are kept exactly: a decimal is its sign, its digit strings and its
 * exponent, never an IEEE-754 double.
 */
module JsNumbers {
  import opened Wrappers

  predicate IsDigit(c: char) { '0' <= c <= '9' }

  predicate IsHexDigit(c: char) { IsDigit(c) || 'a' <= c <= 'f' || 'A' <= c <= 'F' }

  predicate AllDigits(s: string) { forall i :: 0 <= i < |s| ==> IsDigit(s[i]) }

  predicate AllHexDigits(s: string) { forall i :: 0 <= i < |s| ==> IsHexDigit(s[i]) }

  /** WhiteSpace (section 12.2) and LineTerminator (section 12.3) code points. */
  predicate IsWhiteSpace(c: char) {
    var n := c as int;
    n == 0x09 || n == 0x0A || n == 0x0B || n == 0x0C || n == 0x0D || n == 0x20 ||
    n == 0xA0 || n == 0x1680 || (0x2000 <= n <= 0x200A) || n == 0x2028 ||
    n == 0x2029 || n == 0x202F || n == 0x205F || n == 0x3000 || n == 0xFEFF
  }

  predicate AllWhiteSpace(s: string) { forall i :: 0 <= i < |s| ==> IsWhiteSpace(s[i]) }

  /** Every character that can occur in a StrDecimalLiteral. */
  predicate IsLiteralChar(c: char) {
    IsDigit(c) || c == '.' || c == '+' || c == '-' || c == 'e' || c == 'E' ||
    c == 'I' || c == 'n' || c == 'f' || c == 'i' || c == 't' || c == 'y'
  }

  // ---------------------------------------------------------------------------
  // Trimming

  /** TrimString(s, start): drop leading whitespace. */
  function TrimStart(s: string): (r: string)
    ensures |r| <= |s|
    ensures r == [] || !IsWhiteSpace(r[0])
  {
    if s != [] && IsWhiteSpace(s[0]) then TrimStart(s[1..]) else s
  }

  /** TrimString(s, end): drop trailing whitespace. */
  function TrimEnd(s: string): (r: string)
    ensures |r| <= |s|
    ensures r == [] || !IsWhiteSpace(r[|r| - 1])
  {
    if s != [] && IsWhiteSpace(s[|s| - 1]) then TrimEnd(s[..|s| - 1]) else s
  }

  /** String.prototype.trim: no whitespace is left at either end. */
  function Trim(s: string): (r: string)
    ensures |r| <= |s|
    ensures r == [] || (!IsWhiteSpace(r[0]) && !IsWhiteSpace(r[|r| - 1]))
    ensures exists i, j :: 0 <= i <= j <= |s| && r == s[i..j] && AllWhiteSpace(s[..i]) && AllWhiteSpace(s[j..])
  {
    var t := TrimEnd(s);
    TrimEndShape(s);
    TrimStartShape(t);
    var n := |t| - |TrimStart(t)|;
    assert t == s[..|t|];
    assert s[..n] == t[..n];
    assert TrimStart(t) == s[n..|t|];
    TrimStart(t)
  }

  /** TrimStart removes exactly a run of whitespace from the front. */
  lemma {:induction false} TrimStartShape(s: string)
    ensures var n := |s| - |TrimStart(s)|;
      s == s[..n] + TrimStart(s) && AllWhiteSpace(s[..n])
  {
    if s != [] && IsWhiteSpace(s[0]) {
      var t := s[1..];
      TrimStartShape(t);
      var n := |s| - |TrimStart(s)|;
      assert TrimStart(s) == TrimStart(t);
      assert t == t[..n - 1] + TrimStart(t);
      assert s[..n] == [s[0]] + t[..n - 1];
      assert s == [s[0]] + t;
    } else {
      assert s[..0] == [];
    }
  }

  /** TrimEnd removes exactly a run of whitespace from the back. */
  lemma {:induction false} TrimEndShape(s: string)
    ensures s == TrimEnd(s) + s[|TrimEnd(s)|..] && AllWhiteSpace(s[|TrimEnd(s)|..])
  {
    if s != [] && IsWhiteSpace(s[|s| - 1]) {
      var t := s[..|s| - 1];
      TrimEndShape(t);
      var r := TrimEnd(s);
      assert r == TrimEnd(t);
      assert t == r + t[|r|..];
      assert s[|r|..] == t[|r|..] + [s[|s| - 1]];
      assert s == t + [s[|s| - 1]];
    } else {
      assert s[|s|..] == [];
    }
  }

  lemma {:induction false} TrimStartAppend(a: string, b: string)
    ensures TrimStart(a) != [] ==> TrimStart(a + b) == TrimStart(a) + b
    ensures TrimStart(a) == [] ==> TrimStart(a + b) == TrimStart(b)
  {
    if a == [] {
      assert a + b == b;
    } else if IsWhiteSpace(a[0]) {
      assert (a + b)[0] == a[0];
      assert (a + b)[1..] == a[1..] + b;
      assert TrimStart(a) == TrimStart(a[1..]);
      assert TrimStart(a + b) == TrimStart(a[1..] + b);
      TrimStartAppend(a[1..], b);
    } else {
      assert (a + b)[0] == a[0];
    }
  }

  lemma TrimStartOfWhiteSpace(w: string)
    requires AllWhiteSpace(w)
    ensures TrimStart(w) == []
  {
  }

  // ---------------------------------------------------------------------------
  // Runs of digits

  /** Length of the longest prefix of s made of decimal digits. */
  function DigitRun(s: string): (n: nat)
    ensures n <= |s| && AllDigits(s[..n])
    ensures n == |s| || !IsDigit(s[n])
  {
    if s != [] && IsDigit(s[0]) then
      var n := 1 + DigitRun(s[1..]);
      assert s[..n] == [s[0]] + s[1..][..n - 1];
      n
    else 0
  }

  /** Length of the longest prefix of s made of hexadecimal digits. */
  function HexRun(s: string): (n: nat)
    ensures n <= |s| && AllHexDigits(s[..n])
    ensures n == |s| || !IsHexDigit(s[n])
  {
    if s != [] && IsHexDigit(s[0]) then
      var n := 1 + HexRun(s[1..]);
      assert s[..n] == [s[0]] + s[1..][..n - 1];
      n
    else 0
  }

  lemma DigitRunOfAppend(ds: string, w: string)
    requires AllDigits(ds)
    requires w == [] || !IsDigit(w[0])
    ensures DigitRun(ds + w) == |ds|
  {
    var n := DigitRun(ds + w);
    assert (ds + w)[..|ds|] == ds;
  }

  function DigitValue(c: char): (v: nat)
    ensures v < 10
  {
    if IsDigit(c) then c as int - '0' as int else 0
  }

  function HexDigitValue(c: char): (v: nat)
    ensures v < 16
  {
    if IsDigit(c) then c as int - '0' as int
    else if 'a' <= c <= 'f' then c as int - 'a' as int + 10
    else if 'A' <= c <= 'F' then c as int - 'A' as int + 10
    else 0
  }

  /** The number a string of decimal digits denotes. */
  function DigitsValue(ds: string): nat
  {
    if ds == [] then 0 else DigitsValue(ds[..|ds| - 1]) * 10 + DigitValue(ds[|ds| - 1])
  }

  /** The number a string of hexadecimal digits denotes. */
  function HexDigitsValue(ds: string): nat
  {
    if ds == [] then 0 else HexDigitsValue(ds[..|ds| - 1]) * 16 + HexDigitValue(ds[|ds| - 1])
  }

  function DigitChar(d: nat): (c: char)
    requires d < 10
    ensures IsDigit(c) && DigitValue(c) == d
  {
    ('0' as int + d) as char
  }

  /** The shortest decimal spelling of n; its value is n again. */
  function NatDigits(n: nat): (ds: string)
    ensures |ds| > 0 && AllDigits(ds)
    ensures DigitsValue(ds) == n
    ensures ds[0] == '0' ==> n == 0
  {
    if n < 10 then [DigitChar(n)]
    else
      var ds := NatDigits(n / 10) + [DigitChar(n % 10)];
      assert ds[..|ds| - 1] == NatDigits(n / 10);
      ds
  }

  // ---------------------------------------------------------------------------

  /** A string's leading digit run, and what follows it, are found by DigitRun. */
  lemma {:induction false} DigitRunStop(u: string, w: string)
    requires w == [] || !IsDigit(w[0])
    ensures DigitRun(u + w) == DigitRun(u)
  {
    if u == [] {
      assert u + w == w;
    } else {
      assert (u + w)[0] == u[0];
      assert (u + w)[1..] == u[1..] + w;
      if IsDigit(u[0]) {
        DigitRunStop(u[1..], w);
      }
    }
  }

  // ---------------------------------------------------------------------------
  // Facts about prefixes, each stated once and used by name

  lemma TakePrefix(r: string, n: nat)
    requires n <= |r|
    ensures r[..n] <= r
  {
  }

  lemma CharPrefix(c: char, r: string)
    requires r != [] && r[0] == c
    ensures [c] <= r
  {
  }

  lemma ConcatPrefix(a: string, b: string, r: string)
    requires a <= r && |a| <= |r| && b <= r[|a|..]
    ensures a + b <= r
  {
    assert forall j :: 0 <= j < |a + b| ==> (a + b)[j] == r[j] by {
      forall j | 0 <= j < |a + b| ensures (a + b)[j] == r[j] {
        if j >= |a| {
          assert (a + b)[j] == b[j - |a|] == r[|a|..][j - |a|];
        }
      }
    }
  }

  lemma DropConcat(a: string, b: string)
    ensures (a + b)[|a|..] == b
  {
  }

  lemma TakeConcat(a: string, b: string)
    ensures (a + b)[..|a|] == a
  {
  }

  lemma DropAppend(a: string, w: string, k: nat)
    requires k <= |a|
    ensures (a + w)[k..] == a[k..] + w
  {
  }

  lemma TakeAppend(a: string, w: string, k: nat)
    requires k <= |a|
    ensures (a + w)[..k] == a[..k]
  {
  }

  lemma PrefixOfConcat(a: string, b: string)
    ensures a <= a + b
  {
  }

  lemma PrefixTrans(a: string, b: string, c: string)
    ensures a <= b && b <= c ==> a <= c
  {
  }

  lemma PrefixAt(t: string, r: string, j: nat)
    ensures t <= r && j < |t| ==> r[j] == t[j]
  {
  }

  lemma PrefixTake(t: string, r: string)
    ensures t <= r ==> |t| <= |r| && r[..|t|] == t
  {
  }

  lemma SuffixPrefix(t: string, r: string, i: nat)
    ensures t <= r && i <= |t| ==> t[i..] <= r[i..]
  {
    if t <= r && i <= |t| {
      assert t[i..] == r[i..][..|t| - i];
    }
  }

  lemma DropDrop(r: string, i: nat, j: nat)
    requires i + j <= |r|
    ensures r[i..][j..] == r[i + j..]
  {
  }

  lemma DigitRunAtLeast(s: string, ds: string)
    requires AllDigits(ds) && ds <= s
    ensures |ds| <= DigitRun(s)
  {
  }

  // ---------------------------------------------------------------------------
  // The StrDecimalLiteral grammar of section 7.1.4.1, as syntax trees

  datatype Sign = NoSign | Plus | Minus

  /** ExponentPart: an indicator e or E, an optional sign and at least one digit. */
  datatype ExponentPart = ExponentPart(upper: bool, sign: Sign, digits: string)

  /** StrUnsignedDecimalLiteral: Infinity, or digits with an optional fraction and exponent. */
  datatype Body =
    | InfinityBody
    | DigitsBody(intPart: string, dot: bool, fracPart: string, exponent: Option<ExponentPart>)

  /** StrDecimalLiteral: an optional sign followed by an unsigned literal. */
  datatype Literal = Literal(sign: Sign, body: Body)

  predicate WfExponent(e: ExponentPart) { |e.digits| > 0 && AllDigits(e.digits) }

  predicate WfBody(b: Body) {
    match b
    case InfinityBody => true
    case DigitsBody(ip, dot, fp, e) =>
      && AllDigits(ip) && AllDigits(fp)
      && (dot || fp == [])
      && (|ip| > 0 || |fp| > 0)
      && (e.Some? ==> WfExponent(e.value))
  }

  predicate WfLiteral(l: Literal) { WfBody(l.body) }

  function SignText(s: Sign): string {
    match s
    case NoSign => ""
    case Plus => "+"
    case Minus => "-"
  }

  function ExponentText(e: Option<ExponentPart>): string {
    match e
    case None => ""
    case Some(x) => [if x.upper then 'E' else 'e'] + SignText(x.sign) + x.digits
  }

  /** What a digits body spells after its integer digits. */
  function TailText(dot: bool, fp: string, e: Option<ExponentPart>): string {
    (if dot then "." + fp else "") + ExponentText(e)
  }

  function BodyText(b: Body): string {
    match b
    case InfinityBody => "Infinity"
    case DigitsBody(ip, dot, fp, e) => ip + TailText(dot, fp, e)
  }

  /** The characters a literal is spelled with. */
  function Text(l: Literal): string { SignText(l.sign) + BodyText(l.body) }

  /** l is the longest prefix of s that StrDecimalLiteral derives. */
  ghost predicate IsLongestLiteralPrefix(s: string, l: Literal) {
    && WfLiteral(l) && Text(l) <= s
    && forall m :: WfLiteral(m) && Text(m) <= s ==> |Text(m)| <= |Text(l)|
  }

  lemma ExponentFirst(e: Option<ExponentPart>)
    ensures e.None? <==> ExponentText(e) == []
    ensures e.Some? ==> ExponentText(e)[0] == 'e' || ExponentText(e)[0] == 'E'
  {
  }

  lemma TailFirst(dot: bool, fp: string, e: Option<ExponentPart>)
    ensures var t := TailText(dot, fp, e);
      t == [] || t[0] == '.' || t[0] == 'e' || t[0] == 'E'
    ensures dot ==> TailText(dot, fp, e)[0] == '.'
    ensures !dot ==> TailText(dot, fp, e) == ExponentText(e)
  {
    ExponentFirst(e);
  }

  lemma DottedTail(fp: string, e: Option<ExponentPart>)
    ensures TailText(true, fp, e) == "." + fp + ExponentText(e)
    ensures TailText(true, fp, e)[1..] == fp + ExponentText(e)
  {
    assert "." + fp + ExponentText(e) == "." + (fp + ExponentText(e));
  }

  /** First character of a digits body: a digit or the decimal point. */
  lemma DigitsBodyFirst(b: Body)
    requires WfBody(b) && b.DigitsBody?
    ensures |BodyText(b)| > 0 && (IsDigit(BodyText(b)[0]) || BodyText(b)[0] == '.')
  {
    TailFirst(b.dot, b.fracPart, b.exponent);
  }

  lemma BodyFirst(b: Body)
    requires WfBody(b)
    ensures |BodyText(b)| > 0 && IsLiteralChar(BodyText(b)[0])
    ensures BodyText(b)[0] != '+' && BodyText(b)[0] != '-'
  {
    if b.DigitsBody? {
      DigitsBodyFirst(b);
    }
  }

  lemma TextFirst(l: Literal)
    requires WfLiteral(l)
    ensures |Text(l)| > 0 && IsLiteralChar(Text(l)[0])
  {
    BodyFirst(l.body);
  }

  // ---------------------------------------------------------------------------
  // The greedy scanner

  function ScanSign(s: string): Sign {
    if s != [] && s[0] == '+' then Plus
    else if s != [] && s[0] == '-' then Minus
    else NoSign
  }

  function ScanExponent(r: string): Option<ExponentPart> {
    if r != [] && (r[0] == 'e' || r[0] == 'E') then
      var sg := ScanSign(r[1..]);
      var u := r[1..][|SignText(sg)|..];
      var n := DigitRun(u);
      if n == 0 then None else Some(ExponentPart(r[0] == 'E', sg, u[..n]))
    else None
  }

  predicate StartsWithInfinity(r: string) { |r| >= 8 && r[..8] == "Infinity" }

  function ScanBody(r: string): Option<Body> {
    if StartsWithInfinity(r) then Some(InfinityBody)
    else
      var n := DigitRun(r);
      ScanTail(r[..n], r[n..])
  }

  /** The digits body whose integer digits ip have been read and whose remaining input is rest. */
  function ScanTail(ip: string, rest: string): Option<Body> {
    if rest != [] && rest[0] == '.' then
      var f := DigitRun(rest[1..]);
      ScanFraction(ip, rest[1..][..f], rest[1..][f..])
    else if ip == [] then None
    else Some(DigitsBody(ip, false, "", ScanExponent(rest)))
  }

  /** The dotted digits body with integer digits ip and fraction digits fp, before rest. */
  function ScanFraction(ip: string, fp: string, rest: string): Option<Body> {
    if ip == [] && fp == [] then None
    else Some(DigitsBody(ip, true, fp, ScanExponent(rest)))
  }

  /** The literal parseFloat reads at the start of s, if any. */
  function ScanLiteral(s: string): Option<Literal> {
    var sg := ScanSign(s);
    match ScanBody(s[|SignText(sg)|..])
    case None => None
    case Some(b) => Some(Literal(sg, b))
  }

  // ---------------------------------------------------------------------------
  // Soundness: what the scanner returns is a literal spelled at the start of s

  /** A scanned digits body, if any, keeps the integer digits ip and spells the rest of it from rest. */
  predicate ReadsTail(ip: string, rest: string, ob: Option<Body>) {
    ob.Some? ==>
      && ob.value.DigitsBody? && ob.value.intPart == ip && WfBody(ob.value)
      && TailText(ob.value.dot, ob.value.fracPart, ob.value.exponent) <= rest
  }

  lemma ScanSignSound(s: string)
    ensures SignText(ScanSign(s)) <= s
  {
  }

  lemma ScanExponentSound(r: string)
    ensures ScanExponent(r).Some? ==> WfExponent(ScanExponent(r).value)
    ensures ExponentText(ScanExponent(r)) <= r
  {
    if r != [] && (r[0] == 'e' || r[0] == 'E') {
      var c := r[0];
      var sg := ScanSign(r[1..]);
      var st := SignText(sg);
      var u := r[1..][|st|..];
      var n := DigitRun(u);
      if n > 0 {
        var x := ExponentPart(c == 'E', sg, u[..n]);
        assert ScanExponent(r) == Some(x);
        assert ExponentText(Some(x)) == [c] + st + u[..n];
        ScanSignSound(r[1..]);
        CharPrefix(c, r);
        ConcatPrefix([c], st, r);
        DropDrop(r, 1, |st|);
        TakePrefix(u, n);
        ConcatPrefix([c] + st, u[..n], r);
      }
    }
  }

  lemma ScanFractionSound(ip: string, rest: string)
    requires AllDigits(ip) && rest != [] && rest[0] == '.'
    ensures var f := DigitRun(rest[1..]);
      ReadsTail(ip, rest, ScanFraction(ip, rest[1..][..f], rest[1..][f..]))
  {
    var v := rest[1..];
    var f := DigitRun(v);
    var fp := v[..f];
    if ip != [] || fp != [] {
      var x := ScanExponent(v[f..]);
      ScanExponentSound(v[f..]);
      DottedTail(fp, x);
      CharPrefix('.', rest);
      TakePrefix(v, f);
      ConcatPrefix(".", fp, rest);
      DropDrop(rest, 1, f);
      ConcatPrefix("." + fp, ExponentText(x), rest);
    }
  }

  lemma ScanTailSound(ip: string, rest: string)
    requires AllDigits(ip)
    ensures ReadsTail(ip, rest, ScanTail(ip, rest))
  {
    if rest != [] && rest[0] == '.' {
      ScanFractionSound(ip, rest);
    } else if ip != [] {
      var x := ScanExponent(rest);
      ScanExponentSound(rest);
      TailFirst(false, "", x);
    }
  }

  lemma InfinityPrefix(r: string)
    requires StartsWithInfinity(r)
    ensures BodyText(InfinityBody) <= r
  {
    TakePrefix(r, 8);
  }

  lemma ScanBodySound(r: string)
    ensures ScanBody(r).Some? ==> WfBody(ScanBody(r).value) && BodyText(ScanBody(r).value) <= r
  {
    if StartsWithInfinity(r) {
      InfinityPrefix(r);
    } else {
      var n := DigitRun(r);
      ScanTailSound(r[..n], r[n..]);
      if ScanTail(r[..n], r[n..]).Some? {
        var b := ScanTail(r[..n], r[n..]).value;
        var t := TailText(b.dot, b.fracPart, b.exponent);
        assert BodyText(b) == r[..n] + t;
        TakePrefix(r, n);
        ConcatPrefix(r[..n], t, r);
      }
    }
  }

  lemma ScanLiteralSound(s: string)
    ensures ScanLiteral(s).Some? ==> WfLiteral(ScanLiteral(s).value) && Text(ScanLiteral(s).value) <= s
  {
    var sg := ScanSign(s);
    var st := SignText(sg);
    ScanBodySound(s[|st|..]);
    if ScanBody(s[|st|..]).Some? {
      var b := ScanBody(s[|st|..]).value;
      assert ScanLiteral(s) == Some(Literal(sg, b));
      ScanSignSound(s);
      ConcatPrefix(st, BodyText(b), s);
    }
  }

  // ---------------------------------------------------------------------------
  // Maximality: no literal spelled at the start of s is longer than the scanned one

  /** The sign the scanner reads when a sign is followed by something that is not one. */
  lemma ScanSignOf(sg: Sign, w: string, v: string)
    requires SignText(sg) + w <= v && w != [] && w[0] != '+' && w[0] != '-'
    ensures ScanSign(v) == sg
  {
    PrefixAt(SignText(sg) + w, v, 0);
  }

  lemma ScanExponentMaximal(r: string, e: ExponentPart)
    requires WfExponent(e) && ExponentText(Some(e)) <= r
    ensures ScanExponent(r).Some?
    ensures |ExponentText(ScanExponent(r))| >= |ExponentText(Some(e))|
  {
    var c := if e.upper then 'E' else 'e';
    var st := SignText(e.sign);
    var ds := e.digits;
    var t := ExponentText(Some(e));
    assert t == [c] + (st + ds);
    PrefixAt(t, r, 0);
    SuffixPrefix(t, r, 1);
    DropConcat([c], st + ds);
    ScanSignOf(e.sign, ds, r[1..]);
    SuffixPrefix(st + ds, r[1..], |st|);
    DropConcat(st, ds);
    DigitRunAtLeast(r[1..][|st|..], ds);
  }

  lemma ScanFractionMaximal(ip: string, v: string, fp: string, e: Option<ExponentPart>)
    requires AllDigits(fp) && (ip != [] || fp != []) && (e.Some? ==> WfExponent(e.value))
    requires fp + ExponentText(e) <= v
    ensures var f := DigitRun(v);
      var sb := ScanFraction(ip, v[..f], v[f..]);
      sb.Some? && sb.value.DigitsBody? && sb.value.intPart == ip && sb.value.dot &&
      |sb.value.fracPart| + |ExponentText(sb.value.exponent)| >= |fp| + |ExponentText(e)|
  {
    var f := DigitRun(v);
    var et := ExponentText(e);
    PrefixOfConcat(fp, et);
    PrefixTrans(fp, fp + et, v);
    DigitRunAtLeast(v, fp);
    ExponentFirst(e);
    PrefixAt(fp + et, v, |fp|);
    if |fp| == f {
      SuffixPrefix(fp + et, v, f);
      DropConcat(fp, et);
      if e.Some? {
        ScanExponentMaximal(v[f..], e.value);
      }
    } else {
      assert v[..f][|fp|] == v[|fp|];
    }
  }

  lemma ScanTailMaximal(ip: string, rest: string, b: Body)
    requires WfBody(b) && b.DigitsBody? && b.intPart == ip
    requires TailText(b.dot, b.fracPart, b.exponent) <= rest
    ensures var sb := ScanTail(ip, rest);
      sb.Some? && sb.value.DigitsBody? && sb.value.intPart == ip &&
      |TailText(sb.value.dot, sb.value.fracPart, sb.value.exponent)| >=
        |TailText(b.dot, b.fracPart, b.exponent)|
  {
    var t := TailText(b.dot, b.fracPart, b.exponent);
    TailFirst(b.dot, b.fracPart, b.exponent);
    PrefixAt(t, rest, 0);
    if b.dot {
      DottedTail(b.fracPart, b.exponent);
      SuffixPrefix(t, rest, 1);
      ScanFractionMaximal(ip, rest[1..], b.fracPart, b.exponent);
      var f := DigitRun(rest[1..]);
      var sb := ScanFraction(ip, rest[1..][..f], rest[1..][f..]).value;
      DottedTail(sb.fracPart, sb.exponent);
    } else if rest != [] && rest[0] == '.' {
      var f := DigitRun(rest[1..]);
      var sb := ScanFraction(ip, rest[1..][..f], rest[1..][f..]).value;
      DottedTail(sb.fracPart, sb.exponent);
    } else {
      var x := ScanExponent(rest);
      TailFirst(false, "", x);
      if b.exponent.Some? {
        ScanExponentMaximal(rest, b.exponent.value);
      }
    }
  }

  lemma ScanDigitsBodyMaximal(r: string, b: Body)
    requires WfBody(b) && b.DigitsBody? && BodyText(b) <= r
    requires !StartsWithInfinity(r)
    ensures ScanBody(r).Some? && |BodyText(ScanBody(r).value)| >= |BodyText(b)|
  {
    var ip := b.intPart;
    var tt := TailText(b.dot, b.fracPart, b.exponent);
    var t := BodyText(b);
    assert t == ip + tt;
    PrefixOfConcat(ip, tt);
    PrefixTrans(ip, t, r);
    DigitRunAtLeast(r, ip);
    var n := DigitRun(r);
    assert ScanBody(r) == ScanTail(r[..n], r[n..]);
    if |ip| < n {
      IntPartEnds(r, b);
      ScanTailLength(r[..n], r[n..]);
    } else {
      assert |ip| == n;
      PrefixTake(ip, r);
      SuffixPrefix(t, r, n);
      DropConcat(ip, tt);
      assert t[n..] == tt;
      assert tt <= r[n..];
      ScanTailMaximal(ip, r[n..], b);
      var sb := ScanTail(ip, r[n..]).value;
      assert BodyText(sb) == ip + TailText(sb.dot, sb.fracPart, sb.exponent);
    }
  }

  /** A body spelled at the start of r whose integer digits stop before r's do has nothing after them. */
  lemma IntPartEnds(r: string, b: Body)
    requires WfBody(b) && b.DigitsBody? && BodyText(b) <= r && |b.intPart| < DigitRun(r)
    ensures |BodyText(b)| == |b.intPart|
  {
    var ip := b.intPart;
    var tt := TailText(b.dot, b.fracPart, b.exponent);
    var t := BodyText(b);
    assert t == ip + tt;
    TailFirst(b.dot, b.fracPart, b.exponent);
    PrefixAt(t, r, |ip|);
    assert r[..DigitRun(r)][|ip|] == r[|ip|];
  }

  /** Once the scanner has read some integer digits, it returns a body spelling at least those. */
  lemma ScanTailLength(ip: string, rest: string)
    requires ip != []
    ensures ScanTail(ip, rest).Some? && |BodyText(ScanTail(ip, rest).value)| >= |ip|
  {
  }

  lemma ScanBodyMaximal(r: string, b: Body)
    requires WfBody(b) && BodyText(b) <= r
    ensures ScanBody(r).Some? && |BodyText(ScanBody(r).value)| >= |BodyText(b)|
  {
    var t := BodyText(b);
    if b.InfinityBody? {
      PrefixTake(t, r);
    } else {
      DigitsBodyFirst(b);
      PrefixAt(t, r, 0);
      assert !StartsWithInfinity(r) by {
        if |r| >= 8 {
          assert r[..8][0] == r[0];
        }
      }
      ScanDigitsBodyMaximal(r, b);
    }
  }

  lemma ScanLiteralMaximal(s: string, l: Literal)
    requires WfLiteral(l) && Text(l) <= s
    ensures ScanLiteral(s).Some? && |Text(ScanLiteral(s).value)| >= |Text(l)|
  {
    var st := SignText(l.sign);
    var bt := BodyText(l.body);
    BodyFirst(l.body);
    ScanSignOf(l.sign, bt, s);
    SuffixPrefix(Text(l), s, |st|);
    DropConcat(st, bt);
    ScanBodyMaximal(s[|st|..], l.body);
  }

  /**
   * The scanner finds the longest prefix of s that StrDecimalLiteral derives,
   * and finds none exactly when no prefix of s is such a literal.
   */
  lemma ScanLiteralLongest(s: string)
    ensures ScanLiteral(s).Some? ==> IsLongestLiteralPrefix(s, ScanLiteral(s).value)
    ensures ScanLiteral(s).None? <==> forall l :: WfLiteral(l) ==> !(Text(l) <= s)
  {
    ScanLiteralSound(s);
    forall m | WfLiteral(m) && Text(m) <= s
      ensures ScanLiteral(s).Some? && |Text(m)| <= |Text(ScanLiteral(s).value)|
    {
      ScanLiteralMaximal(s, m);
    }
  }

  // ---------------------------------------------------------------------------
  // Reading back: the scanner reads a literal's own text as that literal

  lemma ScanExponentText(x: ExponentPart)
    requires WfExponent(x)
    ensures ScanExponent(ExponentText(Some(x))) == Some(x)
  {
    var c := if x.upper then 'E' else 'e';
    var st := SignText(x.sign);
    var r := ExponentText(Some(x));
    assert r == [c] + (st + x.digits);
    DropConcat([c], st + x.digits);
    ScanSignOf(x.sign, x.digits, st + x.digits);
    DropConcat(st, x.digits);
    DigitRunOfAppend(x.digits, []);
    assert x.digits + [] == x.digits;
  }

  lemma ScanExponentOf(e: Option<ExponentPart>)
    requires e.Some? ==> WfExponent(e.value)
    ensures ScanExponent(ExponentText(e)) == e
  {
    if e.Some? {
      ScanExponentText(e.value);
    }
  }

  lemma ScanTailText(b: Body)
    requires WfBody(b) && b.DigitsBody?
    ensures ScanTail(b.intPart, TailText(b.dot, b.fracPart, b.exponent)) == Some(b)
  {
    if b.dot {
      ScanDottedTailText(b);
    } else {
      TailFirst(b.dot, b.fracPart, b.exponent);
      ExponentFirst(b.exponent);
      ScanExponentOf(b.exponent);
    }
  }

  lemma ScanDottedTailText(b: Body)
    requires WfBody(b) && b.DigitsBody? && b.dot
    ensures ScanTail(b.intPart, TailText(b.dot, b.fracPart, b.exponent)) == Some(b)
  {
    var et := ExponentText(b.exponent);
    TailFirst(b.dot, b.fracPart, b.exponent);
    ExponentFirst(b.exponent);
    ScanExponentOf(b.exponent);
    DottedTail(b.fracPart, b.exponent);
    DigitRunOfAppend(b.fracPart, et);
    TakeConcat(b.fracPart, et);
    DropConcat(b.fracPart, et);
  }

  lemma ScanBodyText(b: Body)
    requires WfBody(b)
    ensures ScanBody(BodyText(b)) == Some(b)
  {
    if b.DigitsBody? {
      var t := BodyText(b);
      var tt := TailText(b.dot, b.fracPart, b.exponent);
      assert t == b.intPart + tt;
      DigitsBodyFirst(b);
      assert !StartsWithInfinity(t) by {
        if |t| >= 8 {
          assert t[..8][0] == t[0];
        }
      }
      TailFirst(b.dot, b.fracPart, b.exponent);
      DigitRunOfAppend(b.intPart, tt);
      TakeConcat(b.intPart, tt);
      DropConcat(b.intPart, tt);
      ScanTailText(b);
    }
  }

  /** The scanner reads the text of every literal back as that literal. */
  lemma ScanLiteralText(l: Literal)
    requires WfLiteral(l)
    ensures ScanLiteral(Text(l)) == Some(l)
  {
    var st := SignText(l.sign);
    var bt := BodyText(l.body);
    BodyFirst(l.body);
    ScanSignOf(l.sign, bt, Text(l));
    DropConcat(st, bt);
    ScanBodyText(l.body);
  }

  /** Two literals with the same text are the same literal. */
  lemma TextInjective(l: Literal, m: Literal)
    requires WfLiteral(l) && WfLiteral(m) && Text(l) == Text(m)
    ensures l == m
  {
    ScanLiteralText(l);
    ScanLiteralText(m);
  }

  // ---------------------------------------------------------------------------
  // Reading stops at the first character no literal contains

  /** w cannot continue a literal: it is empty or starts with a character no literal uses. */
  predicate Stops(w: string) { w == [] || !IsLiteralChar(w[0]) }

  lemma ScanSignStop(u: string, w: string)
    requires Stops(w)
    ensures ScanSign(u + w) == ScanSign(u)
    ensures |SignText(ScanSign(u))| <= |u|
  {
    if u == [] {
      assert u + w == w;
    } else {
      assert (u + w)[0] == u[0];
    }
  }

  lemma ScanExponentStop(r: string, w: string)
    requires Stops(w)
    ensures ScanExponent(r + w) == ScanExponent(r)
  {
    if r == [] {
      assert r + w == w;
    } else {
      assert (r + w)[0] == r[0];
      if r[0] == 'e' || r[0] == 'E' {
        DropAppend(r, w, 1);
        ScanSignStop(r[1..], w);
        var k := |SignText(ScanSign(r[1..]))|;
        DropAppend(r[1..], w, k);
        var u := r[1..][k..];
        DigitRunStop(u, w);
        TakeAppend(u, w, DigitRun(u));
      }
    }
  }

  lemma ScanTailStop(ip: string, rest: string, w: string)
    requires Stops(w)
    ensures ScanTail(ip, rest + w) == ScanTail(ip, rest)
  {
    if rest == [] {
      assert rest + w == w;
      ScanExponentStop(rest, w);
    } else {
      assert (rest + w)[0] == rest[0];
      if rest[0] == '.' {
        var v := rest[1..];
        DropAppend(rest, w, 1);
        DigitRunStop(v, w);
        var f := DigitRun(v);
        TakeAppend(v, w, f);
        DropAppend(v, w, f);
        ScanExponentStop(v[f..], w);
      } else {
        ScanExponentStop(rest, w);
      }
    }
  }

  lemma InfinityStop(r: string, w: string)
    requires Stops(w)
    ensures StartsWithInfinity(r + w) == StartsWithInfinity(r)
  {
    if |r| >= 8 {
      TakeAppend(r, w, 8);
    } else if w != [] && |r + w| >= 8 {
      assert (r + w)[..8][|r|] == w[0];
      assert forall k :: 0 <= k < 8 ==> IsLiteralChar("Infinity"[k]);
    }
  }

  lemma ScanBodyStop(r: string, w: string)
    requires Stops(w)
    ensures ScanBody(r + w) == ScanBody(r)
  {
    InfinityStop(r, w);
    if !StartsWithInfinity(r) {
      DigitRunStop(r, w);
      var n := DigitRun(r);
      TakeAppend(r, w, n);
      DropAppend(r, w, n);
      ScanTailStop(r[..n], r[n..], w);
    }
  }

  /** What parseFloat reads does not depend on anything after a character no literal uses. */
  lemma ScanLiteralStop(u: string, w: string)
    requires Stops(w)
    ensures ScanLiteral(u + w) == ScanLiteral(u)
  {
    ScanSignStop(u, w);
    var k := |SignText(ScanSign(u))|;
    DropAppend(u, w, k);
    ScanBodyStop(u[k..], w);
  }

  // ---------------------------------------------------------------------------
  // Numbers: the mathematical value a literal denotes, kept exactly

  /**
   * A number parseFloat can produce: (-1)^negative * mantissa * 10^exponent,
   * or an infinity. JavaScript's NaN is the absence of a Decimal.
   */
  datatype Decimal = Finite(negative: bool, mantissa: nat, exponent: int) | Infinite(negative: bool)

  /** The one representation of each value: no trailing zero in the mantissa, and zero as 0e0. */
  predicate WfDecimal(d: Decimal) {
    d.Finite? ==> (d.mantissa == 0 ==> d.exponent == 0) && (d.mantissa != 0 ==> d.mantissa % 10 != 0)
  }

  function Pow10(k: nat): (p: nat)
    ensures p >= 1
  {
    if k == 0 then 1 else 10 * Pow10(k - 1)
  }

  /** The canonical decimal for (-1)^neg * m * 10^e. */
  function Normal(neg: bool, m: nat, e: int): (d: Decimal)
    ensures WfDecimal(d) && d.Finite? && d.negative == neg
    ensures m == 0 <==> d.mantissa == 0
    ensures m != 0 ==> d.exponent >= e && m == d.mantissa * Pow10(d.exponent - e)
    decreases m
  {
    if m == 0 then Finite(neg, 0, 0)
    else if m % 10 != 0 then Finite(neg, m, e)
    else
      var d := Normal(neg, m / 10, e + 1);
      ScaleByTen(m, d.mantissa, Pow10(d.exponent - (e + 1)));
      assert Pow10(d.exponent - e) == 10 * Pow10(d.exponent - (e + 1));
      d
  }

  lemma ScaleByTen(m: nat, a: nat, p: nat)
    requires m % 10 == 0 && m / 10 == a * p
    ensures m == a * (10 * p)
  {
    assert m == 10 * (m / 10);
    assert a * (10 * p) == 10 * (a * p);
  }

  function ExponentValue(e: Option<ExponentPart>): int {
    match e
    case None => 0
    case Some(x) =>
      var v: int := DigitsValue(x.digits);
      if x.sign == Minus then -v else v
  }

  /**
   * The mathematical value of a literal (section 7.1.4.1.1): the digits of both
   * parts read as one integer, scaled by the exponent less the fraction length.
   */
  function Meaning(l: Literal): (d: Decimal)
    ensures WfDecimal(d) && d.negative == (l.sign == Minus)
    ensures d.Infinite? <==> l.body.InfinityBody?
    ensures l.body.DigitsBody? ==>
      var m := DigitsValue(l.body.intPart + l.body.fracPart);
      var e := ExponentValue(l.body.exponent) - |l.body.fracPart|;
      && (m == 0 <==> d.mantissa == 0)
      && (m != 0 ==> d.exponent >= e && m == d.mantissa * Pow10(d.exponent - e))
  {
    match l.body
    case InfinityBody => Infinite(l.sign == Minus)
    case DigitsBody(ip, _, fp, e) => Normal(l.sign == Minus, DigitsValue(ip + fp), ExponentValue(e) - |fp|)
  }

  /**
   * The global parseFloat (section 19.2.4): NaN is None. A number is read only
   * when, after leading whitespace, the input starts with a character of a literal.
   */
  function ParseFloat(s: string): (r: Option<Decimal>)
    ensures r.Some? ==> WfDecimal(r.value)
    ensures r.Some? ==> TrimStart(s) != [] && IsLiteralChar(TrimStart(s)[0])
  {
    var t := TrimStart(s);
    match ScanLiteral(t)
    case None => None
    case Some(l) =>
      ScanLiteralSound(t);
      TextFirst(l);
      Some(Meaning(l))
  }

  /** parseFloat is NaN exactly when no prefix of the trimmed input is a literal. */
  lemma ParseFloatNone(s: string)
    ensures ParseFloat(s).None? <==> forall l :: WfLiteral(l) ==> !(Text(l) <= TrimStart(s))
  {
    ScanLiteralLongest(TrimStart(s));
  }

  /** parseFloat reads the value of the longest literal that starts the trimmed input. */
  lemma ParseFloatLongest(s: string, l: Literal)
    requires IsLongestLiteralPrefix(TrimStart(s), l)
    ensures ParseFloat(s) == Some(Meaning(l))
  {
    var t := TrimStart(s);
    ScanLiteralLongest(t);
    ScanLiteralMaximal(t, l);
    var m := ScanLiteral(t).value;
    PrefixTake(Text(l), t);
    PrefixTake(Text(m), t);
    TextInjective(l, m);
  }

  /** A run of j zero digits. */
  function Zeros(j: nat): (z: string)
    ensures |z| == j && AllDigits(z)
  {
    if j == 0 then "" else Zeros(j - 1) + "0"
  }

  lemma {:induction false} ZerosValue(j: nat)
    ensures DigitsValue(Zeros(j)) == 0
  {
    if j > 0 {
      var z := Zeros(j);
      assert z[..|z| - 1] == Zeros(j - 1);
      ZerosValue(j - 1);
    }
  }

  /** Appending digits b shifts the value of a by |b| places. */
  lemma {:induction false} DigitsValueAppend(a: string, b: string)
    ensures DigitsValue(a + b) == DigitsValue(a) * Pow10(|b|) + DigitsValue(b)
  {
    if b == [] {
      assert a + b == a;
    } else {
      var b' := b[..|b| - 1];
      var ab := a + b;
      assert ab[..|ab| - 1] == a + b';
      assert ab[|ab| - 1] == b[|b| - 1];
      DigitsValueAppend(a, b');
      var x, y, c, p := DigitsValue(a), DigitsValue(b'), DigitValue(b[|b| - 1]), Pow10(|b'|);
      assert DigitsValue(ab) == DigitsValue(a + b') * 10 + c;
      assert DigitsValue(a + b') == x * p + y;
      assert DigitsValue(b) == y * 10 + c;
      assert Pow10(|b|) == 10 * p;
      MulTen(x, p);
    }
  }

  lemma MulTen(x: nat, p: nat)
    ensures (x * p) * 10 == x * (10 * p)
  {
  }

  lemma LeadingZeroValue(b: string)
    ensures DigitsValue("0" + b) == DigitsValue(b)
  {
    DigitsValueAppend("0", b);
    var z := DigitsValue("0");
    assert "0"[..0] == "";
    assert z == 0;
    assert z * Pow10(|b|) == 0;
  }

  /** Leading zeros do not change the value of digits. */
  lemma ZerosThenValue(j: nat, b: string)
    ensures DigitsValue(Zeros(j) + b) == DigitsValue(b)
  {
    DigitsValueAppend(Zeros(j), b);
    ZerosValue(j);
    var z := DigitsValue(Zeros(j));
    assert z * Pow10(|b|) == 0;
  }

  /** A mantissa with no trailing zero, scaled by 10^j, normalizes back to itself. */
  lemma {:induction false} NormalScaled(neg: bool, m: nat, j: nat, e: int)
    requires m != 0 && m % 10 != 0
    ensures Normal(neg, m * Pow10(j), e) == Finite(neg, m, e + j)
  {
    if j == 0 {
      assert m * Pow10(j) == m;
    } else {
      var q := Pow10(j - 1);
      var x := m * q;
      assert Pow10(j) == 10 * q;
      MulTen(m, q);
      PositiveProduct(m, q);
      var big := x * 10;
      assert m * Pow10(j) == big;
      assert big != 0 && big % 10 == 0 && big / 10 == x;
      assert Normal(neg, big, e) == Normal(neg, x, e + 1);
      NormalScaled(neg, m, j - 1, e + 1);
    }
  }

  lemma PositiveProduct(m: nat, q: nat)
    requires m != 0 && q >= 1
    ensures m * q != 0
  {
  }

  /** The exponent part "e+x" or "e-x" that Number::toString writes for x. */
  function ExponentOf(x: int): (p: ExponentPart)
    ensures WfExponent(p) && ExponentValue(Some(p)) == x
  {
    ExponentPart(false, if x < 0 then Minus else Plus, NatDigits(if x < 0 then -x else x))
  }

  /**
   * The literal Number::toString (section 6.1.6.1.20 of ECMA-262) writes for d, with
   * the k digits ds of the mantissa and the decimal point position n: the integer
   * form when 21 or fewer digits are needed, 0.000ddd down to 10^-6, and the
   * exponent form d.ddde+x otherwise. Negative zero is written as "0".
   */
  function ToStringLiteral(d: Decimal): (l: Literal)
    ensures WfLiteral(l)
  {
    match d
    case Infinite(neg) => Literal(if neg then Minus else NoSign, InfinityBody)
    case Finite(neg, m, e) =>
      if m == 0 then Literal(NoSign, DigitsBody("0", false, "", None))
      else
        var sg := if neg then Minus else NoSign;
        var ds := NatDigits(m);
        var k := |ds|;
        var n := e + k;
        if k <= n <= 21 then Literal(sg, DigitsBody(ds + Zeros(n - k), false, "", None))
        else if 0 < n <= 21 then Literal(sg, DigitsBody(ds[..n], true, ds[n..], None))
        else if -6 < n <= 0 then Literal(sg, DigitsBody("0", true, Zeros(-n) + ds, None))
        else if k == 1 then Literal(sg, DigitsBody(ds, false, "", Some(ExponentOf(n - 1))))
        else Literal(sg, DigitsBody(ds[..1], true, ds[1..], Some(ExponentOf(n - 1))))
  }

  /** Number::toString on an exact value. */
  function NumberToString(d: Decimal): string { Text(ToStringLiteral(d)) }

  /** The value a written number reads back as: itself, except that -0 loses its sign. */
  function DropNegativeZero(d: Decimal): (r: Decimal)
    ensures d.Finite? && d.mantissa == 0 ==> r == Finite(false, 0, 0)
  {
    if d.Finite? && d.mantissa == 0 then Finite(false, 0, 0) else d
  }

  /** Trailing zeros scale the value of digits by a power of ten. */
  lemma ZerosAfterValue(ds: string, j: nat)
    ensures DigitsValue(ds + Zeros(j)) == DigitsValue(ds) * Pow10(j)
  {
    DigitsValueAppend(ds, Zeros(j));
    ZerosValue(j);
  }

  /** Meaning of the integer form: the digits of m followed by j zeros. */
  lemma MeaningOfIntegerForm(sg: Sign, ds: string, m: nat, j: nat)
    requires DigitsValue(ds) == m && m != 0 && m % 10 != 0
    ensures Meaning(Literal(sg, DigitsBody(ds + Zeros(j), false, "", None))) == Finite(sg == Minus, m, j)
  {
    var ip := ds + Zeros(j);
    ZerosAfterValue(ds, j);
    NormalScaled(sg == Minus, m, j, 0);
    assert ip + "" == ip;
  }

  /** Meaning of a literal whose integer and fraction parts together are the digits of m. */
  lemma MeaningOfSplit(sg: Sign, m: nat, ip: string, fp: string, x: Option<ExponentPart>)
    requires m != 0 && m % 10 != 0 && DigitsValue(ip + fp) == m
    ensures forall dot :: Meaning(Literal(sg, DigitsBody(ip, dot, fp, x))) == Finite(sg == Minus, m, ExponentValue(x) - |fp|)
  {
  }

  /** Meaning of the small form 0.000ddd: a zero, the point, j zeros and the digits of m. */
  lemma MeaningOfSmallForm(sg: Sign, ds: string, m: nat, j: nat)
    requires DigitsValue(ds) == m && m != 0 && m % 10 != 0
    ensures Meaning(Literal(sg, DigitsBody("0", true, Zeros(j) + ds, None))) == Finite(sg == Minus, m, -(j + |ds|))
  {
    var fp := Zeros(j) + ds;
    ZerosThenValue(j, ds);
    LeadingZeroValue(fp);
    MeaningOfSplit(sg, m, "0", fp, None);
  }

  /** The digits ds of a nonzero mantissa and the position n of its decimal point. */
  predicate Positioned(d: Decimal, ds: string, n: int) {
    && WfDecimal(d) && d.Finite? && d.mantissa != 0
    && ds == NatDigits(d.mantissa) && n == d.exponent + |ds|
  }

  lemma MeaningOfWholeNumber(d: Decimal, ds: string, n: int)
    requires Positioned(d, ds, n) && |ds| <= n <= 21
    ensures Meaning(ToStringLiteral(d)) == d
  {
    MeaningOfIntegerForm(if d.negative then Minus else NoSign, ds, d.mantissa, n - |ds|);
  }

  lemma MeaningOfDecimalPoint(d: Decimal, ds: string, n: int)
    requires Positioned(d, ds, n) && 0 < n < |ds| && n <= 21
    ensures Meaning(ToStringLiteral(d)) == d
  {
    assert ds[..n] + ds[n..] == ds;
    MeaningOfSplit(if d.negative then Minus else NoSign, d.mantissa, ds[..n], ds[n..], None);
  }

  lemma MeaningOfLeadingZeros(d: Decimal, ds: string, n: int)
    requires Positioned(d, ds, n) && -6 < n <= 0
    ensures Meaning(ToStringLiteral(d)) == d
  {
    MeaningOfSmallForm(if d.negative then Minus else NoSign, ds, d.mantissa, -n);
  }

  lemma MeaningOfOneDigitExponent(d: Decimal, ds: string, n: int)
    requires Positioned(d, ds, n) && (n > 21 || n <= -6) && |ds| == 1
    ensures Meaning(ToStringLiteral(d)) == d
  {
    assert ds + "" == ds;
    MeaningOfSplit(if d.negative then Minus else NoSign, d.mantissa, ds, "", Some(ExponentOf(n - 1)));
  }

  lemma MeaningOfExponentForm(d: Decimal, ds: string, n: int)
    requires Positioned(d, ds, n) && (n > 21 || n <= -6) && |ds| > 1
    ensures Meaning(ToStringLiteral(d)) == d
  {
    assert ds[..1] + ds[1..] == ds;
    MeaningOfSplit(if d.negative then Minus else NoSign, d.mantissa, ds[..1], ds[1..], Some(ExponentOf(n - 1)));
  }

  lemma MeaningOfToStringLiteral(d: Decimal)
    requires WfDecimal(d)
    ensures Meaning(ToStringLiteral(d)) == DropNegativeZero(d)
  {
    if d.Finite? && d.mantissa != 0 {
      var ds := NatDigits(d.mantissa);
      var n := d.exponent + |ds|;
      if |ds| <= n <= 21 {
        MeaningOfWholeNumber(d, ds, n);
      } else if 0 < n <= 21 {
        MeaningOfDecimalPoint(d, ds, n);
      } else if -6 < n <= 0 {
        MeaningOfLeadingZeros(d, ds, n);
      } else if |ds| == 1 {
        MeaningOfOneDigitExponent(d, ds, n);
      } else {
        MeaningOfExponentForm(d, ds, n);
      }
    } else if d.Finite? {
      assert "0" + "" == "0" && "0"[..0] == "";
    }
  }

  lemma TrimStartOfNonSpace(t: string)
    requires t == [] || !IsWhiteSpace(t[0])
    ensures TrimStart(t) == t
  {
  }

  /** Text after the trimmed start that no literal can continue does not change what parseFloat reads. */
  lemma ParseFloatOfTrimmed(s: string, c: string, x: string)
    requires TrimStart(s) == c + x && Stops(x) && (c == [] || !IsWhiteSpace(c[0]))
    ensures ParseFloat(c) == ParseFloat(s)
  {
    TrimStartOfNonSpace(c);
    ScanLiteralStop(c, x);
  }

  /** parseFloat reads back every number Number::toString writes; only -0 comes back as +0. */
  lemma ParseFloatNumberToString(d: Decimal)
    requires WfDecimal(d)
    ensures ParseFloat(NumberToString(d)) == Some(DropNegativeZero(d))
    ensures !(d.Finite? && d.mantissa == 0) ==> ParseFloat(NumberToString(d)) == Some(d)
  {
    var l := ToStringLiteral(d);
    TextFirst(l);
    TrimStartOfNonSpace(Text(l));
    ScanLiteralText(l);
    MeaningOfToStringLiteral(d);
  }

  /** 1010 is written without an exponent, as "1010". */
  lemma NumberToStringWhole()
    ensures NumberToString(Finite(false, 101, 1)) == "1010"
  {
    assert NatDigits(101) == "101";
    assert Zeros(1) == "0";
  }

  /** Negative zero is written "0". */
  lemma NumberToStringNegativeZero()
    ensures NumberToString(Finite(true, 0, 0)) == "0"
  {
  }

  /** 10^21 is the first integer written with an exponent. */
  lemma NumberToStringLarge()
    ensures NumberToString(Finite(false, 1, 21)) == "1e+21"
  {
    assert NatDigits(1) == "1" && NatDigits(21) == "21";
  }

  /** 10^-6 is the last power of ten written without an exponent. */
  lemma NumberToStringSmall()
    ensures NumberToString(Finite(false, 1, -6)) == "0.000001"
  {
    assert NatDigits(1) == "1";
    assert Zeros(5) == "00000";
  }

  /** 10^-7 is written with an exponent. */
  lemma NumberToStringTiny()
    ensures NumberToString(Finite(false, 1, -7)) == "1e-7"
  {
    assert NatDigits(1) == "1" && NatDigits(7) == "7";
  }

  /** A fraction is written with a point, after its sign. */
  lemma NumberToStringFraction()
    ensures NumberToString(Finite(true, 15, -1)) == "-1.5"
  {
    assert NatDigits(15) == "15";
  }

  /** Leading whitespace does not change parseFloat. */
  lemma ParseFloatLeadingSpace(v: string, u: string)
    requires AllWhiteSpace(v)
    ensures ParseFloat(v + u) == ParseFloat(u)
  {
    TrimStartOfWhiteSpace(v);
    TrimStartAppend(v, u);
  }

  /** Whatever follows a character no literal uses does not change parseFloat. */
  lemma ParseFloatStop(u: string, w: string)
    requires Stops(w) && (TrimStart(u) != [] || Stops(TrimStart(w)))
    ensures ParseFloat(u + w) == ParseFloat(u)
  {
    TrimStartAppend(u, w);
    var t := TrimStart(u);
    if t != [] {
      assert TrimStart(u + w) == t + w;
      ScanLiteralStop(t, w);
      assert ScanLiteral(TrimStart(u + w)) == ScanLiteral(t);
    } else {
      var t' := TrimStart(w);
      assert TrimStart(u + w) == t';
      ScanLiteralStop([], t');
      assert [] + t' == t';
    }
  }

  /** Whitespace around the input does not change parseFloat. */
  lemma ParseFloatSurroundingSpace(v: string, s: string, w: string)
    requires AllWhiteSpace(v) && AllWhiteSpace(w)
    ensures ParseFloat(v + s + w) == ParseFloat(s)
  {
    assert v + s + w == v + (s + w);
    ParseFloatLeadingSpace(v, s + w);
    TrimStartOfWhiteSpace(w);
    if w != [] {
      assert !IsLiteralChar(w[0]);
    }
    ParseFloatStop(s, w);
  }

  /** parseFloat of a literal followed by text no literal can continue is the literal's value. */
  lemma ParseFloatLiteralPrefix(l: Literal, w: string)
    requires WfLiteral(l) && Stops(w)
    ensures ParseFloat(Text(l) + w) == Some(Meaning(l))
  {
    TextFirst(l);
    assert (Text(l) + w)[0] == Text(l)[0];
    TrimStartOfNonSpace(Text(l) + w);
    ScanLiteralStop(Text(l), w);
    ScanLiteralText(l);
  }

  /** The input starts with nothing a literal can start with: no digit, point, sign or Infinity. */
  predicate NoNumberStart(s: string) {
    s == [] || (!IsWhiteSpace(s[0]) && !IsDigit(s[0]) && s[0] != '.' && s[0] != '+' && s[0] != '-' && !StartsWithInfinity(s))
  }

  /** parseFloat of such a string is NaN. */
  lemma ParseFloatNoNumber(s: string)
    requires NoNumberStart(s)
    ensures ParseFloat(s) == None
  {
    TrimStartOfNonSpace(s);
    assert ScanSign(s) == NoSign;
    assert s[0..] == s;
  }

  // ---------------------------------------------------------------------------
  // parseInt with no radix

  /** (-1)^neg * v; JavaScript's -0 is the integer 0 here. */
  function Signed(neg: bool, v: nat): int { if neg then -(v as int) else v }

  /**
   * The global parseInt with no radix (section 19.2.5): NaN is None. An integer is
   * read only when, after leading whitespace, the input starts with a sign or a digit.
   */
  function ParseInt(s: string): (r: Option<int>)
    ensures r.Some? ==> var t := TrimStart(s); t != [] && (IsDigit(t[0]) || t[0] == '+' || t[0] == '-')
  {
    var t := TrimStart(s);
    ReadInteger(t != [] && t[0] == '-', AfterSign(t))
  }

  /** The text after one optional leading sign. */
  function AfterSign(t: string): string {
    if t != [] && (t[0] == '+' || t[0] == '-') then t[1..] else t
  }

  /** The integer spelled at the start of u, once its sign neg is read: base 16 after 0x or 0X. */
  function ReadInteger(neg: bool, u: string): (r: Option<int>)
    ensures r.Some? ==> u != [] && IsDigit(u[0])
  {
    if |u| >= 2 && u[0] == '0' && (u[1] == 'x' || u[1] == 'X') then
      var h := u[2..];
      var n := HexRun(h);
      if n == 0 then None else Some(Signed(neg, HexDigitsValue(h[..n])))
    else
      var n := DigitRun(u);
      if n == 0 then None else Some(Signed(neg, DigitsValue(u[..n])))
  }

  /** How parseInt splits an input made of whitespace, a sign and the rest. */
  lemma ParseIntSplit(v: string, sg: Sign, u: string)
    requires AllWhiteSpace(v) && u != [] && !IsWhiteSpace(u[0]) && u[0] != '+' && u[0] != '-'
    ensures ParseInt(v + (SignText(sg) + u)) == ReadInteger(sg == Minus, u)
  {
    var st := SignText(sg);
    assert (st + u)[0] == if st == [] then u[0] else st[0];
    TrimStartOfSpaced(v, st + u);
    DropConcat(st, u);
    if st == [] {
      assert st + u == u;
    }
  }

  lemma TrimStartOfSpaced(v: string, t: string)
    requires AllWhiteSpace(v) && t != [] && !IsWhiteSpace(t[0])
    ensures TrimStart(v + t) == t
  {
    TrimStartOfWhiteSpace(v);
    TrimStartAppend(v, t);
  }

  lemma HexRunOfAppend(hs: string, w: string)
    requires AllHexDigits(hs)
    requires w == [] || !IsHexDigit(w[0])
    ensures HexRun(hs + w) == |hs|
  {
    var n := HexRun(hs + w);
    assert (hs + w)[..|hs|] == hs;
  }

  /**
   * Leading whitespace, a sign and decimal digits: parseInt reads the digits
   * and stops at the first character that is not one. Only a lone 0 followed
   * by x or X is read differently, as the start of a hexadecimal number.
   */
  lemma ParseIntDecimal(v: string, sg: Sign, ds: string, w: string)
    requires AllWhiteSpace(v) && ds != [] && AllDigits(ds)
    requires w == [] || (!IsDigit(w[0]) && (ds != "0" || (w[0] != 'x' && w[0] != 'X')))
    ensures ParseInt(v + (SignText(sg) + (ds + w))) == Some(Signed(sg == Minus, DigitsValue(ds)))
  {
    var u := ds + w;
    assert u[0] == ds[0];
    ParseIntSplit(v, sg, u);
    if |u| >= 2 {
      assert u[1] == if |ds| >= 2 then ds[1] else w[0];
      if |ds| == 1 {
        assert ds == [ds[0]];
      }
    }
    DigitRunOfAppend(ds, w);
    TakeConcat(ds, w);
  }

  /** A sign, then 0x or 0X, then hexadecimal digits: parseInt reads them in base 16. */
  lemma ParseIntHex(v: string, sg: Sign, x: char, hs: string, w: string)
    requires AllWhiteSpace(v) && (x == 'x' || x == 'X') && hs != [] && AllHexDigits(hs)
    requires w == [] || !IsHexDigit(w[0])
    ensures ParseInt(v + (SignText(sg) + (['0', x] + (hs + w)))) ==
      Some(Signed(sg == Minus, HexDigitsValue(hs)))
  {
    var u := ['0', x] + (hs + w);
    assert u[0] == '0' && u[1] == x;
    ParseIntSplit(v, sg, u);
    DropConcat(['0', x], hs + w);
    HexRunOfAppend(hs, w);
    TakeConcat(hs, w);
  }

  /** Input that, after whitespace, starts with no sign and no digit has no integer. */
  lemma ParseIntNoDigits(v: string, w: string)
    requires AllWhiteSpace(v)
    requires w == [] || !(IsDigit(w[0]) || IsWhiteSpace(w[0]) || w[0] == '+' || w[0] == '-')
    ensures ParseInt(v + w) == None
  {
    TrimStartOfWhiteSpace(v);
    TrimStartAppend(v, w);
    if w != [] {
      TrimStartOfNonSpace(w);
    }
  }

  /**
   * parseInt is NaN exactly when, after whitespace and one optional sign, no
   * digit follows, or 0x or 0X is followed by no hexadecimal digit.
   */
  lemma ParseIntNone(s: string)
    ensures var u := AfterSign(TrimStart(s));
      ParseInt(s).None? <==>
        || u == [] || !IsDigit(u[0])
        || (|u| >= 2 && u[0] == '0' && (u[1] == 'x' || u[1] == 'X') && HexRun(u[2..]) == 0)
  {
  }

  /** A sign with no digit after it, and 0x with no hexadecimal digit after it, are NaN. */
  lemma ParseIntNoneExamples()
    ensures ParseInt("-x") == None && ParseInt("+") == None
    ensures ParseInt("0x") == None && ParseInt("0xg") == None
  {
    TrimStartOfNonSpace("-x");
    TrimStartOfNonSpace("+");
    TrimStartOfNonSpace("0x");
    TrimStartOfNonSpace("0xg");
    ParseIntNone("-x");
    ParseIntNone("+");
    ParseIntNone("0x");
    ParseIntNone("0xg");
    assert "0xg"[2..] == "g";
  }

  /** parseInt reads the decimal spelling of every natural number back exactly. */
  lemma ParseIntNatDigits(n: nat)
    ensures ParseInt(NatDigits(n)) == Some(n)
    ensures ParseInt("-" + NatDigits(n)) == Some(-(n as int))
  {
    var ds := NatDigits(n);
    ParseIntDecimal([], NoSign, ds, []);
    ParseIntDecimal([], Minus, ds, []);
    assert [] + (SignText(NoSign) + (ds + [])) == ds;
    assert [] + (SignText(Minus) + (ds + [])) == "-" + ds;
  }
}
