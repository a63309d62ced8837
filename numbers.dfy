/** Per-cell numeric coercion (clean_data.py lines 33-40): the cell is turned
    into text, every `%` is deleted, and the rest is parsed as a number; text
    that does not parse becomes the missing value instead of raising.

    The number parser of the source is a library routine; here it is the
    decimal grammar
        [+|-] ( digit+ [ "." digit* ] | "." digit+ )
    with nothing before or after it. */
module Numbers {
  import opened Wrappers
  import opened Tables

  predicate IsDigit(c: char)
  {
    '0' <= c <= '9'
  }

  predicate AllDigits(s: string)
  {
    forall i :: 0 <= i < |s| ==> IsDigit(s[i])
  }

  /** The value of a run of decimal digits, most significant first. */
  function DigitsValue(s: string): nat
    requires AllDigits(s)
  {
    if |s| == 0 then 0 else 10 * DigitsValue(s[..|s| - 1]) + (s[|s| - 1] - '0') as nat
  }

  function Pow10(n: nat): (r: nat)
    ensures r > 0
  {
    if n == 0 then 1 else 10 * Pow10(n - 1)
  }

  /** The number of leading decimal digits of `s`. */
  function DigitRun(s: string): (k: nat)
    ensures k <= |s| && AllDigits(s[..k])
    ensures k < |s| ==> !IsDigit(s[k])
  {
    if |s| > 0 && IsDigit(s[0]) then
      var k := 1 + DigitRun(s[1..]);
      assert s[..k] == [s[0]] + s[1..][..k - 1];
      k
    else 0
  }

  /** The value of whole digits, a point and fractional digits: the
      fractional digits count over the matching power of ten. */
  function PointValue(whole: string, frac: string): real
    requires AllDigits(whole) && AllDigits(frac)
  {
    DigitsValue(whole) as real + DigitsValue(frac) as real / Pow10(|frac|) as real
  }

  /** An unsigned decimal: digits with an optional fractional part, at least
      one digit in all. */
  function ParseUnsigned(s: string): Option<real>
  {
    var k := DigitRun(s);
    if k == |s| then
      if k == 0 then None else Some(DigitsValue(s) as real)
    else if s[k] == '.' && AllDigits(s[k + 1..]) && (k > 0 || k + 1 < |s|) then
      Some(PointValue(s[..k], s[k + 1..]))
    else None
  }

  function Negate(r: Option<real>): Option<real>
  {
    match r
    case Some(v) => Some(-v)
    case None => None
  }

  /** The number parser that stands in for the library routine. */
  function ParseNumber(s: string): Option<real>
  {
    if |s| > 0 && s[0] == '-' then Negate(ParseUnsigned(s[1..]))
    else if |s| > 0 && s[0] == '+' then ParseUnsigned(s[1..])
    else ParseUnsigned(s)
  }

  /** `str.replace("%", "")` */
  function RemovePercent(s: string): (r: string)
    ensures '%' !in r
    ensures |r| <= |s|
  {
    if |s| == 0 then []
    else if s[0] == '%' then RemovePercent(s[1..])
    else [s[0]] + RemovePercent(s[1..])
  }

  /** Coercion of one text cell: delete `%`, parse, and fall back to the
      missing value. */
  function CoerceText(s: string): Cell
  {
    match ParseNumber(RemovePercent(s))
    case Some(v) => Number(v)
    case None => Null
  }

  /** Coercion of any cell. A cell that is already a number or missing
      renders as text that parses back to the same value (NaN renders as
      "nan", which is missing again), so only text cells are parsed. */
  function CoerceCell(c: Cell): Cell
  {
    match c
    case Text(s) => CoerceText(s)
    case Number(v) => c
    case Null => Null
  }

  // ---------------------------------------------------------------------
  // The decimal rendering of a whole number, used to state what the parser
  // accepts.

  function DigitChar(d: nat): char
    requires d < 10
  {
    ('0' as int + d) as char
  }

  /** The shortest decimal digits of `n`. */
  function NatText(n: nat): (s: string)
    ensures |s| > 0 && AllDigits(s)
  {
    if n < 10 then [DigitChar(n)] else NatText(n / 10) + [DigitChar(n % 10)]
  }

  /** The text Python gives an int: an optional minus sign then digits. */
  function IntText(i: int): string
  {
    if i < 0 then "-" + NatText(-i) else NatText(i)
  }

  // ---------------------------------------------------------------------
  // Properties

  lemma {:induction false} NatTextValue(n: nat)
    ensures DigitsValue(NatText(n)) == n
  {
    if n >= 10 {
      var s := NatText(n);
      NatTextValue(n / 10);
      assert s[..|s| - 1] == NatText(n / 10);
    }
  }

  /** The parser reads back every whole number written in decimal. */
  lemma ParseIntText(i: int)
    ensures ParseNumber(IntText(i)) == Some(i as real)
  {
    var n: nat := if i < 0 then -i else i;
    var s := NatText(n);
    NatTextValue(n);
    assert DigitRun(s) == |s| by { DigitRunAll(s); }
    if i < 0 {
      assert IntText(i)[1..] == s;
    }
  }

  lemma {:induction false} DigitRunAll(s: string)
    requires AllDigits(s)
    ensures DigitRun(s) == |s|
  {
    if |s| > 0 {
      DigitRunAll(s[1..]);
    }
  }

  // ---------------------------------------------------------------------
  // The decimal grammar, and the parser proved to accept exactly it

  /** The optional sign in front of a number. */
  datatype Sign = NoSign | Plus | Minus

  function SignText(sign: Sign): string
  {
    match sign
    case NoSign => ""
    case Plus => "+"
    case Minus => "-"
  }

  function Signed(sign: Sign, v: real): real
  {
    if sign == Minus then -v else v
  }

  /** The decimal grammar itself: an optional sign, then digits `a` alone,
      or digits `a`, a point and digits `b`, with at least one digit. */
  ghost predicate IsDecimal(t: string)
  {
    exists sign: Sign, a, b ::
      AllDigits(a) && AllDigits(b) &&
      ((t == SignText(sign) + a && |a| > 0 && b == "") || (t == SignText(sign) + a + "." + b && |a| + |b| > 0))
  }

  lemma {:induction false} DigitRunStops(a: string, rest: string)
    requires AllDigits(a) && (|rest| == 0 || !IsDigit(rest[0]))
    ensures DigitRun(a + rest) == |a|
  {
    if |a| > 0 {
      assert (a + rest)[1..] == a[1..] + rest;
      DigitRunStops(a[1..], rest);
    } else {
      assert a + rest == rest;
    }
  }

  /** A sign is read off the front, and the rest is parsed unsigned. */
  lemma ParseSigned(sign: Sign, u: string)
    requires |u| > 0 && (IsDigit(u[0]) || u[0] == '.')
    ensures ParseUnsigned(u).Some? ==> ParseNumber(SignText(sign) + u) == Some(Signed(sign, ParseUnsigned(u).value))
  {
    var t := SignText(sign) + u;
    match sign
    case NoSign =>
      assert t == u;
    case Plus =>
      assert t[0] == '+' && t[1..] == u;
    case Minus =>
      assert t[0] == '-' && t[1..] == u;
  }

  /** Digits, a point and digits parse to the whole part plus the
      fractional digits over the matching power of ten. */
  lemma ParseUnsignedPoint(a: string, b: string)
    requires AllDigits(a) && AllDigits(b) && |a| + |b| > 0
    ensures ParseUnsigned(a + "." + b) == Some(PointValue(a, b))
  {
    var u := a + ['.'] + b;
    assert u == a + (['.'] + b);
    DigitRunStops(a, ['.'] + b);
    var k := DigitRun(u);
    assert k == |a| && k < |u| && u[k] == '.';
    assert u[..k] == a;
    assert u[k + 1..] == b;
    assert k > 0 || k + 1 < |u|;
    assert u == a + "." + b;
  }

  /** Digits alone parse to their value. */
  lemma ParseUnsignedWhole(a: string)
    requires AllDigits(a) && |a| > 0
    ensures ParseUnsigned(a) == Some(DigitsValue(a) as real)
  {
    DigitRunAll(a);
  }

  /** What the parser reads from a decimal with a point, negated after a
      minus sign. */
  lemma ParseDecimal(sign: Sign, a: string, b: string)
    requires AllDigits(a) && AllDigits(b) && |a| + |b| > 0
    ensures ParseNumber(SignText(sign) + a + "." + b) == Some(Signed(sign, PointValue(a, b)))
  {
    var u := a + "." + b;
    ParseUnsignedPoint(a, b);
    assert u[0] == if |a| > 0 then a[0] else '.';
    ParseSigned(sign, u);
    assert SignText(sign) + a + "." + b == SignText(sign) + u;
  }

  /** What the parser reads from whole digits, negated after a minus sign. */
  lemma ParseWhole(sign: Sign, a: string)
    requires AllDigits(a) && |a| > 0
    ensures ParseNumber(SignText(sign) + a) == Some(Signed(sign, DigitsValue(a) as real))
  {
    ParseUnsignedWhole(a);
    assert IsDigit(a[0]);
    ParseSigned(sign, a);
  }

  /** The sign the parser reads off the front of `t`. */
  function SignOf(t: string): (sign: Sign)
    ensures SignText(sign) <= t
  {
    if |t| > 0 && t[0] == '-' then Minus
    else if |t| > 0 && t[0] == '+' then Plus
    else NoSign
  }

  lemma SignSplit(t: string)
    requires ParseNumber(t).Some?
    ensures t == SignText(SignOf(t)) + t[|SignText(SignOf(t))|..]
    ensures ParseUnsigned(t[|SignText(SignOf(t))|..]).Some?
  {
  }

  /** Accepted unsigned text with something after its leading digits is
      digits, a point and digits. */
  lemma UnsignedSplit(u: string)
    requires ParseUnsigned(u).Some? && DigitRun(u) < |u|
    ensures u == u[..DigitRun(u)] + "." + u[DigitRun(u) + 1..]
    ensures AllDigits(u[DigitRun(u) + 1..]) && |u| > 1
  {
    SplitAt(u, DigitRun(u));
  }

  lemma SplitAt(u: string, k: nat)
    requires k < |u|
    ensures u == u[..k] + [u[k]] + u[k + 1..]
  {
  }

  /** A sign in front of accepted unsigned text makes a decimal. */
  lemma UnsignedIsDecimal(sign: Sign, u: string)
    requires ParseUnsigned(u).Some?
    ensures IsDecimal(SignText(sign) + u)
  {
    if DigitRun(u) == |u| {
      assert AllDigits(u) && |u| > 0 by {
        assert u[..DigitRun(u)] == u;
      }
      WholeIsDecimal(sign, u);
    } else {
      UnsignedSplit(u);
      PointIsDecimal(sign, u[..DigitRun(u)], u[DigitRun(u) + 1..]);
      ConcatAssoc(SignText(sign), u[..DigitRun(u)], u[DigitRun(u) + 1..]);
    }
  }

  lemma ConcatAssoc(sign: string, a: string, b: string)
    ensures sign + a + "." + b == sign + (a + "." + b)
  {
  }

  lemma WholeIsDecimal(sign: Sign, a: string)
    requires AllDigits(a) && |a| > 0
    ensures IsDecimal(SignText(sign) + a)
  {
    assert AllDigits("");
  }

  lemma PointIsDecimal(sign: Sign, a: string, b: string)
    requires AllDigits(a) && AllDigits(b) && |a| + |b| > 0
    ensures IsDecimal(SignText(sign) + a + "." + b)
  {
  }

  /** Everything the parser accepts is a decimal. */
  lemma ParsedIsDecimal(t: string)
    requires ParseNumber(t).Some?
    ensures IsDecimal(t)
  {
    SignSplit(t);
    UnsignedIsDecimal(SignOf(t), t[|SignText(SignOf(t))|..]);
  }

  /** Every decimal is accepted by the parser. */
  lemma DecimalIsParsed(t: string)
    requires IsDecimal(t)
    ensures ParseNumber(t).Some?
  {
    var sign: Sign, a, b :| AllDigits(a) && AllDigits(b) &&
      ((t == SignText(sign) + a && |a| > 0 && b == "") || (t == SignText(sign) + a + "." + b && |a| + |b| > 0));
    if t == SignText(sign) + a && |a| > 0 && b == "" {
      ParseWhole(sign, a);
    } else {
      ParseDecimal(sign, a, b);
    }
  }

  /** The parser accepts exactly the decimal grammar. */
  lemma ParseNumberGrammar(t: string)
    ensures ParseNumber(t).Some? <==> IsDecimal(t)
  {
    if IsDecimal(t) {
      DecimalIsParsed(t);
    }
    if ParseNumber(t).Some? {
      ParsedIsDecimal(t);
    }
  }

  /** Text the parser accepts is made of digits, a sign and a point only. */
  lemma ParsedCharacters(t: string)
    requires ParseUnsigned(t).Some?
    ensures forall i :: 0 <= i < |t| ==> IsDigit(t[i]) || t[i] == '.'
  {
    var k := DigitRun(t);
    forall i | 0 <= i < |t| ensures IsDigit(t[i]) || t[i] == '.' {
      if i < k {
        assert t[i] == t[..k][i];
      } else if i > k {
        assert t[i] == t[k + 1..][i - k - 1];
      }
    }
  }

  /** Text holding a `%` is never a number by itself, which is why the
      cleaner deletes percent signs before parsing. */
  lemma PercentDoesNotParse(s: string)
    requires '%' in s
    ensures ParseNumber(s) == None
  {
    var t := if |s| > 0 && (s[0] == '-' || s[0] == '+') then s[1..] else s;
    assert '%' in t;
    if ParseUnsigned(t).Some? {
      ParsedCharacters(t);
    }
  }

  /** Deleting `%` twice is deleting it once. */
  lemma {:induction false} RemovePercentIdempotent(s: string)
    ensures RemovePercent(RemovePercent(s)) == RemovePercent(s)
  {
    if |s| > 0 {
      RemovePercentIdempotent(s[1..]);
      if s[0] != '%' {
        assert ([s[0]] + RemovePercent(s[1..]))[1..] == RemovePercent(s[1..]);
      }
    }
  }

  /** Text without `%` is left alone. */
  lemma {:induction false} RemovePercentNoop(s: string)
    requires '%' !in s
    ensures RemovePercent(s) == s
  {
    if |s| > 0 {
      assert '%' !in s[1..];
      RemovePercentNoop(s[1..]);
      assert s == [s[0]] + s[1..];
    }
  }

  /** `RemovePercent` deletes exactly the `%` characters: the rest keeps its
      order. */
  lemma {:induction false} RemovePercentAppend(a: string, b: string)
    ensures RemovePercent(a + b) == RemovePercent(a) + RemovePercent(b)
  {
    if |a| > 0 {
      assert (a + b)[1..] == a[1..] + b;
      RemovePercentAppend(a[1..], b);
    } else {
      assert a + b == b;
    }
  }

  /** Coercion ignores `%`: a cell and the same cell with its percent signs
      deleted coerce to the same value, e.g. "12.5%" and "12.5". */
  lemma CoerceIgnoresPercent(s: string)
    ensures CoerceText(s) == CoerceText(RemovePercent(s))
  {
    RemovePercentIdempotent(s);
  }

  /** A trailing or embedded `%` is ignored wherever it stands. */
  lemma CoerceIgnoresInsertedPercent(a: string, b: string)
    ensures CoerceText(a + "%" + b) == CoerceText(a + b)
  {
    RemovePercentAppend(a + "%", b);
    RemovePercentAppend(a, "%");
    RemovePercentAppend(a, b);
    assert RemovePercent("%") == [];
    assert RemovePercent(a) + [] == RemovePercent(a);
  }

  /** Coercion never fails: a cell becomes missing exactly when its text,
      with every `%` deleted, is not a decimal, and a number exactly when it
      is one. */
  lemma CoerceTotal(s: string)
    ensures CoerceText(s).Null? <==> !IsDecimal(RemovePercent(s))
    ensures CoerceText(s).Number? <==> IsDecimal(RemovePercent(s))
  {
    ParseNumberGrammar(RemovePercent(s));
  }

  /** The number a cell coerces to is the value of its `%`-free decimal. */
  lemma CoerceDecimal(s: string, sign: Sign, a: string, b: string)
    requires AllDigits(a) && AllDigits(b) && |a| + |b| > 0
    ensures RemovePercent(s) == SignText(sign) + a + "." + b ==>
      CoerceText(s) == Number(Signed(sign, PointValue(a, b)))
    ensures RemovePercent(s) == SignText(sign) + a && |b| == 0 ==>
      CoerceText(s) == Number(Signed(sign, DigitsValue(a) as real))
  {
    ParseDecimal(sign, a, b);
    if |b| == 0 {
      ParseWhole(sign, a);
    }
  }

  /** Coercing a coerced cell changes nothing. */
  lemma CoerceCellIdempotent(c: Cell)
    ensures !CoerceCell(c).Text?
    ensures CoerceCell(CoerceCell(c)) == CoerceCell(c)
  {
  }

  lemma ParseExample()
    ensures ParseNumber("12.5") == Some(12.5)
  {
    var s := "12.5";
    assert s[1..] == "2.5" && s[2..] == ".5" && s[3..] == "5";
    assert DigitRun("5") == 1;
    assert DigitRun(".5") == 0;
    assert DigitRun("2.5") == 1;
    assert DigitRun(s) == 2;
    assert s[..2] == "12";
    assert DigitsValue("1") == 1;
    assert DigitsValue("12") == 12;
    assert DigitsValue("5") == 5;
  }

  lemma RemovePercentExample()
    ensures RemovePercent("12.5%") == RemovePercent("12.5") == "12.5"
  {
    assert "12.5%" == "12.5" + "%";
    RemovePercentAppend("12.5", "%");
    RemovePercentNoop("12.5");
    assert RemovePercent("%") == [];
  }

  /** Example: a percentage and the plain number agree. */
  lemma CoercePercentExample()
    ensures CoerceText("12.5%") == CoerceText("12.5") == Number(12.5)
  {
    RemovePercentExample();
    ParseExample();
  }

  /** Example: text that is no number becomes missing. */
  lemma CoerceJunkExample()
    ensures CoerceText("n/a") == Null
  {
    RemovePercentNoop("n/a");
    assert DigitRun("n/a") == 0;
  }
}
