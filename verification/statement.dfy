/** The İş Bankası statement parser: `parse_number` (amounts written with
    either thousands/decimal convention), `collapse_lines` (joining a
    transaction's wrapped lines) and `extract_txn` (one transaction out of a
    collapsed line). Reading the PDF is not modelled: the parser starts from
    the text lines of a page. */
module Statement {
  import opened Common

  // ========================================================= parse_number

  predicate IsSeparator(c: char) { c == '.' || c == ',' }

  /** `s.replace('.', '').replace(',', '')`. */
  function DropSeparators(s: string): (r: string)
    ensures |r| <= |s|
  {
    RemoveChar(RemoveChar(s, '.'), ',')
  }

  const EmptyNumber := "Bo\U{15F} say\U{131} dizesi"
  const NotAFloat := "could not convert string to float"

  function DecimalValue(whole: string, frac: string): real
    requires AllDigits(whole) && AllDigits(frac)
  {
    DigitsValue(whole) as real + (DigitsValue(frac) as real) / (Pow10(|frac|) as real)
  }

  /** `t` without a leading '+' or '-'. */
  function Unsigned(t: string): string
  {
    if t != [] && (t[0] == '-' || t[0] == '+') then t[1..] else t
  }

  /** Digits with at most one '.' and at least one digit, read as a
      decimal. */
  function Decimal(body: string): Result<real>
  {
    var dot := IndexOf(body, '.');
    var whole := if dot < 0 then body else body[..dot];
    var frac := if dot < 0 then "" else body[dot + 1..];
    if AllDigits(whole) && AllDigits(frac) && |whole| + |frac| > 0 then
      Ok(DecimalValue(whole, frac))
    else
      Err(NotAFloat)
  }

  /** A result with its value negated when `neg` holds. */
  function Signed(neg: bool, r: Result<real>): Result<real>
  {
    match r
    case Err(e) => Err(e)
    case Ok(v) => Ok(if neg then -v else v)
  }

  /** Python's `float(s)` on plain decimal text: white space around, an
      optional sign, then what `Decimal` accepts. */
  function Float(s: string): Result<real>
  {
    SignedDecimal(Strip(s))
  }

  function SignedDecimal(t: string): Result<real>
  {
    Signed(t != [] && t[0] == '-', Decimal(Unsigned(t)))
  }

  lemma FloatUnchanged(s: string)
    requires s == [] || (!IsPySpace(s[0]) && !IsPySpace(s[|s| - 1]))
    ensures Float(s) == SignedDecimal(s)
  {
    StripUnchanged(s);
  }

  function Max(a: int, b: int): int { if a >= b then a else b }

  /** Where `parse_number` puts the decimal point: the last '.' or ',', or
      -1 when there is neither. */
  function DecimalPoint(u: string): (dec: int)
    ensures -1 <= dec < |u|
  {
    Max(LastIndexOf(u, '.'), LastIndexOf(u, ','))
  }

  /** The text `float` receives once the separators are normalised: the
      last separator becomes the point and the others vanish. */
  function Cleaned(u: string): string
  {
    var dec := DecimalPoint(u);
    if dec == -1 then DropSeparators(u) else DropSeparators(u[..dec]) + "." + u[dec + 1..]
  }

  /** `parse_number(s)`: the last '.' or ',' is the decimal point and every
      other separator is a thousands mark; an empty (or blank) string is an
      error, and so is anything `float` refuses once the separators are
      normalised. */
  function ParseNumber(s: string): Result<real>
  {
    ParseStripped(Strip(s))
  }

  function ParseStripped(t: string): Result<real>
  {
    if t == [] then Err(EmptyNumber)
    else Signed(t[0] == '-', Float(Cleaned(Unsigned(t))))
  }

  lemma ParseNumberUnchanged(s: string)
    requires s == [] || (!IsPySpace(s[0]) && !IsPySpace(s[|s| - 1]))
    ensures ParseNumber(s) == ParseStripped(s)
  {
    StripUnchanged(s);
  }

  /** A blank string is refused with the "empty number" message. */
  lemma ParseNumberBlank(s: string)
    requires forall i :: 0 <= i < |s| ==> IsPySpace(s[i])
    ensures ParseNumber(s) == Err(EmptyNumber)
  {
    StripAllSpace(s);
  }

  lemma {:induction false} DropSeparatorsDigits(a: string)
    requires forall i :: 0 <= i < |a| ==> IsDigit(a[i]) || IsSeparator(a[i])
    ensures AllDigits(DropSeparators(a))
    decreases |a|
  {
    if a != [] {
      var init, x := a[..|a| - 1], a[|a| - 1];
      assert a == init + [x];
      assert forall i :: 0 <= i < |init| ==> init[i] == a[i];
      DropSeparatorsDigits(init);
      DropSeparatorsSnoc(init, x);
    }
  }

  lemma PointAt(d: string, f: string)
    requires AllDigits(d)
    ensures IndexOf(d + "." + f, '.') == |d|
    ensures (d + "." + f)[..|d|] == d && (d + "." + f)[|d| + 1..] == f
  {
    var s := d + "." + f;
    assert forall j :: 0 <= j < |d| ==> s[j] == d[j];
    assert s[|d|] == '.';
    assert s[..|d|] == d && s[|d| + 1..] == f;
  }

  /** `float` reads digits, a point and digits as that decimal. */
  lemma FloatDecimal(d: string, f: string)
    requires AllDigits(d) && AllDigits(f) && |d| + |f| > 0
    ensures Float(d + "." + f) == Ok(DecimalValue(d, f))
  {
    SignedPoint(d, f);
    PointUnpadded(d, f);
    FloatUnchanged(d + "." + f);
  }

  lemma PointUnpadded(d: string, f: string)
    requires AllDigits(d) && AllDigits(f)
    ensures var s := d + "." + f; !IsPySpace(s[0]) && !IsPySpace(s[|s| - 1])
  {
    var s := d + "." + f;
    var a, z := s[0], s[|s| - 1];
    assert a == (if d != [] then d[0] else '.');
    assert z == (if f != [] then f[|f| - 1] else '.');
    assert IsDigit(a) || a == '.';
    assert IsDigit(z) || z == '.';
  }

  lemma SignedPoint(d: string, f: string)
    requires AllDigits(d) && AllDigits(f) && |d| + |f| > 0
    ensures SignedDecimal(d + "." + f) == Ok(DecimalValue(d, f))
  {
    var s := d + "." + f;
    PointAt(d, f);
    assert Decimal(s) == Ok(DecimalValue(d, f));
    assert s[0] == (if d != [] then d[0] else '.');
    assert Unsigned(s) == s;
  }

  /** `float` reads a run of digits as that whole number. */
  lemma FloatDigits(d: string)
    requires AllDigits(d) && d != []
    ensures Float(d) == Ok(DigitsValue(d) as real)
  {
    SignedDigits(d);
    FloatUnchanged(d);
  }

  lemma SignedDigits(d: string)
    requires AllDigits(d) && d != []
    ensures SignedDecimal(d) == Ok(DigitsValue(d) as real)
  {
    assert Unsigned(d) == d;
    assert forall j :: 0 <= j < |d| ==> d[j] != '.';
    assert DecimalValue(d, "") == DigitsValue(d) as real;
    assert Decimal(d) == Ok(DigitsValue(d) as real);
  }

  lemma NoSeparatorAfter(a: string, c: char, f: string)
    requires AllDigits(f)
    ensures forall j :: |a| < j < |a + [c] + f| ==> !IsSeparator((a + [c] + f)[j])
  {
    var u := a + [c] + f;
    forall j | |a| < j < |u| ensures !IsSeparator(u[j]) {
      assert u[j] == f[j - |a| - 1];
    }
  }

  /** In `a`, `c`, `f` with `f` all digits and `c` a separator, the last
      separator is `c` itself. */
  lemma LastSeparator(a: string, c: char, f: string)
    requires IsSeparator(c) && AllDigits(f)
    ensures DecimalPoint(a + [c] + f) == |a|
  {
    var u := a + [c] + f;
    NoSeparatorAfter(a, c, f);
    assert u[|a|] == c;
    var other := if c == '.' then ',' else '.';
    assert LastIndexOf(u, c) == |a|;
    assert LastIndexOf(u, other) < |a|;
  }

  /** `t` is `u` with at most one '-' or '+' in front. */
  predicate SignedForm(t: string, u: string)
  {
    t == u || (t != [] && (t[0] == '-' || t[0] == '+') && t[1..] == u)
  }

  /** `v` with the sign of `t`: negated when `t` starts with '-'. */
  function WithSign(t: string, v: real): real
  {
    if t != [] && t[0] == '-' then -v else v
  }

  lemma SignedText(t: string, u: string)
    requires SignedForm(t, u) && u != []
    requires !IsPySpace(u[0]) && u[0] != '-' && u[0] != '+' && !IsPySpace(u[|u| - 1])
    ensures t != [] && !IsPySpace(t[0]) && !IsPySpace(t[|t| - 1])
    ensures Unsigned(t) == u
  {
    if t != u {
      assert t[|t| - 1] == u[|u| - 1];
    }
  }

  lemma StrippedOf(t: string, u: string, r: Result<real>)
    requires t != [] && Unsigned(t) == u && Float(Cleaned(u)) == r
    ensures ParseStripped(t) == Signed(t[0] == '-', r)
  {
  }

  lemma ParseStrippedValue(t: string, u: string, r: Result<real>)
    requires t != [] && !IsPySpace(t[0]) && !IsPySpace(t[|t| - 1])
    requires Unsigned(t) == u && Float(Cleaned(u)) == r
    ensures ParseNumber(t) == Signed(t[0] == '-', r)
  {
    StrippedOf(t, u, r);
    ParseNumberUnchanged(t);
  }

  /** A signed number whose unsigned text `float` reads as `v`. */
  lemma ParseSigned(t: string, u: string, v: real)
    requires SignedForm(t, u) && u != []
    requires !IsPySpace(u[0]) && u[0] != '-' && u[0] != '+' && !IsPySpace(u[|u| - 1])
    requires Float(Cleaned(u)) == Ok(v)
    ensures ParseNumber(t) == Ok(WithSign(t, v))
  {
    SignedText(t, u);
    ParseStrippedValue(t, u, Ok(v));
    SignedWith(t, v);
  }

  lemma SignedWith(t: string, v: real)
    requires t != []
    ensures Signed(t[0] == '-', Ok(v)) == Ok(WithSign(t, v))
  {
  }

  /** Digits and separators, a last separator `c` and digits `f`: `float`
      gets the digits of the first part, a point, and `f`. */
  lemma CleanedDecimal(a: string, c: char, f: string)
    requires forall i :: 0 <= i < |a| ==> IsDigit(a[i]) || IsSeparator(a[i])
    requires IsSeparator(c) && AllDigits(f)
    requires |DropSeparators(a)| + |f| > 0
    ensures AllDigits(DropSeparators(a))
    ensures Float(Cleaned(a + [c] + f)) == Ok(DecimalValue(DropSeparators(a), f))
  {
    DropSeparatorsDigits(a);
    var u := a + [c] + f;
    LastSeparator(a, c, f);
    assert u[..|a|] == a && u[|a| + 1..] == f;
    assert Cleaned(u) == DropSeparators(a) + "." + f;
    FloatDecimal(DropSeparators(a), f);
  }

  lemma DecimalEnds(a: string, c: char, f: string)
    requires forall i :: 0 <= i < |a| ==> IsDigit(a[i]) || IsSeparator(a[i])
    requires IsSeparator(c) && AllDigits(f)
    ensures var u := a + [c] + f;
      !IsPySpace(u[0]) && u[0] != '-' && u[0] != '+' && !IsPySpace(u[|u| - 1])
  {
    var u := a + [c] + f;
    assert u[0] == (if a != [] then a[0] else c);
    assert u[|u| - 1] == (if f != [] then f[|f| - 1] else c);
  }

  /** Digits and separators, a separator, then digits, with at least one
      digit in all. */
  predicate DecimalShape(a: string, c: char, f: string)
  {
    && (forall i :: 0 <= i < |a| ==> IsDigit(a[i]) || IsSeparator(a[i]))
    && IsSeparator(c) && AllDigits(f)
    && |DropSeparators(a)| + |f| > 0
  }

  /** The separator rule: with an optional sign, an integer part `a` of
      digits and separators, a last separator `c` and a fraction `f` of
      digits, the separators in `a` are dropped and `c` is the decimal
      point, whichever of '.' and ',' it is. */
  lemma ParseNumberDecimal(t: string, a: string, c: char, f: string)
    requires SignedForm(t, a + [c] + f) && DecimalShape(a, c, f)
    ensures AllDigits(DropSeparators(a))
    ensures ParseNumber(t) == Ok(WithSign(t, DecimalValue(DropSeparators(a), f)))
  {
    CleanedDecimal(a, c, f);
    DecimalEnds(a, c, f);
    ParseSigned(t, a + [c] + f, DecimalValue(DropSeparators(a), f));
  }

  lemma CleanedDigits(d: string)
    requires AllDigits(d) && d != []
    ensures Float(Cleaned(d)) == Ok(DigitsValue(d) as real)
  {
    CleanedUnchanged(d);
    FloatDigits(d);
  }

  lemma CleanedUnchanged(d: string)
    requires AllDigits(d)
    ensures Cleaned(d) == d
  {
    assert forall j :: 0 <= j < |d| ==> d[j] != '.' && d[j] != ',';
    RemoveCharAbsent(d, '.');
    RemoveCharAbsent(d, ',');
  }

  /** Without any separator the digits are read as a whole number. */
  lemma ParseNumberInteger(t: string, d: string)
    requires SignedForm(t, d)
    requires AllDigits(d) && d != []
    ensures ParseNumber(t) == Ok(WithSign(t, DigitsValue(d) as real))
  {
    CleanedDigits(d);
    DigitsUnpadded(d);
    ParseSigned(t, d, DigitsValue(d) as real);
  }

  lemma DigitsUnpadded(d: string)
    requires AllDigits(d) && d != []
    ensures !IsPySpace(d[0]) && !IsPySpace(d[|d| - 1])
  {
    assert IsDigit(d[0]) && IsDigit(d[|d| - 1]);
  }

  /** The four conversions the parser's documentation promises:
      '1.234,56' and '1,234.56' are both 1234.56, '0.014.99' is 14.99 and
      '-32,00' is -32. */
  lemma ExampleCommaDecimal(t: string)
    requires t == "1.234,56"
    ensures ParseNumber(t) == Ok(1234.56)
  {
    var x, s, y, c, f := t[..1], t[1], t[2..5], t[5], t[6..];
    assert t == (x + [s] + y) + [c] + f;
    assert x == "1" && s == '.' && y == "234" && c == ',' && f == "56";
    ThousandsShape(x, s, y, c, f);
    ParseNumberDecimal(t, x + [s] + y, c, f);
    Value1234(x, y, f);
  }

  lemma ExamplePointDecimal(t: string)
    requires t == "1,234.56"
    ensures ParseNumber(t) == Ok(1234.56)
  {
    var x, s, y, c, f := t[..1], t[1], t[2..5], t[5], t[6..];
    assert t == (x + [s] + y) + [c] + f;
    assert x == "1" && s == ',' && y == "234" && c == '.' && f == "56";
    ThousandsShape(x, s, y, c, f);
    ParseNumberDecimal(t, x + [s] + y, c, f);
    Value1234(x, y, f);
  }

  lemma ExampleTwoPoints(t: string)
    requires t == "0.014.99"
    ensures ParseNumber(t) == Ok(14.99)
  {
    var x, s, y, c, f := t[..1], t[1], t[2..5], t[5], t[6..];
    assert t == (x + [s] + y) + [c] + f;
    assert x == "0" && s == '.' && y == "014" && c == '.' && f == "99";
    ThousandsShape(x, s, y, c, f);
    ParseNumberDecimal(t, x + [s] + y, c, f);
    Value0014(x, y, f);
  }

  lemma ExampleNegative(t: string)
    requires t == "-32,00"
    ensures ParseNumber(t) == Ok(-32.0)
  {
    var a, c, f := t[1..3], t[3], t[4..];
    assert t[1..] == a + [c] + f;
    assert a == "32" && c == ',' && f == "00";
    DigitsShape(a, c, f);
    ParseNumberDecimal(t, a, c, f);
    Value32(a, f);
  }

  /** Removing a character absent from both sides of `c`. */
  lemma RemoveAround(x: string, c: char, y: string, d: char)
    requires d !in x && d !in y
    ensures RemoveChar(x + [c] + y, d) == x + (if c == d then [] else [c]) + y
  {
    var m: string := if c == d then [] else [c];
    RemoveSingle(c, d);
    RemoveCharAppend(x, [c], d);
    RemoveCharAbsent(x, d);
    assert RemoveChar(x + [c], d) == x + m;
    RemoveCharAppend(x + [c], y, d);
    RemoveCharAbsent(y, d);
  }

  lemma RemoveSingle(c: char, d: char)
    ensures RemoveChar([c], d) == if c == d then [] else [c]
  {
    assert [c][1..] == [];
  }

  /** Digits, one thousands mark, digits, the decimal separator, digits. */
  lemma ThousandsShape(x: string, s: char, y: string, c: char, f: string)
    requires AllDigits(x) && AllDigits(y) && AllDigits(f) && f != []
    requires IsSeparator(s) && IsSeparator(c)
    ensures DecimalShape(x + [s] + y, c, f) && DropSeparators(x + [s] + y) == x + y
  {
    var a := x + [s] + y;
    assert '.' !in x && '.' !in y && ',' !in x && ',' !in y;
    RemoveAround(x, s, y, '.');
    if s == '.' {
      assert RemoveChar(a, '.') == x + y;
      RemoveCharAppend(x, y, ',');
      RemoveCharAbsent(x, ',');
      RemoveCharAbsent(y, ',');
    } else {
      assert RemoveChar(a, '.') == a;
      RemoveAround(x, s, y, ',');
      assert RemoveChar(a, ',') == x + y;
    }
    forall i | 0 <= i < |a| ensures IsDigit(a[i]) || IsSeparator(a[i]) {
      if i < |x| { assert a[i] == x[i]; }
      else if i > |x| { assert a[i] == y[i - |x| - 1]; }
    }
  }

  /** Digits, the decimal separator, digits. */
  lemma DigitsShape(a: string, c: char, f: string)
    requires AllDigits(a) && AllDigits(f) && f != [] && IsSeparator(c)
    ensures DecimalShape(a, c, f) && DropSeparators(a) == a
  {
    assert '.' !in a && ',' !in a;
    RemoveCharAbsent(a, '.');
    RemoveCharAbsent(a, ',');
  }

  lemma Value1234(x: string, y: string, f: string)
    requires x == "1" && y == "234" && f == "56"
    ensures AllDigits(x + y) && AllDigits(f) && DecimalValue(x + y, f) == 1234.56
  {
    assert x + y == "1234";
    Digits1234();
    assert Pow10(|f|) == 100;
  }

  lemma Value0014(x: string, y: string, f: string)
    requires x == "0" && y == "014" && f == "99"
    ensures AllDigits(x + y) && AllDigits(f) && DecimalValue(x + y, f) == 14.99
  {
    assert x + y == "0014";
    Digits0014();
    assert Pow10(|f|) == 100;
  }

  lemma Value32(d: string, f: string)
    requires d == "32" && f == "00"
    ensures AllDigits(d) && AllDigits(f) && DecimalValue(d, f) == 32.0
  {
    Digits32();
    assert Pow10(|f|) == 100;
  }

  lemma Digits1234()
    ensures DigitsValue("1234") == 1234 && DigitsValue("56") == 56
  {
    assert "1234"[..3] == "123" && "123"[..2] == "12" && "12"[..1] == "1" && "1"[..0] == "";
    assert "56"[..1] == "5" && "5"[..0] == "";
  }

  lemma Digits0014()
    ensures DigitsValue("0014") == 14 && DigitsValue("99") == 99
  {
    assert "0014"[..3] == "001" && "001"[..2] == "00" && "00"[..1] == "0" && "0"[..0] == "";
    assert "99"[..1] == "9" && "9"[..0] == "";
  }

  lemma Digits32()
    ensures DigitsValue("32") == 32 && DigitsValue("00") == 0
  {
    assert "32"[..1] == "3" && "3"[..0] == "";
    assert "00"[..1] == "0" && "0"[..0] == "";
  }

  // ======================================================= collapse_lines

  /** `^\d{2}/\d{2}/\d{4}`: the line starts with a `DD/MM/YYYY` date. */
  predicate StartsWithDate(ln: string)
  {
    && |ln| >= 10
    && IsDigit(ln[0]) && IsDigit(ln[1]) && ln[2] == '/'
    && IsDigit(ln[3]) && IsDigit(ln[4]) && ln[5] == '/'
    && IsDigit(ln[6]) && IsDigit(ln[7]) && IsDigit(ln[8]) && IsDigit(ln[9])
  }

  /** Stripping a dated line keeps its date in front. */
  lemma StripDateLine(ln: string)
    requires StartsWithDate(ln)
    ensures StartsWithDate(Strip(ln)) && Strip(ln)[..10] == ln[..10]
  {
    StripKeepsPrefix(ln, 10);
  }

  /** The page's lines grouped into the transactions `collapse_lines`
      builds: a dated line opens a new group, and any other line continues
      the open group (or opens the first one when there is none yet). */
  function Blocks(lines: seq<string>): (bs: seq<seq<string>>)
    ensures forall k :: 0 <= k < |bs| ==> bs[k] != []
    ensures |bs| <= |lines| && (lines == [] <==> bs == [])
  {
    if lines == [] then []
    else
      var bs := Blocks(lines[..|lines| - 1]);
      var ln := lines[|lines| - 1];
      if StartsWithDate(ln) || bs == [] then bs + [[ln]]
      else bs[..|bs| - 1] + [bs[|bs| - 1] + [ln]]
  }

  /** A space and the stripped text of each continuation line. */
  function Continuation(ls: seq<string>): string
  {
    if ls == [] then "" else Continuation(ls[..|ls| - 1]) + " " + Strip(ls[|ls| - 1])
  }

  /** The merged text of one group: the stripped dated line followed by its
      continuations, or only continuations for a group without a date. */
  function Render(block: seq<string>): string
  {
    if block != [] && StartsWithDate(block[0]) then Strip(block[0]) + Continuation(block[1..])
    else Continuation(block)
  }

  lemma RenderNonEmpty(block: seq<string>)
    requires block != []
    ensures Render(block) != ""
  {
    if StartsWithDate(block[0]) {
      StripDateLine(block[0]);
    } else {
      assert block == block[..|block| - 1] + [block[|block| - 1]];
    }
  }

  /** A continuation line adds a space and its stripped text to its group. */
  lemma RenderExtend(block: seq<string>, ln: string)
    requires block != []
    ensures Render(block + [ln]) == Render(block) + " " + Strip(ln)
  {
    var b := block + [ln];
    assert b[0] == block[0];
    if StartsWithDate(block[0]) {
      assert b[1..] == block[1..] + [ln];
      ContinuationSnoc(block[1..], ln);
      var d, c := Strip(block[0]), Continuation(block[1..]);
      AppendAssoc(d, c + " ", Strip(ln));
      AppendAssoc(d, c, " ");
    } else {
      ContinuationSnoc(block, ln);
    }
  }

  lemma AppendAssoc<T>(x: seq<T>, y: seq<T>, z: seq<T>)
    ensures x + (y + z) == (x + y) + z
  {
  }

  lemma ContinuationSnoc(ls: seq<string>, ln: string)
    ensures Continuation(ls + [ln]) == Continuation(ls) + " " + Strip(ln)
  {
    assert (ls + [ln])[..|ls|] == ls;
  }

  /** The concatenation of the groups. */
  function Flatten(bs: seq<seq<string>>): seq<string>
  {
    if bs == [] then [] else Flatten(bs[..|bs| - 1]) + bs[|bs| - 1]
  }

  /** Grouping loses, duplicates and reorders nothing: the groups put back
      together are the page's lines. */
  lemma {:induction false} BlocksPartition(lines: seq<string>)
    ensures Flatten(Blocks(lines)) == lines
  {
    if lines != [] {
      var init := lines[..|lines| - 1];
      var ln := lines[|lines| - 1];
      var bs := Blocks(init);
      BlocksPartition(init);
      assert lines == init + [ln];
      BlocksSnoc(init, ln);
      if StartsWithDate(ln) || bs == [] {
        FlattenSnoc(bs, [ln]);
      } else {
        var n := |bs|;
        FlattenSnoc(bs[..n - 1], bs[n - 1] + [ln]);
        AppendAssoc(Flatten(bs[..n - 1]), bs[n - 1], [ln]);
      }
    }
  }

  lemma FlattenSnoc(bs: seq<seq<string>>, b: seq<string>)
    ensures Flatten(bs + [b]) == Flatten(bs) + b
  {
    assert (bs + [b])[..|bs|] == bs;
  }

  /** Every group after the first starts with a dated line, no dated line
      sits inside a group, and the first group starts with the first line. */
  ghost predicate GroupedByDate(lines: seq<string>, bs: seq<seq<string>>)
  {
    && (forall k :: 0 < k < |bs| ==> bs[k] != [] && StartsWithDate(bs[k][0]))
    && (forall k, j :: 0 <= k < |bs| && 0 < j < |bs[k]| ==> !StartsWithDate(bs[k][j]))
    && (lines != [] ==> bs != [] && bs[0] != [] && bs[0][0] == lines[0])
  }

  lemma {:induction false} BlocksByDate(lines: seq<string>)
    ensures GroupedByDate(lines, Blocks(lines))
  {
    if lines != [] {
      var init := lines[..|lines| - 1];
      var ln := lines[|lines| - 1];
      BlocksByDate(init);
      assert lines == init + [ln];
      BlocksSnoc(init, ln);
      if StartsWithDate(ln) || Blocks(init) == [] {
        GroupedOpen(init, Blocks(init), ln);
      } else {
        GroupedContinue(init, Blocks(init), ln);
      }
    }
  }

  /** The grouping of the lines with one more: a dated line (or the very
      first line) opens a group, any other extends the last one. */
  lemma BlocksSnoc(ls: seq<string>, ln: string)
    ensures var bs := Blocks(ls);
      Blocks(ls + [ln]) ==
        if StartsWithDate(ln) || bs == [] then bs + [[ln]]
        else bs[..|bs| - 1] + [bs[|bs| - 1] + [ln]]
  {
    assert (ls + [ln])[..|ls|] == ls;
  }

  lemma GroupedOpen(ls: seq<string>, bs: seq<seq<string>>, ln: string)
    requires GroupedByDate(ls, bs) && (ls == [] <==> bs == [])
    requires StartsWithDate(ln) || bs == []
    ensures GroupedByDate(ls + [ln], bs + [[ln]])
  {
    var bs' := bs + [[ln]];
    assert forall k :: 0 <= k < |bs| ==> bs'[k] == bs[k];
    if ls != [] {
      assert (ls + [ln])[0] == ls[0];
    }
  }

  lemma GroupedContinue(ls: seq<string>, bs: seq<seq<string>>, ln: string)
    requires GroupedByDate(ls, bs) && ls != [] && bs != [] && !StartsWithDate(ln)
    ensures var n := |bs|; GroupedByDate(ls + [ln], bs[..n - 1] + [bs[n - 1] + [ln]])
  {
    var n := |bs|;
    var bs' := bs[..n - 1] + [bs[n - 1] + [ln]];
    assert forall k :: 0 <= k < n - 1 ==> bs'[k] == bs[k];
    var last, last' := bs[n - 1], bs'[n - 1];
    assert last' == last + [ln];
    assert forall j :: 0 <= j < |last| ==> last'[j] == last[j];
    assert (ls + [ln])[0] == ls[0];
  }

  /** `f` applied to each element, in order. */
  function MapSeq<A, B>(s: seq<A>, f: A -> B): (r: seq<B>)
    ensures |r| == |s|
  {
    if s == [] then [] else MapSeq(s[..|s| - 1], f) + [f(s[|s| - 1])]
  }

  lemma {:induction false} MapSeqAt<A, B>(s: seq<A>, f: A -> B, k: nat)
    requires k < |s|
    ensures MapSeq(s, f)[k] == f(s[k])
    decreases |s|
  {
    var init := s[..|s| - 1];
    if k < |init| {
      MapSeqAt(init, f, k);
    }
  }

  /** `merged` holds the rendering of every group of `bs` but the last,
      and `buff` that of the last one ("" when there is none). */
  ghost predicate RendersAs(bs: seq<seq<string>>, merged: seq<string>, buff: string)
  {
    if bs == [] then merged == [] && buff == ""
    else merged == MapSeq(bs[..|bs| - 1], Render) && buff == Render(bs[|bs| - 1])
  }

  /** The state of `collapse_lines` after the lines `ls`: `merged` holds
      every finished group and `buff` the open one ("" when none). */
  ghost predicate Collapsed(ls: seq<string>, merged: seq<string>, buff: string)
  {
    RendersAs(Blocks(ls), merged, buff)
  }

  /** A dated line closes the open group, if any, and opens its own. */
  lemma RendersOpen(bs: seq<seq<string>>, merged: seq<string>, buff: string, ln: string)
    requires forall k :: 0 <= k < |bs| ==> bs[k] != []
    requires RendersAs(bs, merged, buff) && StartsWithDate(ln)
    ensures RendersAs(bs + [[ln]], if buff != "" then merged + [buff] else merged, Strip(ln))
  {
    var bs' := bs + [[ln]];
    RenderDated(ln);
    assert bs'[..|bs|] == bs;
    if bs != [] {
      RenderNonEmpty(bs[|bs| - 1]);
    }
  }

  /** Any other line is added to the open group with a space. */
  lemma RendersExtend(bs: seq<seq<string>>, merged: seq<string>, buff: string, ln: string)
    requires RendersAs(bs, merged, buff) && bs != [] && bs[|bs| - 1] != []
    ensures var n := |bs|;
      RendersAs(bs[..n - 1] + [bs[n - 1] + [ln]], merged, buff + " " + Strip(ln))
  {
    var n := |bs|;
    var bs' := bs[..n - 1] + [bs[n - 1] + [ln]];
    RenderExtend(bs[n - 1], ln);
    assert bs'[..n - 1] == bs[..n - 1];
  }

  /** A line that is not dated opens the first group when there is none. */
  lemma RendersFirst(buff: string, ln: string)
    requires buff == "" && !StartsWithDate(ln)
    ensures RendersAs([[ln]], [], buff + " " + Strip(ln))
  {
    var bs := [[ln]];
    assert bs[..0] == [];
    ContinuationSnoc([], ln);
    assert [] + [ln] == [ln];
    assert Render([ln]) == Continuation([ln]);
  }

  /** The grouping of one more line of the page: `BlocksSnoc` on a prefix. */
  lemma BlocksAt(lines: seq<string>, i: nat)
    requires i < |lines|
    ensures var bs := Blocks(lines[..i]);
      Blocks(lines[..i + 1]) ==
        if StartsWithDate(lines[i]) || bs == [] then bs + [[lines[i]]]
        else bs[..|bs| - 1] + [bs[|bs| - 1] + [lines[i]]]
  {
    assert lines[..i + 1][..i] == lines[..i];
  }

  lemma CollapseDated(lines: seq<string>, i: nat, merged: seq<string>, buff: string)
    requires i < |lines| && Collapsed(lines[..i], merged, buff) && StartsWithDate(lines[i])
    ensures Collapsed(lines[..i + 1], if buff != "" then merged + [buff] else merged, Strip(lines[i]))
  {
    BlocksAt(lines, i);
    RendersOpen(Blocks(lines[..i]), merged, buff, lines[i]);
  }

  lemma RenderDated(ln: string)
    requires StartsWithDate(ln)
    ensures Render([ln]) == Strip(ln)
  {
    assert [ln][1..] == [];
  }

  lemma CollapseContinued(lines: seq<string>, i: nat, merged: seq<string>, buff: string)
    requires i < |lines| && Collapsed(lines[..i], merged, buff) && !StartsWithDate(lines[i])
    ensures Collapsed(lines[..i + 1], merged, buff + " " + Strip(lines[i]))
  {
    var bs := Blocks(lines[..i]);
    BlocksAt(lines, i);
    if bs != [] {
      assert bs[|bs| - 1] != [];
      RendersExtend(bs, merged, buff, lines[i]);
    } else {
      RendersFirst(buff, lines[i]);
    }
  }

  lemma CollapseFlush(ls: seq<string>, merged: seq<string>, buff: string)
    requires Collapsed(ls, merged, buff)
    ensures var out := if buff != "" then merged + [buff] else merged;
      && |out| == |Blocks(ls)|
      && forall k :: 0 <= k < |out| ==> out[k] == Render(Blocks(ls)[k])
  {
    var bs := Blocks(ls);
    forall k | 0 <= k < |bs| {
      MapSeqAt(bs, Render, k);
    }
    if bs != [] {
      RenderNonEmpty(bs[|bs| - 1]);
    }
  }

  /** `collapse_lines(lines)`: one merged string per group. A dated line
      flushes the text gathered so far and starts afresh; any other line
      is appended with a space. */
  method CollapseLines(lines: seq<string>) returns (merged: seq<string>)
    ensures |merged| == |Blocks(lines)|
    ensures forall k :: 0 <= k < |merged| ==> merged[k] == Render(Blocks(lines)[k])
    ensures forall k :: 0 < k < |merged| ==> StartsWithDate(merged[k])
    ensures lines != [] && StartsWithDate(lines[0]) ==> StartsWithDate(merged[0])
  {
    var buff := "";
    merged := [];
    for i := 0 to |lines|
      invariant Collapsed(lines[..i], merged, buff)
    {
      var ln := lines[i];
      if StartsWithDate(ln) {
        CollapseDated(lines, i, merged, buff);
        if buff != "" {
          merged := merged + [buff];
        }
        buff := Strip(ln);
      } else {
        CollapseContinued(lines, i, merged, buff);
        buff := buff + " " + Strip(ln);
      }
    }
    assert lines[..|lines|] == lines;
    CollapseFlush(lines, merged, buff);
    if buff != "" {
      merged := merged + [buff];
    }
    CollapsedDates(lines);
  }

  /** Every merged transaction after the first starts with a date, and so
      does the first when the page's first line does. */
  lemma CollapsedDates(lines: seq<string>)
    ensures var bs := Blocks(lines);
      && (forall k :: 0 < k < |bs| ==> StartsWithDate(Render(bs[k])))
      && (lines != [] && StartsWithDate(lines[0]) ==> StartsWithDate(Render(bs[0])))
  {
    var bs := Blocks(lines);
    BlocksByDate(lines);
    forall k | 0 <= k < |bs| && StartsWithDate(bs[k][0])
      ensures StartsWithDate(Render(bs[k]))
    {
      StripDateLine(bs[k][0]);
      DatePrefixKept(Strip(bs[k][0]), Continuation(bs[k][1..]));
    }
  }

  lemma DatePrefixKept(a: string, b: string)
    requires StartsWithDate(a)
    ensures StartsWithDate(a + b)
  {
    assert forall j :: 0 <= j < 10 ==> (a + b)[j] == a[j];
  }

  // ========================================================== extract_txn

  /** A transaction as the parser emits it. */
  datatype Txn = Txn(tarih: string, aciklama: string, tutar: real, kategori: string)

  /** A number found on the line: its value and its text. */
  datatype Token = Token(value: real, text: string)

  /** The words that mark a MAXIPUAN (bonus points) line. */
  const TrimKeys: seq<string> := ["MAXIPUAN", "MAX\U{130}PUAN", "MAXIPUANILAVE",
    "PUANY\U{DC}KLEME", "PUANGER\U{130}ALIM", "KAZANILAN"]

  /** The words that introduce a limit or total rather than an amount. */
  const LimitWords: seq<string> := ["M\U{FC}\U{15F}teri", "TOPLAM", "Limit", "BOR\U{C7}TOPLAMI"]

  /** How close (in characters) a limit word must be before a number to
      disqualify it. */
  const LimitWindow := 40

  /** `^(\d{2}/\d{2}/\d{4})\s*(.*)$`: the date and the rest of the line with
      its leading white space skipped. `.` stops at a line break and `$` also
      matches before a final one, so a line break is allowed only at the
      very end (and is not part of the rest). */
  function MatchLine(line: string): (m: Option<(string, string)>)
    ensures m.Some? ==> StartsWithDate(line) && m.value.0 == line[..10] && '\n' !in m.value.1
    ensures StartsWithDate(line) && '\n' !in line ==> m == Some((line[..10], StripLeft(line[10..])))
    ensures !StartsWithDate(line) ==> m.None?
  {
    if !StartsWithDate(line) then None
    else
      var r := StripLeft(line[10..]);
      var body := if r != [] && r[|r| - 1] == '\n' then r[..|r| - 1] else r;
      if '\n' in body then None else Some((line[..10], body))
  }

  /** Python's `rest[:at]` for an index `at` that `find` returned: -1 (not
      found) cuts the last character off. */
  function PrefixBefore(rest: string, at: int): (p: string)
    requires -1 <= at <= |rest|
    ensures at >= 0 ==> p == rest[..at]
    ensures at == -1 ==> |p| == Max(|rest| - 1, 0) && p == rest[..|p|]
  {
    if at >= 0 then rest[..at] else if rest == [] then [] else rest[..|rest| - 1]
  }

  /** The digits of an amount without its sign. */
  function AmountBody(n: string): string
  {
    if n != [] && n[0] == '-' then n[1..] else n
  }

  /** What `NUM_RE` (and the amount group of `TAKSIT_RE`) can match: an
      optional '-', digits and separators beginning with a digit, a
      separator, and two digits. */
  predicate AmountText(n: string)
  {
    var u := AmountBody(n);
    && |u| >= 4 && IsDigit(u[0])
    && (forall i :: 0 <= i < |u| - 3 ==> IsDigit(u[i]) || IsSeparator(u[i]))
    && IsSeparator(u[|u| - 3]) && IsDigit(u[|u| - 2]) && IsDigit(u[|u| - 1])
  }

  /** The digits of `u`, ignoring its separators, read as a whole number. */
  function Cents(u: string): nat
    requires forall i :: 0 <= i < |u| ==> IsDigit(u[i]) || IsSeparator(u[i])
  {
    if u == [] then 0
    else
      var c := u[|u| - 1];
      if IsSeparator(c) then Cents(u[..|u| - 1]) else Cents(u[..|u| - 1]) * 10 + DigitValue(c)
  }

  /** The value of an amount: every amount ends in a separator and two
      digits, so its digits, separators ignored, count hundredths; a '-'
      negates. */
  function AmountValue(n: string): real
    requires AmountText(n)
  {
    WithSign(n, (Cents(AmountBody(n)) as real) / 100.0)
  }

  /** Every amount the regular expressions can match parses, to the value
      above: `parse_number` never fails on them. */
  lemma AmountParses(n: string)
    requires AmountText(n)
    ensures ParseNumber(n) == Ok(AmountValue(n))
  {
    var u := AmountBody(n);
    var a, c, f := u[..|u| - 3], u[|u| - 3], u[|u| - 2..];
    AmountParts(n);
    assert u == a + [c] + f && |f| == 2;
    AmountDecimal(n, a, c, f);
    ParseNumberDecimal(n, a, c, f);
  }

  /** The hundredths reading agrees with the decimal `float` makes. */
  lemma AmountDecimal(n: string, a: string, c: char, f: string)
    requires AmountText(n) && AmountBody(n) == a + [c] + f
    requires DecimalShape(a, c, f) && |f| == 2
    ensures AllDigits(DropSeparators(a))
    ensures AmountValue(n) == WithSign(n, DecimalValue(DropSeparators(a), f))
  {
    CentsSplit(a, c, f);
    CentsDigits(a);
    DecimalHundredths(DropSeparators(a), f);
  }

  /** The last three characters of an amount, a separator and two digits,
      make the hundredths. */
  lemma CentsSplit(a: string, c: char, f: string)
    requires DecimalShape(a, c, f) && |f| == 2
    ensures Cents(a + [c] + f) == Cents(a) * 100 + DigitsValue(f)
  {
    var u := a + [c] + f;
    var u1 := a + [c] + [f[0]];
    assert u[..|u| - 1] == u1 && u[|u| - 1] == f[1];
    assert u1[..|u1| - 1] == a + [c] && u1[|u1| - 1] == f[0];
    assert (a + [c])[..|a|] == a;
    assert Cents(a + [c]) == Cents(a);
    assert Cents(u1) == Cents(a) * 10 + DigitValue(f[0]);
    assert Cents(u) == Cents(u1) * 10 + DigitValue(f[1]);
    assert f[..1] == [f[0]] && [f[0]][..0] == [];
    assert DigitsValue(f) == DigitValue(f[0]) * 10 + DigitValue(f[1]);
  }

  lemma DecimalHundredths(d: string, f: string)
    requires AllDigits(d) && AllDigits(f) && |f| == 2
    ensures DecimalValue(d, f) == ((DigitsValue(d) * 100 + DigitsValue(f)) as real) / 100.0
  {
    assert Pow10(2) == 100;
  }

  /** Reading an amount's digits with its separators skipped is reading the
      text with its separators dropped. */
  lemma {:induction false} CentsDigits(u: string)
    requires forall i :: 0 <= i < |u| ==> IsDigit(u[i]) || IsSeparator(u[i])
    ensures AllDigits(DropSeparators(u)) && Cents(u) == DigitsValue(DropSeparators(u))
  {
    DropSeparatorsDigits(u);
    if u != [] {
      var init, x := u[..|u| - 1], u[|u| - 1];
      CentsDigits(init);
      var d := DropSeparators(init);
      DropSeparatorsLast(u);
      if !IsSeparator(x) {
        assert DropSeparators(u) == d + [x];
        assert (d + [x])[..|d|] == d;
        assert Cents(u) == DigitsValue(d + [x]);
      } else {
        assert DropSeparators(u) == d;
        assert Cents(u) == Cents(init);
      }
    }
  }

  lemma DropSeparatorsLast(u: string)
    requires u != []
    ensures var x := u[|u| - 1];
      DropSeparators(u) == DropSeparators(u[..|u| - 1]) + (if IsSeparator(x) then [] else [x])
  {
    assert u == u[..|u| - 1] + [u[|u| - 1]];
    DropSeparatorsSnoc(u[..|u| - 1], u[|u| - 1]);
  }

  /** Dropping the separators one character at a time. */
  lemma DropSeparatorsSnoc(s: string, x: char)
    ensures DropSeparators(s + [x]) == DropSeparators(s) + (if IsSeparator(x) then [] else [x])
  {
    RemoveCharAppend(s, [x], '.');
    RemoveSingle(x, '.');
    var m: string := if x == '.' then [] else [x];
    RemoveCharAppend(RemoveChar(s, '.'), m, ',');
    if x != '.' {
      RemoveSingle(x, ',');
    }
  }

  lemma AmountParts(n: string)
    requires AmountText(n)
    ensures var u := AmountBody(n);
      var a, c, f := u[..|u| - 3], u[|u| - 3], u[|u| - 2..];
      SignedForm(n, a + [c] + f) && DecimalShape(a, c, f)
  {
    var u := AmountBody(n);
    var a, c, f := u[..|u| - 3], u[|u| - 3], u[|u| - 2..];
    assert u == a + [c] + f;
    assert f == [u[|u| - 2], u[|u| - 1]];
  }


  /** A limit word found at `kw` stands before the number at `pos`, closer
      than the window. */
  predicate NearBefore(kw: int, pos: int)
  {
    kw != -1 && kw < pos && pos - kw < LimitWindow
  }

  /** Some limit word of `words` occurs before `pos` within the window. */
  function NearLimit(rest: string, words: seq<string>, pos: int): bool
  {
    words != [] && (NearBefore(Find(rest, words[0]), pos) || NearLimit(rest, words[1..], pos))
  }

  /** The numbers at `pos` that the loop over `LIMIT_WORDS` discards. */
  predicate TooClose(rest: string, pos: int)
  {
    NearLimit(rest, LimitWords, pos)
  }

  /** The number `n` is discarded: a limit word occurs shortly before the
      first place where its text occurs. */
  predicate Disqualified(rest: string, n: string)
  {
    TooClose(rest, Find(rest, n))
  }

  /** A number is discarded exactly when one of the words occurs before it
      within the window. */
  lemma {:induction false} NearLimitExists(rest: string, words: seq<string>, pos: int)
    ensures NearLimit(rest, words, pos) <==>
      exists q :: 0 <= q < |words| && NearBefore(Find(rest, words[q]), pos)
  {
    if words != [] {
      NearLimitExists(rest, words[1..], pos);
      assert forall q :: 1 <= q < |words| ==> words[q] == words[1..][q - 1];
      if NearLimit(rest, words[1..], pos) {
        var q :| 0 <= q < |words| - 1 && NearBefore(Find(rest, words[1..][q]), pos);
        assert NearBefore(Find(rest, words[q + 1]), pos);
      }
    }
  }

  /** The numbers kept by the `valid` loop, in their order on the line:
      each one is looked up by its text and dropped when a limit word
      comes shortly before that place. */
  function ValidTokens(rest: string, nums: seq<string>): (valid: seq<Token>)
    requires forall k :: 0 <= k < |nums| ==> AmountText(nums[k])
    ensures |valid| <= |nums|
  {
    if nums == [] then []
    else
      var init := nums[..|nums| - 1];
      var prev := ValidTokens(rest, init);
      var n := nums[|nums| - 1];
      assert forall x :: x in init ==> x in nums;
      if Disqualified(rest, n) then prev else prev + [Token(AmountValue(n), n)]
  }

  /** The limit rule: every number kept is one of the numbers, with its
      value, and no limit word comes shortly before it. */
  lemma {:induction false} ValidTokensSound(rest: string, nums: seq<string>, k: nat) returns (i: nat)
    requires forall k :: 0 <= k < |nums| ==> AmountText(nums[k])
    requires k < |ValidTokens(rest, nums)|
    ensures i < |nums| && !Disqualified(rest, nums[i])
    ensures ValidTokens(rest, nums)[k] == Token(AmountValue(nums[i]), nums[i])
  {
    var init := nums[..|nums| - 1];
    if k < |ValidTokens(rest, init)| {
      i := ValidTokensSound(rest, init, k);
      assert init[i] == nums[i];
    } else {
      i := |nums| - 1;
    }
  }

  /** The limit rule, the other way round: a number with no limit word
      shortly before it is kept. */
  lemma {:induction false} ValidTokensKeep(rest: string, nums: seq<string>, i: nat)
    requires forall k :: 0 <= k < |nums| ==> AmountText(nums[k])
    requires i < |nums| && !Disqualified(rest, nums[i])
    ensures Token(AmountValue(nums[i]), nums[i]) in ValidTokens(rest, nums)
  {
    var init := nums[..|nums| - 1];
    if i < |nums| - 1 {
      assert init[i] == nums[i];
      ValidTokensKeep(rest, init, i);
    }
  }

  /** Where the earliest MAXIPUAN key occurs, or -1 when none does. */
  function FirstKeyAt(rest: string, keys: seq<string>): (r: int)
    ensures -1 <= r <= |rest|
    ensures r == -1 <==> forall q :: 0 <= q < |keys| ==> Find(rest, keys[q]) == -1
    ensures forall q :: 0 <= q < |keys| && Find(rest, keys[q]) != -1 ==> r <= Find(rest, keys[q])
  {
    if keys == [] then -1
    else
      var here, later := Find(rest, keys[0]), FirstKeyAt(rest, keys[1..]);
      assert forall q :: 1 <= q < |keys| ==> keys[q] == keys[1..][q - 1];
      if here == -1 then later
      else if later == -1 || here <= later then here
      else later
  }

  /** The position found is where one of the keys occurs. */
  lemma {:induction false} FirstKeyFound(rest: string, keys: seq<string>) returns (q: nat)
    requires FirstKeyAt(rest, keys) != -1
    ensures q < |keys| && Find(rest, keys[q]) == FirstKeyAt(rest, keys)
  {
    var here, later := Find(rest, keys[0]), FirstKeyAt(rest, keys[1..]);
    if here == -1 || (later != -1 && later < here) {
      q := FirstKeyFound(rest, keys[1..]);
      assert keys[1..][q] == keys[q + 1];
      q := q + 1;
    } else {
      q := 0;
    }
  }

  /** The tokens worth at least 1 in absolute value, in order. */
  function Large(valid: seq<Token>): (large: seq<Token>)
    ensures |large| <= |valid|
    ensures forall k :: 0 <= k < |large| ==> large[k] in valid && Abs(large[k].value) >= 1.0
    ensures forall k :: 0 <= k < |valid| && Abs(valid[k].value) >= 1.0 ==> valid[k] in large
  {
    if valid == [] then []
    else
      var prev := Large(valid[..|valid| - 1]);
      var t := valid[|valid| - 1];
      assert forall k :: 0 <= k < |valid| - 1 ==> valid[k] == valid[..|valid| - 1][k];
      if Abs(t.value) >= 1.0 then prev + [t] else prev
  }

  /** Python's `max(ts, key=abs)`: the first of the tokens with the largest
      absolute value. */
  function FirstLargest(ts: seq<Token>): (r: nat)
    requires ts != []
    ensures r < |ts|
    ensures forall k :: 0 <= k < |ts| ==> Abs(ts[k].value) <= Abs(ts[r].value)
    ensures forall k :: 0 <= k < r ==> Abs(ts[k].value) < Abs(ts[r].value)
  {
    if |ts| == 1 then 0
    else
      var j := 1 + FirstLargest(ts[1..]);
      assert forall k :: 1 <= k < |ts| ==> ts[k] == ts[1..][k - 1];
      if Abs(ts[j].value) > Abs(ts[0].value) then j else 0
  }

  /** The choice among the kept numbers. On a MAXIPUAN line the largest
      amount of at least 1 wins and the description ends at the first
      MAXIPUAN key; otherwise the first kept number wins and the
      description ends where its text first occurs. */
  function Select(tarih: string, rest: string, valid: seq<Token>): (r: Option<Txn>)
    requires valid != []
    ensures r.Some? ==> r.value.tarih == tarih && r.value.kategori == ""
    ensures r.Some? ==> exists k :: 0 <= k < |valid| && valid[k].value == r.value.tutar
  {
    var cut := FirstKeyAt(rest, TrimKeys);
    if cut != -1 then
      var large := Large(valid);
      if large == [] then None
      else
        var t := large[FirstLargest(large)];
        assert t in valid;
        Some(Txn(tarih, Strip(rest[..cut]), t.value, ""))
    else
      Some(Txn(tarih, Strip(PrefixBefore(rest, Find(rest, valid[0].text))), valid[0].value, ""))
  }

  /** `extract_txn(line)`, given what the regular expressions find in the
      rest of the line: `taksit` is the amount group of the first
      `TAKSIT_RE` match (an instalment line) and `nums` are the `NUM_RE`
      matches in order. */
  function Extract(line: string, taksit: Option<string>, nums: seq<string>): (r: Option<Txn>)
    requires taksit.Some? ==> AmountText(taksit.value)
    requires forall k :: 0 <= k < |nums| ==> AmountText(nums[k])
    ensures r.Some? ==> StartsWithDate(line) && r.value.tarih == line[..10] && r.value.kategori == ""
    ensures taksit.None? && nums == [] ==> r.None?
  {
    match MatchLine(line)
    case None => None
    case Some((tarih, rest)) =>
      if taksit.Some? then
        var g := taksit.value;
        Some(Txn(tarih, Strip(PrefixBefore(rest, Find(rest, g))), AmountValue(g), ""))
      else if nums == [] then None
      else
        var valid := ValidTokens(rest, nums);
        if valid == [] then None else Select(tarih, rest, valid)
  }

  /** The inner loop of the `valid` loop: the limit words are scanned in
      order and the scan stops at the first one found shortly before
      `numPos`. */
  method ScanLimitWords(rest: string, numPos: int) returns (tooClose: bool)
    ensures tooClose == TooClose(rest, numPos)
  {
    tooClose := false;
    var j := 0;
    while j < |LimitWords|
      invariant 0 <= j <= |LimitWords| && !tooClose
      invariant TooClose(rest, numPos) == NearLimit(rest, LimitWords[j..], numPos)
    {
      var kwPos := Find(rest, LimitWords[j]);
      if kwPos != -1 && kwPos < numPos && numPos - kwPos < LimitWindow {
        tooClose := true;
        break;
      }
      assert LimitWords[j..][1..] == LimitWords[j + 1..];
      j := j + 1;
    }
  }

  /** One more number for the `valid` loop. */
  lemma ValidTokensStep(rest: string, nums: seq<string>, i: nat)
    requires forall k :: 0 <= k < |nums| ==> AmountText(nums[k])
    requires i < |nums|
    ensures ValidTokens(rest, nums[..i + 1]) ==
      if Disqualified(rest, nums[i]) then ValidTokens(rest, nums[..i])
      else ValidTokens(rest, nums[..i]) + [Token(AmountValue(nums[i]), nums[i])]
  {
    assert nums[..i + 1][..i] == nums[..i];
  }

  /** The `valid` loop of `extract_txn`: for each number, its value, the
      place where its text first occurs, and whether a limit word comes
      shortly before that place. */
  method KeptTokens(rest: string, nums: seq<string>) returns (valid: seq<Token>)
    requires forall k :: 0 <= k < |nums| ==> AmountText(nums[k])
    ensures valid == ValidTokens(rest, nums)
  {
    valid := [];
    for i := 0 to |nums|
      invariant valid == ValidTokens(rest, nums[..i])
    {
      var n := nums[i];
      var v := AmountValue(n);
      var numPos := Find(rest, n);
      var tooClose := ScanLimitWords(rest, numPos);
      ValidTokensStep(rest, nums, i);
      if !tooClose {
        valid := valid + [Token(v, n)];
      }
    }
    assert nums[..|nums|] == nums;
  }

  /** Where the first number that is not discarded sits, or -1. */
  function FirstKept(rest: string, nums: seq<string>): (i: int)
    ensures -1 <= i < |nums|
    ensures i == -1 <==> forall j :: 0 <= j < |nums| ==> Disqualified(rest, nums[j])
    ensures i >= 0 ==> !Disqualified(rest, nums[i]) && forall j :: 0 <= j < i ==> Disqualified(rest, nums[j])
  {
    if nums == [] then -1
    else if !Disqualified(rest, nums[0]) then 0
    else
      var k := FirstKept(rest, nums[1..]);
      assert forall j :: 1 <= j < |nums| ==> nums[j] == nums[1..][j - 1];
      if k == -1 then -1 else k + 1
  }

  /** Nothing is kept exactly when every number is discarded. */
  lemma {:induction false} ValidTokensEmpty(rest: string, nums: seq<string>)
    requires forall k :: 0 <= k < |nums| ==> AmountText(nums[k])
    ensures ValidTokens(rest, nums) == [] <==> forall i :: 0 <= i < |nums| ==> Disqualified(rest, nums[i])
  {
    if nums != [] {
      var init := nums[..|nums| - 1];
      ValidTokensEmpty(rest, init);
      DisqualifiedSnoc(rest, nums);
      ValidTokensPrefix(rest, nums);
    }
  }

  lemma DisqualifiedSnoc(rest: string, nums: seq<string>)
    requires nums != []
    ensures var init := nums[..|nums| - 1];
      (forall i :: 0 <= i < |nums| ==> Disqualified(rest, nums[i])) <==>
      (forall i :: 0 <= i < |init| ==> Disqualified(rest, init[i])) && Disqualified(rest, nums[|nums| - 1])
  {
    var init := nums[..|nums| - 1];
    assert forall j :: 0 <= j < |init| ==> init[j] == nums[j];
  }

  /** The first number kept is the first one that is not discarded. */
  lemma {:induction false} ValidTokensHead(rest: string, nums: seq<string>)
    requires forall k :: 0 <= k < |nums| ==> AmountText(nums[k])
    requires FirstKept(rest, nums) >= 0
    ensures var i := FirstKept(rest, nums);
      ValidTokens(rest, nums) != [] && ValidTokens(rest, nums)[0] == Token(AmountValue(nums[i]), nums[i])
  {
    var i := FirstKept(rest, nums);
    var init := nums[..|nums| - 1];
    if i == |nums| - 1 {
      HeadIsLast(rest, nums);
    } else {
      KeptPrefix(rest, nums, init, i);
      ValidTokensHead(rest, init);
      ValidTokensPrefix(rest, nums);
      assert init[i] == nums[i];
    }
  }

  /** Numbers further on never change what is kept before them. */
  lemma ValidTokensPrefix(rest: string, nums: seq<string>)
    requires forall k :: 0 <= k < |nums| ==> AmountText(nums[k])
    requires nums != []
    ensures var prev := ValidTokens(rest, nums[..|nums| - 1]);
      |prev| <= |ValidTokens(rest, nums)| && ValidTokens(rest, nums)[..|prev|] == prev
  {
  }

  lemma HeadIsLast(rest: string, nums: seq<string>)
    requires forall k :: 0 <= k < |nums| ==> AmountText(nums[k])
    requires nums != [] && FirstKept(rest, nums) == |nums| - 1
    ensures var n := nums[|nums| - 1];
      ValidTokens(rest, nums) == [Token(AmountValue(n), n)]
  {
    OnlyLastKept(rest, nums);
  }

  /** Only the last number survives the limit rule. */
  lemma OnlyLastKept(rest: string, nums: seq<string>)
    requires forall k :: 0 <= k < |nums| ==> AmountText(nums[k])
    requires nums != [] && !Disqualified(rest, nums[|nums| - 1])
    requires forall j :: 0 <= j < |nums| - 1 ==> Disqualified(rest, nums[j])
    ensures var n := nums[|nums| - 1];
      ValidTokens(rest, nums) == [Token(AmountValue(n), n)]
  {
    var last := |nums| - 1;
    var init := nums[..last];
    assert forall j :: 0 <= j < |init| ==> init[j] == nums[j];
    ValidTokensEmpty(rest, init);
    ValidTokensStep(rest, nums, last);
    assert nums[..last + 1] == nums;
  }

  lemma KeptPrefix(rest: string, nums: seq<string>, init: seq<string>, i: int)
    requires 0 <= i < |init| <= |nums| && init == nums[..|init|]
    requires !Disqualified(rest, nums[i]) && forall j :: 0 <= j < i ==> Disqualified(rest, nums[j])
    ensures FirstKept(rest, init) == i
  {
    var k := FirstKept(rest, init);
    assert init[i] == nums[i];
    assert forall j :: 0 <= j < i ==> init[j] == nums[j];
  }

  /** The rest of a dated line after the date and the white space. */
  function RestOf(line: string): (rest: string)
    requires |line| >= 10
    ensures rest == [] || !IsPySpace(rest[0])
  {
    StripLeft(line[10..])
  }

  /** An instalment line: the instalment amount wins over every other
      number, and the description is what comes before its text. */
  lemma ExtractInstalment(line: string, g: string, nums: seq<string>)
    requires StartsWithDate(line) && '\n' !in line && AmountText(g)
    requires forall k :: 0 <= k < |nums| ==> AmountText(nums[k])
    ensures var r := Extract(line, Some(g), nums);
      var rest := RestOf(line);
      && r.Some? && r == Extract(line, Some(g), [])
      && r.value.tutar == AmountValue(g)
      && (Find(rest, g) >= 0 ==> r.value.aciklama == Strip(rest[..Find(rest, g)]))
  {
  }

  /** A line without MAXIPUAN keys: the amount is the first number with no
      limit word shortly before it, the description is the text before
      that number, and there is no transaction when every number is
      disqualified. */
  lemma ExtractPlain(line: string, nums: seq<string>)
    requires StartsWithDate(line) && '\n' !in line
    requires forall k :: 0 <= k < |nums| ==> AmountText(nums[k])
    requires forall q :: 0 <= q < |TrimKeys| ==> Find(RestOf(line), TrimKeys[q]) == -1
    ensures var r := Extract(line, None, nums);
      var rest := RestOf(line);
      && (r.None? <==> forall i :: 0 <= i < |nums| ==> Disqualified(rest, nums[i]))
      && (r.Some? ==> exists i ::
        && 0 <= i < |nums| && !Disqualified(rest, nums[i])
        && (forall j :: 0 <= j < i ==> Disqualified(rest, nums[j]))
        && r.value.tutar == AmountValue(nums[i])
        && r.value.aciklama == Strip(PrefixBefore(rest, Find(rest, nums[i]))))
  {
    var rest := RestOf(line);
    ExtractKept(line, nums);
    ValidTokensEmpty(rest, nums);
    var i := FirstKept(rest, nums);
    if i >= 0 {
      ValidTokensHead(rest, nums);
      SelectPlain(line[..10], rest, ValidTokens(rest, nums));
      var t := Extract(line, None, nums).value;
      assert t.tutar == AmountValue(nums[i]);
      assert t.aciklama == Strip(PrefixBefore(rest, Find(rest, nums[i])));
    }
  }

  /** Without a MAXIPUAN key, the first kept number is the amount and the
      description is what comes before its text. */
  lemma SelectPlain(tarih: string, rest: string, valid: seq<Token>)
    requires valid != [] && forall q :: 0 <= q < |TrimKeys| ==> Find(rest, TrimKeys[q]) == -1
    ensures Select(tarih, rest, valid) ==
      Some(Txn(tarih, Strip(PrefixBefore(rest, Find(rest, valid[0].text))), valid[0].value, ""))
  {
    assert FirstKeyAt(rest, TrimKeys) == -1;
  }

  /** A number that is kept and worth at least 1. */
  predicate Counted(rest: string, n: string)
    requires AmountText(n)
  {
    !Disqualified(rest, n) && Abs(AmountValue(n)) >= 1.0
  }

  /** A MAXIPUAN line gives no transaction exactly when no kept number is
      worth at least 1. */
  lemma ExtractMaxipuanNone(line: string, nums: seq<string>)
    requires StartsWithDate(line) && '\n' !in line
    requires forall k :: 0 <= k < |nums| ==> AmountText(nums[k])
    requires FirstKeyAt(RestOf(line), TrimKeys) != -1
    ensures Extract(line, None, nums).None? <==> forall i :: 0 <= i < |nums| ==> !Counted(RestOf(line), nums[i])
  {
    var rest := RestOf(line);
    var valid := ValidTokens(rest, nums);
    ExtractKept(line, nums);
    if valid == [] {
      ValidTokensEmpty(rest, nums);
    } else {
      SelectMaxipuan(line[..10], rest, valid);
      forall i | 0 <= i < |nums| && Counted(rest, nums[i])
        ensures exists k :: 0 <= k < |valid| && Abs(valid[k].value) >= 1.0
      {
        ValidTokensKeep(rest, nums, i);
      }
      if Extract(line, None, nums).Some? {
        var k :| 0 <= k < |valid| && Abs(valid[k].value) >= 1.0;
        var i := ValidTokensSound(rest, nums, k);
      }
    }
  }

  /** On a MAXIPUAN line the description ends at the first MAXIPUAN key and
      the amount is that of a kept number worth at least 1. */
  lemma ExtractMaxipuanAmount(line: string, nums: seq<string>)
    requires StartsWithDate(line) && '\n' !in line
    requires forall k :: 0 <= k < |nums| ==> AmountText(nums[k])
    requires FirstKeyAt(RestOf(line), TrimKeys) != -1
    requires Extract(line, None, nums).Some?
    ensures var t := Extract(line, None, nums).value;
      var rest := RestOf(line);
      && t.aciklama == Strip(rest[..FirstKeyAt(rest, TrimKeys)])
      && exists i :: 0 <= i < |nums| && Counted(rest, nums[i]) && AmountValue(nums[i]) == t.tutar
  {
    ExtractKept(line, nums);
    SelectCounted(line[..10], RestOf(line), nums);
  }

  /** `ExtractMaxipuanAmount` once the date is split off. */
  lemma SelectCounted(tarih: string, rest: string, nums: seq<string>)
    requires forall k :: 0 <= k < |nums| ==> AmountText(nums[k])
    requires FirstKeyAt(rest, TrimKeys) != -1 && ValidTokens(rest, nums) != []
    requires Select(tarih, rest, ValidTokens(rest, nums)).Some?
    ensures var t := Select(tarih, rest, ValidTokens(rest, nums)).value;
      && t.aciklama == Strip(rest[..FirstKeyAt(rest, TrimKeys)])
      && exists i :: 0 <= i < |nums| && Counted(rest, nums[i]) && AmountValue(nums[i]) == t.tutar
  {
    var valid := ValidTokens(rest, nums);
    SelectMaxipuan(tarih, rest, valid);
    var k :| 0 <= k < |valid| && valid[k].value == Select(tarih, rest, valid).value.tutar && Abs(valid[k].value) >= 1.0;
    ValidTokensCounted(rest, nums, k);
  }

  /** A kept number worth at least 1 is counted. */
  lemma ValidTokensCounted(rest: string, nums: seq<string>, k: nat)
    requires forall k :: 0 <= k < |nums| ==> AmountText(nums[k])
    requires k < |ValidTokens(rest, nums)| && Abs(ValidTokens(rest, nums)[k].value) >= 1.0
    ensures exists i :: 0 <= i < |nums| && Counted(rest, nums[i]) && AmountValue(nums[i]) == ValidTokens(rest, nums)[k].value
  {
    var i := ValidTokensSound(rest, nums, k);
    assert Counted(rest, nums[i]);
  }

  /** On a MAXIPUAN line no kept number worth at least 1 is larger, in
      absolute value, than the amount chosen. */
  lemma ExtractMaxipuanLargest(line: string, nums: seq<string>, i: nat)
    requires StartsWithDate(line) && '\n' !in line
    requires forall k :: 0 <= k < |nums| ==> AmountText(nums[k])
    requires FirstKeyAt(RestOf(line), TrimKeys) != -1
    requires i < |nums| && Counted(RestOf(line), nums[i])
    ensures Extract(line, None, nums).Some?
    ensures Abs(AmountValue(nums[i])) <= Abs(Extract(line, None, nums).value.tutar)
  {
    var rest := RestOf(line);
    var valid := ValidTokens(rest, nums);
    ExtractKept(line, nums);
    ValidTokensKeep(rest, nums, i);
    SelectMaxipuan(line[..10], rest, valid);
  }

  /** Past the date, the line's transaction is chosen among its kept
      numbers. */
  lemma ExtractKept(line: string, nums: seq<string>)
    requires StartsWithDate(line) && '\n' !in line
    requires forall k :: 0 <= k < |nums| ==> AmountText(nums[k])
    ensures var valid := ValidTokens(RestOf(line), nums);
      Extract(line, None, nums) == if valid == [] then None else Select(line[..10], RestOf(line), valid)
  {
  }

  /** `Select` on a MAXIPUAN line, in terms of the kept numbers. */
  lemma SelectMaxipuan(tarih: string, rest: string, valid: seq<Token>)
    requires valid != [] && FirstKeyAt(rest, TrimKeys) != -1
    ensures var r := Select(tarih, rest, valid);
      && (r.None? <==> forall k :: 0 <= k < |valid| ==> Abs(valid[k].value) < 1.0)
      && (r.Some? ==> r.value.aciklama == Strip(rest[..FirstKeyAt(rest, TrimKeys)]))
      && (r.Some? ==> exists k :: 0 <= k < |valid| && valid[k].value == r.value.tutar && Abs(valid[k].value) >= 1.0)
      && (r.Some? ==> forall k :: 0 <= k < |valid| && Abs(valid[k].value) >= 1.0 ==> Abs(valid[k].value) <= Abs(r.value.tutar))
  {
    var large := Large(valid);
    if large != [] {
      var t := large[FirstLargest(large)];
      assert t in valid;
      forall k | 0 <= k < |valid| && Abs(valid[k].value) >= 1.0
        ensures Abs(valid[k].value) <= Abs(t.value)
      {
        assert valid[k] in large;
      }
    }
  }
}
