/** Shared value types and the string primitives of JavaScript and Python
    that the ledger code relies on: `split`, `padStart`, `parseInt`,
    `find`/`rfind`, `endsWith`, `strip` and `replace(c, '')`. */
module Common {

  datatype Option<+T> = None | Some(value: T)

  /** An operation that either yields a value or fails with a message
      (a thrown exception in the source). */
  datatype Result<+T> = Ok(value: T) | Err(msg: string)

  function Abs(x: real): (r: real)
    ensures r >= 0.0 && (r == x || r == -x)
  {
    if x < 0.0 then -x else x
  }

  // ---------------------------------------------------------------- digits

  predicate IsDigit(c: char) { '0' <= c <= '9' }

  predicate AllDigits(s: string) { forall i :: 0 <= i < |s| ==> IsDigit(s[i]) }

  function DigitValue(c: char): (d: nat)
    requires IsDigit(c)
    ensures d < 10
  {
    (c as int) - ('0' as int)
  }

  /** The number a string of decimal digits denotes (most significant first). */
  function DigitsValue(s: string): (n: nat)
    requires AllDigits(s)
    ensures n < Pow10(|s|)
  {
    if s == [] then 0 else DigitsValue(s[..|s| - 1]) * 10 + DigitValue(s[|s| - 1])
  }

  function Pow10(k: nat): (p: nat)
    ensures p >= 1
  {
    if k == 0 then 1 else 10 * Pow10(k - 1)
  }

  // ------------------------------------------------------------- searching

  /** Python's `s.rfind(c)` for one character: the last index, or -1. */
  function LastIndexOf(s: string, c: char): (r: int)
    ensures -1 <= r < |s|
    ensures r >= 0 ==> s[r] == c && forall j :: r < j < |s| ==> s[j] != c
    ensures r == -1 <==> c !in s
  {
    if s == [] then -1
    else if s[|s| - 1] == c then |s| - 1
    else LastIndexOf(s[..|s| - 1], c)
  }

  /** The first index of character `c` in `s`, or -1. */
  function IndexOf(s: string, c: char): (r: int)
    ensures -1 <= r < |s|
    ensures r >= 0 ==> s[r] == c && forall j :: 0 <= j < r ==> s[j] != c
    ensures r == -1 <==> c !in s
  {
    if s == [] then -1
    else if s[0] == c then 0
    else var k := IndexOf(s[1..], c); if k == -1 then -1 else k + 1
  }

  predicate OccursAt(s: string, sub: string, i: int)
  {
    0 <= i && i + |sub| <= |s| && s[i..i + |sub|] == sub
  }

  /** An occurrence past the first character is one in the tail. */
  lemma OccursAtTail(s: string, sub: string, j: int)
    requires 1 <= j && s != []
    ensures OccursAt(s, sub, j) <==> OccursAt(s[1..], sub, j - 1)
  {
    if j + |sub| <= |s| {
      assert s[1..][j - 1..j - 1 + |sub|] == s[j..j + |sub|];
    }
  }

  /** Python's `s.find(sub)` / JavaScript's `indexOf`: the first index at
      which `sub` occurs in `s`, or -1 when it does not occur. */
  function Find(s: string, sub: string): (r: int)
    ensures -1 <= r <= |s|
    ensures r >= 0 ==> OccursAt(s, sub, r)
    ensures forall j :: 0 <= j && (r == -1 || j < r) ==> !OccursAt(s, sub, j)
    decreases |s|
  {
    if |sub| <= |s| && s[..|sub|] == sub then 0
    else if s == [] then -1
    else
      var k := Find(s[1..], sub);
      assert forall j :: 1 <= j ==> (OccursAt(s, sub, j) <==> OccursAt(s[1..], sub, j - 1)) by {
        forall j | 1 <= j {
          OccursAtTail(s, sub, j);
        }
      }
      if k == -1 then -1 else k + 1
  }

  /** Python's `sub in s`. */
  predicate Contains(s: string, sub: string) { Find(s, sub) >= 0 }

  /** JavaScript's `s.endsWith(suffix)`. */
  predicate EndsWith(s: string, suffix: string)
  {
    |suffix| <= |s| && s[|s| - |suffix|..] == suffix
  }

  // ---------------------------------------------------------------- split

  /** JavaScript's `s.split(sep)` for a one-character separator: the pieces
      between consecutive separators, always at least one. */
  function Split(s: string, sep: char): (parts: seq<string>)
    ensures |parts| >= 1
    ensures forall k :: 0 <= k < |parts| ==> sep !in parts[k]
    decreases |s|
  {
    var i := IndexOf(s, sep);
    if i == -1 then [s] else [s[..i]] + Split(s[i + 1..], sep)
  }

  /** Joining the pieces of a split gives the string back. */
  lemma {:induction false} JoinSplit(s: string, sep: char)
    ensures Join(Split(s, sep), sep) == s
    decreases |s|
  {
    var i := IndexOf(s, sep);
    if i != -1 {
      var head, tail := s[..i], s[i + 1..];
      JoinSplit(tail, sep);
      JoinCons(head, Split(tail, sep), sep);
      Around(s, i);
    }
  }

  /** A string is what comes before position `i`, the character there, and
      what comes after. */
  lemma Around(s: string, i: nat)
    requires i < |s|
    ensures s == s[..i] + [s[i]] + s[i + 1..]
  {
  }

  lemma JoinCons(p0: string, parts: seq<string>, sep: char)
    requires |parts| >= 1
    ensures Join([p0] + parts, sep) == p0 + [sep] + Join(parts, sep)
  {
    assert ([p0] + parts)[1..] == parts;
  }

  /** The inverse of Split: the pieces with `sep` between them. */
  function Join(parts: seq<string>, sep: char): string
    requires |parts| >= 1
  {
    if |parts| == 1 then parts[0] else parts[0] + [sep] + Join(parts[1..], sep)
  }

  /** Splitting at the first separator, when it follows `p0`. */
  lemma SplitCons(p0: string, sep: char, rest: string)
    requires sep !in p0
    ensures Split(p0 + [sep] + rest, sep) == [p0] + Split(rest, sep)
  {
    var s := p0 + [sep] + rest;
    assert s[|p0|] == sep;
    assert forall j :: 0 <= j < |p0| ==> s[j] == p0[j];
    assert IndexOf(s, sep) == |p0|;
    assert s[..|p0|] == p0;
    assert s[|p0| + 1..] == rest;
  }

  /** Splitting the joined pieces gives the pieces back, as long as none of
      them contains the separator. */
  lemma {:induction false} SplitJoin(parts: seq<string>, sep: char)
    requires |parts| >= 1
    requires forall k :: 0 <= k < |parts| ==> sep !in parts[k]
    ensures Split(Join(parts, sep), sep) == parts
    decreases |parts|
  {
    if |parts| == 1 {
      assert IndexOf(parts[0], sep) == -1;
    } else {
      var tail := parts[1..];
      assert forall k :: 0 <= k < |tail| ==> sep !in tail[k] by {
        forall k | 0 <= k < |tail| ensures sep !in tail[k] {
          assert tail[k] == parts[k + 1];
        }
      }
      SplitJoin(tail, sep);
      assert Join(parts, sep) == parts[0] + [sep] + Join(tail, sep);
      SplitCons(parts[0], sep, Join(tail, sep));
      assert parts == [parts[0]] + tail;
    }
  }

  // ------------------------------------------------------- JavaScript text

  function Zeros(n: nat): (z: string)
    ensures |z| == n && forall i :: 0 <= i < n ==> z[i] == '0'
  {
    if n == 0 then [] else Zeros(n - 1) + "0"
  }

  /** JavaScript's `s.padStart(width, '0')`. */
  function PadStartZero(s: string, width: nat): (r: string)
    ensures |r| == if |s| < width then width else |s|
    ensures r[|r| - |s|..] == s
    ensures forall i :: 0 <= i < |r| - |s| ==> r[i] == '0'
  {
    if |s| < width then Zeros(width - |s|) + s else s
  }

  /** The white space and line terminators JavaScript skips before a
      number: tab to carriage return, space, the no-break spaces, the
      Unicode space separators, the line and paragraph separators and the
      byte order mark. */
  predicate IsJsSpace(c: char)
  {
    || '\t' <= c <= '\r' || c == ' ' || c == '\U{A0}' || c == '\U{1680}'
    || '\U{2000}' <= c <= '\U{200A}' || c == '\U{2028}' || c == '\U{2029}'
    || c == '\U{202F}' || c == '\U{205F}' || c == '\U{3000}' || c == '\U{FEFF}'
  }

  function SkipJsSpace(s: string): (r: string)
    ensures |r| <= |s| && r == s[|s| - |r|..]
    ensures r != [] ==> !IsJsSpace(r[0])
  {
    if s != [] && IsJsSpace(s[0]) then SkipJsSpace(s[1..]) else s
  }

  /** The longest prefix of decimal digits. */
  function DigitPrefix(s: string): (d: string)
    ensures |d| <= |s| && d == s[..|d|] && AllDigits(d)
    ensures |d| < |s| ==> !IsDigit(s[|d|])
  {
    if s != [] && IsDigit(s[0]) then [s[0]] + DigitPrefix(s[1..]) else []
  }

  predicate IsHexDigit(c: char) { IsDigit(c) || 'a' <= c <= 'f' || 'A' <= c <= 'F' }

  predicate AllHex(s: string) { forall i :: 0 <= i < |s| ==> IsHexDigit(s[i]) }

  function HexDigitValue(c: char): (d: nat)
    requires IsHexDigit(c)
    ensures d < 16
    ensures IsDigit(c) ==> d == DigitValue(c)
  {
    if IsDigit(c) then DigitValue(c)
    else if 'a' <= c <= 'f' then (c as int) - ('a' as int) + 10
    else (c as int) - ('A' as int) + 10
  }

  /** The number a string of hexadecimal digits denotes (most significant
      first). */
  function HexValue(s: string): nat
    requires AllHex(s)
  {
    if s == [] then 0 else HexValue(s[..|s| - 1]) * 16 + HexDigitValue(s[|s| - 1])
  }

  /** The longest prefix of hexadecimal digits. */
  function HexPrefix(s: string): (h: string)
    ensures |h| <= |s| && h == s[..|h|] && AllHex(h)
    ensures |h| < |s| ==> !IsHexDigit(s[|h|])
  {
    if s != [] && IsHexDigit(s[0]) then [s[0]] + HexPrefix(s[1..]) else []
  }

  /** The text after the sign starts with "0x" or "0X". */
  predicate HexMarked(u: string)
  {
    |u| >= 2 && u[0] == '0' && u[1] in "xX"
  }

  /** The unsigned part of `parseInt`: "0x"/"0X" and the longest run of
      hexadecimal digits, or else the longest run of decimal digits; None
      when that run is empty. */
  function ParseUnsigned(u: string): Option<nat>
  {
    if HexMarked(u) then
      var h := HexPrefix(u[2..]);
      if h == [] then None else Some(HexValue(h))
    else
      var d := DigitPrefix(u);
      if d == [] then None else Some(DigitsValue(d))
  }

  /** JavaScript's `parseInt(s)` without a radix: leading white space, an
      optional sign, then the unsigned part; None stands for NaN. */
  function ParseInt(s: string): Option<int>
  {
    var t := SkipJsSpace(s);
    var neg := t != [] && t[0] == '-';
    var u := if t != [] && t[0] in "+-" then t[1..] else t;
    match ParseUnsigned(u)
    case None => None
    case Some(n) => Some(if neg then -(n as int) else n as int)
  }

  /** Text that starts with neither white space nor a sign is read as it is. */
  lemma ParseIntUnsigned(s: string)
    requires s != [] && !IsJsSpace(s[0]) && s[0] !in "+-"
    ensures ParseInt(s) == match ParseUnsigned(s) case None => None case Some(n) => Some(n as int)
  {
    assert SkipJsSpace(s) == s;
  }

  lemma DigitPrefixOf(d: string, t: string)
    requires AllDigits(d)
    requires t == [] || !IsDigit(t[0])
    ensures DigitPrefix(d + t) == d
    decreases |d|
  {
    if d != [] {
      assert (d + t)[1..] == d[1..] + t;
      DigitPrefixOf(d[1..], t);
    }
  }

  /** parseInt reads the leading digits of a string and ignores whatever
      non-digit text follows them, unless the digits are a lone "0" followed
      by an 'x' or 'X', which marks hexadecimal (see ParseIntHex). */
  lemma ParseIntDigits(d: string, t: string)
    requires d != [] && AllDigits(d)
    requires t == [] || !IsDigit(t[0])
    requires !HexMarked(d + t)
    ensures ParseInt(d + t) == Some(DigitsValue(d) as int)
  {
    var s := d + t;
    assert s[0] == d[0] && IsDigit(s[0]);
    ParseIntUnsigned(s);
    DigitPrefixOf(d, t);
  }

  lemma HexPrefixOf(h: string, t: string)
    requires AllHex(h)
    requires t == [] || !IsHexDigit(t[0])
    ensures HexPrefix(h + t) == h
    decreases |h|
  {
    if h != [] {
      assert (h + t)[1..] == h[1..] + t;
      HexPrefixOf(h[1..], t);
    }
  }

  /** The unsigned text "0x" + h + t reads as the hexadecimal digits h. */
  lemma HexMarkedText(u: string, x: char, h: string, t: string)
    requires x in "xX" && AllHex(h)
    requires t == [] || !IsHexDigit(t[0])
    requires u == "0" + [x] + h + t
    ensures HexMarked(u) && HexPrefix(u[2..]) == h
  {
    assert u[2..] == h + t;
    HexPrefixOf(h, t);
  }

  /** After "0x" or "0X", parseInt reads the leading hexadecimal digits and
      ignores whatever follows them; with no such digit the answer is NaN. */
  lemma ParseIntHex(x: char, h: string, t: string)
    requires x in "xX" && AllHex(h)
    requires t == [] || !IsHexDigit(t[0])
    ensures ParseInt("0" + [x] + h + t) == if h == [] then None else Some(HexValue(h) as int)
  {
    var s := "0" + [x] + h + t;
    assert s[0] == '0';
    ParseIntUnsigned(s);
    HexMarkedText(s, x, h, t);
  }

  // --------------------------------------------------------- Python text

  /** The characters Python's `str.strip()` removes, those for which
      `str.isspace()` holds: tab to carriage return, the separators U+001C
      to U+001F, space, and the Unicode spaces and line separators. */
  predicate IsPySpace(c: char)
  {
    || '\t' <= c <= '\r' || '\U{1C}' <= c <= ' '
    || c == '\U{85}' || c == '\U{A0}' || c == '\U{1680}'
    || '\U{2000}' <= c <= '\U{200A}' || c == '\U{2028}' || c == '\U{2029}'
    || c == '\U{202F}' || c == '\U{205F}' || c == '\U{3000}'
  }

  function StripLeft(s: string): (r: string)
    ensures |r| <= |s| && r == s[|s| - |r|..]
    ensures r != [] ==> !IsPySpace(r[0])
    ensures forall i :: 0 <= i < |s| - |r| ==> IsPySpace(s[i])
  {
    if s != [] && IsPySpace(s[0]) then StripLeft(s[1..]) else s
  }

  function StripRight(s: string): (r: string)
    ensures |r| <= |s| && r == s[..|r|]
    ensures r != [] ==> !IsPySpace(r[|r| - 1])
    ensures forall i :: |r| <= i < |s| ==> IsPySpace(s[i])
  {
    if s != [] && IsPySpace(s[|s| - 1]) then StripRight(s[..|s| - 1]) else s
  }

  /** Python's `s.strip()`: white space removed from both ends, nothing else. */
  function Strip(s: string): (r: string)
    ensures r == [] || (!IsPySpace(r[0]) && !IsPySpace(r[|r| - 1]))
    ensures exists i :: && OccursAt(s, r, i)
                        && (forall j :: 0 <= j < i ==> IsPySpace(s[j]))
                        && (forall j :: i + |r| <= j < |s| ==> IsPySpace(s[j]))
  {
    var l := StripLeft(s);
    var r := StripRight(l);
    TrimmedPiece(s, l, r, IsPySpace);
    r
  }

  /** Removing characters of one kind from the front (leaving `l`) and then
      from the back (leaving `r`) keeps a piece of the input, with only
      characters of that kind before and after it. */
  lemma TrimmedPiece(s: string, l: string, r: string, p: char -> bool)
    requires |l| <= |s| && l == s[|s| - |l|..] && forall j :: 0 <= j < |s| - |l| ==> p(s[j])
    requires |r| <= |l| && r == l[..|r|] && forall j :: |r| <= j < |l| ==> p(l[j])
    ensures OccursAt(s, r, |s| - |l|)
    ensures forall j :: |s| - |l| + |r| <= j < |s| ==> p(s[j])
  {
    var i := |s| - |l|;
    assert s[i..i + |r|] == r;
    forall j | i + |r| <= j < |s| ensures p(s[j]) {
      assert s[j] == l[j - i];
    }
  }

  /** A string with no white space at either end is its own strip. */
  lemma StripUnchanged(s: string)
    requires s == [] || (!IsPySpace(s[0]) && !IsPySpace(s[|s| - 1]))
    ensures Strip(s) == s
  {
    assert StripLeft(s) == s;
  }

  /** Stripping keeps a leading run of `k` non-space characters. */
  lemma StripKeepsPrefix(s: string, k: nat)
    requires k <= |s| && forall i :: 0 <= i < k ==> !IsPySpace(s[i])
    ensures k <= |Strip(s)| && Strip(s)[..k] == s[..k]
  {
    if k > 0 {
      assert StripLeft(s) == s;
      var r := StripRight(s);
      assert r == Strip(s);
      assert !IsPySpace(s[k - 1]);
    }
  }

  /** A string of white space strips to nothing. */
  lemma StripAllSpace(s: string)
    requires forall i :: 0 <= i < |s| ==> IsPySpace(s[i])
    ensures Strip(s) == []
  {
    var l := StripLeft(s);
  }

  /** Python's `s.replace(c, '')`. */
  function RemoveChar(s: string, c: char): (r: string)
    ensures c !in r && |r| <= |s|
  {
    if s == [] then []
    else (if s[0] == c then [] else [s[0]]) + RemoveChar(s[1..], c)
  }

  lemma {:induction false} RemoveCharAppend(a: string, b: string, c: char)
    ensures RemoveChar(a + b, c) == RemoveChar(a, c) + RemoveChar(b, c)
  {
    if a == [] {
      assert a + b == b;
    } else {
      assert (a + b)[0] == a[0] && (a + b)[1..] == a[1..] + b;
      RemoveCharAppend(a[1..], b, c);
    }
  }

  lemma RemoveCharAbsent(s: string, c: char)
    requires c !in s
    ensures RemoveChar(s, c) == s
  {
    if s != [] {
      assert c !in s[1..];
      RemoveCharAbsent(s[1..], c);
    }
  }

  // ------------------------------------------------------- string order

  /** JavaScript's default string comparison `a <= b` (by character code). */
  predicate LexLeq(a: string, b: string)
  {
    a == [] || (b != [] && (a[0] < b[0] || (a[0] == b[0] && LexLeq(a[1..], b[1..]))))
  }

  lemma {:induction false} LexLeqTotal(a: string, b: string)
    ensures LexLeq(a, b) || LexLeq(b, a)
  {
    if a != [] && b != [] && a[0] == b[0] { LexLeqTotal(a[1..], b[1..]); }
  }

  lemma {:induction false} LexLeqAntisymmetric(a: string, b: string)
    requires LexLeq(a, b) && LexLeq(b, a)
    ensures a == b
  {
    if a != [] && b != [] {
      LexLeqAntisymmetric(a[1..], b[1..]);
      assert a == [a[0]] + a[1..] && b == [b[0]] + b[1..];
    }
  }

  lemma {:induction false} LexLeqTransitive(a: string, b: string, c: string)
    requires LexLeq(a, b) && LexLeq(b, c)
    ensures LexLeq(a, c)
  {
    if a != [] && b != [] && c != [] && a[0] == b[0] && b[0] == c[0] {
      LexLeqTransitive(a[1..], b[1..], c[1..]);
    }
  }
}
