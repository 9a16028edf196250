/**
 * Text handling that the payroll loader depends on: Python's notion of
 * whitespace, `str.strip`, splitting a line on runs of two or more
 * whitespace characters (the separator `\s{2,}`), literal substring tests
 * (the patterns used by the classifier hold no regular-expression
 * metacharacter) and the decimal numbers the reader turns fields into.
 */
module Text {
  import opened Wrappers

  /** Whitespace as `str.isspace` defines it, which is also what `\s` matches in a str pattern. */
  predicate IsSpace(c: char) {
    || c == ' '
    || '\t' <= c <= '\r'
    || '\U{1c}' <= c <= '\U{1f}'
    || c == '\U{85}' || c == '\U{a0}' || c == '\U{1680}'
    || '\U{2000}' <= c <= '\U{200a}'
    || c == '\U{2028}' || c == '\U{2029}' || c == '\U{202f}' || c == '\U{205f}' || c == '\U{3000}'
  }

  predicate AllSpace(s: string) {
    forall i :: 0 <= i < |s| ==> IsSpace(s[i])
  }

  /** True when no two neighbouring characters of `s` are both whitespace. */
  predicate NoDoubleSpace(s: string) {
    forall i :: 0 <= i < |s| - 1 ==> !(IsSpace(s[i]) && IsSpace(s[i + 1]))
  }

  /** `s` without its leading whitespace. */
  function TrimLeft(s: string): (r: string)
    ensures |r| <= |s| && r == s[|s| - |r|..]
    ensures r != [] ==> !IsSpace(r[0])
    ensures AllSpace(s[..|s| - |r|])
  {
    if s != [] && IsSpace(s[0]) then TrimLeft(s[1..]) else s
  }

  /** `s` without its trailing whitespace. */
  function TrimRight(s: string): (r: string)
    ensures |r| <= |s| && r == s[..|r|]
    ensures r != [] ==> !IsSpace(r[|r| - 1])
    ensures AllSpace(s[|r|..])
  {
    if s != [] && IsSpace(s[|s| - 1]) then
      var r := TrimRight(s[..|s| - 1]);
      assert s[|r|..] == s[..|s| - 1][|r|..] + [s[|s| - 1]];
      r
    else s
  }

  /** `str.strip()`: `s` without whitespace at either end. */
  function Strip(s: string): (r: string)
    ensures |r| <= |s|
    ensures r == [] || (!IsSpace(r[0]) && !IsSpace(r[|r| - 1]))
  {
    TrimRight(TrimLeft(s))
  }

  lemma {:induction false} TrimLeftPadded(pre: string, y: string)
    requires AllSpace(pre)
    requires y == [] || !IsSpace(y[0])
    ensures TrimLeft(pre + y) == y
    decreases |pre|
  {
    if pre != [] {
      assert (pre + y)[0] == pre[0];
      assert (pre + y)[1..] == pre[1..] + y;
      TrimLeftPadded(pre[1..], y);
    } else {
      assert pre + y == y;
    }
  }

  lemma {:induction false} TrimRightPadded(x: string, post: string)
    requires AllSpace(post)
    requires x == [] || !IsSpace(x[|x| - 1])
    ensures TrimRight(x + post) == x
    decreases |post|
  {
    if post != [] {
      var s := x + post;
      assert s[|s| - 1] == post[|post| - 1];
      assert s[..|s| - 1] == x + post[..|post| - 1];
      TrimRightPadded(x, post[..|post| - 1]);
    } else {
      assert x + post == x;
    }
  }

  /**
   * Stripping a text whose inner part starts and ends with a non-space
   * character gives back that inner part, whatever whitespace surrounds it.
   */
  lemma StripPadded(pre: string, x: string, post: string)
    requires AllSpace(pre) && AllSpace(post)
    requires x != [] && !IsSpace(x[0]) && !IsSpace(x[|x| - 1])
    ensures Strip(pre + x + post) == x
  {
    assert pre + x + post == pre + (x + post);
    TrimLeftPadded(pre, x + post);
    TrimRightPadded(x, post);
  }

  lemma BlankStripsToNothing(s: string)
    requires AllSpace(s)
    ensures Strip(s) == []
  {
    assert s + [] == s;
    TrimLeftPadded(s, []);
  }

  lemma NothingLeftIsBlank(s: string)
    requires Strip(s) == []
    ensures AllSpace(s)
  {
    var left := TrimLeft(s);
    var k := |s| - |left|;
    assert AllSpace(left[|TrimRight(left)|..]);
    assert left[0..] == left;
    assert left == [];
    assert s[..k] == s;
  }

  /** A line strips to nothing exactly when it is blank. */
  lemma StripEmptyIffBlank(s: string)
    ensures Strip(s) == [] <==> AllSpace(s)
  {
    if AllSpace(s) {
      BlankStripsToNothing(s);
    }
    if Strip(s) == [] {
      NothingLeftIsBlank(s);
    }
  }

  /**
   * The field separator: a run of two or more whitespace characters, as the
   * regular expression `\s{2,}` matches it. Scanning left to right, the
   * separators are exactly the maximal whitespace runs of length two or
   * more; a single whitespace character stays inside its field. `field`
   * accumulates the characters of the field being read.
   */
  function SplitFrom(s: string, field: string): (r: seq<string>)
    ensures |r| >= 1
    decreases |s|
  {
    if s == [] then [field]
    else if |s| >= 2 && IsSpace(s[0]) && IsSpace(s[1]) then
      [field] + SplitFrom(TrimLeft(s), [])
    else
      SplitFrom(s[1..], field + [s[0]])
  }

  /** `re.split(r'\s{2,}', s)` */
  function Split(s: string): (r: seq<string>)
    ensures |r| >= 1
  {
    SplitFrom(s, [])
  }

  /** What a text line becomes in the reader: stripped, then split. */
  function Tokenize(line: string): (r: seq<string>)
    ensures |r| >= 1
  {
    Split(Strip(line))
  }

  /** A gap a report may leave between two columns: two or more whitespace characters. */
  predicate IsGap(g: string) {
    |g| >= 2 && AllSpace(g)
  }

  /** The fields of a row laid out with the given gaps between neighbouring fields. */
  function JoinWith(fields: seq<string>, gaps: seq<string>): (s: string)
    requires |fields| >= 1 && |gaps| == |fields| - 1
  {
    if |fields| == 1 then fields[0] else fields[0] + gaps[0] + JoinWith(fields[1..], gaps[1..])
  }

  /**
   * A field a report can hold: not empty, no whitespace at either end and
   * never two whitespace characters in a row ("Bus Operator" is one).
   */
  predicate WellFormedField(f: string) {
    f != [] && !IsSpace(f[0]) && !IsSpace(f[|f| - 1]) && NoDoubleSpace(f)
  }

  /** A text with no double whitespace is read as one field: a single space never splits. */
  lemma {:induction false} SplitFromPlain(f: string, field: string)
    requires NoDoubleSpace(f)
    ensures SplitFrom(f, field) == [field + f]
    decreases |f|
  {
    if f == [] {
      assert field + f == field;
    } else {
      assert |f| >= 2 ==> !(IsSpace(f[0]) && IsSpace(f[1]));
      assert NoDoubleSpace(f[1..]) by {
        forall i | 0 <= i < |f[1..]| - 1
          ensures !(IsSpace(f[1..][i]) && IsSpace(f[1..][i + 1]))
        {
          assert f[1..][i] == f[i + 1] && f[1..][i + 1] == f[i + 2];
        }
      }
      SplitFromPlain(f[1..], field + [f[0]]);
      assert field + [f[0]] + f[1..] == field + f;
    }
  }

  /** Corollary of SplitFromPlain: a line without double whitespace is a single field. */
  lemma SingleSpacesNeverSplit(s: string)
    requires NoDoubleSpace(s)
    ensures Split(s) == [s]
  {
    SplitFromPlain(s, []);
    assert [] + s == s;
  }

  /** One field, one gap, then the rest of the line. */
  lemma {:induction false} SplitFromField(f: string, g: string, t: string, field: string)
    requires NoDoubleSpace(f)
    requires f == [] || !IsSpace(f[|f| - 1])
    requires IsGap(g)
    requires t == [] || !IsSpace(t[0])
    ensures SplitFrom(f + g + t, field) == [field + f] + SplitFrom(t, [])
    decreases |f|
  {
    var s := f + g + t;
    if f == [] {
      assert s == g + t;
      assert s[0] == g[0] && s[1] == g[1];
      TrimLeftPadded(g, t);
      assert field + f == field;
    } else {
      assert s[0] == f[0];
      if |f| == 1 {
        assert !IsSpace(f[0]);
      } else {
        assert s[1] == f[1];
      }
      assert s[1..] == f[1..] + g + t;
      assert NoDoubleSpace(f[1..]) by {
        forall i | 0 <= i < |f[1..]| - 1
          ensures !(IsSpace(f[1..][i]) && IsSpace(f[1..][i + 1]))
        {
          assert f[1..][i] == f[i + 1] && f[1..][i + 1] == f[i + 2];
        }
      }
      SplitFromField(f[1..], g, t, field + [f[0]]);
      assert field + [f[0]] + f[1..] == field + f;
    }
  }

  lemma {:induction false} JoinEnds(fields: seq<string>, gaps: seq<string>)
    requires |fields| >= 1 && |gaps| == |fields| - 1
    requires forall i :: 0 <= i < |fields| ==> WellFormedField(fields[i])
    ensures |JoinWith(fields, gaps)| > 0
    ensures !IsSpace(JoinWith(fields, gaps)[0]) && !IsSpace(JoinWith(fields, gaps)[|JoinWith(fields, gaps)| - 1])
  {
    assert WellFormedField(fields[0]);
    if |fields| > 1 {
      JoinEnds(fields[1..], gaps[1..]);
      var t := JoinWith(fields[1..], gaps[1..]);
      var s := JoinWith(fields, gaps);
      assert s == fields[0] + gaps[0] + t;
      assert s[0] == fields[0][0];
      assert s[|s| - 1] == t[|t| - 1];
    }
  }

  /** Splitting undoes laying out well-formed fields with gaps of two or more whitespace characters. */
  lemma {:induction false} SplitJoin(fields: seq<string>, gaps: seq<string>)
    requires |fields| >= 1 && |gaps| == |fields| - 1
    requires forall i :: 0 <= i < |fields| ==> WellFormedField(fields[i])
    requires forall i :: 0 <= i < |gaps| ==> IsGap(gaps[i])
    ensures Split(JoinWith(fields, gaps)) == fields
  {
    if |fields| == 1 {
      SplitFromPlain(fields[0], []);
      assert [] + fields[0] == fields[0];
    } else {
      var t := JoinWith(fields[1..], gaps[1..]);
      JoinEnds(fields[1..], gaps[1..]);
      assert WellFormedField(fields[0]) && IsGap(gaps[0]);
      SplitFromField(fields[0], gaps[0], t, []);
      SplitJoin(fields[1..], gaps[1..]);
      assert [] + fields[0] == fields[0];
      assert fields == [fields[0]] + fields[1..];
    }
  }

  /**
   * A report line: well-formed fields separated by gaps of two or more
   * whitespace characters, with any whitespace before and after, is read
   * back as exactly those fields.
   */
  lemma TokenizeLaidOut(pre: string, fields: seq<string>, gaps: seq<string>, post: string)
    requires AllSpace(pre) && AllSpace(post)
    requires |fields| >= 1 && |gaps| == |fields| - 1
    requires forall i :: 0 <= i < |fields| ==> WellFormedField(fields[i])
    requires forall i :: 0 <= i < |gaps| ==> IsGap(gaps[i])
    ensures Tokenize(pre + JoinWith(fields, gaps) + post) == fields
  {
    var x := JoinWith(fields, gaps);
    JoinEnds(fields, gaps);
    TokenizePadded(pre, x, post);
    SplitJoin(fields, gaps);
    assert Tokenize(pre + x + post) == Split(x) == fields;
  }

  /** Whitespace around a line does not change how it splits. */
  lemma TokenizePadded(pre: string, x: string, post: string)
    requires AllSpace(pre) && AllSpace(post)
    requires x != [] && !IsSpace(x[0]) && !IsSpace(x[|x| - 1])
    ensures Tokenize(pre + x + post) == Split(x)
  {
    StripPadded(pre, x, post);
  }

  /** Literal substring test, as `pat in s` in Python. */
  function Contains(s: string, pat: string): bool
    decreases |s|
  {
    if |pat| > |s| then false
    else if s[..|pat|] == pat then true
    else Contains(s[1..], pat)
  }

  /** `pat` occurs in `s` starting at index `i`. */
  predicate OccursAt(s: string, pat: string, i: int) {
    0 <= i <= |s| - |pat| && s[i..i + |pat|] == pat
  }

  /** Contains finds `pat` exactly when `pat` occurs at some position of `s`. */
  lemma {:induction false} ContainsIffOccurs(s: string, pat: string)
    ensures Contains(s, pat) <==> exists i :: OccursAt(s, pat, i)
    decreases |s|
  {
    if |pat| > |s| {
    } else if s[..|pat|] == pat {
      assert OccursAt(s, pat, 0);
    } else {
      ContainsIffOccurs(s[1..], pat);
      if Contains(s[1..], pat) {
        var j :| OccursAt(s[1..], pat, j);
        assert s[1..][j..j + |pat|] == s[j + 1..j + 1 + |pat|];
        assert OccursAt(s, pat, j + 1);
      }
      if exists i :: OccursAt(s, pat, i) {
        var i :| OccursAt(s, pat, i);
        assert i != 0;
        assert s[1..][i - 1..i - 1 + |pat|] == s[i..i + |pat|];
        assert OccursAt(s[1..], pat, i - 1);
      }
    }
  }

  predicate IsDigit(c: char) {
    '0' <= c <= '9'
  }

  predicate AllDigits(s: string) {
    forall i :: 0 <= i < |s| ==> IsDigit(s[i])
  }

  function DigitValue(c: char): (d: nat)
    requires IsDigit(c)
    ensures d < 10
  {
    c as int - '0' as int
  }

  function DigitChar(d: nat): (c: char)
    requires d < 10
    ensures IsDigit(c) && DigitValue(c) == d
  {
    ('0' as int + d) as char
  }

  /** The value of a string of decimal digits, most significant first. */
  function DigitsValue(s: string): nat
    requires AllDigits(s)
    decreases |s|
  {
    if s == [] then 0 else DigitsValue(s[..|s| - 1]) * 10 + DigitValue(s[|s| - 1])
  }

  function Pow10(n: nat): (p: nat)
    ensures p >= 1
  {
    if n == 0 then 1 else 10 * Pow10(n - 1)
  }

  /** The index of the last occurrence of `c` in `s`, as `str.rfind` gives it. */
  function LastIndexOf(s: string, c: char): (r: Option<nat>)
    ensures r.None? ==> c !in s
    ensures r.Some? ==> r.value < |s| && s[r.value] == c && c !in s[r.value + 1..]
    decreases |s|
  {
    if s == [] then None
    else if s[|s| - 1] == c then Some(|s| - 1)
    else
      var r := LastIndexOf(s[..|s| - 1], c);
      assert s == s[..|s| - 1] + [s[|s| - 1]];
      r
  }

  /** An unsigned decimal: digits, optionally a point and more digits, at least one digit in all. */
  function ParseUnsignedReal(s: string): (r: Option<real>)
  {
    match LastIndexOf(s, '.')
    case None =>
      if s != [] && AllDigits(s) then Some(DigitsValue(s) as real) else None
    case Some(k) =>
      var whole, frac := s[..k], s[k + 1..];
      if AllDigits(whole) && AllDigits(frac) && (whole != [] || frac != []) then
        Some(DigitsValue(whole) as real + DigitsValue(frac) as real / Pow10(|frac|) as real)
      else None
  }

  /** A decimal number with an optional sign, as the reader converts a float column. */
  function ParseReal(s: string): (r: Option<real>)
  {
    if s != [] && (s[0] == '-' || s[0] == '+') then
      match ParseUnsignedReal(s[1..])
      case None => None
      case Some(v) => Some(if s[0] == '-' then -v else v)
    else ParseUnsignedReal(s)
  }

  /** The decimal text of `n`, without leading zeros. */
  function NatToString(n: nat): (s: string)
    ensures s != [] && AllDigits(s)
  {
    if n < 10 then [DigitChar(n)] else NatToString(n / 10) + [DigitChar(n % 10)]
  }

  lemma {:induction false} DigitsValueOfNatToString(n: nat)
    ensures DigitsValue(NatToString(n)) == n
  {
    var s := NatToString(n);
    if n >= 10 {
      assert s[..|s| - 1] == NatToString(n / 10);
      DigitsValueOfNatToString(n / 10);
    } else {
      assert s[..0] == [];
    }
  }

  /** Reading back the decimal text of a whole number gives the number. */
  lemma ParseNatToString(n: nat)
    ensures ParseReal(NatToString(n)) == Some(n as real)
  {
    var s := NatToString(n);
    DigitsValueOfNatToString(n);
    assert IsDigit(s[0]);
    forall i | 0 <= i < |s| ensures s[i] != '.' {
      assert IsDigit(s[i]);
    }
  }

  lemma {:induction false} LastIndexOfAfter(a: string, c: char, b: string)
    requires c !in b
    ensures LastIndexOf(a + [c] + b, c) == Some(|a|)
    decreases |b|
  {
    var s := a + [c] + b;
    if b != [] {
      assert s[|s| - 1] == b[|b| - 1];
      assert s[..|s| - 1] == a + [c] + b[..|b| - 1];
      LastIndexOfAfter(a, c, b[..|b| - 1]);
    }
  }

  /**
   * The text of a decimal number as a report prints it: the whole part,
   * then a point and the fraction digits when there are any ("55000",
   * "55000.25").
   */
  function DecimalText(whole: nat, frac: string): string
    requires AllDigits(frac)
  {
    if frac == [] then NatToString(whole) else NatToString(whole) + "." + frac
  }

  /** The value of that decimal number: `frac` read as a fraction with |frac| places. */
  function DecimalValue(whole: nat, frac: string): real
    requires AllDigits(frac)
  {
    whole as real + DigitsValue(frac) as real / Pow10(|frac|) as real
  }

  /** A decimal number as the report prints it reads back as its value. */
  lemma ParseDecimalText(whole: nat, frac: string)
    requires AllDigits(frac)
    ensures ParseReal(DecimalText(whole, frac)) == Some(DecimalValue(whole, frac))
  {
    if frac == [] {
      ParseNatToString(whole);
      assert DigitsValue(frac) == 0 && Pow10(|frac|) == 1;
    } else {
      var w := NatToString(whole);
      var s := w + "." + frac;
      assert ParseReal(s) == ParseUnsignedReal(s) by {
        assert s[0] == w[0] && IsDigit(w[0]);
      }
      assert LastIndexOf(s, '.') == Some(|w|) by {
        assert '.' !in frac by {
          forall i | 0 <= i < |frac| ensures frac[i] != '.' {
            assert IsDigit(frac[i]);
          }
        }
        assert s == w + ['.'] + frac;
        LastIndexOfAfter(w, '.', frac);
      }
      assert s[..|w|] == w && s[|w| + 1..] == frac;
      DigitsValueOfNatToString(whole);
    }
  }

  /** A decimal number is a single field of a report line. */
  lemma DecimalIsField(whole: nat, frac: string)
    requires AllDigits(frac)
    ensures WellFormedField(DecimalText(whole, frac))
  {
    var w := NatToString(whole);
    var s := DecimalText(whole, frac);
    assert s == w || s == w + "." + frac;
    forall i | 0 <= i < |s| ensures !IsSpace(s[i]) {
      if i < |w| {
        assert s[i] == w[i] && IsDigit(w[i]);
      } else if i > |w| {
        assert s[i] == frac[i - |w| - 1] && IsDigit(frac[i - |w| - 1]);
      }
    }
  }
}
