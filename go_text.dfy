/** The parts of Go's `strings` and `strconv` packages the catalog service relies on. */
module GoText {

  /** `strings.HasSuffix`. */
  predicate HasSuffix(s: string, suffix: string)
    ensures HasSuffix(s, suffix) ==> |suffix| <= |s| && s == s[..|s| - |suffix|] + suffix
  {
    |suffix| <= |s| && s[|s| - |suffix|..] == suffix
  }

  /** `sub` occurs in `s` starting at position `i`. */
  predicate OccursAt(s: string, sub: string, i: int)
  {
    0 <= i && i + |sub| <= |s| && s[i..i + |sub|] == sub
  }

  /** `strings.Contains`. */
  predicate Contains(s: string, sub: string)
    ensures Contains(s, sub) ==> |sub| <= |s|
    ensures HasSuffix(s, sub) ==> Contains(s, sub)
  {
    assert HasSuffix(s, sub) ==> OccursAt(s, sub, |s| - |sub|);
    exists i :: 0 <= i <= |s| - |sub| && OccursAt(s, sub, i)
  }

  /** Every string contains the empty string. */
  lemma ContainsEmpty(s: string)
    ensures Contains(s, "")
  {
    assert OccursAt(s, "", 0);
  }

  /** Lower-casing of one character, restricted to ASCII letters. */
  function LowerChar(c: char): char
  {
    if 'A' <= c <= 'Z' then (c as int + 32) as char else c
  }

  function UpperChar(c: char): char
  {
    if 'a' <= c <= 'z' then (c as int - 32) as char else c
  }

  /** `strings.ToLower`, for ASCII letters. */
  function ToLower(s: string): (r: string)
    ensures |r| == |s|
    ensures forall i :: 0 <= i < |s| ==> r[i] == LowerChar(s[i])
  {
    if s == [] then [] else [LowerChar(s[0])] + ToLower(s[1..])
  }

  /** `strings.ToUpper`, for ASCII letters. */
  function ToUpper(s: string): (r: string)
    ensures |r| == |s|
    ensures forall i :: 0 <= i < |s| ==> r[i] == UpperChar(s[i])
  {
    if s == [] then [] else [UpperChar(s[0])] + ToUpper(s[1..])
  }

  /** Lower-casing forgets any upper-casing done before it. */
  lemma LowerOfUpper(s: string)
    ensures ToLower(ToUpper(s)) == ToLower(s)
  {
  }

  const MaxInt64: int := 0x7FFF_FFFF_FFFF_FFFF
  const MinInt64: int := -0x8000_0000_0000_0000

  predicate IsDigit(c: char)
  {
    '0' <= c <= '9'
  }

  /** A non-empty run of decimal digits. */
  predicate IsDigits(s: string)
  {
    |s| > 0 && forall i :: 0 <= i < |s| ==> IsDigit(s[i])
  }

  /** The value of a string of decimal digits, read most significant digit first. */
  function DigitsValue(s: string): nat
    requires forall i :: 0 <= i < |s| ==> IsDigit(s[i])
  {
    if s == [] then 0
    else
      assert IsDigit(s[|s| - 1]);
      DigitsValue(s[..|s| - 1]) * 10 + (s[|s| - 1] as int - '0' as int)
  }

  /** The canonical decimal rendering of a natural number (`strconv.Itoa`). */
  function DecimalString(n: nat): (s: string)
    ensures IsDigits(s)
  {
    if n < 10 then [('0' as int + n) as char] else DecimalString(n / 10) + [('0' as int + n % 10) as char]
  }

  /** Reading back a rendered number gives the number. */
  lemma {:induction false} DecimalRoundTrip(n: nat)
    ensures DigitsValue(DecimalString(n)) == n
  {
    var s := DecimalString(n);
    if n >= 10 {
      DecimalRoundTrip(n / 10);
      assert s[..|s| - 1] == DecimalString(n / 10);
    }
  }

  /** What `strconv.Atoi` returns on a 64-bit platform: the value, and whether no error was reported. */
  datatype AtoiResult = AtoiResult(value: int, ok: bool)

  const MaxUint64: int := 0xFFFF_FFFF_FFFF_FFFF

  /** An optional sign followed by decimal digits: the syntax `strconv.Atoi` accepts. */
  predicate IsIntegerSyntax(s: string)
  {
    IsDigits(s) || (|s| > 1 && (s[0] == '+' || s[0] == '-') && IsDigits(s[1..]))
  }

  predicate IsNegative(s: string)
  {
    |s| > 0 && s[0] == '-'
  }

  /** The text after an optional leading sign. */
  function Unsigned(s: string): (u: string)
    ensures |s| > 0 && (s[0] == '+' || s[0] == '-') ==> u == s[1..]
    ensures |s| > 0 && IsDigit(s[0]) ==> u == s
  {
    if |s| > 0 && (s[0] == '+' || s[0] == '-') then s[1..] else s
  }

  /** The longest prefix of `s` made of decimal digits. */
  function LeadingDigits(s: string): (d: string)
    ensures |d| <= |s| && d == s[..|d|]
    ensures forall i :: 0 <= i < |d| ==> IsDigit(d[i])
    ensures |d| < |s| ==> !IsDigit(s[|d|])
  {
    if s == [] || !IsDigit(s[0]) then [] else [s[0]] + LeadingDigits(s[1..])
  }

  /** A string of digits is its own leading run of digits. */
  lemma LeadingDigitsOfDigits(s: string)
    requires forall i :: 0 <= i < |s| ==> IsDigit(s[i])
    ensures LeadingDigits(s) == s
  {
  }

  /** `strconv.ParseUint` reads digits one at a time and reports a range error as soon as the value
      passes the uint64 range, before it looks at any later character: the digits right after the
      sign already overflow. */
  predicate DigitsOverflow(s: string)
  {
    DigitsValue(LeadingDigits(Unsigned(s))) > MaxUint64
  }

  /** `strconv.Atoi`: digits that overflow uint64 yield the int64 bound of the sign, whatever
      follows them; otherwise a syntax error yields 0, a value beyond the int64 range is clamped to
      the nearest bound and reported as a range error, and any other value is exact. */
  function Atoi(s: string): (r: AtoiResult)
    ensures MinInt64 <= r.value <= MaxInt64
    ensures DigitsOverflow(s) ==> r == AtoiResult(if IsNegative(s) then MinInt64 else MaxInt64, false)
    ensures !IsIntegerSyntax(s) && !DigitsOverflow(s) ==> r == AtoiResult(0, false)
    ensures IsDigits(s) && DigitsValue(s) <= MaxInt64 ==> r == AtoiResult(DigitsValue(s), true)
  {
    var digits := Unsigned(s);
    LeadingDigitsOfDigits(if IsDigits(digits) then digits else []);
    if DigitsOverflow(s) then AtoiResult(if IsNegative(s) then MinInt64 else MaxInt64, false)
    else if !IsDigits(digits) then AtoiResult(0, false)
    else
      var m: int := if IsNegative(s) then -(DigitsValue(digits) as int) else DigitsValue(digits);
      if m > MaxInt64 then AtoiResult(MaxInt64, false)
      else if m < MinInt64 then AtoiResult(MinInt64, false)
      else AtoiResult(m, true)
  }

  /** `strconv.Atoi` reads back every int64 value `strconv.Itoa` writes for a natural number. */
  lemma AtoiOfDecimal(n: nat)
    requires n <= MaxInt64
    ensures Atoi(DecimalString(n)) == AtoiResult(n, true)
  {
    DecimalRoundTrip(n);
  }

  /** A signed decimal within int64 reads back as its value: `-` before the digits of `-n` for a
      non-positive `n`, `+` before the digits of `n` for a non-negative one. */
  lemma AtoiOfSignedDecimal(n: int)
    requires MinInt64 <= n <= MaxInt64
    ensures n <= 0 ==> Atoi("-" + DecimalString(-n)) == AtoiResult(n, true)
    ensures n >= 0 ==> Atoi("+" + DecimalString(n)) == AtoiResult(n, true)
  {
    if n <= 0 {
      SignedDigits('-', -n);
    }
    if n >= 0 {
      SignedDigits('+', n);
    }
  }

  /** The digits of `m` after a sign are the text Atoi reads, and they do not overflow uint64. */
  lemma SignedDigits(sign: char, m: nat)
    requires sign == '+' || sign == '-'
    requires m <= MaxUint64
    ensures Unsigned([sign] + DecimalString(m)) == DecimalString(m)
    ensures IsIntegerSyntax([sign] + DecimalString(m)) && !DigitsOverflow([sign] + DecimalString(m))
    ensures DigitsValue(DecimalString(m)) == m
  {
    var d := DecimalString(m);
    var s := [sign] + d;
    assert s[1..] == d;
    DecimalRoundTrip(m);
    LeadingDigitsOfDigits(d);
  }

  /** Digit strings past the int64 range but within uint64 are clamped to the int64 bound of the
      sign and reported as range errors, as `strconv.ParseInt` does. */
  lemma AtoiClampsPastInt64(n: nat)
    requires MaxInt64 < n <= MaxUint64
    ensures Atoi(DecimalString(n)) == AtoiResult(MaxInt64, false)
    ensures Atoi("+" + DecimalString(n)) == AtoiResult(MaxInt64, false)
    ensures n > -MinInt64 ==> Atoi("-" + DecimalString(n)) == AtoiResult(MinInt64, false)
  {
    var d := DecimalString(n);
    DecimalRoundTrip(n);
    LeadingDigitsOfDigits(d);
    assert d[0] != '+' && d[0] != '-';
    SignedDigits('+', n);
    SignedDigits('-', n);
  }

  lemma {:induction false} LeadingDigitsThen(d: string, t: string)
    requires forall i :: 0 <= i < |d| ==> IsDigit(d[i])
    ensures LeadingDigits(d + t) == d + LeadingDigits(t)
  {
    if d != [] {
      var s := d + t;
      var r := d[1..] + t;
      assert s == [d[0]] + r;
      LeadingDigitsThen(d[1..], t);
      assert LeadingDigits(s) == [d[0]] + LeadingDigits(r);
      assert d == [d[0]] + d[1..];
    } else {
      assert d + t == t;
    }
  }

  lemma {:induction false} DigitsValueGrows(d: string, e: string)
    requires forall i :: 0 <= i < |d + e| ==> IsDigit((d + e)[i])
    ensures forall i :: 0 <= i < |d| ==> IsDigit(d[i])
    ensures DigitsValue(d + e) >= DigitsValue(d)
  {
    assert forall i :: 0 <= i < |d| ==> d[i] == (d + e)[i];
    if e != [] {
      var de := d + e;
      var e' := e[..|e| - 1];
      assert de[..|de| - 1] == d + e';
      assert forall i :: 0 <= i < |d + e'| ==> (d + e')[i] == de[i];
      DigitsValueGrows(d, e');
      assert IsDigit(de[|de| - 1]);
      assert DigitsValue(de) == DigitsValue(de[..|de| - 1]) * 10 + (de[|de| - 1] as int - '0' as int);
      assert DigitsValue(de[..|de| - 1]) == DigitsValue(d + e');
    } else {
      assert d + e == d;
    }
  }

  /** Digits whose value passes uint64 make `strconv.Atoi` report the int64 maximum, even when a
      character that is not a digit follows them. */
  lemma AtoiOverflowIgnoresRest(d: string, t: string)
    requires IsDigits(d) && DigitsValue(d) > MaxUint64
    ensures Atoi(d + t) == AtoiResult(MaxInt64, false)
  {
    var s := d + t;
    assert s[0] == d[0] && !IsNegative(s);
    assert Unsigned(s) == s;
    LeadingDigitsThen(d, t);
    var l := LeadingDigits(t);
    assert forall i :: 0 <= i < |d + l| ==> IsDigit((d + l)[i]);
    DigitsValueGrows(d, l);
    assert DigitsOverflow(s);
  }

  // ---- fmt.Sprintf with no arguments ----

  /** A flag character of a `fmt` directive. */
  predicate IsFlag(c: char)
  {
    c == '#' || c == '0' || c == '+' || c == '-' || c == ' '
  }

  /** The position after the flags that start at `i`. */
  function SkipFlags(f: string, i: nat): (j: nat)
    requires i <= |f|
    ensures i <= j <= |f|
    ensures forall k :: i <= k < j ==> IsFlag(f[k])
    ensures j < |f| ==> !IsFlag(f[j])
    decreases |f| - i
  {
    if i < |f| && IsFlag(f[i]) then SkipFlags(f, i + 1) else i
  }

  /** What `fmt`'s `parsenum` finds: whether there was a number, and the position after it. */
  datatype NumScan = NumScan(isNum: bool, next: nat)

  /** `fmt`'s `parsenum` from `i` up to `end`, with `num` read so far: a number that has grown past
      10^6 when another digit comes ends the scan at `end` with no number. */
  function ParseNum(f: string, i: nat, end: nat, num: nat, isNum: bool): (r: NumScan)
    requires i <= end <= |f|
    ensures i <= r.next <= end
    ensures r.next < end ==> !IsDigit(f[r.next])
    ensures r.isNum ==> isNum || (i < end && IsDigit(f[i]))
    decreases end - i
  {
    if i < end && IsDigit(f[i]) then
      if num > 1_000_000 then NumScan(false, end)
      else ParseNum(f, i + 1, end, num * 10 + (f[i] as int - '0' as int), true)
    else NumScan(isNum, i)
  }

  /** The first `]` at or after `k`, or `|f|` when there is none. */
  function CloseBracket(f: string, k: nat): (j: nat)
    requires k <= |f|
    ensures k <= j <= |f|
    ensures j < |f| ==> f[j] == ']'
    ensures forall m :: k <= m < j ==> f[m] != ']'
    decreases |f| - k
  {
    if k == |f| || f[k] == ']' then k else CloseBracket(f, k + 1)
  }

  /** What `fmt`'s `argNumber` finds at a position: the position after an explicit argument index
      `[n]`, whether the index was well formed, and whether one was there at all. */
  datatype IndexScan = IndexScan(next: nat, afterIndex: bool, sawIndex: bool)

  /** `fmt`'s `argNumber` (with `parseArgNumber`) when there are no arguments. */
  function ArgNumber(f: string, i: nat): (r: IndexScan)
    requires i <= |f|
    ensures i <= r.next <= |f|
    ensures r.sawIndex <==> i < |f| && f[i] == '['
    ensures r.afterIndex ==> r.sawIndex
  {
    if i >= |f| || f[i] != '[' then IndexScan(i, false, false)
    else if |f| - i < 3 then IndexScan(i + 1, false, true)
    else
      var j := CloseBracket(f, i + 1);
      if j == |f| then IndexScan(i + 1, false, true)
      else
        var n := ParseNum(f, i + 1, j, 0, false);
        IndexScan(j + 1, n.isNum && n.next == j, true)
  }

  /** One directive after its `%`: the error text for a `*` width or precision that has no
      argument, where its verb is, and whether an argument index made the directive bad. */
  datatype Directive = Directive(text: string, verbAt: nat, badIndex: bool)

  /** A width or precision read so far: its error text, whether an argument index came right
      before the position `next` after it, and whether some index was seen. */
  datatype Part = Part(text: string, afterIndex: bool, next: nat, sawIndex: bool)

  /** The width after an optional index: a `*` with no argument for it, or digits. */
  function WidthScan(f: string, a: IndexScan): (w: Part)
    requires a.next <= |f|
    ensures a.next <= w.next <= |f|
  {
    if a.next < |f| && f[a.next] == '*' then Part("%!(BADWIDTH)", false, a.next + 1, a.sawIndex)
    else Part("", a.afterIndex, ParseNum(f, a.next, |f|, 0, false).next, a.sawIndex)
  }

  /** The precision: a `.` that is not the last character, an optional index, then a `*` with
      no argument for it, or digits. */
  function PrecisionScan(f: string, w: Part): (p: Part)
    requires w.next <= |f|
    ensures w.next <= p.next <= |f|
  {
    if w.next + 1 < |f| && f[w.next] == '.' then
      var b := ArgNumber(f, w.next + 1);
      if b.next < |f| && f[b.next] == '*' then Part(w.text + "%!(BADPREC)", false, b.next + 1, w.sawIndex || b.sawIndex)
      else Part(w.text, b.afterIndex, ParseNum(f, b.next, |f|, 0, false).next, w.sawIndex || b.sawIndex)
    else w
  }

  /** Flags, index, width, precision and index again, up to the verb. */
  function ScanDirective(f: string, i: nat): (d: Directive)
    requires i <= |f|
    ensures i <= d.verbAt <= |f|
  {
    var p := PrecisionScan(f, WidthScan(f, ArgNumber(f, SkipFlags(f, i))));
    var c := if p.afterIndex then IndexScan(p.next, true, false) else ArgNumber(f, p.next);
    Directive(p.text, c.next, p.sawIndex || c.sawIndex)
  }

  /** A directive whose first character is a letter has that letter as its verb. */
  lemma ScanLetter(f: string, i: nat)
    requires i < |f| && ('a' <= f[i] <= 'z' || 'A' <= f[i] <= 'Z')
    ensures ScanDirective(f, i) == Directive("", i, false)
  {
    assert SkipFlags(f, i) == i;
    var a := ArgNumber(f, i);
    assert a == IndexScan(i, false, false);
    assert ParseNum(f, i, |f|, 0, false).next == i;
    assert WidthScan(f, a) == Part("", false, i, false);
  }

  /** What `fmt` writes for a verb that has no argument: `%%` is a percent sign. */
  function VerbText(verb: char, badIndex: bool): (t: string)
    ensures |t| > 0 && t[0] == '%'
    ensures verb != '%' ==> |t| > 3 && t[..2] == "%!" && t[2] == verb
  {
    if verb == '%' then "%"
    else if badIndex then "%!" + [verb] + "(BADINDEX)"
    else "%!" + [verb] + "(MISSING)"
  }

  /** `fmt`'s `doPrintf` with no arguments: text up to a `%` is copied, each directive writes its
      error text, and a directive that ends the format without a verb ends the output with
      `%!(NOVERB)`. What follows a directive is rendered as a format of its own. Nothing in a
      format is dropped without a trace: a non-empty format renders as non-empty text. */
  function SprintfNoArgs(f: string): (o: string)
    ensures f != [] ==> o != []
    decreases |f|
  {
    if f == [] then ""
    else if f[0] != '%' then [f[0]] + SprintfNoArgs(f[1..])
    else
      var d := ScanDirective(f, 1);
      if d.verbAt == |f| then d.text + "%!(NOVERB)"
      else d.text + VerbText(f[d.verbAt], d.badIndex) + SprintfNoArgs(f[d.verbAt + 1..])
  }

  /** Text with no `%` is copied in front of the rendering of the rest. */
  lemma {:induction false} SprintfNoArgsPlainPrefix(p: string, f: string)
    requires '%' !in p
    ensures SprintfNoArgs(p + f) == p + SprintfNoArgs(f)
  {
    if p != [] {
      var s := p + f;
      assert s[0] == p[0] && s[1..] == p[1..] + f;
      SprintfNoArgsPlainPrefix(p[1..], f);
      assert p == [p[0]] + p[1..];
    } else {
      assert p + f == f;
    }
  }

  /** A letter right after `%` is a verb with no argument for it. */
  lemma SprintfNoArgsMissingVerb(c: char, rest: string)
    requires 'a' <= c <= 'z' || 'A' <= c <= 'Z'
    ensures SprintfNoArgs(['%', c] + rest) == "%!" + [c] + "(MISSING)" + SprintfNoArgs(rest)
  {
    SprintfNoArgsLetter(c, rest);
  }

  /** A letter right after `%` is the verb, and the rest of the format follows its text. */
  lemma SprintfNoArgsLetter(c: char, rest: string)
    requires 'a' <= c <= 'z' || 'A' <= c <= 'Z'
    ensures SprintfNoArgs(['%', c] + rest) == VerbText(c, false) + SprintfNoArgs(rest)
  {
    var f := ['%', c] + rest;
    assert f[0] == '%' && f[1] == c && f[2..] == rest;
    ScanLetter(f, 1);
  }

  /** A width of one digit before a letter verb leaves no trace when the argument is missing. */
  lemma SprintfNoArgsWidthIgnored(w: char, c: char, rest: string)
    requires IsDigit(w)
    requires 'a' <= c <= 'z' || 'A' <= c <= 'Z'
    ensures SprintfNoArgs(['%', w, c] + rest) == SprintfNoArgs(['%', c] + rest)
  {
    var f := ['%', w, c] + rest;
    assert f[0] == '%' && f[1] == w && f[2] == c && f[3..] == rest;
    var j := SkipFlags(f, 1);
    assert j == (if w == '0' then 2 else 1);
    var a := ArgNumber(f, j);
    assert a == IndexScan(j, false, false);
    assert ParseNum(f, j, |f|, 0, false).next == 2 by {
      if j == 1 {
        assert ParseNum(f, 2, |f|, w as int - '0' as int, true) == NumScan(true, 2);
      }
    }
    assert WidthScan(f, a) == Part("", false, 2, false);
    assert ArgNumber(f, 2) == IndexScan(2, false, false);
    assert ScanDirective(f, 1) == Directive("", 2, false);
    SprintfNoArgsMissingVerb(c, rest);
  }

  /** A format with no `%` is its own rendering. */
  lemma SprintfNoArgsPlain(f: string)
    ensures '%' !in f ==> SprintfNoArgs(f) == f
  {
    if '%' !in f {
      SprintfNoArgsPlainPrefix(f, "");
      assert f + "" == f;
    }
  }
}
