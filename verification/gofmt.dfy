/**
 Go's `fmt` formatting of a format string that is given no operands, as
 `fmt.Errorf(s)` does with the text it is handed: plain characters are copied,
 `%%` becomes `%`, and every other directive is replaced by Go's diagnostic
 (`%!d(MISSING)`, `%!d(BADINDEX)`, `%!(BADWIDTH)`, `%!(BADPREC)`, `%!(NOVERB)`).
 The scan follows the order of Go's `doPrintf`: flags, argument index, width,
 precision, argument index, verb.
 */
module GoFmt {

  const NoVerb: string := "%!(NOVERB)"
  const BadWidth: string := "%!(BADWIDTH)"
  const BadPrec: string := "%!(BADPREC)"

  /** Go's bound on a width, precision or index number: scanning past it gives up on the directive. */
  const MaxNumber: nat := 1000000

  predicate IsDigit(c: char) {
    '0' <= c <= '9'
  }

  predicate IsFlag(c: char) {
    c == '#' || c == '0' || c == '+' || c == '-' || c == ' '
  }

  /** The decimal value of a string of digits. */
  function Value(d: string): nat
    requires forall k | 0 <= k < |d| :: IsDigit(d[k])
  {
    if |d| == 0 then 0
    else
      assert IsDigit(d[|d| - 1]);
      Value(d[..|d| - 1]) * 10 + (d[|d| - 1] as int - '0' as int)
  }

  /** The length of the run of digits `t` starts with. */
  function DigitRun(t: string): (n: nat)
    ensures n <= |t|
    ensures forall k | 0 <= k < n :: IsDigit(t[k])
    ensures n < |t| ==> !IsDigit(t[n])
  {
    if |t| > 0 && IsDigit(t[0]) then 1 + DigitRun(t[1..]) else 0
  }

  /** Go's number scan aborts when the value read so far exceeds the bound and another digit follows. */
  predicate TooLarge(t: string, n: nat)
    requires n <= |t| && forall k | 0 <= k < n :: IsDigit(t[k])
  {
    n > 0 && Value(t[..n - 1]) > MaxNumber
  }

  /** The first position at or after `k` holding `]`, or `|t|` when there is none. */
  function FindClose(t: string, k: nat): (j: nat)
    requires k <= |t|
    ensures k <= j <= |t|
    ensures j < |t| ==> t[j] == ']'
    ensures forall m | k <= m < j :: t[m] != ']'
    decreases |t| - k
  {
    if k == |t| || t[k] == ']' then k else FindClose(t, k + 1)
  }

  /**
   An explicit argument index `[n]`: the rest after it, whether a `[` was seen
   (with no operands every index is out of range), and whether it parsed as a number.
   */
  function ArgIndex(t: string): (r: (string, bool, bool))
    ensures |r.0| <= |t|
    ensures r.1 <==> |t| > 0 && t[0] == '['
  {
    if |t| == 0 || t[0] != '[' then (t, false, false)
    else if |t| < 3 then (t[1..], true, false)
    else
      var j := FindClose(t, 1);
      if j == |t| then (t[1..], true, false)
      else
        var inner := t[1..j];
        var n := DigitRun(inner);
        (t[j + 1..], true, n > 0 && n == |inner| && !TooLarge(inner, n))
  }

  /** Drops the leading flag characters. */
  function SkipFlags(t: string): (r: string)
    ensures |r| <= |t|
  {
    if |t| > 0 && IsFlag(t[0]) then SkipFlags(t[1..]) else t
  }

  /** What a verb prints when there is no operand for it. */
  function VerbText(v: char, badIndex: bool): string {
    if v == '%' then "%"
    else if badIndex then "%!" + [v] + "(BADINDEX)"
    else "%!" + [v] + "(MISSING)"
  }

  /**
   The state of scanning one directive: the text not yet scanned, the
   diagnostics printed so far, whether an argument index was met, whether the
   last item scanned was a well-formed index, and whether the scan gave up.
   */
  datatype Scan = Scan(rest: string, out: string, badIndex: bool, afterIndex: bool, over: bool)

  /** Flags, then an argument index. */
  function Start(t: string): (s: Scan)
    ensures |s.rest| <= |t|
  {
    var a := ArgIndex(SkipFlags(t));
    Scan(a.0, "", a.1, a.2, false)
  }

  /** The width: `*` has no operand to take it from; digits are read, and too many abort the directive. */
  function Width(s: Scan): (s': Scan)
    ensures |s'.rest| <= |s.rest|
  {
    var t := s.rest;
    if |t| > 0 && t[0] == '*' then s.(rest := t[1..], out := s.out + BadWidth, afterIndex := false)
    else
      var n := DigitRun(t);
      s.(rest := t[n..], over := TooLarge(t, n))
  }

  /** The precision, read only when a `.` is followed by something: its own argument index, then `*` or digits. */
  function Precision(s: Scan): (s': Scan)
    ensures |s'.rest| <= |s.rest|
  {
    var t := s.rest;
    if |t| >= 2 && t[0] == '.' then
      var a := ArgIndex(t[1..]);
      var u := a.0;
      if |u| > 0 && u[0] == '*' then Scan(u[1..], s.out + BadPrec, s.badIndex || a.1, false, false)
      else
        var n := DigitRun(u);
        Scan(u[n..], s.out, s.badIndex || a.1, a.2, TooLarge(u, n))
    else s
  }

  /** The argument index in front of the verb, unless one was just read. */
  function VerbIndex(s: Scan): (s': Scan)
    ensures |s'.rest| <= |s.rest|
  {
    if s.afterIndex then s
    else
      var a := ArgIndex(s.rest);
      s.(rest := a.0, badIndex := s.badIndex || a.1)
  }

  /** A scan that gave up or reached the end of the format: the directive prints `%!(NOVERB)` and formatting stops. */
  function Stop(s: Scan): (string, string, bool) {
    (s.out + NoVerb, "", true)
  }

  /**
   One directive, `t` being the text after its `%`: what it prints, the text
   after it, and whether formatting stops there.
   */
  function Directive(t: string): (r: (string, string, bool))
    ensures |r.1| <= |t|
  {
    var w := Width(Start(t));
    if w.over then Stop(w)
    else
      var p := Precision(w);
      if p.over then Stop(w)
      else
        var v := VerbIndex(p);
        if |v.rest| == 0 then Stop(v)
        else (v.out + VerbText(v.rest[0], v.badIndex), v.rest[1..], false)
  }

  /** `fmt.Sprintf(f)` with no operands; a format without `%` comes back unchanged. */
  function Format(f: string): (r: string)
    ensures '%' !in f ==> r == f
    decreases |f|
  {
    if |f| == 0 then ""
    else if f[0] != '%' then [f[0]] + Format(f[1..])
    else
      var (out, rest, stop) := Directive(f[1..]);
      if stop then out else out + Format(rest)
  }

  /** A `%` that ends the format has no verb. */
  lemma DirectiveAtEnd()
    ensures Directive("") == (NoVerb, "", true)
  {
    assert Start("") == Scan("", "", false, false, false);
    assert DigitRun("") == 0;
    assert Width(Start("")) == Start("");
    assert Precision(Start("")) == Start("");
    assert VerbIndex(Start("")) == Start("");
    assert "" + NoVerb == NoVerb;
  }

  /** The directive `%%` prints one `%` and consumes nothing after it. */
  lemma DirectivePercent(rest: string)
    ensures Directive("%" + rest) == ("%", rest, false)
  {
    var t := "%" + rest;
    assert t[0] == '%' && t[1..] == rest;
    assert SkipFlags(t) == t;
    assert Start(t) == Scan(t, "", false, false, false);
    assert DigitRun(t) == 0;
    assert t[0..] == t;
    assert Width(Start(t)) == Start(t);
    assert Precision(Start(t)) == Start(t);
    assert VerbIndex(Start(t)) == Start(t);
    assert VerbText('%', false) == "%";
    assert "" + "%" == "%";
  }

  /** A format that is a lone `%` prints `%!(NOVERB)`. */
  lemma FormatLonePercent()
    ensures Format("%") == NoVerb
  {
    assert "%"[0] == '%' && "%"[1..] == "";
    DirectiveAtEnd();
  }

  /** `%%` prints one `%` and formatting goes on after it. */
  lemma FormatEscapedPercent(rest: string)
    ensures Format("%%" + rest) == "%" + Format(rest)
  {
    var f := "%%" + rest;
    assert f[0] == '%' && f[1..] == "%" + rest;
    DirectivePercent(rest);
  }

  /** A character that, right after `%`, is read as the verb: not a flag, digit, index, width or precision mark, and not `%`. */
  predicate PlainVerb(c: char) {
    !IsFlag(c) && !IsDigit(c) && c != '[' && c != '*' && c != '.' && c != '%'
  }

  /** The directive `%c` for a plain verb `c` has no operand to print and reports it missing. */
  lemma DirectiveMissing(c: char, rest: string)
    requires PlainVerb(c)
    ensures Directive([c] + rest) == ("%!" + [c] + "(MISSING)", rest, false)
  {
    var t := [c] + rest;
    assert t[0] == c && t[1..] == rest;
    assert SkipFlags(t) == t;
    assert Start(t) == Scan(t, "", false, false, false);
    assert DigitRun(t) == 0;
    assert t[0..] == t;
    assert Width(Start(t)) == Start(t);
    assert Precision(Start(t)) == Start(t);
    assert VerbIndex(Start(t)) == Start(t);
    assert "" + VerbText(c, false) == "%!" + [c] + "(MISSING)";
  }

  /** `%c` with a plain verb `c` prints Go's missing-operand diagnostic and formatting goes on after it. */
  lemma FormatMissingVerb(c: char, rest: string)
    requires PlainVerb(c)
    ensures Format("%" + [c] + rest) == "%!" + [c] + "(MISSING)" + Format(rest)
  {
    var f := "%" + [c] + rest;
    assert f[0] == '%' && f[1..] == [c] + rest;
    DirectiveMissing(c, rest);
  }

  /** A leading text without `%` is copied through, whatever follows it. */
  lemma {:induction false} FormatPlainPrefix(p: string, s: string)
    requires '%' !in p
    ensures Format(p + s) == p + Format(s)
  {
    if |p| > 0 {
      assert (p + s)[0] == p[0];
      assert (p + s)[1..] == p[1..] + s;
      FormatPlainPrefix(p[1..], s);
    } else {
      assert p + s == s;
    }
  }
}
