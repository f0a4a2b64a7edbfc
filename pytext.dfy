/**
 * The three Python string built-ins that check_pwned applies to the response
 * of the range API: `str.splitlines()`, `line.split(':')` unpacked into two
 * names, and `int(count)`.  Each is modelled on code points, with the error
 * cases Python has (a failed unpack or a failed `int` raises ValueError)
 * returned as `None`.
 */
module PyText {

  datatype Option<T> = None | Some(value: T)

  // ---------------------------------------------------------------------
  // str.splitlines()

  /** The line boundaries of `str.splitlines`; "\r\n" counts as one boundary. */
  predicate IsLineBreak(c: char) {
    c == '\n' || c == '\r' || c == '\U{0B}' || c == '\U{0C}' || c == '\U{1C}' || c == '\U{1D}'
    || c == '\U{1E}' || c == '\U{85}' || c == '\U{2028}' || c == '\U{2029}'
  }

  predicate NoLineBreak(s: string) {
    forall j :: 0 <= j < |s| ==> !IsLineBreak(s[j])
  }

  /** Index of the first line boundary of `s`, or |s| when there is none. */
  function LineEnd(s: string): (i: nat)
    ensures i <= |s|
    ensures i < |s| ==> IsLineBreak(s[i])
    ensures NoLineBreak(s[..i])
  {
    if s == [] then 0
    else if IsLineBreak(s[0]) then 0
    else
      var k := LineEnd(s[1..]);
      assert s[..k + 1] == [s[0]] + s[1..][..k];
      k + 1
  }

  /** Width of the boundary at `i`: 2 for "\r\n", 1 otherwise. */
  function BreakWidth(s: string, i: nat): nat
    requires i < |s|
  {
    if s[i] == '\r' && i + 1 < |s| && s[i + 1] == '\n' then 2 else 1
  }

  /**
   * `s.splitlines()`: the text between boundaries; a final boundary does not
   * start an empty last line, and the empty text has no lines.
   */
  function SplitLines(s: string): (lines: seq<string>)
    ensures lines == [] <==> s == []
    ensures forall k :: 0 <= k < |lines| ==> NoLineBreak(lines[k])
    decreases |s|
  {
    if s == [] then []
    else
      var i := LineEnd(s);
      if i == |s| then [s]
      else [s[..i]] + SplitLines(s[i + BreakWidth(s, i)..])
  }

  /** A line boundary as text: "\r\n" or one boundary character. */
  predicate IsBoundary(e: string) {
    e == "\r\n" || (|e| == 1 && IsLineBreak(e[0]))
  }

  /**
   * The boundary that ends each line of `s.splitlines()`, in order; the empty
   * text for a last line that runs to the end of `s`.
   */
  function LineEnds(s: string): (ends: seq<string>)
    ensures |ends| == |SplitLines(s)|
    ensures forall k :: 0 <= k < |ends| ==> IsBoundary(ends[k]) || (k == |ends| - 1 && ends[k] == [])
    decreases |s|
  {
    if s == [] then []
    else
      var i := LineEnd(s);
      if i == |s| then [[]]
      else
        var e := s[i..i + BreakWidth(s, i)];
        assert BreakWidth(s, i) == 2 ==> e == "\r\n";
        [e] + LineEnds(s[i + BreakWidth(s, i)..])
  }

  /** Each line followed by its own ending. */
  function Interleave(lines: seq<string>, ends: seq<string>): string
    requires |lines| == |ends|
  {
    if lines == [] then [] else lines[0] + ends[0] + Interleave(lines[1..], ends[1..])
  }

  /**
   * `splitlines` loses nothing but the boundaries: the lines, each followed
   * by the boundary that ended it (LineEnds), rebuild the text.
   */
  lemma {:induction false} SplitLinesRebuild(s: string)
    ensures Interleave(SplitLines(s), LineEnds(s)) == s
    decreases |s|
  {
    if s != [] {
      var i := LineEnd(s);
      if i == |s| {
        assert s + [] + [] == s;
      } else {
        var w := BreakWidth(s, i);
        var line, e, rest := s[..i], s[i..i + w], s[i + w..];
        SplitLinesRebuild(rest);
        assert SplitLines(s) == [line] + SplitLines(rest);
        assert LineEnds(s) == [e] + LineEnds(rest);
        InterleaveCons(line, e, SplitLines(rest), LineEnds(rest));
        SliceThree(s, i, i + w);
      }
    }
  }

  lemma SliceThree<T>(s: seq<T>, i: nat, j: nat)
    requires i <= j <= |s|
    ensures s[..i] + s[i..j] + s[j..] == s
  {
    assert s[..i] + s[i..j] == s[..j];
  }

  lemma InterleaveCons(line: string, e: string, lines: seq<string>, ends: seq<string>)
    requires |lines| == |ends|
    ensures Interleave([line] + lines, [e] + ends) == line + e + Interleave(lines, ends)
  {
    assert ([line] + lines)[1..] == lines && ([e] + ends)[1..] == ends;
  }

  /** Each line followed by the terminator `eol`. */
  function Terminated(lines: seq<string>, eol: string): string {
    if lines == [] then [] else lines[0] + eol + Terminated(lines[1..], eol)
  }

  /** A line without boundaries followed by a boundary ends right there. */
  lemma LineEndAfter(l: string, rest: string)
    requires NoLineBreak(l)
    requires rest != [] && IsLineBreak(rest[0])
    ensures LineEnd(l + rest) == |l|
  {
    var s := l + rest;
    assert IsLineBreak(s[|l|]);
    assert forall j :: 0 <= j < |l| ==> s[j] == l[j];
    assert forall j :: 0 <= j <= |l| ==> s[..j] == l[..j];
  }

  /** A text without boundaries is one line. */
  lemma LineEndNone(s: string)
    requires NoLineBreak(s)
    ensures LineEnd(s) == |s|
  {
  }

  /** A line, its terminator and the rest of the text: the line comes first. */
  lemma SplitLinesStep(l: string, eol: string, rest: string)
    requires eol == "\n" || eol == "\r\n"
    requires NoLineBreak(l)
    ensures SplitLines(l + eol + rest) == [l] + SplitLines(rest)
  {
    var s := l + eol + rest;
    assert s == l + (eol + rest);
    LineEndAfter(l, eol + rest);
    assert BreakWidth(s, |l|) == |eol|;
    assert s[|l| + |eol|..] == rest;
    assert s[..|l|] == l;
  }

  /** A last line without terminator is read as one line; no text, no line. */
  lemma SplitLinesOfLast(last: string)
    requires NoLineBreak(last)
    ensures SplitLines(last) == if last == [] then [] else [last]
  {
    if last != [] {
      LineEndNone(last);
    }
  }

  /**
   * Lines written one per line with "\n" or "\r\n", optionally followed by
   * an unterminated last line, are read back exactly by splitlines.
   */
  lemma {:induction false} SplitLinesOfTerminated(lines: seq<string>, eol: string, last: string)
    requires eol == "\n" || eol == "\r\n"
    requires forall k :: 0 <= k < |lines| ==> NoLineBreak(lines[k])
    requires NoLineBreak(last)
    ensures SplitLines(Terminated(lines, eol) + last) == lines + (if last == [] then [] else [last])
    decreases |lines|
  {
    if lines == [] {
      assert Terminated(lines, eol) + last == last;
      SplitLinesOfLast(last);
    } else {
      var rest := Terminated(lines[1..], eol) + last;
      var tail: seq<string> := if last == [] then [] else [last];
      TerminatedCons(lines, eol, last);
      SplitLinesStep(lines[0], eol, rest);
      assert forall k :: 0 <= k < |lines[1..]| ==> lines[1..][k] == lines[k + 1];
      SplitLinesOfTerminated(lines[1..], eol, last);
      ConsAppend(lines, tail);
    }
  }

  lemma ConsAppend<T>(xs: seq<T>, ys: seq<T>)
    requires xs != []
    ensures xs + ys == [xs[0]] + (xs[1..] + ys)
  {
  }

  lemma TerminatedCons(lines: seq<string>, eol: string, last: string)
    requires lines != []
    ensures Terminated(lines, eol) + last == lines[0] + eol + (Terminated(lines[1..], eol) + last)
  {
  }

  // ---------------------------------------------------------------------
  // str.split(sep) and unpacking into two names

  function CountOf(s: string, c: char): nat {
    if s == [] then 0 else (if s[0] == c then 1 else 0) + CountOf(s[1..], c)
  }

  /** Index of the first `c` in `s`, or |s| when there is none. */
  function IndexOf(s: string, c: char): (i: nat)
    ensures i <= |s|
    ensures i < |s| ==> s[i] == c
    ensures c !in s[..i]
  {
    if s == [] then 0
    else if s[0] == c then 0
    else
      var k := IndexOf(s[1..], c);
      assert s[..k + 1] == [s[0]] + s[1..][..k];
      k + 1
  }

  /** `s.split(c)`: the fields between occurrences of `c`; one more field than occurrences. */
  function Split(s: string, c: char): (fields: seq<string>)
    ensures |fields| == CountOf(s, c) + 1
    ensures forall k :: 0 <= k < |fields| ==> c !in fields[k]
    decreases |s|
  {
    var i := IndexOf(s, c);
    if i == |s| then
      assert s[..i] == s;
      CountAbsent(s, c);
      [s]
    else
      CountSplit(s, c, i);
      [s[..i]] + Split(s[i + 1..], c)
  }

  lemma {:induction false} CountAbsent(s: string, c: char)
    requires c !in s
    ensures CountOf(s, c) == 0
  {
    if s != [] {
      assert forall j :: 0 <= j < |s[1..]| ==> s[1..][j] == s[j + 1];
      CountAbsent(s[1..], c);
    }
  }

  lemma {:induction false} CountAppend(a: string, b: string, c: char)
    ensures CountOf(a + b, c) == CountOf(a, c) + CountOf(b, c)
  {
    if a != [] {
      assert (a + b)[1..] == a[1..] + b;
      CountAppend(a[1..], b, c);
    } else {
      assert a + b == b;
    }
  }

  lemma CountSplit(s: string, c: char, i: nat)
    requires i < |s| && s[i] == c && c !in s[..i]
    ensures CountOf(s, c) == CountOf(s[i + 1..], c) + 1
  {
    assert s == s[..i] + ([c] + s[i + 1..]);
    CountAppend(s[..i], [c] + s[i + 1..], c);
    CountAbsent(s[..i], c);
    assert ([c] + s[i + 1..])[1..] == s[i + 1..];
  }

  /** `c.join(fields)`: the inverse of Split. */
  function Join(fields: seq<string>, c: char): string
    requires |fields| >= 1
  {
    if |fields| == 1 then fields[0] else fields[0] + [c] + Join(fields[1..], c)
  }

  lemma JoinCons(f: string, fields: seq<string>, c: char)
    requires |fields| >= 1
    ensures Join([f] + fields, c) == f + [c] + Join(fields, c)
  {
    assert ([f] + fields)[1..] == fields;
  }

  /** Joining the fields of a split gives the text back. */
  lemma {:induction false} JoinSplit(s: string, c: char)
    ensures Join(Split(s, c), c) == s
    decreases |s|
  {
    var i := IndexOf(s, c);
    if i == |s| {
      assert s[..i] == s;
    } else {
      var rest := s[i + 1..];
      JoinSplit(rest, c);
      SplitAtFirst(s, c);
      JoinCons(s[..i], Split(rest, c), c);
      AroundIndex(s, i);
    }
  }

  lemma SplitAtFirst(s: string, c: char)
    requires IndexOf(s, c) < |s|
    ensures Split(s, c) == [s[..IndexOf(s, c)]] + Split(s[IndexOf(s, c) + 1..], c)
  {
  }

  lemma AroundIndex<T>(s: seq<T>, i: nat)
    requires i < |s|
    ensures s[..i] + [s[i]] + s[i + 1..] == s
  {
    assert s[..i] + [s[i]] == s[..i + 1];
  }

  /** The first separator of a field, the separator and more text is the one after the field. */
  lemma IndexOfAfterField(f: string, c: char, rest: string)
    requires c !in f
    ensures IndexOf(f + [c] + rest, c) == |f|
  {
    var s := f + [c] + rest;
    assert s[..|f|] == f && s[|f|] == c;
    var i := IndexOf(s, c);
    assert i <= |f| by {
      assert i < |s| ==> s[i] == c;
      assert forall j :: 0 <= j < |f| ==> s[j] == f[j];
    }
    assert i >= |f| by {
      assert c !in s[..i];
      assert forall j :: 0 <= j < i ==> s[..i][j] == s[j];
    }
  }

  /** Splitting joined fields that do not contain the separator gives the fields back. */
  lemma {:induction false} SplitJoin(fields: seq<string>, c: char)
    requires |fields| >= 1
    requires forall k :: 0 <= k < |fields| ==> c !in fields[k]
    ensures Split(Join(fields, c), c) == fields
    decreases |fields|
  {
    var s := Join(fields, c);
    var f := fields[0];
    if |fields| == 1 {
      assert IndexOf(s, c) == |s|;
    } else {
      var rest := Join(fields[1..], c);
      assert fields == [f] + fields[1..];
      JoinCons(f, fields[1..], c);
      IndexOfAfterField(f, c, rest);
      assert s[..|f|] == f && s[|f| + 1..] == rest;
      SplitJoin(fields[1..], c);
    }
  }

  /**
   * `a, b = s.split(c)`: succeeds exactly when `s` holds `c` once; otherwise
   * Python raises ValueError (too many or not enough values to unpack).
   */
  function SplitPair(s: string, c: char): (r: Option<(string, string)>)
    ensures r.Some? <==> CountOf(s, c) == 1
    ensures r.Some? ==> s == r.value.0 + [c] + r.value.1 && c !in r.value.0 && c !in r.value.1
  {
    var fields := Split(s, c);
    if |fields| == 2 then
      JoinSplit(s, c);
      assert Join(fields[1..], c) == fields[1];
      Some((fields[0], fields[1]))
    else None
  }

  // ---------------------------------------------------------------------
  // int(text) for a decimal text

  /** The characters `int()` skips around the number: the ASCII white space
    * " \t\n\v\f\r", and every non-ASCII character Python counts as white
    * space (each is first mapped to ' '). The ASCII separators U+001C..U+001F,
    * which `str.isspace()` accepts, are not skipped: `int()` rejects them. */
  predicate IsIntSpace(c: char) {
    c == ' ' || c == '\t' || c == '\n' || c == '\r' || c == '\U{0B}' || c == '\U{0C}'
    || c == '\U{85}' || c == '\U{A0}' || c == '\U{1680}'
    || ('\U{2000}' <= c <= '\U{200A}') || c == '\U{2028}' || c == '\U{2029}'
    || c == '\U{202F}' || c == '\U{205F}' || c == '\U{3000}'
  }

  function TrimStart(s: string): string {
    if s != [] && IsIntSpace(s[0]) then TrimStart(s[1..]) else s
  }

  function TrimEnd(s: string): string {
    if s != [] && IsIntSpace(s[|s| - 1]) then TrimEnd(s[..|s| - 1]) else s
  }

  function Strip(s: string): string {
    TrimEnd(TrimStart(s))
  }

  predicate IsDigitChar(c: char) {
    '0' <= c <= '9'
  }

  /**
   * The digits part accepted by `int()` in base 10: digits, with single
   * underscores allowed between two digits.
   */
  predicate IsDigitRun(s: string) {
    && |s| > 0 && IsDigitChar(s[0]) && IsDigitChar(s[|s| - 1])
    && (forall j :: 0 <= j < |s| ==> IsDigitChar(s[j]) || s[j] == '_')
    && NoDoubleUnderscore(s)
  }

  /** No two underscores in a row. */
  predicate NoDoubleUnderscore(s: string) {
    |s| < 2 || (!(s[0] == '_' && s[1] == '_') && NoDoubleUnderscore(s[1..]))
  }

  /** Decimal value of the digits of `s`, underscores skipped. */
  function DigitsValue(s: string): nat
    requires forall j :: 0 <= j < |s| ==> IsDigitChar(s[j]) || s[j] == '_'
  {
    if s == [] then 0
    else if s[|s| - 1] == '_' then DigitsValue(s[..|s| - 1])
    else
      assert IsDigitChar(s[|s| - 1]);
      10 * DigitsValue(s[..|s| - 1]) + (s[|s| - 1] as int - '0' as int)
  }

  /**
   * The most decimal digits `int()` converts: `sys.int_info.default_max_str_digits`
   * of Python 3.11 and later (and of the 3.7 to 3.10 security releases).
   * Longer digit runs raise ValueError.
   */
  const MaxStrDigits: nat := 4300

  /** Number of decimal digits in `s`; signs and underscores are not counted. */
  function DigitCount(s: string): nat {
    if s == [] then 0 else (if IsDigitChar(s[0]) then 1 else 0) + DigitCount(s[1..])
  }

  /**
   * `int(text)`: surrounding white space, an optional sign, then a digit run
   * of at most MaxStrDigits digits; None where Python raises.
   */
  function ParseInt(text: string): (r: Option<int>)
    ensures r.Some? ==> Strip(text) != [] && DigitCount(Strip(text)) <= MaxStrDigits
    ensures r.Some? && r.value < 0 ==> Strip(text)[0] == '-'
  {
    var t := Strip(text);
    if |t| > 0 && (t[0] == '+' || t[0] == '-') then
      var digits := t[1..];
      if IsDigitRun(digits) && DigitCount(digits) <= MaxStrDigits then
        var v: int := DigitsValue(digits);
        Some(if t[0] == '-' then -v else v)
      else None
    else if IsDigitRun(t) && DigitCount(t) <= MaxStrDigits then Some(DigitsValue(t))
    else None
  }

  /** `str(n)` for a natural number. */
  function ShowNat(n: nat): (s: string)
    ensures |s| > 0 && forall j :: 0 <= j < |s| ==> IsDigitChar(s[j])
  {
    var d := ['0' + (n % 10) as char];
    if n < 10 then d else ShowNat(n / 10) + d
  }

  /** `str(n)` for an integer. */
  function ShowInt(n: int): string {
    if n < 0 then "-" + ShowNat(-n) else ShowNat(n)
  }

  lemma {:induction false} DigitsValueOfShowNat(n: nat)
    ensures DigitsValue(ShowNat(n)) == n
  {
    var s := ShowNat(n);
    if n >= 10 {
      DigitsValueOfShowNat(n / 10);
      assert s[..|s| - 1] == ShowNat(n / 10);
    }
  }

  /** `int()` does not skip an ASCII information separator in front of the
    * digits, although `str.isspace()` counts it as white space. */
  lemma IntRejectsSeparator()
    ensures ParseInt("\U{1F}5") == None
    ensures ParseInt("\U{A0}5 ") == Some(5)
  {
    assert Strip("\U{1F}5") == "\U{1F}5";
    assert Strip("\U{A0}5 ") == "5";
    DigitsOnly("5");
  }

  lemma {:induction false} StripOfUnpadded(s: string)
    requires s != [] && !IsIntSpace(s[0]) && !IsIntSpace(s[|s| - 1])
    ensures Strip(s) == s
  {
  }

  /** A text made of digits only has one digit per character and no underscore. */
  lemma {:induction false} DigitsOnly(s: string)
    requires forall j :: 0 <= j < |s| ==> IsDigitChar(s[j])
    ensures DigitCount(s) == |s| && NoDoubleUnderscore(s)
  {
    if s != [] {
      assert IsDigitChar(s[0]);
      assert forall j :: 0 <= j < |s[1..]| ==> s[1..][j] == s[j + 1];
      DigitsOnly(s[1..]);
    }
  }

  /** `int` of an unsigned run of digits. */
  lemma ParseDigits(s: string)
    requires s != [] && forall j :: 0 <= j < |s| ==> IsDigitChar(s[j])
    ensures ParseInt(s) == if |s| <= MaxStrDigits then Some(DigitsValue(s)) else None
  {
    assert !IsIntSpace(s[0]) && !IsIntSpace(s[|s| - 1]);
    StripOfUnpadded(s);
    assert s[0] != '+' && s[0] != '-';
    DigitsOnly(s);
  }

  /** `int` of a minus sign followed by a run of digits. */
  lemma ParseNegatedDigits(t: string)
    requires |t| > 1 && t[0] == '-' && forall j :: 1 <= j < |t| ==> IsDigitChar(t[j])
    ensures ParseInt(t) == if |t| - 1 <= MaxStrDigits then Some(-(DigitsValue(t[1..]) as int)) else None
  {
    assert Strip(t) == t by {
      assert IsDigitChar(t[|t| - 1]);
      StripOfUnpadded(t);
    }
    var digits := t[1..];
    assert forall j :: 0 <= j < |digits| ==> IsDigitChar(digits[j]) by {
      assert forall j :: 0 <= j < |digits| ==> digits[j] == t[j + 1];
    }
    DigitsOnly(digits);
  }

  /**
   * int(str(n)) == n for a natural number with at most MaxStrDigits digits;
   * a longer rendering is refused.
   */
  lemma ParseShowNat(n: nat)
    ensures ParseInt(ShowNat(n)) == if |ShowNat(n)| <= MaxStrDigits then Some(n) else None
  {
    ParseDigits(ShowNat(n));
    DigitsValueOfShowNat(n);
  }

  /** The magnitude of an integer. */
  function Abs(n: int): nat {
    if n < 0 then -n else n
  }

  /**
   * int(str(n)) == n: parsing undoes the decimal rendering of every integer
   * of at most MaxStrDigits digits, and refuses a longer one.
   */
  lemma ParseShowInt(n: int)
    ensures ParseInt(ShowInt(n)) == if |ShowNat(Abs(n))| <= MaxStrDigits then Some(n) else None
  {
    if n < 0 {
      ParseShowNegative(n);
    } else {
      assert ShowInt(n) == ShowNat(n);
      ParseShowNat(n);
    }
  }

  lemma ParseShowNegative(n: int)
    requires n < 0
    ensures ParseInt(ShowInt(n)) == if |ShowNat(-n)| <= MaxStrDigits then Some(n) else None
  {
    ShowNegative(n);
    ParseNegatedDigits(ShowInt(n));
    DigitsValueOfShowNat(-n);
  }

  lemma ShowNegative(n: int)
    requires n < 0
    ensures |ShowInt(n)| == |ShowNat(-n)| + 1 && ShowInt(n)[0] == '-' && ShowInt(n)[1..] == ShowNat(-n)
    ensures forall j :: 1 <= j < |ShowInt(n)| ==> IsDigitChar(ShowInt(n)[j])
  {
    var t, digits := ShowInt(n), ShowNat(-n);
    assert t == "-" + digits;
    assert forall j :: 1 <= j < |t| ==> t[j] == digits[j - 1];
  }
}
