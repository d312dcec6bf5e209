/** The slice of Python semantics the script leans on: the values its functions
    return and compare with `==`, and the string operations `str.strip`,
    `str.find`, slicing, negative indexing and `int()`. */
module Py {

  /** Failure-compatible optional value, so that `:-` can stand for an
      exception that aborts the rest of a computation. */
  datatype Option<+T> = None | Some(value: T) {
    predicate IsFailure() {
      None?
    }

    function PropagateFailure<U>(): Option<U>
      requires None?
    {
      None
    }

    function Extract(): T
      requires Some?
    {
      value
    }
  }

  /** How a piece of the script ends: with a value, by raising an exception
      nobody catches, or not at all within the observations supplied (a poll
      that is still polling when its trace runs out). */
  datatype Run<+T> = Returned(value: T) | Raised | Unfinished

  /** The Python values the script's functions return to each other. */
  datatype Value = PyNone | Bool(b: bool) | Int(i: int) | Str(s: string)

  /** `bool` is a subclass of `int` in Python: `True` is 1 and `False` is 0. */
  function AsNumber(v: Value): Option<int> {
    match v
    case Bool(b) => Some(if b then 1 else 0)
    case Int(i) => Some(i)
    case _ => None
  }

  /** Python's `==` on these values. */
  predicate Eq(a: Value, b: Value) {
    match (a, b)
    case (PyNone, PyNone) => true
    case (Str(x), Str(y)) => x == y
    case _ => AsNumber(a).Some? && AsNumber(b).Some? && AsNumber(a).value == AsNumber(b).value
  }

  /** A string is `==` only to the same string, and a bool only to the same
      bool or to the integer it stands for; in particular `-1` equals none of
      `False`, `True` and `"TIMEOUT"`. */
  lemma EqFacts(x: string, v: Value, p: bool, q: bool)
    ensures Eq(Str(x), v) <==> v == Str(x)
    ensures Eq(Bool(p), Bool(q)) <==> p == q
    ensures Eq(Bool(true), Int(1)) && Eq(Bool(false), Int(0))
    ensures !Eq(Int(-1), Bool(false)) && !Eq(Int(-1), Bool(true)) && !Eq(Int(-1), Str(x))
  {
  }

  // ---------------------------------------------------------------------
  // str.strip

  /** The characters `str.isspace` accepts, which `str.strip()` removes. */
  const Whitespace: set<char> := {
    '\t', '\n', '\U{B}', '\U{C}', '\r', '\U{1C}', '\U{1D}', '\U{1E}', '\U{1F}', ' ',
    '\U{85}', '\U{A0}', '\U{1680}',
    '\U{2000}', '\U{2001}', '\U{2002}', '\U{2003}', '\U{2004}', '\U{2005}',
    '\U{2006}', '\U{2007}', '\U{2008}', '\U{2009}', '\U{200A}',
    '\U{2028}', '\U{2029}', '\U{202F}', '\U{205F}', '\U{3000}'
  }

  /** The characters `int()` skips around a numeral: `Whitespace` without
      U+001C to U+001F. CPython turns every non-ASCII whitespace character
      into a space but leaves ASCII characters alone, and then skips only the
      C locale's blanks; so the four ASCII separators, which `str.isspace`
      accepts, are not skipped and make `int()` raise. */
  const IntSpace: set<char> := {
    '\t', '\n', '\U{B}', '\U{C}', '\r', ' ',
    '\U{85}', '\U{A0}', '\U{1680}',
    '\U{2000}', '\U{2001}', '\U{2002}', '\U{2003}', '\U{2004}', '\U{2005}',
    '\U{2006}', '\U{2007}', '\U{2008}', '\U{2009}', '\U{200A}',
    '\U{2028}', '\U{2029}', '\U{202F}', '\U{205F}', '\U{3000}'
  }

  predicate AllIn(s: string, ws: set<char>) {
    forall k :: 0 <= k < |s| ==> s[k] in ws
  }

  /** No character of `ws` at either end. */
  predicate Unpadded(s: string, ws: set<char>) {
    |s| == 0 || (s[0] !in ws && s[|s| - 1] !in ws)
  }

  /** Number of characters of `ws` at the front of `s`. */
  function LeadingRun(s: string, ws: set<char>): (n: nat)
    ensures n <= |s|
  {
    if |s| > 0 && s[0] in ws then 1 + LeadingRun(s[1..], ws) else 0
  }

  /** `LeadingRun` counts the whole run of `ws` at the front. */
  lemma {:induction false} LeadingRunSpec(s: string, ws: set<char>)
    ensures AllIn(s[..LeadingRun(s, ws)], ws)
    ensures LeadingRun(s, ws) == |s| || s[LeadingRun(s, ws)] !in ws
  {
    if |s| > 0 && s[0] in ws {
      LeadingRunSpec(s[1..], ws);
      assert forall k :: 1 <= k < LeadingRun(s, ws) ==> s[k] == s[1..][k - 1];
    }
  }

  /** Index at which the run of `ws` at the back of `s` begins. */
  function TrailingStart(s: string, ws: set<char>): (n: nat)
    ensures n <= |s|
  {
    if |s| > 0 && s[|s| - 1] in ws then TrailingStart(s[..|s| - 1], ws) else |s|
  }

  /** `TrailingStart` marks the whole run of `ws` at the back. */
  lemma {:induction false} TrailingStartSpec(s: string, ws: set<char>)
    ensures AllIn(s[TrailingStart(s, ws)..], ws)
    ensures TrailingStart(s, ws) == 0 || s[TrailingStart(s, ws) - 1] !in ws
  {
    if |s| > 0 && s[|s| - 1] in ws {
      var n := TrailingStart(s, ws);
      TrailingStartSpec(s[..|s| - 1], ws);
      assert forall k :: n <= k < |s| - 1 ==> s[k] == s[..|s| - 1][k];
    }
  }

  /** `s.strip(chars)`: the part of `s` between its leading and trailing
      runs of characters from `ws`. */
  function StripChars(s: string, ws: set<char>): (r: string)
    ensures |r| <= |s|
  {
    var t := s[LeadingRun(s, ws)..];
    t[..TrailingStart(t, ws)]
  }

  /** `str.strip()`. */
  function Strip(s: string): (r: string)
    ensures |r| <= |s|
  {
    StripChars(s, Whitespace)
  }

  /** What `strip` returns has no stripped character at either end, and is
      what lies between two runs of stripped characters in the input. */
  lemma StripSpec(s: string, ws: set<char>)
    ensures Unpadded(StripChars(s, ws), ws)
    ensures exists i :: 0 <= i <= |s| - |StripChars(s, ws)| && s[i..i + |StripChars(s, ws)|] == StripChars(s, ws) &&
              AllIn(s[..i], ws) && AllIn(s[i + |StripChars(s, ws)|..], ws)
  {
    var i := LeadingRun(s, ws);
    var t := s[i..];
    var j := TrailingStart(t, ws);
    LeadingRunSpec(s, ws);
    TrailingStartSpec(t, ws);
    var r := StripChars(s, ws);
    assert r == t[..j] == s[i..i + j];
    assert s[i + j..] == t[j..];
    if |r| > 0 {
      assert r[0] == s[i];
      assert r[|r| - 1] == t[j - 1];
    }
  }

  /** Stripping undoes any padding of an unpadded string. */
  lemma StripRemovesPadding(pre: string, core: string, post: string, ws: set<char>)
    requires AllIn(pre, ws) && AllIn(post, ws) && Unpadded(core, ws)
    ensures StripChars(pre + core + post, ws) == core
  {
    var s := pre + core + post;
    var i := LeadingRun(s, ws);
    LeadingRunSpec(s, ws);
    if |core| == 0 {
      assert forall k :: 0 <= k < |s| ==> s[k] in ws by {
        forall k | 0 <= k < |s|
          ensures s[k] in ws
        {
          if k < |pre| {
            assert s[k] == pre[k];
          } else {
            assert s[k] == post[k - |pre|];
          }
        }
      }
      assert i == |s|;
    } else {
      assert s[|pre|] == core[0];
      assert forall k :: 0 <= k < |pre| ==> s[k] == pre[k];
      assert i == |pre|;
      var t := s[i..];
      assert t == core + post;
      var j := TrailingStart(t, ws);
      TrailingStartSpec(t, ws);
      assert t[|core| - 1] == core[|core| - 1];
      assert forall k :: |core| <= k < |t| ==> t[k] == post[k - |core|];
      assert j == |core|;
      assert t[..j] == core;
    }
  }

  /** A string with no stripped character at either end strips to itself. */
  lemma StripUnpadded(s: string, ws: set<char>)
    requires Unpadded(s, ws)
    ensures StripChars(s, ws) == s
  {
    StripRemovesPadding([], s, [], ws);
    assert [] + s + [] == s;
  }

  // ---------------------------------------------------------------------
  // str.find, slicing and indexing

  predicate OccursAt(s: string, sub: string, k: int) {
    0 <= k && k + |sub| <= |s| && s[k..k + |sub|] == sub
  }

  function FindFrom(s: string, sub: string, from: nat): (r: int)
    ensures r == -1 || from <= r
    decreases |s| - from
  {
    if from + |sub| > |s| then -1
    else if s[from..from + |sub|] == sub then from
    else FindFrom(s, sub, from + 1)
  }

  lemma {:induction false} FindFromSpec(s: string, sub: string, from: nat)
    ensures FindFrom(s, sub, from) >= 0 ==> OccursAt(s, sub, FindFrom(s, sub, from))
    ensures forall k :: from <= k && (FindFrom(s, sub, from) == -1 || k < FindFrom(s, sub, from)) ==>
              !OccursAt(s, sub, k)
    decreases |s| - from
  {
    if from + |sub| <= |s| && s[from..from + |sub|] != sub {
      FindFromSpec(s, sub, from + 1);
    }
  }

  /** `str.find`: the least index at which `sub` occurs in `s`, or -1. */
  function Find(s: string, sub: string): (r: int)
    ensures r >= -1
  {
    FindFrom(s, sub, 0)
  }

  /** `find` reports an occurrence with none before it, or -1 when there is
      none at all. */
  lemma FindSpec(s: string, sub: string)
    ensures Find(s, sub) >= 0 ==> OccursAt(s, sub, Find(s, sub))
    ensures Find(s, sub) == -1 ==> forall k :: 0 <= k ==> !OccursAt(s, sub, k)
    ensures forall k :: 0 <= k < Find(s, sub) ==> !OccursAt(s, sub, k)
  {
    FindFromSpec(s, sub, 0);
  }

  /** An occurrence with none before it is the one `find` reports. */
  lemma FindFirst(s: string, sub: string, k: nat)
    requires OccursAt(s, sub, k)
    requires forall j :: 0 <= j < k ==> !OccursAt(s, sub, j)
    ensures Find(s, sub) == k
  {
    FindSpec(s, sub);
  }

  /** A one-character substring occurs exactly where that character is. */
  lemma OccursAtChar(s: string, c: char, k: int)
    ensures OccursAt(s, [c], k) <==> 0 <= k < |s| && s[k] == c
  {
    if 0 <= k < |s| {
      assert s[k..k + 1] == [s[k]];
    }
  }

  /** Python clamps a slice bound: a negative one counts from the end. */
  function SliceBound(i: int, n: nat): (r: nat)
    ensures r <= n
    ensures 0 <= i <= n ==> r == i
    ensures -(n as int) <= i < 0 ==> r == n + i
  {
    if i < 0 then (if i + n < 0 then 0 else i + n)
    else if i > n then n
    else i
  }

  /** `s[i:j]`. */
  function Slice(s: string, i: int, j: int): (r: string)
    ensures 0 <= i <= j <= |s| ==> r == s[i..j]
    ensures SliceBound(j, |s|) <= SliceBound(i, |s|) ==> r == []
  {
    var a := SliceBound(i, |s|);
    var b := SliceBound(j, |s|);
    if a < b then s[a..b] else []
  }

  /** `s[k]`, which raises `IndexError` outside `-len(s) <= k < len(s)`. */
  function At(s: string, k: int): (r: Option<char>)
    ensures r.Some? <==> -|s| <= k < |s|
    ensures 0 <= k < |s| ==> r == Some(s[k])
    ensures -|s| <= k < 0 ==> r == Some(s[|s| + k])
  {
    if 0 <= k < |s| then Some(s[k])
    else if -|s| <= k < 0 then Some(s[|s| + k])
    else None
  }

  // ---------------------------------------------------------------------
  // int()

  predicate IsDigit(c: char) {
    '0' <= c <= '9'
  }

  predicate AllDigits(s: string) {
    forall k :: 0 <= k < |s| ==> IsDigit(s[k])
  }

  function DigitValue(c: char): nat
    requires IsDigit(c)
  {
    c as int - '0' as int
  }

  function DigitChar(d: nat): (c: char)
    requires d < 10
    ensures IsDigit(c) && DigitValue(c) == d
  {
    ('0' as int + d) as char
  }

  /** The number an ASCII digit string denotes. */
  function DecimalValue(d: string): nat
    requires AllDigits(d)
  {
    if |d| == 0 then 0
    else DecimalValue(d[..|d| - 1]) * 10 + DigitValue(d[|d| - 1])
  }

  /** The shortest decimal rendering of `n`, as `str(n)` prints it. */
  function Decimal(n: nat): (r: string)
    ensures |r| > 0 && AllDigits(r)
  {
    if n < 10 then [DigitChar(n)]
    else Decimal(n / 10) + [DigitChar(n % 10)]
  }

  lemma {:induction false} DecimalRoundTrip(n: nat)
    ensures DecimalValue(Decimal(n)) == n
  {
    var r := Decimal(n);
    if n >= 10 {
      DecimalRoundTrip(n / 10);
      assert r[..|r| - 1] == Decimal(n / 10);
    }
  }

  /** The literal `int()` accepts after the sign: digits, with single
      underscores allowed between two digits. */
  predicate IsNumeral(d: string) {
    && |d| > 0
    && IsDigit(d[0])
    && IsDigit(d[|d| - 1])
    && (forall k :: 0 <= k < |d| ==> IsDigit(d[k]) || d[k] == '_')
    && (forall k :: 0 <= k < |d| - 1 ==> d[k] == '_' ==> d[k + 1] != '_')
  }

  function DropUnderscores(d: string): (r: string)
    requires forall k :: 0 <= k < |d| ==> IsDigit(d[k]) || d[k] == '_'
    ensures AllDigits(r)
    ensures AllDigits(d) ==> r == d
  {
    if |d| == 0 then []
    else if d[0] == '_' then DropUnderscores(d[1..])
    else [d[0]] + DropUnderscores(d[1..])
  }

  function Magnitude(d: string): Option<nat> {
    if IsNumeral(d) then Some(DecimalValue(DropUnderscores(d))) else None
  }

  /** `int(s)` for a `str` argument: blanks `int()` skips, then an optional
      sign, then a numeral, then blanks; anything else raises `ValueError`
      (None). */
  function IntOf(s: string): Option<int> {
    var t := StripChars(s, IntSpace);
    if |t| > 0 && (t[0] == '+' || t[0] == '-') then
      var m :- Magnitude(t[1..]);
      Some(if t[0] == '-' then -(m as int) else m)
    else
      var m :- Magnitude(t);
      Some(m)
  }

  /** A digit string has no blanks to skip. */
  lemma StripDigits(d: string)
    requires |d| > 0 && AllDigits(d)
    ensures StripChars(d, IntSpace) == d
  {
    StripUnpadded(d, IntSpace);
  }

  lemma MagnitudeOfDigits(d: string)
    requires |d| > 0 && AllDigits(d)
    ensures Magnitude(d) == Some(DecimalValue(d))
  {
    assert IsNumeral(d);
  }

  /** `int()` reads a digit string, padded with any blanks it skips, as the
      number the digits denote. */
  lemma IntOfPadded(pre: string, d: string, post: string)
    requires AllIn(pre, IntSpace) && AllIn(post, IntSpace)
    requires |d| > 0 && AllDigits(d)
    ensures IntOf(pre + d + post) == Some(DecimalValue(d))
  {
    StripRemovesPadding(pre, d, post, IntSpace);
    MagnitudeOfDigits(d);
    assert d[0] == d[0];
  }

  /** `int()` reads a plain digit string as the number it denotes. */
  lemma IntOfDigits(d: string)
    requires |d| > 0 && AllDigits(d)
    ensures IntOf(d) == Some(DecimalValue(d))
  {
    StripDigits(d);
    MagnitudeOfDigits(d);
    assert IsDigit(d[0]) && d[0] != '+' && d[0] != '-';
  }

  /** An ASCII separator is whitespace to `str.strip()` but not to `int()`:
      `int()` of a digit string behind one raises. */
  lemma IntOfRejectsSeparator(c: char, d: string)
    requires c in Whitespace - IntSpace
    requires |d| > 0 && AllDigits(d)
    ensures Strip([c] + d) == d
    ensures IntOf([c] + d) == None
  {
    StripRemovesPadding([c], d, [], Whitespace);
    assert [c] + d + [] == [c] + d;
    var s := [c] + d;
    assert c !in IntSpace && s[0] == c;
    assert s[|s| - 1] == d[|d| - 1];
    StripUnpadded(s, IntSpace);
    assert !IsDigit(s[0]) && s[0] != '+' && s[0] != '-';
    assert Magnitude(s) == None;
  }
}
