/** The few pieces of PHP language semantics the health checks rely on: 64-bit
    integers, the `?:` truthiness of environment strings, trim(), strtolower(),
    the (int) cast of a string, basename() and implode(). */
module PhpLang {
  import opened Base
  import opened Decimal

  const PHP_INT_MAX: int := 0x7FFF_FFFF_FFFF_FFFF
  const PHP_INT_MIN: int := -0x8000_0000_0000_0000

  predicate InInt64(x: int) {
    PHP_INT_MIN <= x <= PHP_INT_MAX
  }

  /** Saturates a mathematical integer to the 64-bit range, as PHP does for a
      finite double outside it. */
  function Clamp64(x: int): (r: int)
    ensures InInt64(r)
    ensures InInt64(x) ==> r == x
    ensures x > PHP_INT_MAX ==> r == PHP_INT_MAX
    ensures x < PHP_INT_MIN ==> r == PHP_INT_MIN
  {
    if x > PHP_INT_MAX then PHP_INT_MAX else if x < PHP_INT_MIN then PHP_INT_MIN else x
  }

  /** The least magnitude a decimal digit run can have and still round to an
      infinite double: halfway between the largest finite double, (2^53 - 1)·2^971,
      and 2^1024, which is 2^1024 - 2^970 (about 1.8e308). */
  const DOUBLE_OVERFLOW: int := 0xFFFFFFFFFFFFFC00_0000000000000000_0000000000000000_0000000000000000_0000000000000000_0000000000000000_0000000000000000_0000000000000000_0000000000000000_0000000000000000_0000000000000000_0000000000000000_0000000000000000_0000000000000000_0000000000000000_0000000000000000

  /** How PHP turns the value of a numeric string into an int: a run that
      overflows 64 bits goes through a double and saturates, unless the double is
      infinite, in which case the result is 0. */
  function CapToInt64(x: int): (r: int)
    ensures InInt64(r)
    ensures -DOUBLE_OVERFLOW < x < DOUBLE_OVERFLOW ==> r == Clamp64(x)
    ensures x <= -DOUBLE_OVERFLOW || DOUBLE_OVERFLOW <= x ==> r == 0
  {
    if x <= -DOUBLE_OVERFLOW || DOUBLE_OVERFLOW <= x then 0 else Clamp64(x)
  }

  /** An environment lookup as getenv() returns it: false when unset, else a string.
      `getenv(..) ?: default` falls back to the default exactly when this holds. */
  predicate Falsy(v: Option<string>) {
    v.None? || v.value == "" || v.value == "0"
  }

  function LowerChar(c: char): (d: char)
    ensures 'A' <= c <= 'Z' ==> d as int == c as int + 32
    ensures !('A' <= c <= 'Z') ==> d == c
  {
    if 'A' <= c <= 'Z' then (c as int + 32) as char else c
  }

  /** strtolower(): ASCII letters only, every other character unchanged. */
  function Lower(s: string): (r: string)
    ensures |r| == |s|
    ensures forall i :: 0 <= i < |s| ==> r[i] == LowerChar(s[i])
  {
    if |s| == 0 then [] else [LowerChar(s[0])] + Lower(s[1..])
  }

  /** The characters trim() removes by default. */
  predicate IsTrimSpace(c: char) {
    c == ' ' || c == '\t' || c == '\n' || c == '\r' || c as int == 0 || c as int == 11
  }

  function TrimLeft(s: string): (t: string)
    ensures |t| <= |s| && t == s[|s| - |t|..]
    ensures forall i :: 0 <= i < |s| - |t| ==> IsTrimSpace(s[i])
    ensures |t| > 0 ==> !IsTrimSpace(t[0])
  {
    if |s| > 0 && IsTrimSpace(s[0]) then
      var t := TrimLeft(s[1..]);
      assert s[1..][|s| - 1 - |t|..] == s[|s| - |t|..];
      assert forall i :: 1 <= i < |s| - |t| ==> s[i] == s[1..][i - 1];
      t
    else s
  }

  function TrimRight(s: string): (t: string)
    ensures |t| <= |s| && t == s[..|t|]
    ensures forall i :: |t| <= i < |s| ==> IsTrimSpace(s[i])
    ensures |t| > 0 ==> !IsTrimSpace(t[|t| - 1])
  {
    if |s| > 0 && IsTrimSpace(s[|s| - 1]) then TrimRight(s[..|s| - 1]) else s
  }

  /** `t` is `s[i..j]` and everything outside that slice is whitespace. */
  predicate TrimmedFrom(s: string, t: string, i: int, j: int) {
    0 <= i <= j <= |s| && t == s[i..j]
    && (forall k :: 0 <= k < i ==> IsTrimSpace(s[k]))
    && (forall k :: j <= k < |s| ==> IsTrimSpace(s[k]))
  }

  /** trim(): the string without its leading and trailing whitespace. */
  function Trim(s: string): (t: string)
    ensures |t| <= |s|
    ensures |t| > 0 ==> !IsTrimSpace(t[0]) && !IsTrimSpace(t[|t| - 1])
    ensures exists i, j :: TrimmedFrom(s, t, i, j)
  {
    var l := TrimLeft(s);
    TrimSlice(s, l, TrimRight(l));
    TrimRight(l)
  }

  /** A whitespace-free-at-the-front suffix `l` of `s`, cut down to a prefix `t`
      followed only by whitespace, is a slice of `s` with whitespace around it. */
  lemma TrimSlice(s: string, l: string, t: string)
    requires |l| <= |s| && l == s[|s| - |l|..] && forall k :: 0 <= k < |s| - |l| ==> IsTrimSpace(s[k])
    requires |t| <= |l| && t == l[..|t|] && forall k :: |t| <= k < |l| ==> IsTrimSpace(l[k])
    ensures TrimmedFrom(s, t, |s| - |l|, |s| - |l| + |t|)
  {
    var i := |s| - |l|;
    forall k | i + |t| <= k < |s| ensures IsTrimSpace(s[k]) {
      assert s[k] == l[k - i];
    }
  }

  predicate AllTrimSpace(s: string) {
    forall i :: 0 <= i < |s| ==> IsTrimSpace(s[i])
  }

  lemma {:induction false} TrimLeftSkips(pre: string, x: string)
    requires AllTrimSpace(pre)
    ensures TrimLeft(pre + x) == TrimLeft(x)
  {
    if |pre| > 0 {
      var px := pre + x;
      assert px[0] == pre[0] && IsTrimSpace(px[0]);
      assert px[1..] == pre[1..] + x;
      assert TrimLeft(px) == TrimLeft(px[1..]);
      TrimLeftSkips(pre[1..], x);
    } else {
      assert pre + x == x;
    }
  }

  lemma {:induction false} TrimRightSkips(x: string, post: string)
    requires AllTrimSpace(post)
    ensures TrimRight(x + post) == TrimRight(x)
  {
    if |post| > 0 {
      var xp := x + post;
      assert xp[..|xp| - 1] == x + post[..|post| - 1];
      TrimRightSkips(x, post[..|post| - 1]);
    } else {
      assert x + post == x;
    }
  }

  /** Trailing whitespace passes through TrimLeft unless nothing else is left. */
  lemma {:induction false} TrimLeftThrough(s: string, post: string)
    requires AllTrimSpace(post)
    ensures TrimLeft(s + post) == if |TrimLeft(s)| > 0 then TrimLeft(s) + post else []
  {
    if |s| == 0 {
      assert s + post == post + [];
      TrimLeftSkips(post, []);
    } else if IsTrimSpace(s[0]) {
      assert (s + post)[1..] == s[1..] + post;
      TrimLeftThrough(s[1..], post);
    }
  }

  /** Whitespace added around a string does not change its trim. */
  lemma TrimPadded(pre: string, s: string, post: string)
    requires AllTrimSpace(pre) && AllTrimSpace(post)
    ensures Trim(pre + s + post) == Trim(s)
  {
    assert pre + s + post == pre + (s + post);
    TrimLeftSkips(pre, s + post);
    TrimLeftThrough(s, post);
    if |TrimLeft(s)| > 0 {
      TrimRightSkips(TrimLeft(s), post);
    }
  }

  /** A string that neither starts nor ends with whitespace is its own trim. */
  lemma TrimUnpadded(s: string)
    requires |s| > 0 && !IsTrimSpace(s[0]) && !IsTrimSpace(s[|s| - 1])
    ensures Trim(s) == s
  {
  }

  /** Whitespace PHP skips before the digits of a numeric string. */
  predicate IsNumericSpace(c: char) {
    c == ' ' || c == '\t' || c == '\n' || c == '\r' || c as int == 11 || c as int == 12
  }

  function SkipNumericSpace(s: string): (t: string)
    ensures |t| <= |s|
    ensures |t| > 0 ==> !IsNumericSpace(t[0])
  {
    if |s| > 0 && IsNumericSpace(s[0]) then SkipNumericSpace(s[1..]) else s
  }

  /** The longest prefix of `s` made of decimal digits. */
  function DigitRun(s: string): (d: string)
    ensures |d| <= |s| && AllDigits(d)
  {
    if |s| > 0 && IsDigit(s[0]) then [s[0]] + DigitRun(s[1..]) else []
  }

  /** (int) applied to a string: optional leading whitespace and sign, then the
      leading run of digits (0 when there is none), converted by CapToInt64. */
  function IntCast(s: string): (r: int)
    ensures InInt64(r)
  {
    var t := SkipNumericSpace(s);
    if |t| > 0 && t[0] == '-' then CapToInt64(-(DigitsValue(DigitRun(t[1..])) as int))
    else if |t| > 0 && t[0] == '+' then CapToInt64(DigitsValue(DigitRun(t[1..])))
    else CapToInt64(DigitsValue(DigitRun(t)))
  }

  lemma {:induction false} DigitRunOfDigits(d: string, rest: string)
    requires AllDigits(d)
    requires |rest| == 0 || !IsDigit(rest[0])
    ensures DigitRun(d + rest) == d
  {
    if |d| > 0 {
      assert (d + rest)[1..] == d[1..] + rest;
      DigitRunOfDigits(d[1..], rest);
    }
  }

  lemma IntCastUnsigned(t: string)
    requires |t| > 0 && IsDigit(t[0])
    ensures IntCast(t) == CapToInt64(DigitsValue(DigitRun(t)))
  {
    assert SkipNumericSpace(t) == t;
    assert t[0] != '-' && t[0] != '+';
  }

  lemma IntCastNegative(t: string)
    ensures IntCast("-" + t) == CapToInt64(-(DigitsValue(DigitRun(t)) as int))
  {
    var s := "-" + t;
    assert s[1..] == t;
  }

  lemma IntCastUnsignedRun(digits: string, t: string)
    requires 0 < |t| && IsDigit(t[0])
    requires AllDigits(digits) && DigitRun(t) == digits
    ensures IntCast(t) == CapToInt64(DigitsValue(digits))
  {
    IntCastUnsigned(t);
  }

  lemma IntCastNegativeRun(digits: string, t: string)
    requires AllDigits(digits) && DigitRun(t) == digits
    ensures IntCast("-" + t) == CapToInt64(-(DigitsValue(digits) as int))
  {
    IntCastNegative(t);
  }

  lemma IntCastOfDigits(digits: string, rest: string)
    requires 0 < |digits| && AllDigits(digits)
    requires |rest| == 0 || !IsDigit(rest[0])
    ensures IntCast(digits + rest) == CapToInt64(DigitsValue(digits))
  {
    DigitRunOfDigits(digits, rest);
    assert (digits + rest)[0] == digits[0];
    IntCastUnsignedRun(digits, digits + rest);
  }

  lemma IntCastOfNegated(digits: string, rest: string)
    requires 0 < |digits| && AllDigits(digits)
    requires |rest| == 0 || !IsDigit(rest[0])
    ensures IntCast("-" + (digits + rest)) == CapToInt64(-(DigitsValue(digits) as int))
  {
    DigitRunOfDigits(digits, rest);
    IntCastNegativeRun(digits, digits + rest);
  }

  /** A digit run too long for a finite double casts to 0 with either sign, while
      one just short of it saturates. */
  lemma IntCastBeyondDouble(digits: string, rest: string)
    requires 0 < |digits| && AllDigits(digits)
    requires |rest| == 0 || !IsDigit(rest[0])
    ensures DigitsValue(digits) >= DOUBLE_OVERFLOW ==>
      IntCast(digits + rest) == 0 && IntCast("-" + (digits + rest)) == 0
    ensures PHP_INT_MAX < DigitsValue(digits) < DOUBLE_OVERFLOW ==>
      IntCast(digits + rest) == PHP_INT_MAX && IntCast("-" + (digits + rest)) == PHP_INT_MIN
  {
    var v := DigitsValue(digits) as int;
    if v >= DOUBLE_OVERFLOW {
      IntCastOfDigits(digits, rest);
      IntCastOfNegated(digits, rest);
      CapBeyond(v);
    } else if v > PHP_INT_MAX {
      IntCastOfDigits(digits, rest);
      IntCastOfNegated(digits, rest);
      CapBetween(v);
    }
  }

  /** A value too large for a finite double caps to 0 with either sign. */
  lemma CapBeyond(v: int)
    requires v >= DOUBLE_OVERFLOW
    ensures CapToInt64(v) == 0 && CapToInt64(-v) == 0
  {
  }

  /** A value between the 64-bit range and the double bound saturates. */
  lemma CapBetween(v: int)
    requires PHP_INT_MAX < v < DOUBLE_OVERFLOW
    ensures CapToInt64(v) == PHP_INT_MAX && CapToInt64(-v) == PHP_INT_MIN
  {
  }

  /** Casting the decimal rendering of a 64-bit integer, followed by anything that
      does not start with a digit, gives back the integer. */
  lemma IntCastOfRendered(n: int, rest: string)
    requires InInt64(n)
    requires |rest| == 0 || !IsDigit(rest[0])
    ensures IntCast(IntToString(n) + rest) == n
  {
    if n < 0 {
      NatToStringRoundTrip(-n);
      NegativeRendered(n, NatToString(-n), IntToString(n), rest);
    } else {
      NatToStringRoundTrip(n);
      IntCastOfDigits(NatToString(n), rest);
    }
  }

  lemma NegativeRendered(n: int, d: string, x: string, rest: string)
    requires InInt64(n) && n < 0
    requires 0 < |d| && AllDigits(d) && DigitsValue(d) == -n && x == "-" + d
    requires |rest| == 0 || !IsDigit(rest[0])
    ensures IntCast(x + rest) == n
  {
    IntCastOfNegated(d, rest);
    assert x + rest == "-" + (d + rest);
  }

  /** The part of `p` after its last '/', or all of `p` when it has none. */
  function AfterLastSlash(p: string): (b: string)
    ensures forall i :: 0 <= i < |b| ==> b[i] != '/'
  {
    if |p| == 0 || p[|p| - 1] == '/' then [] else AfterLastSlash(p[..|p| - 1]) + [p[|p| - 1]]
  }

  /** basename(): the last component of a path, ignoring trailing slashes. */
  function Basename(p: string): (b: string)
    ensures forall i :: 0 <= i < |b| ==> b[i] != '/'
  {
    if |p| > 0 && p[|p| - 1] == '/' then Basename(p[..|p| - 1]) else AfterLastSlash(p)
  }

  lemma {:induction false} AfterLastSlashOfJoined(dir: string, name: string)
    requires forall i :: 0 <= i < |name| ==> name[i] != '/'
    ensures AfterLastSlash(dir + "/" + name) == name
  {
    var p := dir + "/" + name;
    if |name| > 0 {
      var init := name[..|name| - 1];
      assert p[..|p| - 1] == dir + "/" + init;
      AfterLastSlashOfJoined(dir, init);
      assert name == init + [name[|name| - 1]];
    }
  }

  /** The basename of `dir/name` is `name`, whatever the directory. */
  lemma BasenameOfJoined(dir: string, name: string)
    requires 0 < |name| && forall i :: 0 <= i < |name| ==> name[i] != '/'
    ensures Basename(dir + "/" + name) == name
  {
    AfterLastSlashOfJoined(dir, name);
  }

  /** implode(sep, parts). */
  function Join(parts: seq<string>, sep: string): string
  {
    if |parts| == 0 then ""
    else if |parts| == 1 then parts[0]
    else parts[0] + sep + Join(parts[1..], sep)
  }

  /** Splits a list written as implode(", ", ..) back into its items. */
  function SplitList(s: string): (parts: seq<string>)
    ensures |parts| > 0
    decreases |s|
  {
    var k := IndexOf(s, ',');
    if k == |s| then [s]
    else [s[..k]] + SplitList(if k + 1 < |s| && s[k + 1] == ' ' then s[k + 2..] else s[k + 1..])
  }

  /** Items without commas survive implode(", ", ..) unchanged and in order. */
  lemma {:induction false} JoinSplitRoundTrip(parts: seq<string>)
    requires |parts| > 0
    requires forall j, i :: 0 <= j < |parts| && 0 <= i < |parts[j]| ==> parts[j][i] != ','
    ensures SplitList(Join(parts, ", ")) == parts
  {
    var p := parts[0];
    if |parts| == 1 {
      IndexOfAbsent(p, ',');
    } else {
      var rest := Join(parts[1..], ", ");
      var s := Join(parts, ", ");
      assert s == p + [','] + (" " + rest);
      IndexOfAfterPrefix(p, ',', " " + rest);
      assert s[..|p|] == p;
      assert s[|p| + 2..] == rest;
      JoinSplitRoundTrip(parts[1..]);
    }
  }
}
