/**
  The handful of Python `str` operations the toolkit relies on, written out on
  `seq<char>`: prefix and suffix tests, the `in` substring test, `replace`,
  `count`, `split`, `strip`, `lower`, and the decimal conversions `str(int)`
  and `int(str)`.
*/
module PyStrings {
  import opened Wrappers

  predicate StartsWith(s: string, p: string) {
    |p| <= |s| && s[..|p|] == p
  }

  predicate EndsWith(s: string, p: string) {
    |p| <= |s| && s[|s| - |p|..] == p
  }

  /** Python's `sub in s`. */
  predicate Contains(s: string, sub: string)
    decreases |s|
  {
    StartsWith(s, sub) || (s != [] && Contains(s[1..], sub))
  }

  lemma {:induction false} ContainsAt(s: string, sub: string, i: nat)
    requires i + |sub| <= |s| && s[i..i + |sub|] == sub
    ensures Contains(s, sub)
    decreases i
  {
    if i > 0 {
      assert s[1..][i - 1..i - 1 + |sub|] == sub;
      ContainsAt(s[1..], sub, i - 1);
    } else {
      assert s[..|sub|] == sub;
    }
  }

  lemma {:induction false} ContainsWitness(s: string, sub: string) returns (i: nat)
    requires Contains(s, sub)
    ensures i + |sub| <= |s| && s[i..i + |sub|] == sub
    decreases |s|
  {
    if StartsWith(s, sub) {
      i := 0;
    } else {
      var j := ContainsWitness(s[1..], sub);
      assert s[1..][j..j + |sub|] == s[j + 1..j + 1 + |sub|];
      i := j + 1;
    }
  }

  /** A string that occurs inside a part of `s` occurs in `s`. */
  lemma ContainsInSlice(s: string, lo: nat, hi: nat, sub: string)
    requires lo <= hi <= |s| && Contains(s[lo..hi], sub)
    ensures Contains(s, sub)
  {
    var i := ContainsWitness(s[lo..hi], sub);
    assert s[lo + i..lo + i + |sub|] == sub by {
      forall k | 0 <= k < |sub| ensures s[lo + i + k] == sub[k] {
        assert s[lo..hi][i..i + |sub|][k] == sub[k];
      }
    }
    ContainsAt(s, sub, lo + i);
  }

  /* ---------------------------------------------------------------------- */
  /* str.replace and str.count                                              */
  /* ---------------------------------------------------------------------- */

  /** `repl` before every character of `s` and once more at the end: what
      `s.replace("", repl)` produces. */
  function Interleave(s: string, repl: string): string
    decreases |s|
  {
    if s == [] then repl else repl + [s[0]] + Interleave(s[1..], repl)
  }

  /** Python's `s.replace(pat, repl)`: a left-to-right scan that replaces
      every non-overlapping occurrence of `pat`. */
  function ReplaceAll(s: string, pat: string, repl: string): string
    decreases |s|
  {
    if pat == [] then Interleave(s, repl)
    else if |s| < |pat| then s
    else if s[..|pat|] == pat then repl + ReplaceAll(s[|pat|..], pat, repl)
    else [s[0]] + ReplaceAll(s[1..], pat, repl)
  }

  /** Python's `s.count(sub)` for a non-empty `sub`: non-overlapping
      occurrences, counted by the same scan as `ReplaceAll`. */
  function CountOf(s: string, sub: string): nat
    requires sub != []
    decreases |s|
  {
    if |s| < |sub| then 0
    else if s[..|sub|] == sub then 1 + CountOf(s[|sub|..], sub)
    else CountOf(s[1..], sub)
  }

  /** The pattern occurs at all exactly when the scan counts it at least once. */
  lemma {:induction false} CountPositiveIffContains(s: string, sub: string)
    requires sub != []
    ensures CountOf(s, sub) > 0 <==> Contains(s, sub)
    decreases |s|
  {
    if |s| < |sub| {
      NotContainsShort(s, sub);
    } else if s[..|sub|] == sub {
    } else {
      CountPositiveIffContains(s[1..], sub);
    }
  }

  lemma {:induction false} NotContainsShort(s: string, sub: string)
    requires |s| < |sub|
    ensures !Contains(s, sub)
    decreases |s|
  {
    if s != [] {
      NotContainsShort(s[1..], sub);
    }
  }

  /** Each replacement changes the length by `|repl| - |pat|`. */
  lemma {:induction false} ReplaceAllLength(s: string, pat: string, repl: string)
    requires pat != []
    ensures |ReplaceAll(s, pat, repl)| == |s| + CountOf(s, pat) * (|repl| - |pat|)
    decreases |s|
  {
    if |s| < |pat| {
    } else if s[..|pat|] == pat {
      var rest := s[|pat|..];
      ReplaceAllLength(rest, pat, repl);
      assert ReplaceAll(s, pat, repl) == repl + ReplaceAll(rest, pat, repl);
      assert CountOf(s, pat) == 1 + CountOf(rest, pat);
      MulStep(CountOf(rest, pat), |repl| - |pat|);
    } else {
      ReplaceAllLength(s[1..], pat, repl);
      assert ReplaceAll(s, pat, repl) == [s[0]] + ReplaceAll(s[1..], pat, repl);
      assert CountOf(s, pat) == CountOf(s[1..], pat);
    }
  }

  lemma MulStep(k: int, d: int)
    ensures (1 + k) * d == d + k * d
  {
  }

  /** A pattern that does not occur leaves the string as it is. */
  lemma {:induction false} ReplaceAllAbsent(s: string, pat: string, repl: string)
    requires pat != [] && !Contains(s, pat)
    ensures ReplaceAll(s, pat, repl) == s
    decreases |s|
  {
    if |s| >= |pat| {
      ReplaceAllAbsent(s[1..], pat, repl);
    }
  }

  /** Replacing by the empty string deletes exactly `|pat|` characters per
      occurrence, and shortens the string exactly when `pat` occurs in it. */
  lemma RemoveAllLength(s: string, pat: string)
    requires pat != []
    ensures |ReplaceAll(s, pat, [])| == |s| - CountOf(s, pat) * |pat|
    ensures |ReplaceAll(s, pat, [])| <= |s|
    ensures |ReplaceAll(s, pat, [])| < |s| <==> Contains(s, pat)
  {
    ReplaceAllLength(s, pat, []);
    CountPositiveIffContains(s, pat);
    MulRemoved(CountOf(s, pat), |pat|);
  }

  lemma MulRemoved(k: nat, p: nat)
    requires p > 0
    ensures k * (0 - p) == -(k * p)
    ensures k * p >= 0
    ensures k * p > 0 <==> k > 0
  {
    if k > 0 {
      assert k * p >= p;
    }
  }

  /** Replacing by the empty string only deletes: every character left
      satisfies whatever every character of the input satisfied. */
  lemma {:induction false} RemoveAllKeeps(s: string, pat: string, P: char -> bool)
    requires forall i :: 0 <= i < |s| ==> P(s[i])
    ensures forall i :: 0 <= i < |ReplaceAll(s, pat, [])| ==> P(ReplaceAll(s, pat, [])[i])
    decreases |s|
  {
    if pat == [] {
      InterleaveEmpty(s);
      assert ReplaceAll(s, pat, []) == s;
    } else if |s| < |pat| {
    } else if s[..|pat|] == pat {
      RemoveAllKeeps(s[|pat|..], pat, P);
      assert ReplaceAll(s, pat, []) == [] + ReplaceAll(s[|pat|..], pat, []);
      assert [] + ReplaceAll(s[|pat|..], pat, []) == ReplaceAll(s[|pat|..], pat, []);
    } else {
      var t := s[1..];
      assert forall i :: 0 <= i < |t| ==> P(t[i]) by {
        forall i | 0 <= i < |t| ensures P(t[i]) {
          assert t[i] == s[i + 1];
        }
      }
      RemoveAllKeeps(t, pat, P);
      var r := ReplaceAll(t, pat, []);
      var out := [s[0]] + r;
      assert ReplaceAll(s, pat, []) == out;
      forall i | 0 <= i < |out| ensures P(out[i]) {
        if i > 0 {
          assert out[i] == r[i - 1];
          assert P(r[i - 1]);
        } else {
          assert out[0] == s[0];
        }
      }
    }
  }

  /** `s.replace("", "")` is `s`. */
  lemma {:induction false} InterleaveEmpty(s: string)
    ensures Interleave(s, []) == s
    decreases |s|
  {
    if s != [] {
      InterleaveEmpty(s[1..]);
    }
  }

  /* ---------------------------------------------------------------------- */
  /* str.split with a one-character separator                               */
  /* ---------------------------------------------------------------------- */

  /** Python's `s.split(c)`: never empty, one more part than separators. */
  function Split(s: string, c: char): (parts: seq<string>)
    ensures |parts| >= 1
    decreases |s|
  {
    if s == [] then [[]]
    else
      var rest := Split(s[1..], c);
      if s[0] == c then [[]] + rest else [[s[0]] + rest[0]] + rest[1..]
  }

  /** `c.join(parts)`. */
  function Join(parts: seq<string>, c: char): string
    decreases |parts|
  {
    if parts == [] then []
    else if |parts| == 1 then parts[0]
    else parts[0] + [c] + Join(parts[1..], c)
  }

  /** Splitting and joining with the same separator gives the input back,
      and no part holds the separator. */
  lemma {:induction false} SplitJoin(s: string, c: char)
    ensures Join(Split(s, c), c) == s
    ensures forall k :: 0 <= k < |Split(s, c)| ==> c !in Split(s, c)[k]
    decreases |s|
  {
    if s != [] {
      SplitJoin(s[1..], c);
      var rest := Split(s[1..], c);
      if s[0] == c {
        assert Split(s, c)[1..] == rest;
      } else {
        var parts := Split(s, c);
        assert parts[1..] == rest[1..];
        if |rest| == 1 {
          assert Join(parts, c) == [s[0]] + rest[0];
        } else {
          assert Join(rest, c) == rest[0] + [c] + Join(rest[1..], c);
        }
        forall k | 0 <= k < |parts| ensures c !in parts[k] {
          if k > 0 {
            assert parts[k] == rest[k];
          }
        }
      }
    }
  }

  /** `s.split(c)[0]` is the text before the first `c`, or all of `s`. */
  lemma {:induction false} SplitFirst(s: string, c: char)
    ensures var p := Split(s, c)[0];
      StartsWith(s, p) && c !in p && (p == s || s[|p|] == c)
    decreases |s|
  {
    if s != [] && s[0] != c {
      var t := s[1..];
      SplitFirst(t, c);
      SplitCons(s, c);
      PrefixCons(s[0], t, Split(t, c)[0], c);
      assert [s[0]] + t == s;
    }
  }

  lemma SplitCons(s: string, c: char)
    requires s != [] && s[0] != c
    ensures Split(s, c)[0] == [s[0]] + Split(s[1..], c)[0]
  {
  }

  /** The text before the first `c` keeps that shape when a character
      other than `c` is put in front. */
  lemma PrefixCons(x: char, t: string, q: string, c: char)
    requires x != c
    requires StartsWith(t, q) && c !in q && (q == t || t[|q|] == c)
    ensures var s := [x] + t; var p := [x] + q;
      StartsWith(s, p) && c !in p && (p == s || s[|p|] == c)
  {
    var s := [x] + t;
    var p := [x] + q;
    assert s[..|p|] == [x] + t[..|q|];
    if q != t {
      assert s[|p|] == t[|q|];
    }
  }

  function LastPart(s: string, c: char): string {
    var parts := Split(s, c); parts[|parts| - 1]
  }

  /** `s.split(c)[-1]` is the text after the last `c`, or all of `s`. */
  lemma {:induction false} SplitLast(s: string, c: char)
    ensures EndsWith(s, LastPart(s, c))
    ensures LastPart(s, c) == s || s[|s| - |LastPart(s, c)| - 1] == c
    decreases |s|
  {
    if s != [] {
      var t := s[1..];
      SplitLast(t, c);
      var rest := Split(t, c);
      var q := LastPart(t, c);
      assert t[|t| - |q|..] == s[|s| - |q|..];
      if s[0] == c {
        assert Split(s, c) == [[]] + rest;
        assert LastPart(s, c) == q;
        if q != t {
          assert s[|s| - |q| - 1] == t[|t| - |q| - 1];
        }
      } else if |rest| > 1 {
        assert Split(s, c) == [[s[0]] + rest[0]] + rest[1..];
        assert LastPart(s, c) == q;
        LastPartShorter(t, c);
        assert s[|s| - |q| - 1] == t[|t| - |q| - 1];
      } else {
        assert Split(s, c) == [[s[0]] + q];
        SplitOne(t, c);
        assert LastPart(s, c) == [s[0]] + t == s;
      }
    }
  }

  /** With a separator present, the last part is not the whole string. */
  lemma LastPartShorter(t: string, c: char)
    requires |Split(t, c)| > 1
    ensures LastPart(t, c) != t
  {
    var p := Split(t, c);
    SplitJoin(t, c);
    assert Join(p, c) == p[0] + [c] + Join(p[1..], c);
    assert t[|p[0]|] == c;
    assert c !in p[|p| - 1];
  }

  lemma {:induction false} SplitOne(t: string, c: char)
    requires |Split(t, c)| == 1
    ensures Split(t, c) == [t]
    decreases |t|
  {
    if t != [] {
      SplitOne(t[1..], c);
      assert [t[0]] + t[1..] == t;
    }
  }

  /** Without a separator, `split` gives the string back as its only part. */
  lemma {:induction false} SplitSingle(t: string, c: char)
    requires c !in t
    ensures Split(t, c) == [t]
    decreases |t|
  {
    if t != [] {
      SplitSingle(t[1..], c);
      assert [t[0]] + t[1..] == t;
    }
  }

  /** Splitting at the last separator: what follows it is the last part. */
  lemma {:induction false} SplitAppend(y: string, b: string, c: char)
    requires c !in b
    ensures Split(y + [c] + b, c) == Split(y, c) + [b]
    decreases |y|
  {
    if y == [] {
      assert y + [c] + b == [c] + b;
      assert ([c] + b)[1..] == b;
      SplitSingle(b, c);
    } else {
      var t := y[1..];
      SplitAppend(t, b, c);
      assert (y + [c] + b)[1..] == t + [c] + b;
    }
  }

  /** Splitting where the first separator follows `y`: the first part is `y`. */
  lemma {:induction false} SplitFirstOf(y: string, c: char, b: string)
    requires c !in y
    ensures Split(y + [c] + b, c)[0] == y
    decreases |y|
  {
    if y == [] {
      assert y + [c] + b == [c] + b;
    } else {
      SplitFirstOf(y[1..], c, b);
      assert (y + [c] + b)[1..] == y[1..] + [c] + b;
    }
  }

  /* ---------------------------------------------------------------------- */
  /* str.lower and str.strip                                                */
  /* ---------------------------------------------------------------------- */

  predicate IsUpper(ch: char) {
    'A' <= ch <= 'Z'
  }

  function LowerChar(ch: char): char {
    if IsUpper(ch) then (ch as int + 32) as char else ch
  }

  /** `s.lower()` on ASCII letters. */
  function Lower(s: string): (r: string)
    ensures |r| == |s|
    ensures forall i :: 0 <= i < |r| ==> r[i] == LowerChar(s[i])
  {
    seq(|s|, i requires 0 <= i < |s| => LowerChar(s[i]))
  }

  predicate NoUpper(s: string) {
    forall i :: 0 <= i < |s| ==> !IsUpper(s[i])
  }

  lemma LowerHasNoUpper(s: string)
    ensures NoUpper(Lower(s))
    ensures Lower(Lower(s)) == Lower(s)
  {
  }

  /** The characters Python's `str.isspace()` accepts. */
  predicate IsSpace(ch: char) {
    var n := ch as int;
    (9 <= n <= 13) || (28 <= n <= 32) || n == 0x85 || n == 0xA0 || n == 0x1680
    || (0x2000 <= n <= 0x200A) || n == 0x2028 || n == 0x2029 || n == 0x202F
    || n == 0x205F || n == 0x3000
  }

  function StripLeft(s: string): string
    decreases |s|
  {
    if s != [] && IsSpace(s[0]) then StripLeft(s[1..]) else s
  }

  function StripRight(s: string): string
    decreases |s|
  {
    if s != [] && IsSpace(s[|s| - 1]) then StripRight(s[..|s| - 1]) else s
  }

  /** Python's `s.strip()`. */
  function Strip(s: string): string {
    StripRight(StripLeft(s))
  }

  lemma {:induction false} StripLeftResult(s: string)
    ensures EndsWith(s, StripLeft(s))
    ensures StripLeft(s) == [] || !IsSpace(StripLeft(s)[0])
    ensures forall i :: 0 <= i < |s| - |StripLeft(s)| ==> IsSpace(s[i])
    decreases |s|
  {
    if s != [] && IsSpace(s[0]) {
      StripLeftResult(s[1..]);
      var r := StripLeft(s[1..]);
      assert s[1..][|s| - 1 - |r|..] == s[|s| - |r|..];
      forall i | 0 <= i < |s| - |r| ensures IsSpace(s[i]) {
        if i > 0 {
          assert s[i] == s[1..][i - 1];
        }
      }
    }
  }

  lemma {:induction false} StripRightResult(s: string)
    ensures StartsWith(s, StripRight(s))
    ensures StripRight(s) == [] || !IsSpace(StripRight(s)[|StripRight(s)| - 1])
    ensures forall i :: |StripRight(s)| <= i < |s| ==> IsSpace(s[i])
    decreases |s|
  {
    if s != [] && IsSpace(s[|s| - 1]) {
      var t := s[..|s| - 1];
      StripRightResult(t);
      var r := StripRight(t);
      assert t[..|r|] == s[..|r|];
      forall i | |r| <= i < |s| ensures IsSpace(s[i]) {
        if i < |s| - 1 {
          assert s[i] == t[i];
        }
      }
    }
  }

  /** `strip()` removes exactly the leading and trailing whitespace: what is
      left is the slice of the input from `lo` that neither starts nor ends
      with space, and everything cut off on either side is space. */
  lemma StripResult(s: string) returns (lo: nat)
    ensures lo + |Strip(s)| <= |s| && s[lo..lo + |Strip(s)|] == Strip(s)
    ensures Strip(s) == [] || (!IsSpace(Strip(s)[0]) && !IsSpace(Strip(s)[|Strip(s)| - 1]))
    ensures forall i :: 0 <= i < lo ==> IsSpace(s[i])
    ensures forall i :: lo + |Strip(s)| <= i < |s| ==> IsSpace(s[i])
  {
    var t := StripLeft(s);
    StripLeftResult(s);
    StripRightResult(t);
    lo := |s| - |t|;
    var r := StripRight(t);
    assert r == Strip(s);
    assert t == s[lo..];
    assert r == t[..|r|];
    assert s[lo..lo + |r|] == r;
    if r != [] {
      assert r[0] == t[0];
    }
    forall i | lo + |r| <= i < |s| ensures IsSpace(s[i]) {
      assert s[i] == t[i - lo];
    }
  }

  lemma {:induction false} StripUnchanged(s: string)
    requires s == [] || (!IsSpace(s[0]) && !IsSpace(s[|s| - 1]))
    ensures Strip(s) == s
  {
  }

  /* ---------------------------------------------------------------------- */
  /* str(int) and int(str)                                                  */
  /* ---------------------------------------------------------------------- */

  predicate IsDigit(ch: char) {
    '0' <= ch <= '9'
  }

  function DigitChar(d: nat): (ch: char)
    requires d < 10
    ensures IsDigit(ch)
  {
    ('0' as int + d) as char
  }

  function DigitValue(ch: char): (d: nat)
    requires IsDigit(ch)
    ensures d < 10
  {
    ch as int - '0' as int
  }

  /** `str(n)` for `n >= 0`. */
  function NatString(n: nat): (s: string)
    ensures |s| >= 1
    decreases n
  {
    if n < 10 then [DigitChar(n)] else NatString(n / 10) + [DigitChar(n % 10)]
  }

  /** `str(n)`. */
  function IntString(n: int): string {
    if n < 0 then "-" + NatString(-n) else NatString(n)
  }

  /** Digits in which every `_` stands between two digits, as `int()` accepts. */
  predicate DigitGroups(t: string) {
    && t != []
    && IsDigit(t[0])
    && IsDigit(t[|t| - 1])
    && (forall i :: 0 <= i < |t| ==> IsDigit(t[i]) || t[i] == '_')
    && (forall i :: 0 < i < |t| - 1 && t[i] == '_' ==> IsDigit(t[i - 1]) && IsDigit(t[i + 1]))
  }

  /** The decimal value of a run of digits, `_` separators skipped. */
  function DigitsValue(t: string): nat
    requires forall i :: 0 <= i < |t| ==> IsDigit(t[i]) || t[i] == '_'
    decreases |t|
  {
    if t == [] then 0
    else if t[|t| - 1] == '_' then DigitsValue(t[..|t| - 1])
    else DigitsValue(t[..|t| - 1]) * 10 + DigitValue(t[|t| - 1])
  }

  function ParseUnsigned(t: string): Option<nat> {
    if DigitGroups(t) then Some(DigitsValue(t)) else None
  }

  /** The base-10 integer syntax of Python's `int(s)` over ASCII digits:
      surrounding whitespace, an optional sign, and digit groups separated
      by single underscores. `None` stands for the `ValueError` it raises
      otherwise. The length limit is added by `PyInt`. */
  function ParseInt(s: string): Option<int> {
    var t := Strip(s);
    if t != [] && (t[0] == '-' || t[0] == '+') then
      match ParseUnsigned(t[1..])
      case None => None
      case Some(v) => var n: int := if t[0] == '-' then -(v as int) else v; Some(n)
    else
      match ParseUnsigned(t)
      case None => None
      case Some(v) => Some(v)
  }

  /** `sys.get_int_max_str_digits()` by default, since Python 3.11. */
  const MaxStrDigits: nat := 4300

  /** The number of digits in `t`; signs, separators and spaces are not counted. */
  function DigitCount(t: string): nat
    decreases |t|
  {
    if t == [] then 0
    else DigitCount(t[..|t| - 1]) + (if IsDigit(t[|t| - 1]) then 1 else 0)
  }

  /** Python's `int(s)`: the syntax of `ParseInt`, refused with `ValueError`
      when the string holds more than `MaxStrDigits` digits. */
  function PyInt(s: string): Option<int> {
    if DigitCount(Strip(s)) > MaxStrDigits then None else ParseInt(s)
  }

  /** `int(str(n)) == n` for a number of at most `MaxStrDigits` digits
      (its sign is not a digit), also with whitespace around it. */
  lemma PyIntString(n: int, pre: string, post: string)
    requires forall i :: 0 <= i < |pre| ==> IsSpace(pre[i])
    requires forall i :: 0 <= i < |post| ==> IsSpace(post[i])
    requires DigitCount(IntString(n)) <= MaxStrDigits
    ensures PyInt(pre + IntString(n) + post) == Some(n)
  {
    ParseIntString(n, pre, post);
    var m: nat := if n < 0 then -n else n;
    NatStringDigits(m);
    var s := IntString(n);
    if n < 0 {
      assert s[1..] == NatString(m);
      assert s[0] == '-';
    }
    assert s[|s| - 1] == NatString(m)[|NatString(m)| - 1];
    StripAround(pre, s, post);
  }

  /** A string `int()` would read by its syntax is still refused when it
      holds more than `MaxStrDigits` digits. */
  lemma PyIntTooLong(s: string)
    requires ParseInt(s).Some? && DigitCount(Strip(s)) > MaxStrDigits
    ensures PyInt(s) == None
  {
  }

  lemma {:induction false} NatStringDigits(n: nat)
    ensures forall i :: 0 <= i < |NatString(n)| ==> IsDigit(NatString(n)[i])
    ensures DigitsValue(NatString(n)) == n
    decreases n
  {
    if n >= 10 {
      NatStringDigits(n / 10);
      var s := NatString(n);
      assert s[..|s| - 1] == NatString(n / 10);
    }
  }

  /** `int(str(n)) == n`, also with whitespace around the digits. */
  lemma ParseIntString(n: int, pre: string, post: string)
    requires forall i :: 0 <= i < |pre| ==> IsSpace(pre[i])
    requires forall i :: 0 <= i < |post| ==> IsSpace(post[i])
    ensures ParseInt(pre + IntString(n) + post) == Some(n)
  {
    var m: nat := if n < 0 then -n else n;
    NatStringDigits(m);
    var s := IntString(n);
    StripAround(pre, s, post);
    if n < 0 {
      assert s[1..] == NatString(m);
    }
  }

  lemma StripAround(pre: string, s: string, post: string)
    requires forall i :: 0 <= i < |pre| ==> IsSpace(pre[i])
    requires forall i :: 0 <= i < |post| ==> IsSpace(post[i])
    requires s != [] && !IsSpace(s[0]) && !IsSpace(s[|s| - 1])
    ensures Strip(pre + s + post) == s
  {
    StripLeftSpaces(pre, s + post);
    assert pre + s + post == pre + (s + post);
    StripRightSpaces(s, post);
  }

  lemma {:induction false} StripLeftSpaces(pre: string, s: string)
    requires forall i :: 0 <= i < |pre| ==> IsSpace(pre[i])
    requires s != [] && !IsSpace(s[0])
    ensures StripLeft(pre + s) == s
    decreases |pre|
  {
    if pre != [] {
      assert (pre + s)[1..] == pre[1..] + s;
      StripLeftSpaces(pre[1..], s);
    }
  }

  lemma {:induction false} StripRightSpaces(s: string, post: string)
    requires forall i :: 0 <= i < |post| ==> IsSpace(post[i])
    requires s != [] && !IsSpace(s[|s| - 1])
    ensures StripRight(s + post) == s
    decreases |post|
  {
    if post != [] {
      assert (s + post)[..|s + post| - 1] == s + post[..|post| - 1];
      StripRightSpaces(s, post[..|post| - 1]);
    } else {
      assert s + post == s;
    }
  }
}
