/**
 * The Python string operations the merger relies on: `str.isspace`, `str.strip()`,
 * `str.lower()`, `str.split(sep)` and `sep.join`, `str.endswith`, `int(str)`,
 * `str(n)` and the ordering of strings.
 */
module Text {
  import opened Outcomes

  /** Python's `str.isspace` for one character (every character Python counts as white space). */
  predicate IsSpace(c: char) {
    var n := c as int;
    (9 <= n <= 13) || (28 <= n <= 32) || n == 0x85 || n == 0xA0 || n == 0x1680
    || (0x2000 <= n <= 0x200A) || n == 0x2028 || n == 0x2029 || n == 0x202F
    || n == 0x205F || n == 0x3000
  }

  /** The number of white-space characters at the start of `s`. */
  function LeadingSpaces(s: string): (n: nat)
    ensures n <= |s|
  {
    if |s| > 0 && IsSpace(s[0]) then 1 + LeadingSpaces(s[1..]) else 0
  }

  lemma {:induction false} LeadingSpacesSpec(s: string)
    ensures forall k | 0 <= k < LeadingSpaces(s) :: IsSpace(s[k])
    ensures LeadingSpaces(s) < |s| ==> !IsSpace(s[LeadingSpaces(s)])
  {
    if |s| > 0 && IsSpace(s[0]) {
      LeadingSpacesSpec(s[1..]);
      forall k | 0 < k < LeadingSpaces(s) ensures IsSpace(s[k]) {
        assert s[k] == s[1..][k - 1];
      }
    }
  }

  /** The number of white-space characters at the end of `s`. */
  function TrailingSpaces(s: string): (n: nat)
    ensures n <= |s|
  {
    if |s| > 0 && IsSpace(s[|s| - 1]) then 1 + TrailingSpaces(s[..|s| - 1]) else 0
  }

  lemma {:induction false} TrailingSpacesSpec(s: string)
    ensures forall k | |s| - TrailingSpaces(s) <= k < |s| :: IsSpace(s[k])
    ensures TrailingSpaces(s) < |s| ==> !IsSpace(s[|s| - 1 - TrailingSpaces(s)])
  {
    if |s| > 0 && IsSpace(s[|s| - 1]) {
      TrailingSpacesSpec(s[..|s| - 1]);
      forall k | |s| - TrailingSpaces(s) <= k < |s| - 1 ensures IsSpace(s[k]) {
        assert s[k] == s[..|s| - 1][k];
      }
    }
  }

  /** A string that neither starts nor ends with white space. */
  predicate IsStripped(s: string) {
    s == [] || (!IsSpace(s[0]) && !IsSpace(s[|s| - 1]))
  }

  /** Python's `s.strip()`: `s` without its leading and trailing white space. */
  function Strip(s: string): (r: string)
    ensures IsStripped(r)
    ensures |r| <= |s|
  {
    var i := LeadingSpaces(s);
    var t := s[i..];
    LeadingSpacesSpec(s);
    TrailingSpacesSpec(t);
    t[..|t| - TrailingSpaces(t)]
  }

  /**
   * What `strip()` returns is the slice of `s` between its leading and its trailing
   * white space.
   */
  lemma StripIsSlice(s: string)
    ensures exists i, j ::
      (0 <= i <= j <= |s| && Strip(s) == s[i..j]
       && (forall k | 0 <= k < i :: IsSpace(s[k]))
       && (forall k | j <= k < |s| :: IsSpace(s[k])))
  {
    var i := LeadingSpaces(s);
    var t := s[i..];
    LeadingSpacesSpec(s);
    TrailingSpacesSpec(t);
    var j := i + |t| - TrailingSpaces(t);
    assert t[..|t| - TrailingSpaces(t)] == s[i..j];
    assert forall k | j <= k < |s| :: s[k] == t[k - i];
  }

  lemma StripOfStripped(s: string)
    requires IsStripped(s)
    ensures Strip(s) == s
  {
    if s != [] {
      assert !IsSpace(s[0]) && !IsSpace(s[|s| - 1]);
      assert LeadingSpaces(s) == 0;
      assert TrailingSpaces(s) == 0;
      assert s[0..][..|s|] == s;
    }
  }

  lemma LeadingSpacesIndented(pad: string, s: string)
    requires forall k | 0 <= k < |pad| :: pad[k] == ' '
    requires s != [] && !IsSpace(s[0])
    ensures LeadingSpaces(pad + s) == |pad|
    decreases |pad|
  {
    if |pad| > 0 {
      var t := pad + s;
      assert t[0] == ' ';
      assert t[1..] == pad[1..] + s;
      LeadingSpacesIndented(pad[1..], s);
    } else {
      assert pad + s == s;
    }
  }

  /** Stripping undoes an indentation by spaces of a stripped, non-blank line. */
  lemma StripIndented(pad: string, s: string)
    requires forall k | 0 <= k < |pad| :: pad[k] == ' '
    requires s != [] && IsStripped(s)
    ensures Strip(pad + s) == s
  {
    var t := pad + s;
    LeadingSpacesIndented(pad, s);
    assert t[|pad|..] == s;
    assert TrailingSpaces(s) == 0;
    assert t[|pad|..|pad| + |s|] == s;
  }

  /** A slice of `s` misses every character `s` misses. */
  lemma NotInSlice(s: string, c: char, i: nat, j: nat)
    requires i <= j <= |s| && c !in s
    ensures c !in s[i..j]
  {
    forall k | 0 <= k < j - i
      ensures s[i..j][k] != c
    {
      assert s[i..j][k] == s[i + k];
    }
  }

  lemma NotInStrip(s: string, c: char)
    requires c !in s
    ensures c !in Strip(s)
  {
    StripIsSlice(s);
    var i, j :| 0 <= i <= j <= |s| && Strip(s) == s[i..j];
    NotInSlice(s, c, i, j);
  }

  /** Python's `c.lower()` on the ASCII letters. */
  function LowerChar(c: char): char {
    if 'A' <= c <= 'Z' then (c as int + 32) as char else c
  }

  /** Python's `s.lower()`, restricted to ASCII letters; it keeps the length. */
  function Lower(s: string): (r: string)
    ensures |r| == |s|
  {
    seq(|s|, k requires 0 <= k < |s| => LowerChar(s[k]))
  }

  /** The position of the first `c` in `s`. */
  function IndexOf(s: string, c: char): (i: nat)
    requires c in s
    ensures i < |s| && s[i] == c && c !in s[..i]
  {
    if s[0] == c then 0 else 1 + IndexOf(s[1..], c)
  }

  /** Python's `s.split(sep)`: the pieces between separators, at least one, none holding `sep`. */
  function Split(s: string, sep: char): (r: seq<string>)
    ensures |r| >= 1
    ensures forall p | p in r :: sep !in p
    decreases |s|
  {
    if sep !in s then [s]
    else
      var i := IndexOf(s, sep);
      [s[..i]] + Split(s[i + 1..], sep)
  }

  /** Python's `sep.join(parts)`. */
  function Join(parts: seq<string>, sep: char): string {
    if |parts| == 0 then ""
    else if |parts| == 1 then parts[0]
    else parts[0] + [sep] + Join(parts[1..], sep)
  }

  lemma IndexOfAfter(p: string, sep: char, rest: string)
    requires sep !in p
    ensures sep in p + [sep] + rest && IndexOf(p + [sep] + rest, sep) == |p|
  {
    var s := p + [sep] + rest;
    assert s[|p|] == sep;
    var i := IndexOf(s, sep);
    forall k | 0 <= k < |p|
      ensures s[k] != sep
    {
      assert s[k] == p[k];
    }
    forall k | 0 <= k < i
      ensures s[k] != sep
    {
      assert s[..i][k] == s[k];
    }
  }

  /** A piece without the separator, then the separator, splits off as the first piece. */
  lemma SplitCons(p: string, sep: char, rest: string)
    requires sep !in p
    ensures Split(p + [sep] + rest, sep) == [p] + Split(rest, sep)
  {
    var s := p + [sep] + rest;
    IndexOfAfter(p, sep, rest);
    assert s[..|p|] == p;
    assert s[|p| + 1..] == rest;
  }

  /** Text after the first separator does not move it. */
  lemma {:induction false} IndexOfPrefix(x: string, sep: char, r: string)
    requires sep in x
    ensures sep in x + r && IndexOf(x + r, sep) == IndexOf(x, sep)
  {
    assert (x + r)[0] == x[0];
    if x[0] != sep {
      assert (x + r)[1..] == x[1..] + r;
      IndexOfPrefix(x[1..], sep, r);
    }
  }

  lemma AppendAssoc<T>(a: seq<T>, b: seq<T>, c: seq<T>)
    ensures a + (b + c) == a + b + c
  {
  }

  /** The first piece of `x` is also the first piece of `x + sep + tail`. */
  lemma SplitAfterFirst(x: string, sep: char, tail: string)
    requires sep in x
    ensures var i := IndexOf(x, sep);
      Split(x + [sep] + tail, sep) == [x[..i]] + Split(x[i + 1..] + [sep] + tail, sep)
  {
    var i := IndexOf(x, sep);
    var r := [sep] + tail;
    assert x + [sep] + tail == x + r;
    IndexOfPrefix(x, sep, r);
    assert (x + r)[..i] == x[..i];
    assert (x + r)[i + 1..] == x[i + 1..] + [sep] + tail;
  }

  /** Splitting two strings joined by the separator splits each of them. */
  lemma {:induction false} SplitConcat(x: string, sep: char, tail: string)
    ensures Split(x + [sep] + tail, sep) == Split(x, sep) + Split(tail, sep)
    decreases |x|
  {
    if sep !in x {
      SplitCons(x, sep, tail);
    } else {
      var i := IndexOf(x, sep);
      var first, more, rest := [x[..i]], Split(x[i + 1..], sep), Split(tail, sep);
      SplitAfterFirst(x, sep, tail);
      SplitConcat(x[i + 1..], sep, tail);
      assert Split(x, sep) == first + more;
      AppendAssoc(first, more, rest);
    }
  }

  /** Splitting what was joined gives the parts back, when no part holds the separator. */
  lemma {:induction false} SplitJoin(parts: seq<string>, sep: char)
    requires |parts| >= 1
    requires forall p | p in parts :: sep !in p
    ensures Split(Join(parts, sep), sep) == parts
  {
    if |parts| > 1 {
      var rest := Join(parts[1..], sep);
      assert parts[0] in parts;
      SplitCons(parts[0], sep, rest);
      SplitJoin(parts[1..], sep);
      assert [parts[0]] + parts[1..] == parts;
    }
  }

  /** Joining the pieces of a split gives the string back. */
  lemma {:induction false} JoinSplit(s: string, sep: char)
    ensures Join(Split(s, sep), sep) == s
    decreases |s|
  {
    if sep in s {
      var i := IndexOf(s, sep);
      var tail := Split(s[i + 1..], sep);
      JoinSplit(s[i + 1..], sep);
      var parts := Split(s, sep);
      assert parts == [s[..i]] + tail;
      assert |parts| > 1 && parts[0] == s[..i] && parts[1..] == tail;
      assert Join(parts, sep) == s[..i] + [sep] + Join(tail, sep);
      assert s == s[..i] + [sep] + s[i + 1..];
    }
  }

  /** Python's `s.endswith(suffix)`. */
  predicate EndsWith(s: string, suffix: string) {
    |suffix| <= |s| && s[|s| - |suffix|..] == suffix
  }

  predicate IsDigit(c: char) {
    '0' <= c <= '9'
  }

  /**
   * The digits that Python's `int()` accepts in base 10: ASCII digits, with single
   * underscores allowed between two digits.
   */
  predicate IsDigitString(d: string) {
    && |d| > 0 && IsDigit(d[0]) && IsDigit(d[|d| - 1])
    && (forall k | 0 <= k < |d| :: IsDigit(d[k]) || d[k] == '_')
    && (forall j, k | 0 <= j < |d| && 0 <= k < |d| && k == j + 1 :: d[j] != '_' || d[k] != '_')
  }

  /** The decimal value of the digits of `d`, underscores ignored. */
  function DigitsValue(d: string): nat {
    if d == [] then 0
    else if IsDigit(d[|d| - 1]) then 10 * DigitsValue(d[..|d| - 1]) + (d[|d| - 1] as int - '0' as int)
    else DigitsValue(d[..|d| - 1])
  }

  /**
   * Python's `int(s)` in base 10: surrounding white space, an optional sign, then
   * digits; `None` where Python raises `ValueError`.
   */
  function ParseInt(s: string): (r: Option<int>)
    ensures r.Some? ==> Strip(s) != []
  {
    var t := Strip(s);
    if |t| > 0 && (t[0] == '+' || t[0] == '-') then
      if IsDigitString(t[1..]) then
        var v: int := DigitsValue(t[1..]);
        Some(if t[0] == '-' then -v else v)
      else None
    else if IsDigitString(t) then Some(DigitsValue(t))
    else None
  }

  function DigitChar(d: nat): char
    requires d < 10
  {
    ('0' as int + d) as char
  }

  /** Python's `str(n)` for a natural number. */
  function NatToString(n: nat): (r: string)
    ensures |r| > 0 && forall k | 0 <= k < |r| :: IsDigit(r[k])
  {
    if n < 10 then [DigitChar(n)] else NatToString(n / 10) + [DigitChar(n % 10)]
  }

  lemma {:induction false} DigitsValueOfNat(n: nat)
    ensures DigitsValue(NatToString(n)) == n
  {
    var s := NatToString(n);
    if n >= 10 {
      DigitsValueOfNat(n / 10);
      assert s[..|s| - 1] == NatToString(n / 10);
    } else {
      assert s[..|s| - 1] == [];
    }
  }

  /** `int(str(n)) == n`: the decimal rendering of a natural number parses back to it. */
  lemma ParseIntNatToString(n: nat)
    ensures ParseInt(NatToString(n)) == Some(n)
  {
    var s := NatToString(n);
    StripOfStripped(s);
    DigitsValueOfNat(n);
  }

  /** Python's `a <= b` on strings: lexicographic order by code point. */
  predicate LexLe(a: string, b: string)
    decreases |a|
  {
    |a| == 0 || (|b| > 0 && (a[0] < b[0] || (a[0] == b[0] && LexLe(a[1..], b[1..]))))
  }

  lemma {:induction false} LexLeTotal(a: string, b: string)
    ensures LexLe(a, b) || LexLe(b, a)
    decreases |a|
  {
    if |a| > 0 && |b| > 0 && a[0] == b[0] {
      LexLeTotal(a[1..], b[1..]);
    }
  }

  lemma {:induction false} LexLeTrans(a: string, b: string, c: string)
    requires LexLe(a, b) && LexLe(b, c)
    ensures LexLe(a, c)
    decreases |a|
  {
    if |a| > 0 && a[0] == b[0] && b[0] == c[0] {
      LexLeTrans(a[1..], b[1..], c[1..]);
    }
  }

  lemma {:induction false} LexLeAntisym(a: string, b: string)
    requires LexLe(a, b) && LexLe(b, a)
    ensures a == b
    decreases |a|
  {
    if |a| > 0 {
      LexLeAntisym(a[1..], b[1..]);
      assert a == [a[0]] + a[1..] && b == [b[0]] + b[1..];
    }
  }
}
