/** Character classes and the few .NET string operations the backend relies on:
    char.IsControl, char.IsWhiteSpace (also the class `\s` of .NET regular
    expressions), Trim, string.Join, string.IsNullOrWhiteSpace, ASCII case
    folding and the decimal form of a non-negative integer. */
module Strings {

  /** char.IsControl: the Unicode category Cc, U+0000..U+001F and U+007F..U+009F. */
  predicate IsControl(c: char) {
    c as int <= 0x1F || 0x7F <= c as int <= 0x9F
  }

  /** char.IsWhiteSpace, which is also what `\s` matches in a .NET regular
      expression: the Unicode White_Space property. */
  predicate IsWhiteSpace(c: char) {
    var n := c as int;
    (0x09 <= n <= 0x0D) || n == 0x20 || n == 0x85 || n == 0xA0 || n == 0x1680
    || (0x2000 <= n <= 0x200A) || n == 0x2028 || n == 0x2029 || n == 0x202F
    || n == 0x205F || n == 0x3000
  }

  /** string.IsNullOrWhiteSpace for a non-null string. */
  predicate IsBlank(s: string) {
    forall i :: 0 <= i < |s| ==> IsWhiteSpace(s[i])
  }

  /** The first position at or after `i` that is not white space. */
  function LeadingWhite(s: string, i: nat): (j: nat)
    requires i <= |s|
    ensures i <= j <= |s|
    ensures forall k :: i <= k < j ==> IsWhiteSpace(s[k])
    ensures j == |s| || !IsWhiteSpace(s[j])
    decreases |s| - i
  {
    if i < |s| && IsWhiteSpace(s[i]) then LeadingWhite(s, i + 1) else i
  }

  /** The end of `s[..j]` once its trailing white space is dropped. */
  function TrailingEnd(s: string, j: nat): (e: nat)
    requires j <= |s|
    ensures e <= j
    ensures forall k :: e <= k < j ==> IsWhiteSpace(s[k])
    ensures e == 0 || !IsWhiteSpace(s[e - 1])
  {
    if j > 0 && IsWhiteSpace(s[j - 1]) then TrailingEnd(s, j - 1) else j
  }

  /** String.TrimStart(): drops the leading white space. */
  function TrimStart(s: string): (r: string)
    ensures |r| <= |s| && r == s[|s| - |r|..]
    ensures forall i :: 0 <= i < |s| - |r| ==> IsWhiteSpace(s[i])
    ensures r == [] || !IsWhiteSpace(r[0])
  {
    s[LeadingWhite(s, 0)..]
  }

  /** String.TrimEnd(): drops the trailing white space. */
  function TrimEnd(s: string): (r: string)
    ensures |r| <= |s| && r == s[..|r|]
    ensures forall i :: |r| <= i < |s| ==> IsWhiteSpace(s[i])
    ensures r == [] || !IsWhiteSpace(r[|r| - 1])
  {
    s[..TrailingEnd(s, |s|)]
  }

  lemma {:induction false} LeadingWhiteTail(s: string, i: nat)
    requires 1 <= i <= |s|
    ensures LeadingWhite(s, i) == 1 + LeadingWhite(s[1..], i - 1)
    decreases |s| - i
  {
    if i < |s| && IsWhiteSpace(s[i]) {
      LeadingWhiteTail(s, i + 1);
    }
  }

  lemma {:induction false} TrailingEndPrefix(s: string, p: string, j: nat)
    requires |p| <= |s| && p == s[..|p|] && j <= |p|
    ensures TrailingEnd(s, j) == TrailingEnd(p, j)
  {
    if j > 0 && IsWhiteSpace(s[j - 1]) {
      TrailingEndPrefix(s, p, j - 1);
    }
  }

  /** TrimStart examines one character at a time from the front. */
  lemma TrimStartStep(s: string)
    requires s != []
    ensures TrimStart(s) == if IsWhiteSpace(s[0]) then TrimStart(s[1..]) else s
  {
    if IsWhiteSpace(s[0]) {
      LeadingWhiteTail(s, 1);
    }
  }

  /** TrimEnd examines one character at a time from the back. */
  lemma TrimEndStep(s: string)
    requires s != []
    ensures TrimEnd(s) == if IsWhiteSpace(s[|s| - 1]) then TrimEnd(s[..|s| - 1]) else s
  {
    if IsWhiteSpace(s[|s| - 1]) {
      TrailingEndPrefix(s, s[..|s| - 1], |s| - 1);
    }
  }

  /** String.Trim(): drops white space at both ends. */
  function Trim(s: string): (r: string)
    ensures r == [] || (!IsWhiteSpace(r[0]) && !IsWhiteSpace(r[|r| - 1]))
  {
    var t := TrimStart(s);
    var r := TrimEnd(t);
    assert r == [] || r[0] == t[0];
    r
  }

  /** Trim keeps a contiguous slice: every character it keeps comes from `s`,
      and what it drops at either end is white space. */
  lemma {:induction false} TrimIsSlice(s: string)
    ensures |s| - |TrimStart(s)| + |Trim(s)| <= |s|
    ensures Trim(s) == s[|s| - |TrimStart(s)|..|s| - |TrimStart(s)| + |Trim(s)|]
    ensures forall i :: 0 <= i < |s| - |TrimStart(s)| ==> IsWhiteSpace(s[i])
    ensures forall i :: |s| - |TrimStart(s)| + |Trim(s)| <= i < |s| ==> IsWhiteSpace(s[i])
  {
    var t := TrimStart(s);
    TrimKeepsSlice(s, t, TrimEnd(t), |s| - |t|);
  }

  lemma TrimKeepsSlice(s: string, t: string, r: string, a: nat)
    requires a <= |s| && t == s[a..] && |r| <= |t| && r == t[..|r|]
    requires forall i :: |r| <= i < |t| ==> IsWhiteSpace(t[i])
    ensures a + |r| <= |s| && r == s[a..a + |r|]
    ensures forall i :: a + |r| <= i < |s| ==> IsWhiteSpace(s[i])
  {
    forall i | a + |r| <= i < |s|
      ensures IsWhiteSpace(s[i])
    {
      assert s[i] == t[i - a];
    }
  }

  /** A string with no white space at either end is its own trim. */
  lemma TrimFixed(s: string)
    requires s == [] || (!IsWhiteSpace(s[0]) && !IsWhiteSpace(s[|s| - 1]))
    ensures Trim(s) == s
  {
  }

  /** string.Join(sep, parts). */
  function Join(parts: seq<string>, sep: string): string
  {
    if |parts| == 0 then ""
    else if |parts| == 1 then parts[0]
    else parts[0] + sep + Join(parts[1..], sep)
  }

  /** Where part k starts inside Join(parts, sep). */
  function JoinOffset(parts: seq<string>, sep: string, k: nat): nat
    requires k <= |parts|
  {
    if k == 0 then 0 else JoinOffset(parts, sep, k - 1) + |parts[k - 1]| + |sep|
  }

  lemma JoinOffsetTail(parts: seq<string>, sep: string, k: nat)
    requires 1 <= k <= |parts|
    ensures JoinOffset(parts, sep, k) == |parts[0]| + |sep| + JoinOffset(parts[1..], sep, k - 1)
  {
    if k > 1 {
      JoinOffsetTail(parts, sep, k - 1);
    }
  }

  /** The length of a join: all the parts plus one separator between each two. */
  lemma {:induction false} JoinLength(parts: seq<string>, sep: string)
    requires |parts| > 0
    ensures |Join(parts, sep)| == JoinOffset(parts, sep, |parts| - 1) + |parts[|parts| - 1]|
  {
    if |parts| > 1 {
      JoinLength(parts[1..], sep);
      JoinOffsetTail(parts, sep, |parts| - 1);
    }
  }

  lemma SliceOfSuffix(x: string, y: string, a: nat, b: nat)
    requires a <= b <= |y|
    ensures (x + y)[|x| + a..|x| + b] == y[a..b]
  {
  }

  lemma SliceOfPrefix(x: string, y: string, a: nat, b: nat)
    requires a <= b <= |x|
    ensures (x + y)[a..b] == x[a..b]
  {
  }

  lemma JoinCons(parts: seq<string>, sep: string)
    requires |parts| > 1
    ensures Join(parts, sep) == (parts[0] + sep) + Join(parts[1..], sep)
  {
  }

  /** Each part sits verbatim at its offset inside the join. */
  lemma {:induction false} JoinAt(parts: seq<string>, sep: string, k: nat)
    requires k < |parts|
    ensures var o := JoinOffset(parts, sep, k);
      o + |parts[k]| <= |Join(parts, sep)| && Join(parts, sep)[o..o + |parts[k]|] == parts[k]
  {
    if k == 0 {
      if |parts| > 1 {
        var rest := Join(parts[1..], sep);
        JoinCons(parts, sep);
        assert (parts[0] + sep) + rest == parts[0] + (sep + rest);
        SliceOfPrefix(parts[0], sep + rest, 0, |parts[0]|);
        assert parts[0][0..|parts[0]|] == parts[0];
      } else {
        assert Join(parts, sep) == parts[0];
      }
    } else {
      JoinAt(parts[1..], sep, k - 1);
      JoinOffsetTail(parts, sep, k);
      var o' := JoinOffset(parts[1..], sep, k - 1);
      JoinCons(parts, sep);
      SliceOfSuffix(parts[0] + sep, Join(parts[1..], sep), o', o' + |parts[k]|);
      assert parts[1..][k - 1] == parts[k];
    }
  }

  /** Between part k and part k + 1 stands the separator. */
  lemma {:induction false} JoinSepAt(parts: seq<string>, sep: string, k: nat)
    requires k + 1 < |parts|
    ensures var e := JoinOffset(parts, sep, k) + |parts[k]|;
      e + |sep| <= |Join(parts, sep)| && Join(parts, sep)[e..e + |sep|] == sep
  {
    JoinCons(parts, sep);
    if k == 0 {
      var head := parts[0] + sep;
      SliceOfPrefix(head, Join(parts[1..], sep), |parts[0]|, |head|);
      SliceOfSuffix(parts[0], sep, 0, |sep|);
      assert sep[0..|sep|] == sep;
    } else {
      JoinSepAt(parts[1..], sep, k - 1);
      JoinOffsetTail(parts, sep, k);
      var e' := JoinOffset(parts[1..], sep, k - 1) + |parts[k]|;
      SliceOfSuffix(parts[0] + sep, Join(parts[1..], sep), e', e' + |sep|);
      assert parts[1..][k - 1] == parts[k];
    }
  }

  /** ASCII lower case (the part of ToLowerInvariant this model keeps). */
  function LowerChar(c: char): char {
    if 'A' <= c <= 'Z' then (c as int + 32) as char else c
  }

  function Lower(s: string): (r: string)
    ensures |r| == |s| && forall i :: 0 <= i < |s| ==> r[i] == LowerChar(s[i])
  {
    seq(|s|, i requires 0 <= i < |s| => LowerChar(s[i]))
  }

  /** StringComparison.OrdinalIgnoreCase equality, with ASCII folding. */
  predicate EqualsIgnoreCase(a: string, b: string) {
    Lower(a) == Lower(b)
  }

  /** s.EndsWith(suffix, StringComparison.OrdinalIgnoreCase), with ASCII folding. */
  predicate EndsWithIgnoreCase(s: string, suffix: string) {
    |suffix| <= |s| && EqualsIgnoreCase(s[|s| - |suffix|..], suffix)
  }

  function Digit(d: nat): char
    requires d < 10
  {
    ('0' as int + d) as char
  }

  /** int.ToString() for a non-negative value: its decimal digits, no leading zero. */
  function NatToString(n: nat): (r: string)
    ensures |r| >= 1 && (forall i :: 0 <= i < |r| ==> '0' <= r[i] <= '9')
    ensures |r| > 1 ==> r[0] != '0'
  {
    if n < 10 then [Digit(n)] else NatToString(n / 10) + [Digit(n % 10)]
  }

  /** The value a string of decimal digits denotes. */
  function DigitsValue(s: string): nat
    requires forall i :: 0 <= i < |s| ==> '0' <= s[i] <= '9'
  {
    if s == [] then 0 else 10 * DigitsValue(s[..|s| - 1]) + (s[|s| - 1] as int - '0' as int)
  }

  /** NatToString is undone by reading the digits back, so distinct ids print differently. */
  lemma {:induction false} NatToStringValue(n: nat)
    ensures DigitsValue(NatToString(n)) == n
  {
    if n >= 10 {
      NatToStringValue(n / 10);
      var r := NatToString(n);
      assert r[..|r| - 1] == NatToString(n / 10);
    }
  }

  lemma NatToStringInjective(m: nat, n: nat)
    requires NatToString(m) == NatToString(n)
    ensures m == n
  {
    NatToStringValue(m);
    NatToStringValue(n);
  }
}
