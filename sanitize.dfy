/** The control-character filter that both `Clean` in backend/Program.cs and
    the first half of `CleanText` in backend/PdfTextExtractor.cs apply: NUL and
    every other control character are dropped, except carriage return, line
    feed and tab; every other character is kept, in order. */
module Sanitize {
  import opened Strings

  /** The characters the filter keeps (NUL is a control character). */
  predicate Kept(c: char) {
    !IsControl(c) || c == '\r' || c == '\n' || c == '\t'
  }

  /** The filter over the first `n` characters, one character at a time
      from the front, as the `foreach` appending to a StringBuilder does. */
  function StrippedPrefix(s: string, n: nat): string
    requires n <= |s|
  {
    if n == 0 then []
    else StrippedPrefix(s, n - 1) + (if Kept(s[n - 1]) then [s[n - 1]] else [])
  }

  /** The filter over the whole string. */
  function Stripped(s: string): string {
    StrippedPrefix(s, |s|)
  }

  /** The filter of a prefix depends on that prefix only. */
  lemma {:induction false} StrippedPrefixAgree(a: string, b: string, n: nat)
    requires n <= |a| && n <= |b|
    requires forall i :: 0 <= i < n ==> a[i] == b[i]
    ensures StrippedPrefix(a, n) == StrippedPrefix(b, n)
  {
    if n > 0 {
      StrippedPrefixAgree(a, b, n - 1);
    }
  }

  lemma StrippedSnoc(s: string, c: char)
    ensures Stripped(s + [c]) == Stripped(s) + (if Kept(c) then [c] else [])
  {
    StrippedPrefixAgree(s + [c], s, |s|);
  }

  /** The last character is filtered after all the others. */
  lemma StrippedLast(s: string)
    requires s != []
    ensures Stripped(s) == Stripped(s[..|s| - 1]) + (if Kept(s[|s| - 1]) then [s[|s| - 1]] else [])
  {
    assert s == s[..|s| - 1] + [s[|s| - 1]];
    StrippedSnoc(s[..|s| - 1], s[|s| - 1]);
  }

  /** Only kept characters come out, and the output is never longer. */
  lemma {:induction false} StrippedKept(s: string)
    ensures |Stripped(s)| <= |s|
    ensures forall i :: 0 <= i < |Stripped(s)| ==> Kept(Stripped(s)[i])
  {
    if s != [] {
      StrippedKept(s[..|s| - 1]);
      StrippedLast(s);
    }
  }

  /** Kept characters keep their number of occurrences; the others vanish. */
  lemma {:induction false} StrippedCounts(s: string, c: char)
    ensures multiset(Stripped(s))[c] == if Kept(c) then multiset(s)[c] else 0
  {
    if s != [] {
      var p := s[..|s| - 1];
      assert s == p + [s[|s| - 1]];
      StrippedCounts(p, c);
      StrippedLast(s);
    }
  }

  /** Because the filter works per character it distributes over concatenation. */
  lemma {:induction false} StrippedAppend(a: string, b: string)
    ensures Stripped(a + b) == Stripped(a) + Stripped(b)
  {
    if b == [] {
      assert a + b == a;
    } else {
      var p := b[..|b| - 1];
      var c := b[|b| - 1];
      assert b == p + [c];
      assert a + b == (a + p) + [c];
      StrippedAppend(a, p);
      StrippedSnoc(a + p, c);
      StrippedSnoc(p, c);
    }
  }

  /** The filter leaves a string unchanged exactly when all its characters are kept. */
  lemma {:induction false} StrippedFixed(s: string)
    ensures Stripped(s) == s <==> forall i :: 0 <= i < |s| ==> Kept(s[i])
  {
    StrippedKept(s);
    if s != [] {
      var p := s[..|s| - 1];
      StrippedFixed(p);
      StrippedKept(p);
      StrippedLast(s);
      if forall i :: 0 <= i < |s| ==> Kept(s[i]) {
        assert forall i :: 0 <= i < |p| ==> Kept(p[i]) by {
          forall i | 0 <= i < |p| ensures Kept(p[i]) { assert p[i] == s[i]; }
        }
        assert s == p + [s[|s| - 1]];
      } else if !Kept(s[|s| - 1]) {
        assert |Stripped(s)| < |s|;
      }
    }
  }

  /** Filtering twice is filtering once. */
  lemma StrippedIdempotent(s: string)
    ensures Stripped(Stripped(s)) == Stripped(s)
  {
    StrippedKept(s);
    StrippedFixed(Stripped(s));
  }
}
