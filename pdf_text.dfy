/** `CleanText` of backend/PdfTextExtractor.cs: the control-character filter,
    then `Regex.Replace(text, @"\s+", " ")` and `Trim()`. */
module PdfText {
  import opened Strings
  import opened Sanitize

  /** No white space other than ' ', and no two white-space characters side by side. */
  predicate Collapsed(s: string) {
    && (forall i :: 0 <= i < |s| && IsWhiteSpace(s[i]) ==> s[i] == ' ')
    && (forall i :: 0 <= i < |s| - 1 ==> !(IsWhiteSpace(s[i]) && IsWhiteSpace(s[i + 1])))
  }

  /** `Regex.Replace(s, @"\s+", " ")`: every maximal run of white space becomes
      one ' '. A white-space character followed by another one is dropped; the
      last of a run is replaced by ' '. */
  function Collapse(s: string): (r: string)
    ensures |r| <= |s|
    ensures s != [] ==> r != [] && (IsWhiteSpace(r[0]) <==> IsWhiteSpace(s[0]))
    ensures Collapsed(r)
  {
    if s == [] then []
    else if IsWhiteSpace(s[0]) then
      if |s| > 1 && IsWhiteSpace(s[1]) then Collapse(s[1..]) else [' '] + Collapse(s[1..])
    else [s[0]] + Collapse(s[1..])
  }

  predicate StartsSolid(s: string) {
    s == [] || !IsWhiteSpace(s[0])
  }

  predicate EndsSolid(s: string) {
    s == [] || !IsWhiteSpace(s[|s| - 1])
  }

  /** A white-space run before a non-white-space character, or before the
      end, becomes exactly one ' '. */
  lemma {:induction false} CollapseRun(w: string, b: string)
    requires w != [] && IsBlank(w) && StartsSolid(b)
    ensures Collapse(w + b) == [' '] + Collapse(b)
  {
    var s := w + b;
    assert s[1..] == w[1..] + b;
    if |w| > 1 {
      assert s[1] == w[1];
      CollapseRun(w[1..], b);
    } else {
      assert s[1..] == b;
      assert |s| > 1 ==> s[1] == b[0];
    }
  }

  /** Text that does not end in white space collapses independently of what follows. */
  lemma {:induction false} CollapseAppend(a: string, t: string)
    requires EndsSolid(a)
    ensures Collapse(a + t) == Collapse(a) + Collapse(t)
  {
    if a == [] {
      assert a + t == t;
    } else {
      var s := a + t;
      var rest := a[1..];
      assert s[0] == a[0] && s[1..] == rest + t;
      if rest != [] {
        assert s[1] == a[1];
        assert rest[|rest| - 1] == a[|a| - 1];
      }
      CollapseAppend(rest, t);
    }
  }

  /** `Regex.Replace(s, @"\s+", " ")` on text, run, text: the run between
      two non-white-space characters (or an end) becomes one ' ', and the
      text on either side collapses on its own. */
  lemma CollapseRunBetween(a: string, w: string, b: string)
    requires EndsSolid(a) && w != [] && IsBlank(w) && StartsSolid(b)
    ensures Collapse(a + w + b) == Collapse(a) + " " + Collapse(b)
  {
    assert a + w + b == a + (w + b);
    CollapseAppend(a, w + b);
    CollapseRun(w, b);
  }

  /** CleanText's result as a function of its input. */
  function Cleaned(s: string): string {
    Trim(Collapse(Stripped(s)))
  }

  /** CleanText: NUL and the other control characters except \r, \n and \t are
      dropped one character at a time (the StringBuilder loop), then white-space
      runs are collapsed and the ends trimmed. */
  method CleanText(s: string) returns (r: string)
    ensures r == Cleaned(s)
  {
    if |s| == 0 {
      return "";
    }
    var sb := "";
    for i := 0 to |s|
      invariant sb == Stripped(s[..i])
    {
      var ch := s[i];
      assert s[..i + 1] == s[..i] + [ch];
      StrippedSnoc(s[..i], ch);
      if ch == '\0' {
        continue;
      }
      if IsControl(ch) && ch != '\r' && ch != '\n' && ch != '\t' {
        continue;
      }
      sb := sb + [ch];
    }
    assert s[..|s|] == s;
    r := Trim(Collapse(sb));
  }

  // ---------------------------------------------------------------------------
  // Properties of the cleaned text

  /** Characters that are neither white space nor control characters. */
  predicate Visible(c: char) {
    !IsWhiteSpace(c) && !IsControl(c)
  }

  /** The visible characters of a string, in order. */
  function VisibleChars(s: string): string {
    if s == [] then [] else (if Visible(s[0]) then [s[0]] else []) + VisibleChars(s[1..])
  }

  lemma {:induction false} VisibleAppend(a: string, b: string)
    ensures VisibleChars(a + b) == VisibleChars(a) + VisibleChars(b)
  {
    if a != [] {
      assert (a + b)[1..] == a[1..] + b;
      VisibleAppend(a[1..], b);
    } else {
      assert a + b == b;
    }
  }

  lemma {:induction false} VisibleOfBlank(s: string)
    requires forall i :: 0 <= i < |s| ==> IsWhiteSpace(s[i])
    ensures VisibleChars(s) == []
  {
    if s != [] {
      VisibleOfBlank(s[1..]);
    }
  }

  lemma {:induction false} VisibleStripped(s: string)
    ensures VisibleChars(Stripped(s)) == VisibleChars(s)
  {
    if s != [] {
      var p := s[..|s| - 1];
      var c := s[|s| - 1];
      assert s == p + [c];
      VisibleStripped(p);
      StrippedLast(s);
      VisibleAppend(Stripped(p), if Kept(c) then [c] else []);
      VisibleAppend(p, [c]);
    }
  }

  lemma {:induction false} VisibleCollapse(s: string)
    ensures VisibleChars(Collapse(s)) == VisibleChars(s)
  {
    if s != [] {
      VisibleCollapse(s[1..]);
      if IsWhiteSpace(s[0]) && !(|s| > 1 && IsWhiteSpace(s[1])) {
        VisibleAppend([' '], Collapse(s[1..]));
      } else if !IsWhiteSpace(s[0]) {
        VisibleAppend([s[0]], Collapse(s[1..]));
      }
    }
  }

  lemma {:induction false} VisibleTrimStart(s: string)
    ensures VisibleChars(TrimStart(s)) == VisibleChars(s)
  {
    if s != [] {
      TrimStartStep(s);
      if IsWhiteSpace(s[0]) {
        VisibleTrimStart(s[1..]);
      }
    }
  }

  lemma {:induction false} VisibleTrimEnd(s: string)
    ensures VisibleChars(TrimEnd(s)) == VisibleChars(s)
  {
    if s != [] {
      TrimEndStep(s);
      if IsWhiteSpace(s[|s| - 1]) {
        var p := s[..|s| - 1];
        VisibleTrimEnd(p);
        assert s == p + [s[|s| - 1]];
        VisibleAppend(p, [s[|s| - 1]]);
      }
    }
  }

  /** Only ' ' and visible characters. */
  predicate Tidy(s: string) {
    forall i :: 0 <= i < |s| ==> s[i] == ' ' || Visible(s[i])
  }

  /** Collapsing a string of kept characters leaves only ' ' and visible characters. */
  lemma {:induction false} CollapseTidy(s: string)
    requires forall i :: 0 <= i < |s| ==> Kept(s[i])
    ensures Tidy(Collapse(s))
  {
    if s != [] {
      assert forall i :: 0 <= i < |s[1..]| ==> s[1..][i] == s[i + 1];
      CollapseTidy(s[1..]);
    }
  }

  lemma TidySlice(s: string, a: nat, b: nat)
    requires Tidy(s) && a <= b <= |s|
    ensures Tidy(s[a..b])
  {
    var t := s[a..b];
    assert forall i :: 0 <= i < |t| ==> t[i] == s[a + i];
  }

  /** A collapsed string stays collapsed when cut to a slice. */
  lemma CollapsedSlice(s: string, a: nat, b: nat)
    requires Collapsed(s) && a <= b <= |s|
    ensures Collapsed(s[a..b])
  {
    var t := s[a..b];
    assert forall i :: 0 <= i < |t| ==> t[i] == s[a + i];
  }

  /** Collapse leaves an already collapsed string unchanged. */
  lemma {:induction false} CollapseFixed(s: string)
    requires Collapsed(s)
    ensures Collapse(s) == s
  {
    if s != [] {
      var t := s[1..];
      CollapsedSlice(s, 1, |s|);
      CollapseFixed(t);
      if IsWhiteSpace(s[0]) {
        assert s[0] == ' ';
        if |s| > 1 {
          assert !(IsWhiteSpace(s[0]) && IsWhiteSpace(s[1]));
        }
        assert Collapse(s) == [' '] + Collapse(t);
      } else {
        assert Collapse(s) == [s[0]] + Collapse(t);
      }
      assert s == [s[0]] + t;
    }
  }

  lemma TrimKeepsShape(u: string)
    requires Collapsed(u) && Tidy(u)
    ensures Collapsed(Trim(u)) && Tidy(Trim(u))
  {
    var t := TrimStart(u);
    CollapsedSlice(u, |u| - |t|, |u|);
    TidySlice(u, |u| - |t|, |u|);
    CollapsedSlice(t, 0, |TrimEnd(t)|);
    TidySlice(t, 0, |TrimEnd(t)|);
  }

  lemma TidyNoControl(r: string)
    requires Tidy(r)
    ensures forall i :: 0 <= i < |r| ==> !IsControl(r[i])
  {
    forall i | 0 <= i < |r| ensures !IsControl(r[i]) {
      assert r[i] == ' ' || Visible(r[i]);
    }
  }

  /** The output has no control character, its only white space is ' ', no two
      white-space characters are adjacent, and it neither starts nor ends with
      white space. */
  lemma CleanedShape(s: string)
    ensures var r := Cleaned(s);
      && Collapsed(r)
      && (forall i :: 0 <= i < |r| ==> !IsControl(r[i]))
      && (r == [] || (!IsWhiteSpace(r[0]) && !IsWhiteSpace(r[|r| - 1])))
  {
    var u := Collapse(Stripped(s));
    StrippedKept(s);
    CollapseTidy(Stripped(s));
    TrimKeepsShape(u);
    TidyNoControl(Trim(u));
    TrimIsSlice(u);
  }

  /** Non-white-space, non-control characters survive, all of them and in their
      original order. */
  lemma CleanedVisible(s: string)
    ensures VisibleChars(Cleaned(s)) == VisibleChars(s)
  {
    VisibleStripped(s);
    VisibleCollapse(Stripped(s));
    VisibleTrimStart(Collapse(Stripped(s)));
    VisibleTrimEnd(TrimStart(Collapse(Stripped(s))));
  }

  /** CleanText is idempotent. */
  lemma CleanedIdempotent(s: string)
    ensures Cleaned(Cleaned(s)) == Cleaned(s)
  {
    var r := Cleaned(s);
    CleanedShape(s);
    StrippedFixed(r);
    CollapseFixed(r);
    TrimFixed(r);
  }
}
