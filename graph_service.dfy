/** backend/GraphService.cs: the word-co-occurrence graph. Texts are lowered
    and cut into words by the pattern `[A-Za-z][A-Za-z0-9\-]{3,}`; every word
    gets an id in order of first appearance; every pair of words at most
    `window - 1` positions apart in the same text counts once for the
    unordered pair of their ids. */
module CoOccurrence {
  import opened Strings
  import opened Collections

  // ---------------------------------------------------------------------------
  // The word pattern

  predicate IsLetter(c: char) {
    'A' <= c <= 'Z' || 'a' <= c <= 'z'
  }

  /** `[A-Za-z0-9\-]`. */
  predicate IsWordChar(c: char) {
    IsLetter(c) || '0' <= c <= '9' || c == '-'
  }

  /** `{3,}`: at least three word characters after the letter. */
  const MinTail := 3

  /** The longest run of word characters starting at `p`. */
  function RunLength(s: string, p: nat): (n: nat)
    requires p <= |s|
    ensures p + n <= |s|
    ensures forall i :: p <= i < p + n ==> IsWordChar(s[i])
    ensures p + n == |s| || !IsWordChar(s[p + n])
    decreases |s| - p
  {
    if p == |s| || !IsWordChar(s[p]) then 0 else 1 + RunLength(s, p + 1)
  }

  /** The pattern matches at `p`. */
  predicate MatchAt(s: string, p: nat) {
    p < |s| && IsLetter(s[p]) && RunLength(s, p + 1) >= MinTail
  }

  /** The greedy quantifier takes the whole run. */
  function MatchEnd(s: string, p: nat): nat
    requires MatchAt(s, p)
  {
    p + 1 + RunLength(s, p + 1)
  }

  /** `Regex.Matches` from `p` on: try each position in turn; after a match
      carry on where it ended. Each span is (start, end). */
  function Spans(s: string, p: nat): (sp: seq<(nat, nat)>)
    requires p <= |s|
    decreases |s| - p
  {
    if p == |s| then []
    else if MatchAt(s, p) then [(p, MatchEnd(s, p))] + Spans(s, MatchEnd(s, p))
    else Spans(s, p + 1)
  }

  /** Each span of `sp` is a match, taken whole, at or after `p`; the spans
      do not overlap and come in order. */
  predicate MatchSpans(s: string, p: nat, sp: seq<(nat, nat)>) {
    && (forall k :: 0 <= k < |sp| ==> p <= sp[k].0 && MatchAt(s, sp[k].0) && sp[k].1 == MatchEnd(s, sp[k].0))
    && (forall k :: 0 <= k < |sp| - 1 ==> sp[k].1 <= sp[k + 1].0)
  }

  /** A match followed by matches from its end on is a list of matches. */
  lemma ConsMatchSpans(s: string, p: nat, rest: seq<(nat, nat)>)
    requires MatchAt(s, p) && MatchSpans(s, MatchEnd(s, p), rest)
    ensures MatchSpans(s, p, [(p, MatchEnd(s, p))] + rest)
  {
    var e := MatchEnd(s, p);
    var sp := [(p, e)] + rest;
    forall k | 0 <= k < |sp| ensures p <= sp[k].0 && MatchAt(s, sp[k].0) && sp[k].1 == MatchEnd(s, sp[k].0) {
      if k > 0 {
        assert sp[k] == rest[k - 1];
      }
    }
    forall k | 0 <= k < |sp| - 1 ensures sp[k].1 <= sp[k + 1].0 {
      assert sp[k + 1] == rest[k];
      if k > 0 {
        assert sp[k] == rest[k - 1];
      }
    }
  }

  /** Spans finds whole matches, in order, without overlap. */
  lemma {:induction false} SpansAreMatches(s: string, p: nat)
    requires p <= |s|
    ensures MatchSpans(s, p, Spans(s, p))
    decreases |s| - p
  {
    if p < |s| {
      if MatchAt(s, p) {
        var e := MatchEnd(s, p);
        SpansAreMatches(s, e);
        ConsMatchSpans(s, p, Spans(s, e));
        assert Spans(s, p) == [(p, e)] + Spans(s, e);
      } else {
        SpansAreMatches(s, p + 1);
        assert Spans(s, p) == Spans(s, p + 1);
      }
    }
  }

  /** Where the next match after span k could start: the start of span k + 1,
      or the end of the text. */
  function NextStart(sp: seq<(nat, nat)>, k: int, n: nat): nat
    requires -1 <= k < |sp|
  {
    if k + 1 < |sp| then sp[k + 1].0 else n
  }

  /** No match starts before the first span. */
  lemma {:induction false} SpansNoneBefore(s: string, p: nat)
    requires p <= |s|
    ensures forall q :: p <= q < NextStart(Spans(s, p), -1, |s|) ==> !MatchAt(s, q)
    decreases |s| - p
  {
    if p < |s| && !MatchAt(s, p) {
      SpansNoneBefore(s, p + 1);
      assert Spans(s, p) == Spans(s, p + 1);
    }
  }

  /** No match starts between two spans of `sp` or after the last one. */
  predicate NoneBetween(s: string, sp: seq<(nat, nat)>) {
    forall k, q :: 0 <= k < |sp| && sp[k].1 <= q < NextStart(sp, k, |s|) ==> !MatchAt(s, q)
  }

  /** Spans skips no match between its spans or after the last one. */
  lemma {:induction false} SpansNoneBetween(s: string, p: nat)
    requires p <= |s|
    ensures NoneBetween(s, Spans(s, p))
    decreases |s| - p
  {
    var sp := Spans(s, p);
    if p < |s| {
      if MatchAt(s, p) {
        var e := MatchEnd(s, p);
        var rest := Spans(s, e);
        SpansNoneBetween(s, e);
        SpansNoneBefore(s, e);
        assert sp == [(p, e)] + rest;
        forall k, q | 0 <= k < |sp| && sp[k].1 <= q < NextStart(sp, k, |s|) ensures !MatchAt(s, q) {
          if k > 0 {
            assert sp[k] == rest[k - 1] && NextStart(sp, k, |s|) == NextStart(rest, k - 1, |s|);
            assert rest[k - 1].1 <= q < NextStart(rest, k - 1, |s|);
          } else {
            assert sp[0].1 == e && NextStart(sp, 0, |s|) == NextStart(rest, -1, |s|);
            assert e <= q < NextStart(rest, -1, |s|);
          }
        }
      } else {
        SpansNoneBetween(s, p + 1);
        assert sp == Spans(s, p + 1);
      }
    }
  }

  /** Matches are leftmost: no match starts before the first span, between
      two spans or after the last one. */
  lemma SpansLeftmost(s: string, p: nat)
    requires p <= |s|
    ensures var sp := Spans(s, p);
      && (forall q :: p <= q < NextStart(sp, -1, |s|) ==> !MatchAt(s, q))
      && (forall k, q :: 0 <= k < |sp| && sp[k].1 <= q < NextStart(sp, k, |s|) ==> !MatchAt(s, q))
  {
    SpansNoneBefore(s, p);
    SpansNoneBetween(s, p);
  }

  /** The words of a text: the matches over `t.ToLowerInvariant()`. */
  function Tokens(t: string): (toks: seq<string>) {
    var s := Lower(t);
    var sp := Spans(s, 0);
    SpansAreMatches(s, 0);
    seq(|sp|, k requires 0 <= k < |sp| => s[sp[k].0..sp[k].1])
  }

  /** Every word is at least four characters long, starts with a letter,
      consists of word characters only and has no upper-case letter. */
  lemma TokenShape(t: string, k: nat)
    requires k < |Tokens(t)|
    ensures var w := Tokens(t)[k];
      && |w| >= 1 + MinTail
      && IsLetter(w[0])
      && (forall i :: 0 <= i < |w| ==> IsWordChar(w[i]) && !('A' <= w[i] <= 'Z'))
  {
    var s := Lower(t);
    var sp := Spans(s, 0);
    SpansAreMatches(s, 0);
    var w := Tokens(t)[k];
    var a := sp[k].0;
    var n := RunLength(s, a + 1);
    assert MatchAt(s, a) && sp[k].1 == a + 1 + n;
    assert w == s[a..a + 1 + n];
    forall i | 0 <= i < |w| ensures IsWordChar(w[i]) && !('A' <= w[i] <= 'Z') {
      assert w[i] == s[a + i];
      assert s[a + i] == LowerChar(t[a + i]);
      if i > 0 {
        assert a + 1 <= a + i < a + 1 + n;
      }
    }
  }

  /** The matches of the example below, over the lowered text. */
  lemma SpansExample()
    ensures Spans("the co-op", 0) == [(4, 9)]
  {
    var s := "the co-op";
    assert RunLength(s, 5) == 4;
    assert Spans(s, 4) == [(4, 9)];
    assert RunLength(s, 1) == 2;
  }

  /** Pattern example: a three-letter word is not matched; a hyphenated word
      is one match. */
  lemma TokensExample()
    ensures Tokens("The Co-Op") == ["co-op"]
  {
    var s := Lower("The Co-Op");
    assert s == "the co-op" by {
      assert |s| == 9;
      forall i | 0 <= i < 9 ensures s[i] == "the co-op"[i] {
        assert s[i] == LowerChar("The Co-Op"[i]);
      }
    }
    SpansExample();
    assert Tokens("The Co-Op") == [s[4..9]];
    assert s[4..9] == "co-op";
  }

  // ---------------------------------------------------------------------------
  // The graph as a function of the texts

  /** The word lists of the texts, one per text. */
  function WordLists(texts: seq<string>): (docs: seq<seq<string>>)
    ensures |docs| == |texts|
  {
    seq(|texts|, t requires 0 <= t < |texts| => Tokens(texts[t]))
  }

  /** The words of all texts, text after text. */
  function AllTokens(docs: seq<seq<string>>): seq<string> {
    if docs == [] then [] else AllTokens(docs[..|docs| - 1]) + docs[|docs| - 1]
  }

  lemma {:induction false} AllTokensAppend(a: seq<seq<string>>, b: seq<seq<string>>)
    ensures AllTokens(a + b) == AllTokens(a) + AllTokens(b)
  {
    if b == [] {
      assert a + b == a;
    } else {
      var p := b[..|b| - 1];
      var t := b[|b| - 1];
      assert a + b == (a + p) + [t];
      assert (a + b)[..|a + b| - 1] == a + p && (a + b)[|a + b| - 1] == t;
      AllTokensAppend(a, p);
      assert AllTokens(a + b) == AllTokens(a + p) + t;
      assert AllTokens(b) == AllTokens(p) + t;
      assert AllTokens(a) + (AllTokens(p) + t) == (AllTokens(a) + AllTokens(p)) + t;
    }
  }

  /** The vocabulary in id order: id k is the k-th distinct word to appear,
      over all texts together. */
  function Vocabulary(docs: seq<seq<string>>): seq<string> {
    Dedup(AllTokens(docs))
  }

  /** A co-occurrence key: an unordered pair of ids, smaller first. */
  type Key = (nat, nat)

  /** `a < b ? (a, b) : (b, a)`. */
  function KeyOf(a: nat, b: nat): (key: Key)
    ensures key.0 <= key.1
    ensures key == (a, b) || key == (b, a)
  {
    if a < b then (a, b) else (b, a)
  }

  /** The ids of the words of one text, looked up in `vocab`. */
  function IdsOf(vocab: seq<string>, toks: seq<string>): (ids: seq<nat>)
    ensures |ids| == |toks|
  {
    seq(|toks|, k requires 0 <= k < |toks| => IndexOf(vocab, toks[k]))
  }

  /** `Math.Min(tokens.Count, i + window)`. */
  function RowEnd(n: nat, i: nat, window: int): int {
    if n < i + window then n else i + window
  }

  /** The keys counted for word i against words i + 1 .. end - 1. */
  function Row(ids: seq<nat>, i: nat, end: int): seq<Key>
    requires i < |ids| && end <= |ids|
    decreases end
  {
    if end <= i + 1 then [] else Row(ids, i, end - 1) + [KeyOf(ids[i], ids[end - 1])]
  }

  /** Row i holds one key per later word up to `end`. */
  lemma {:induction false} RowLength(ids: seq<nat>, i: nat, end: int)
    requires i < |ids| && end <= |ids|
    ensures |Row(ids, i, end)| == if end <= i + 1 then 0 else end - i - 1
    decreases end
  {
    if end > i + 1 {
      RowLength(ids, i, end - 1);
    }
  }

  /** Its k-th key is that of words i and i + 1 + k. */
  lemma {:induction false} RowAt(ids: seq<nat>, i: nat, end: int, k: nat)
    requires i < |ids| && end <= |ids| && i + 1 + k < end
    ensures k < |Row(ids, i, end)| && Row(ids, i, end)[k] == KeyOf(ids[i], ids[i + 1 + k])
    decreases end
  {
    RowLength(ids, i, end);
    if i + 1 + k < end - 1 {
      RowAt(ids, i, end - 1, k);
      RowLength(ids, i, end - 1);
    } else {
      RowLength(ids, i, end - 1);
    }
  }

  /** The keys counted for words 0 .. i - 1 of one text, in loop order. */
  function TextPairs(ids: seq<nat>, window: int, i: nat): seq<Key>
    requires i <= |ids|
  {
    if i == 0 then [] else TextPairs(ids, window, i - 1) + Row(ids, i - 1, RowEnd(|ids|, i - 1, window))
  }

  /** The keys of one text's words, ids taken from `vocab`. */
  function PairsOfText(vocab: seq<string>, toks: seq<string>, window: int): seq<Key> {
    TextPairs(IdsOf(vocab, toks), window, |toks|)
  }

  /** The keys counted over all texts, in loop order. */
  function PairsIn(vocab: seq<string>, docs: seq<seq<string>>, window: int): seq<Key> {
    if docs == [] then []
    else PairsIn(vocab, docs[..|docs| - 1], window) + PairsOfText(vocab, docs[|docs| - 1], window)
  }

  function Pairs(docs: seq<seq<string>>, window: int): seq<Key> {
    PairsIn(Vocabulary(docs), docs, window)
  }

  /** Word positions a < b of one text that the nested loop pairs up. */
  predicate CountedAt(n: nat, window: int, a: int, b: int) {
    0 <= a < b < n && b - a < window
  }

  lemma RowMembers(ids: seq<nat>, i: nat, window: int, p: Key)
    requires i < |ids|
    ensures p in Row(ids, i, RowEnd(|ids|, i, window))
      <==> exists b :: CountedAt(|ids|, window, i, b) && p == KeyOf(ids[i], ids[b])
  {
    var end := RowEnd(|ids|, i, window);
    var row := Row(ids, i, end);
    RowLength(ids, i, end);
    if p in row {
      var k :| 0 <= k < |row| && row[k] == p;
      RowAt(ids, i, end, k);
      assert CountedAt(|ids|, window, i, i + 1 + k);
    }
    if exists b :: CountedAt(|ids|, window, i, b) && p == KeyOf(ids[i], ids[b]) {
      var b :| CountedAt(|ids|, window, i, b) && p == KeyOf(ids[i], ids[b]);
      RowAt(ids, i, end, b - i - 1);
      assert row[b - i - 1] == p;
    }
  }

  /** Every key of a text comes from a pair of words the loops visit. */
  lemma {:induction false} TextPairsSound(ids: seq<nat>, window: int, i: nat, p: Key)
    requires i <= |ids| && p in TextPairs(ids, window, i)
    ensures exists a, b :: a < i && CountedAt(|ids|, window, a, b) && p == KeyOf(ids[a], ids[b])
  {
    var before := TextPairs(ids, window, i - 1);
    var row := Row(ids, i - 1, RowEnd(|ids|, i - 1, window));
    assert TextPairs(ids, window, i) == before + row;
    if p in before {
      TextPairsSound(ids, window, i - 1, p);
      var a, b :| a < i - 1 && CountedAt(|ids|, window, a, b) && p == KeyOf(ids[a], ids[b]);
      assert a < i;
    } else {
      RowMembers(ids, i - 1, window, p);
      var b :| CountedAt(|ids|, window, i - 1, b) && p == KeyOf(ids[i - 1], ids[b]);
      assert i - 1 < i;
    }
  }

  /** Every pair of words the loops visit has its key counted. */
  lemma {:induction false} TextPairsComplete(ids: seq<nat>, window: int, i: nat, a: nat, b: nat)
    requires i <= |ids| && a < i && CountedAt(|ids|, window, a, b)
    ensures KeyOf(ids[a], ids[b]) in TextPairs(ids, window, i)
  {
    var p := KeyOf(ids[a], ids[b]);
    var before := TextPairs(ids, window, i - 1);
    var row := Row(ids, i - 1, RowEnd(|ids|, i - 1, window));
    assert TextPairs(ids, window, i) == before + row;
    if a < i - 1 {
      TextPairsComplete(ids, window, i - 1, a, b);
    } else {
      RowMembers(ids, i - 1, window, p);
      assert CountedAt(|ids|, window, i - 1, b) && p == KeyOf(ids[i - 1], ids[b]);
    }
  }

  /** A key is counted in a text exactly when two of its words, the first
      before the second and fewer than `window` positions apart, carry its
      two ids. */
  lemma TextPairsMembers(ids: seq<nat>, window: int, i: nat, p: Key)
    requires i <= |ids|
    ensures p in TextPairs(ids, window, i)
      <==> exists a, b :: a < i && CountedAt(|ids|, window, a, b) && p == KeyOf(ids[a], ids[b])
  {
    if p in TextPairs(ids, window, i) {
      TextPairsSound(ids, window, i, p);
    }
    if exists a, b :: a < i && CountedAt(|ids|, window, a, b) && p == KeyOf(ids[a], ids[b]) {
      var a, b :| a < i && CountedAt(|ids|, window, a, b) && p == KeyOf(ids[a], ids[b]);
      TextPairsComplete(ids, window, i, a, b);
    }
  }

  /** Keys never cross texts: a key is counted over all texts exactly when
      it is counted within one of them. */
  lemma {:induction false} PairsStayInText(vocab: seq<string>, docs: seq<seq<string>>, window: int, p: Key)
    ensures p in PairsIn(vocab, docs, window)
      <==> exists t :: 0 <= t < |docs| && p in PairsOfText(vocab, docs[t], window)
  {
    if docs != [] {
      var init := docs[..|docs| - 1];
      var last := docs[|docs| - 1];
      PairsStayInText(vocab, init, window, p);
      var q := PairsIn(vocab, init, window);
      var l := PairsOfText(vocab, last, window);
      assert PairsIn(vocab, docs, window) == q + l;
      if p in q + l {
        if p in q {
          var t :| 0 <= t < |init| && p in PairsOfText(vocab, init[t], window);
          assert docs[t] == init[t];
        } else {
          assert p in PairsOfText(vocab, docs[|docs| - 1], window);
        }
      }
      if exists t :: 0 <= t < |docs| && p in PairsOfText(vocab, docs[t], window) {
        var t :| 0 <= t < |docs| && p in PairsOfText(vocab, docs[t], window);
        if t < |init| {
          assert init[t] == docs[t];
          assert p in q;
        } else {
          assert p in l;
        }
      }
    }
  }

  /** With `window <= 1` the inner loop never runs: no key at all. */
  lemma {:induction false} SmallWindowNoPairs(vocab: seq<string>, docs: seq<seq<string>>, window: int)
    requires window <= 1
    ensures PairsIn(vocab, docs, window) == []
  {
    if docs != [] {
      SmallWindowNoPairs(vocab, docs[..|docs| - 1], window);
      var toks := docs[|docs| - 1];
      TextPairsEmpty(IdsOf(vocab, toks), window, |toks|);
    }
  }

  lemma {:induction false} TextPairsEmpty(ids: seq<nat>, window: int, i: nat)
    requires window <= 1 && i <= |ids|
    ensures TextPairs(ids, window, i) == []
  {
    if i > 0 {
      TextPairsEmpty(ids, window, i - 1);
    }
  }

  /** How many keys words 0 .. i - 1 of an n-word text contribute: for word
      i the inner loop runs from i + 1 up to `Math.Min(n, i + window)`. */
  function PairCount(n: nat, window: int, i: nat): nat {
    if i == 0 then 0
    else
      var end := RowEnd(n, i - 1, window);
      PairCount(n, window, i - 1) + (if end <= i then 0 else end - i)
  }

  lemma {:induction false} TextPairsLength(ids: seq<nat>, window: int, i: nat)
    requires i <= |ids|
    ensures |TextPairs(ids, window, i)| == PairCount(|ids|, window, i)
  {
    if i > 0 {
      TextPairsLength(ids, window, i - 1);
      RowLength(ids, i - 1, RowEnd(|ids|, i - 1, window));
    }
  }

  /** The keys of all texts add up text by text. */
  function TotalPairCount(docs: seq<seq<string>>, window: int): nat {
    if docs == [] then 0
    else
      var n := |docs[|docs| - 1]|;
      TotalPairCount(docs[..|docs| - 1], window) + PairCount(n, window, n)
  }

  lemma {:induction false} PairsLength(vocab: seq<string>, docs: seq<seq<string>>, window: int)
    ensures |PairsIn(vocab, docs, window)| == TotalPairCount(docs, window)
  {
    if docs != [] {
      PairsLength(vocab, docs[..|docs| - 1], window);
      var toks := docs[|docs| - 1];
      TextPairsLength(IdsOf(vocab, toks), window, |toks|);
    }
  }

  /** A word of text t is a word of the whole corpus. */
  lemma TokenInCorpus(docs: seq<seq<string>>, t: nat, k: nat)
    requires t < |docs| && k < |docs[t]|
    ensures docs[t][k] in Vocabulary(docs)
  {
    var toks := docs[t];
    assert docs == docs[..t] + ([docs[t]] + docs[t + 1..]);
    AllTokensAppend(docs[..t], [docs[t]] + docs[t + 1..]);
    AllTokensAppend([docs[t]], docs[t + 1..]);
    assert [docs[t]][..0] == [];
    assert AllTokens([docs[t]]) == toks;
    var all := AllTokens(docs);
    assert all[|AllTokens(docs[..t])| + k] == toks[k];
    DedupFacts(all);
  }

  /** Every key is ordered and names two vocabulary ids. */
  lemma PairIdsInRange(docs: seq<seq<string>>, window: int, p: Key)
    requires p in Pairs(docs, window)
    ensures p.0 <= p.1 < |Vocabulary(docs)|
  {
    var vocab := Vocabulary(docs);
    PairsStayInText(vocab, docs, window, p);
    var t :| 0 <= t < |docs| && p in PairsOfText(vocab, docs[t], window);
    var toks := docs[t];
    var ids := IdsOf(vocab, toks);
    TextPairsMembers(ids, window, |toks|, p);
    var a, b :| a < |toks| && CountedAt(|ids|, window, a, b) && p == KeyOf(ids[a], ids[b]);
    TokenInCorpus(docs, t, a);
    TokenInCorpus(docs, t, b);
    assert ids[a] == IndexOf(vocab, toks[a]) && ids[b] == IndexOf(vocab, toks[b]);
  }

  /** A word repeated within the window gives a self-loop key (a, a). */
  lemma SelfLoop(ids: seq<nat>, window: int, a: nat, b: nat)
    requires CountedAt(|ids|, window, a, b) && ids[a] == ids[b]
    ensures (ids[a], ids[a]) in TextPairs(ids, window, |ids|)
  {
    TextPairsMembers(ids, window, |ids|, (ids[a], ids[a]));
    assert KeyOf(ids[a], ids[b]) == (ids[a], ids[a]);
  }

  // ---------------------------------------------------------------------------
  // Nodes and edges

  /** `Node` and `Edge`; the source's float weights hold whole numbers here, and
      `caption` stands for the field `label` (a reserved word in Dafny). */
  datatype Node = Node(id: string, caption: string, weight: int)
  datatype Edge = Edge(id: string, source: string, target: string, weight: int)

  /** `vocab.OrderByDescending(kv => kv.Value).Select(...)`: one node per
      word, the highest id first, weight 1. */
  function NodesOf(vocab: seq<string>): (nodes: seq<Node>)
    ensures |nodes| == |vocab|
  {
    NodesBelow(vocab, |vocab|)
  }

  /** The nodes of ids n - 1 down to 0. */
  function NodesBelow(vocab: seq<string>, n: nat): (nodes: seq<Node>)
    requires n <= |vocab|
    ensures |nodes| == n
  {
    if n == 0 then []
    else [Node(NatToString(n - 1), vocab[n - 1], 1)] + NodesBelow(vocab, n - 1)
  }

  /** The edge of one key: id "a-b", source a, target b. */
  function EdgeOf(key: Key, weight: nat): Edge {
    Edge(NatToString(key.0) + "-" + NatToString(key.1), NatToString(key.0), NatToString(key.1), weight)
  }

  /** One edge per key of `keys`, weighted by its number of occurrences. */
  function EdgesFor(keys: seq<Key>, counts: multiset<Key>): (edges: seq<Edge>)
    ensures |edges| == |keys|
  {
    seq(|keys|, k requires 0 <= k < |keys| => EdgeOf(keys[k], counts[keys[k]]))
  }

  /** The edges of a list of counted keys: each distinct key once, in order
      of its first count, weighted by how often it was counted. */
  function Edges(pairs: seq<Key>): seq<Edge> {
    EdgesFor(Dedup(pairs), multiset(pairs))
  }

  /** Node ids count down from |vocab| - 1 to 0, so they are distinct. */
  lemma NodeIds(vocab: seq<string>, k: nat)
    requires k < |vocab|
    ensures var id := NodesOf(vocab)[k].id;
      (forall i :: 0 <= i < |id| ==> '0' <= id[i] <= '9') && DigitsValue(id) == |vocab| - 1 - k
  {
    var m := |vocab| - 1 - k;
    NodesOfAt(vocab, k);
    assert NodesOf(vocab)[k].id == NatToString(m);
    NatToStringValue(m);
  }

  /** Distinct words give distinct labels. */
  lemma NodesOfDistinct(vocab: seq<string>)
    requires Distinct(vocab)
    ensures var nodes := NodesOf(vocab);
      forall i, j :: 0 <= i < j < |nodes| ==> nodes[i].caption != nodes[j].caption
  {
    var nodes := NodesOf(vocab);
    var n := |vocab|;
    forall i, j | 0 <= i < j < n ensures nodes[i].caption != nodes[j].caption {
      NodesOfAt(vocab, i);
      NodesOfAt(vocab, j);
      assert vocab[n - 1 - j] != vocab[n - 1 - i];
    }
  }

  /** The labels are the words. */
  lemma NodesOfCaptions(vocab: seq<string>, w: string)
    ensures w in vocab <==> exists k :: 0 <= k < |NodesOf(vocab)| && NodesOf(vocab)[k].caption == w
  {
    var nodes := NodesOf(vocab);
    var n := |vocab|;
    if w in vocab {
      var i :| 0 <= i < n && vocab[i] == w;
      NodesOfAt(vocab, n - 1 - i);
      assert nodes[n - 1 - i].caption == w;
    }
    if exists k :: 0 <= k < n && nodes[k].caption == w {
      var k :| 0 <= k < n && nodes[k].caption == w;
      NodesOfAt(vocab, k);
      assert vocab[n - 1 - k] == w;
    }
  }

  /** The node labels are the words of the texts, each exactly once. */
  lemma NodeLabels(docs: seq<seq<string>>)
    ensures var nodes := NodesOf(Vocabulary(docs));
      && (forall i, j :: 0 <= i < j < |nodes| ==> nodes[i].caption != nodes[j].caption)
      && (forall w :: w in AllTokens(docs) <==> exists k :: 0 <= k < |nodes| && nodes[k].caption == w)
  {
    var all := AllTokens(docs);
    DedupFacts(all);
    NodesOfDistinct(Dedup(all));
    forall w ensures w in all <==> exists k :: 0 <= k < |NodesOf(Dedup(all))| && NodesOf(Dedup(all))[k].caption == w {
      DedupMembers(all, w);
      NodesOfCaptions(Dedup(all), w);
    }
  }

  /** Ids follow first appearance: a smaller id's word occurs first earlier
      in the texts, taken in order. */
  lemma VocabularyOrder(docs: seq<seq<string>>, i: nat, j: nat)
    requires i < j < |Vocabulary(docs)|
    ensures IndexOf(AllTokens(docs), Vocabulary(docs)[i]) < IndexOf(AllTokens(docs), Vocabulary(docs)[j])
  {
    DedupFirstAppearance(AllTokens(docs), i, j);
  }

  function SumWeights(edges: seq<Edge>): int {
    if edges == [] then 0 else SumWeights(edges[..|edges| - 1]) + edges[|edges| - 1].weight
  }

  lemma {:induction false} SumWeightsFor(keys: seq<Key>, counts: multiset<Key>)
    ensures SumWeights(EdgesFor(keys, counts)) == SumCounts(keys, counts)
  {
    if keys != [] {
      var p := keys[..|keys| - 1];
      SumWeightsFor(p, counts);
      var es := EdgesFor(keys, counts);
      assert es[..|es| - 1] == EdgesFor(p, counts);
    }
  }

  /** Each counted pair adds one to one edge: the weights add up to the
      number of keys counted. */
  lemma EdgeWeightsSum(pairs: seq<Key>)
    ensures SumWeights(Edges(pairs)) == |pairs|
  {
    SumWeightsFor(Dedup(pairs), multiset(pairs));
    SumCountsDedup(pairs);
  }

  /** One edge per counted key and no other: edge k is the k-th distinct key,
      ordered smaller id first, with the number of times it was counted. */
  lemma EdgesAre(docs: seq<seq<string>>, window: int)
    ensures var pairs := Pairs(docs, window);
      var es := Edges(pairs);
      && (forall k :: 0 <= k < |es| ==>
            Dedup(pairs)[k] in pairs && Dedup(pairs)[k].0 <= Dedup(pairs)[k].1 < |Vocabulary(docs)|
            && multiset(pairs)[Dedup(pairs)[k]] >= 1
            && es[k] == EdgeOf(Dedup(pairs)[k], multiset(pairs)[Dedup(pairs)[k]]))
      && (forall key :: key in pairs ==> exists k :: 0 <= k < |es| && es[k] == EdgeOf(key, multiset(pairs)[key]))
  {
    var pairs := Pairs(docs, window);
    var d := Dedup(pairs);
    DedupFacts(pairs);
    forall k | 0 <= k < |d|
      ensures d[k] in pairs && d[k].0 <= d[k].1 < |Vocabulary(docs)| && multiset(pairs)[d[k]] >= 1
    {
      PairIdsInRange(docs, window, d[k]);
    }
    forall key | key in pairs
      ensures exists k :: 0 <= k < |Edges(pairs)| && Edges(pairs)[k] == EdgeOf(key, multiset(pairs)[key])
    {
      var i :| 0 <= i < |pairs| && pairs[i] == key;
      var k :| 0 <= k < |d| && d[k] == key;
      assert Edges(pairs)[k] == EdgeOf(key, multiset(pairs)[key]);
    }
  }

  /** With `window <= 1` the graph has no edge. */
  lemma SmallWindowNoEdges(docs: seq<seq<string>>, window: int)
    requires window <= 1
    ensures Edges(Pairs(docs, window)) == []
  {
    SmallWindowNoPairs(Vocabulary(docs), docs, window);
  }

  // ---------------------------------------------------------------------------
  // BuildCoOccurrence

  /** `vocab` maps each distinct word of `seen` to its position in `keys`,
      the words in order of first appearance (the dictionary's insertion
      order), and `idSeq` is the next free id. */
  ghost predicate Registered(vocab: map<string, nat>, keys: seq<string>, idSeq: nat, seen: seq<string>) {
    && keys == Dedup(seen)
    && idSeq == |keys|
    && (forall w :: w in vocab <==> w in keys)
    && (forall k :: 0 <= k < |keys| ==> keys[k] in vocab && vocab[keys[k]] == k)
  }

  /** `co` holds how often each key of `pairs` was counted and `coKeys` the
      keys in order of their first count. */
  ghost predicate Counted(co: map<Key, nat>, coKeys: seq<Key>, pairs: seq<Key>) {
    co == Tally(pairs) && coKeys == Dedup(pairs)
  }

  /** `if (!vocab.TryGetValue(w, out var a)) vocab[w] = a = idSeq++;` */
  method Register(vocab0: map<string, nat>, keys0: seq<string>, idSeq0: nat, w: string, ghost seen: seq<string>)
    returns (vocab: map<string, nat>, keys: seq<string>, idSeq: nat, id: nat)
    requires Registered(vocab0, keys0, idSeq0, seen)
    ensures Registered(vocab, keys, idSeq, seen + [w])
    ensures id == IndexOf(keys, w) < |keys|
  {
    DedupFacts(seen);
    if w in vocab0 {
      vocab, keys, idSeq, id := vocab0, keys0, idSeq0, vocab0[w];
      var k :| 0 <= k < |keys| && keys[k] == w;
      IndexOfDistinct(keys, k);
      assert w in seen;
      assert keys == Dedup(seen + [w]) by {
        DedupSnoc(seen, w);
      }
    } else {
      assert w !in seen;
      id := idSeq0;
      vocab := vocab0[w := id];
      keys := keys0 + [w];
      idSeq := idSeq0 + 1;
      assert keys == Dedup(seen + [w]) by {
        DedupSnoc(seen, w);
      }
      forall k | 0 <= k < |keys| ensures keys[k] in vocab && vocab[keys[k]] == k {
        if k < |keys0| {
          assert keys[k] == keys0[k] && keys0[k] in vocab0;
        }
      }
      IndexOfDistinct(keys, id);
    }
  }

  /** Registers word j of a text. `reach` is how far into the text words have
      been registered so far; the id handed back is the word's id in the
      vocabulary of the whole corpus, because ids never change once given. */
  method RegisterAt(vocab0: map<string, nat>, keys0: seq<string>, idSeq0: nat, tokens: seq<string>, j: nat,
                    ghost before: seq<string>, ghost reach: nat, ghost later: seq<string>)
    returns (vocab: map<string, nat>, keys: seq<string>, idSeq: nat, id: nat, ghost reach': nat)
    requires j < |tokens| && j <= reach <= |tokens|
    requires Registered(vocab0, keys0, idSeq0, before + tokens[..reach])
    ensures reach' == if reach == j then j + 1 else reach
    ensures Registered(vocab, keys, idSeq, before + tokens[..reach'])
    ensures id == IndexOf(Dedup(before + tokens + later), tokens[j])
  {
    ghost var seen := before + tokens[..reach];
    vocab, keys, idSeq, id := Register(vocab0, keys0, idSeq0, tokens[j], seen);
    if j < reach {
      reach' := reach;
      assert seen[|before| + j] == tokens[j];
      DedupSnoc(seen, tokens[j]);
    } else {
      reach' := j + 1;
      PrefixSnoc(before, tokens, j);
    }
    ghost var now := before + tokens[..reach'];
    assert now[|before| + j] == tokens[j];
    PrefixRest(before, tokens, reach', later);
    IndexOfDedupStable(now, tokens[reach'..] + later, tokens[j]);
  }

  lemma RowSnoc(ids: seq<nat>, i: nat, j: nat)
    requires i < j < |ids|
    ensures Row(ids, i, j + 1) == Row(ids, i, j) + [KeyOf(ids[i], ids[j])]
  {
  }

  /** The outer loop over the words of one text. `before` are the words of
      the earlier texts and `later` those of the later ones. */
  method CountText(vocab0: map<string, nat>, keys0: seq<string>, idSeq0: nat,
                   co0: map<Key, nat>, coKeys0: seq<Key>, tokens: seq<string>, window: int,
                   ghost before: seq<string>, ghost later: seq<string>, ghost pairs0: seq<Key>)
    returns (vocab: map<string, nat>, keys: seq<string>, idSeq: nat, co: map<Key, nat>, coKeys: seq<Key>)
    requires Registered(vocab0, keys0, idSeq0, before)
    requires Counted(co0, coKeys0, pairs0)
    ensures Registered(vocab, keys, idSeq, before + tokens)
    ensures Counted(co, coKeys, pairs0 + PairsOfText(Dedup(before + tokens + later), tokens, window))
  {
    ghost var ids := IdsOf(Dedup(before + tokens + later), tokens);
    vocab, keys, idSeq, co, coKeys := vocab0, keys0, idSeq0, co0, coKeys0;
    ghost var reach := 0;
    assert before + tokens[..0] == before;
    assert pairs0 + TextPairs(ids, window, 0) == pairs0;
    for i := 0 to |tokens|
      invariant i <= reach <= |tokens|
      invariant Registered(vocab, keys, idSeq, before + tokens[..reach])
      invariant Counted(co, coKeys, pairs0 + TextPairs(ids, window, i))
    {
      vocab, keys, idSeq, co, coKeys, reach :=
        CountWord(vocab, keys, idSeq, co, coKeys, tokens, i, window, before, later, reach, pairs0);
    }
    assert tokens[..|tokens|] == tokens;
  }

  /** One round of the outer loop: word i is registered and paired with the
      words after it. */
  method CountWord(vocab0: map<string, nat>, keys0: seq<string>, idSeq0: nat,
                   co0: map<Key, nat>, coKeys0: seq<Key>, tokens: seq<string>, i: nat, window: int,
                   ghost before: seq<string>, ghost later: seq<string>, ghost reach0: nat, ghost pairs0: seq<Key>)
    returns (vocab: map<string, nat>, keys: seq<string>, idSeq: nat, co: map<Key, nat>, coKeys: seq<Key>,
             ghost reach: nat)
    requires i < |tokens| && i <= reach0 <= |tokens|
    requires Registered(vocab0, keys0, idSeq0, before + tokens[..reach0])
    requires Counted(co0, coKeys0, pairs0 + TextPairs(IdsOf(Dedup(before + tokens + later), tokens), window, i))
    ensures i + 1 <= reach <= |tokens|
    ensures Registered(vocab, keys, idSeq, before + tokens[..reach])
    ensures Counted(co, coKeys, pairs0 + TextPairs(IdsOf(Dedup(before + tokens + later), tokens), window, i + 1))
  {
    ghost var ids := IdsOf(Dedup(before + tokens + later), tokens);
    var a;
    vocab, keys, idSeq, a, reach := RegisterAt(vocab0, keys0, idSeq0, tokens, i, before, reach0, later);
    vocab, keys, idSeq, co, coKeys, reach :=
      CountRow(vocab, keys, idSeq, co0, coKeys0, tokens, i, a, window, before, later, reach, pairs0 + TextPairs(ids, window, i));
    AppendAssoc(pairs0, TextPairs(ids, window, i), Row(ids, i, RowEnd(|ids|, i, window)));
  }

  /** The inner loop: word i, whose id is `a`, against the words after it
      up to `Math.Min(tokens.Count, i + window)`. */
  method CountRow(vocab0: map<string, nat>, keys0: seq<string>, idSeq0: nat,
                  co0: map<Key, nat>, coKeys0: seq<Key>, tokens: seq<string>, i: nat, a: nat, window: int,
                  ghost before: seq<string>, ghost later: seq<string>, ghost reach0: nat, ghost pairs0: seq<Key>)
    returns (vocab: map<string, nat>, keys: seq<string>, idSeq: nat, co: map<Key, nat>, coKeys: seq<Key>,
             ghost reach: nat)
    requires i < |tokens| && i + 1 <= reach0 <= |tokens|
    requires a == IndexOf(Dedup(before + tokens + later), tokens[i])
    requires Registered(vocab0, keys0, idSeq0, before + tokens[..reach0])
    requires Counted(co0, coKeys0, pairs0)
    ensures i + 1 <= reach <= |tokens|
    ensures Registered(vocab, keys, idSeq, before + tokens[..reach])
    ensures Counted(co, coKeys, pairs0 + Row(IdsOf(Dedup(before + tokens + later), tokens), i, RowEnd(|tokens|, i, window)))
  {
    ghost var ids := IdsOf(Dedup(before + tokens + later), tokens);
    vocab, keys, idSeq, co, coKeys, reach := vocab0, keys0, idSeq0, co0, coKeys0, reach0;
    assert pairs0 + Row(ids, i, i + 1) == pairs0;
    var end := if |tokens| < i + window then |tokens| else i + window;
    var j := i + 1;
    while j < end
      invariant i + 1 <= j <= reach <= |tokens|
      invariant j == i + 1 || j <= end
      invariant Registered(vocab, keys, idSeq, before + tokens[..reach])
      invariant Counted(co, coKeys, pairs0 + Row(ids, i, j))
      decreases end - j
    {
      vocab, keys, idSeq, co, coKeys, reach :=
        CountPairAt(vocab, keys, idSeq, co, coKeys, tokens, i, a, j, before, later, reach, pairs0);
      j := j + 1;
    }
    assert end == RowEnd(|ids|, i, window);
    if end <= i + 1 {
      assert j == i + 1 && Row(ids, i, j) == [] == Row(ids, i, end);
    } else {
      assert j == end;
    }
  }

  /** One round of the inner loop: word j is registered and the pair of
      words i and j is counted. */
  method CountPairAt(vocab0: map<string, nat>, keys0: seq<string>, idSeq0: nat,
                     co0: map<Key, nat>, coKeys0: seq<Key>, tokens: seq<string>, i: nat, a: nat, j: nat,
                     ghost before: seq<string>, ghost later: seq<string>, ghost reach0: nat, ghost pairs0: seq<Key>)
    returns (vocab: map<string, nat>, keys: seq<string>, idSeq: nat, co: map<Key, nat>, coKeys: seq<Key>,
             ghost reach: nat)
    requires i < j < |tokens| && j <= reach0 <= |tokens|
    requires a == IndexOf(Dedup(before + tokens + later), tokens[i])
    requires Registered(vocab0, keys0, idSeq0, before + tokens[..reach0])
    requires Counted(co0, coKeys0, pairs0 + Row(IdsOf(Dedup(before + tokens + later), tokens), i, j))
    ensures j + 1 <= reach <= |tokens|
    ensures Registered(vocab, keys, idSeq, before + tokens[..reach])
    ensures Counted(co, coKeys, pairs0 + Row(IdsOf(Dedup(before + tokens + later), tokens), i, j + 1))
  {
    ghost var ids := IdsOf(Dedup(before + tokens + later), tokens);
    var b;
    vocab, keys, idSeq, b, reach := RegisterAt(vocab0, keys0, idSeq0, tokens, j, before, reach0, later);
    var key := if a < b then (a, b) else (b, a);
    assert key == KeyOf(ids[i], ids[j]);
    co, coKeys := CountOne(co0, coKeys0, key, pairs0 + Row(ids, i, j));
    RowSnoc(ids, i, j);
    AppendAssoc(pairs0, Row(ids, i, j), [key]);
  }

  /** Cuts the corpus around text t. */
  lemma SplitAt(docs: seq<seq<string>>, t: nat)
    requires t < |docs|
    ensures AllTokens(docs[..t + 1]) == AllTokens(docs[..t]) + docs[t]
    ensures AllTokens(docs) == AllTokens(docs[..t]) + docs[t] + AllTokens(docs[t + 1..])
  {
    CutAfter(docs, t);
    var upTo := docs[..t + 1];
    assert AllTokens(upTo) == AllTokens(upTo[..t]) + upTo[t];
    AllTokensAppend(upTo, docs[t + 1..]);
  }

  /** The loop over the texts: afterwards the vocabulary holds every word of
      the corpus and the counts every key of every text. */
  method CountCorpus(docs: seq<seq<string>>, window: int)
    returns (vocab: map<string, nat>, keys: seq<string>, idSeq: nat, co: map<Key, nat>, coKeys: seq<Key>)
    ensures Registered(vocab, keys, idSeq, AllTokens(docs))
    ensures Counted(co, coKeys, Pairs(docs, window))
  {
    ghost var vocabulary := Vocabulary(docs);
    vocab, keys, idSeq, co, coKeys := map[], [], 0, map[], [];
    ghost var pairs: seq<Key> := [];
    for t := 0 to |docs|
      invariant Registered(vocab, keys, idSeq, AllTokens(docs[..t]))
      invariant pairs == PairsIn(vocabulary, docs[..t], window)
      invariant Counted(co, coKeys, pairs)
    {
      SplitAt(docs, t);
      assert docs[..t + 1][..t] == docs[..t];
      vocab, keys, idSeq, co, coKeys :=
        CountText(vocab, keys, idSeq, co, coKeys, docs[t], window, AllTokens(docs[..t]), AllTokens(docs[t + 1..]), pairs);
      pairs := pairs + PairsOfText(vocabulary, docs[t], window);
    }
    assert docs[..|docs|] == docs;
  }

  /** `vocab.OrderByDescending(kv => kv.Value).Select(kv => new Node(kv.Value.ToString(), kv.Key, 1))`
      over a dictionary whose keys, in insertion order, are `keys`. */
  function NodeList(vocab: map<string, nat>, keys: seq<string>): (nodes: seq<Node>)
    requires forall k :: 0 <= k < |keys| ==> keys[k] in vocab
    ensures |nodes| == |keys|
  {
    var n := |keys|;
    seq(n, k requires 0 <= k < n => Node(NatToString(vocab[keys[n - 1 - k]]), keys[n - 1 - k], 1))
  }

  /** `co.Select(kv => new Edge(...))` in the dictionary's order. */
  function EdgeList(co: map<Key, nat>, coKeys: seq<Key>): (edges: seq<Edge>)
    requires forall k :: 0 <= k < |coKeys| ==> coKeys[k] in co
    ensures |edges| == |coKeys|
  {
    seq(|coKeys|, k requires 0 <= k < |coKeys| => EdgeOf(coKeys[k], co[coKeys[k]]))
  }

  lemma {:induction false} NodesBelowAt(vocab: seq<string>, n: nat, k: nat)
    requires k < n <= |vocab|
    ensures NodesBelow(vocab, n)[k] == Node(NatToString(n - 1 - k), vocab[n - 1 - k], 1)
  {
    if k > 0 {
      NodesBelowAt(vocab, n - 1, k - 1);
    }
  }

  lemma NodesOfAt(vocab: seq<string>, k: nat)
    requires k < |vocab|
    ensures NodesOf(vocab)[k] == Node(NatToString(|vocab| - 1 - k), vocab[|vocab| - 1 - k], 1)
  {
    NodesBelowAt(vocab, |vocab|, k);
  }

  /** Since every word's id is its insertion position, ordering by descending
      id is the reverse of insertion order, and the vocabulary's nodes come out. */
  lemma RegisteredNodes(vocab: map<string, nat>, keys: seq<string>, idSeq: nat, seen: seq<string>)
    requires Registered(vocab, keys, idSeq, seen)
    ensures forall k :: 0 <= k < |keys| ==> keys[k] in vocab
    ensures NodeList(vocab, keys) == NodesOf(Dedup(seen))
  {
    var n := |keys|;
    var nodes := NodeList(vocab, keys);
    forall k | 0 <= k < n ensures nodes[k] == NodesOf(keys)[k] {
      var w := keys[n - 1 - k];
      assert vocab[w] == n - 1 - k;
      NodesOfAt(keys, k);
    }
  }

  /** The counts dictionary, enumerated, is the list of edges of the pairs. */
  lemma CountedEdges(co: map<Key, nat>, coKeys: seq<Key>, pairs: seq<Key>)
    requires Counted(co, coKeys, pairs)
    ensures forall k :: 0 <= k < |coKeys| ==> coKeys[k] in co
    ensures EdgeList(co, coKeys) == Edges(pairs)
  {
    TallyCounts(pairs);
    DedupFacts(pairs);
    forall k | 0 <= k < |coKeys| ensures coKeys[k] in co {
      var i :| 0 <= i < |pairs| && pairs[i] == coKeys[k];
    }
  }

  /** BuildCoOccurrence: the nodes are the vocabulary, highest id first; the
      edges are the counted keys in order of first count, each weighted by
      its count. */
  method BuildCoOccurrence(texts: seq<string>, window: int) returns (nodes: seq<Node>, edges: seq<Edge>)
    ensures nodes == NodesOf(Vocabulary(WordLists(texts)))
    ensures edges == Edges(Pairs(WordLists(texts), window))
  {
    var docs: seq<seq<string>> := [];
    for t := 0 to |texts|
      invariant docs == WordLists(texts[..t])
    {
      docs := docs + [Tokens(texts[t])];
    }
    assert texts[..|texts|] == texts;
    var vocab, vocabKeys, idSeq, co, coKeys := CountCorpus(docs, window);
    ghost var pairs := Pairs(docs, window);
    RegisteredNodes(vocab, vocabKeys, idSeq, AllTokens(docs));
    CountedEdges(co, coKeys, pairs);
    nodes := NodeList(vocab, vocabKeys);
    edges := EdgeList(co, coKeys);
  }
}
