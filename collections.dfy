/** Sequence helpers for the insertion-ordered dictionaries of the source:
    first-appearance order (the key order of a .NET Dictionary or a JavaScript
    Map that only ever grows), first index, and counting. */
module Collections {

  lemma AppendAssoc<T>(a: seq<T>, b: seq<T>, c: seq<T>)
    ensures (a + b) + c == a + (b + c)
  {
  }

  /** A prefix of `t` extended by one element. */
  lemma PrefixSnoc<T>(x: seq<T>, t: seq<T>, j: nat)
    requires j < |t|
    ensures x + t[..j + 1] == (x + t[..j]) + [t[j]]
  {
    assert t[..j + 1] == t[..j] + [t[j]];
    AppendAssoc(x, t[..j], [t[j]]);
  }

  /** Cutting `t` at `k` and putting it back together. */
  lemma PrefixRest<T>(x: seq<T>, t: seq<T>, k: nat, y: seq<T>)
    requires k <= |t|
    ensures (x + t[..k]) + (t[k..] + y) == (x + t) + y
  {
    assert t[..k] + t[k..] == t;
    AppendAssoc(x + t[..k], t[k..], y);
    AppendAssoc(x, t[..k], t[k..]);
  }

  /** Cutting `s` just after position `t`. */
  lemma CutAfter<T>(s: seq<T>, t: nat)
    requires t < |s|
    ensures |s[..t + 1]| == t + 1 && s[..t + 1][..t] == s[..t] && s[..t + 1][t] == s[t]
    ensures s == s[..t + 1] + s[t + 1..]
  {
  }

  predicate Distinct<T(==)>(s: seq<T>) {
    forall i, j :: 0 <= i < j < |s| ==> s[i] != s[j]
  }

  /** The elements of `s`, each once, in order of first appearance. */
  function Dedup<T(==)>(s: seq<T>): (d: seq<T>)
    ensures |d| <= |s|
  {
    if s == [] then []
    else
      var p := s[..|s| - 1];
      assert s == p + [s[|s| - 1]];
      var d := Dedup(p);
      if s[|s| - 1] in d then d else d + [s[|s| - 1]]
  }

  /** Dedup keeps every element and only those, each once. */
  lemma {:induction false} DedupFacts<T>(s: seq<T>)
    ensures forall i :: 0 <= i < |s| ==> s[i] in Dedup(s)
    ensures forall i :: 0 <= i < |Dedup(s)| ==> Dedup(s)[i] in s
    ensures Distinct(Dedup(s))
  {
    if s != [] {
      var p := s[..|s| - 1];
      var x := s[|s| - 1];
      assert s == p + [x];
      DedupFacts(p);
      forall i | 0 <= i < |s| ensures s[i] in Dedup(s) {
        if i < |p| {
          assert s[i] == p[i];
        }
      }
    }
  }

  /** The same elements, as a membership test. */
  lemma DedupMembers<T>(s: seq<T>, x: T)
    ensures x in Dedup(s) <==> x in s
  {
    DedupFacts(s);
    if x in s {
      var i :| 0 <= i < |s| && s[i] == x;
    }
  }

  lemma DedupSnoc<T>(s: seq<T>, x: T)
    ensures Dedup(s + [x]) == if x in s then Dedup(s) else Dedup(s) + [x]
  {
    var t := s + [x];
    assert t[..|t| - 1] == s && t[|t| - 1] == x;
    assert x in Dedup(s) <==> x in s by {
      DedupFacts(s);
    }
  }

  /** What has been registered never changes when more elements arrive. */
  lemma {:induction false} DedupPrefix<T>(s: seq<T>, t: seq<T>)
    ensures |Dedup(s)| <= |Dedup(s + t)| && Dedup(s + t)[..|Dedup(s)|] == Dedup(s)
  {
    if t != [] {
      var t' := t[..|t| - 1];
      DedupPrefix(s, t');
      var y := t[|t| - 1];
      assert s + t == (s + t') + [y];
      DedupSnoc(s + t', y);
      var a := Dedup(s + t');
      assert (a + [y])[..|Dedup(s)|] == a[..|Dedup(s)|];
    } else {
      assert s + t == s;
    }
  }

  /** The first position of `x` in `s`, or `|s|` when it does not occur. */
  function IndexOf<T(==)>(s: seq<T>, x: T): (k: nat)
    ensures k <= |s| && (k < |s| ==> s[k] == x) && forall i :: 0 <= i < k ==> s[i] != x
    ensures k == |s| <==> x !in s
  {
    if s == [] then 0 else if s[0] == x then 0 else 1 + IndexOf(s[1..], x)
  }

  lemma IndexOfDistinct<T>(s: seq<T>, k: nat)
    requires Distinct(s) && k < |s|
    ensures IndexOf(s, s[k]) == k
  {
  }

  lemma IndexOfPrefix<T>(s: seq<T>, t: seq<T>, x: T)
    requires x in s
    ensures IndexOf(s + t, x) == IndexOf(s, x)
  {
    var k := IndexOf(s, x);
    assert (s + t)[k] == x;
    var k' := IndexOf(s + t, x);
    assert k' <= k;
  }

  /** Positions once handed out stay put: an element already registered
      keeps its index however many elements follow. */
  lemma IndexOfDedupStable<T>(r: seq<T>, rest: seq<T>, x: T)
    requires x in r
    ensures IndexOf(Dedup(r + rest), x) == IndexOf(Dedup(r), x)
  {
    var d := Dedup(r);
    var e := Dedup(r + rest);
    var i :| 0 <= i < |r| && r[i] == x;
    DedupFacts(r);
    assert x in d;
    DedupPrefix(r, rest);
    var k := IndexOf(d, x);
    assert e[k] == d[k];
    forall i | 0 <= i < k ensures e[i] != x {
      assert e[i] == d[i];
    }
  }

  /** Dedup's order is first-appearance order: an element registered earlier
      first occurs earlier in the input. */
  lemma {:induction false} DedupFirstAppearance<T>(s: seq<T>, i: nat, j: nat)
    requires i < j < |Dedup(s)|
    ensures IndexOf(s, Dedup(s)[i]) < IndexOf(s, Dedup(s)[j])
  {
    var p := s[..|s| - 1];
    var x := s[|s| - 1];
    assert s == p + [x];
    DedupSnoc(p, x);
    DedupFacts(p);
    var d := Dedup(p);
    if j < |d| {
      DedupFirstAppearance(p, i, j);
      IndexOfPrefix(p, [x], d[i]);
      IndexOfPrefix(p, [x], d[j]);
    } else {
      // d[j] is x, the new last element; it did not occur in p.
      assert Dedup(s)[j] == x && x !in p;
      IndexOfPrefix(p, [x], d[i]);
      assert IndexOf(s, x) == |p|;
    }
  }

  /** The count of every element, as a dictionary updated by
      `m[k] = m.GetValueOrDefault(k) + 1` for each element in turn. */
  function Tally<K(==)>(s: seq<K>): map<K, nat> {
    if s == [] then map[]
    else
      var m := Tally(s[..|s| - 1]);
      var x := s[|s| - 1];
      m[x := (if x in m then m[x] else 0) + 1]
  }

  /** The dictionary holds exactly the elements seen, each with its number
      of occurrences. */
  lemma {:induction false} TallyCounts<K>(s: seq<K>)
    ensures forall i :: 0 <= i < |s| ==> s[i] in Tally(s)
    ensures forall k :: k in Tally(s) ==> k in s && Tally(s)[k] == multiset(s)[k]
  {
    if s != [] {
      var p := s[..|s| - 1];
      var x := s[|s| - 1];
      assert s == p + [x];
      TallyCounts(p);
      assert multiset(s) == multiset(p) + multiset{x};
      forall i | 0 <= i < |s| ensures s[i] in Tally(s) {
        if i < |p| {
          assert s[i] == p[i];
        }
      }
    }
  }

  lemma TallySnoc<K>(s: seq<K>, x: K)
    ensures Tally(s + [x]) == Tally(s)[x := (if x in Tally(s) then Tally(s)[x] else 0) + 1]
  {
    assert (s + [x])[..|s|] == s;
  }

  /** The sum of the counts of `ks` in the multiset `ms`. */
  function SumCounts<K(==)>(ks: seq<K>, ms: multiset<K>): nat {
    if ks == [] then 0 else SumCounts(ks[..|ks| - 1], ms) + ms[ks[|ks| - 1]]
  }

  lemma {:induction false} SumCountsAdd<K>(ks: seq<K>, ms: multiset<K>, x: K)
    requires Distinct(ks)
    ensures SumCounts(ks, ms + multiset{x}) == SumCounts(ks, ms) + (if x in ks then 1 else 0)
  {
    if ks != [] {
      var p := ks[..|ks| - 1];
      assert ks == p + [ks[|ks| - 1]];
      SumCountsAdd(p, ms, x);
      assert x in ks <==> x in p || x == ks[|ks| - 1];
    }
  }

  lemma SumCountsSnoc<K>(ks: seq<K>, k: K, ms: multiset<K>)
    ensures SumCounts(ks + [k], ms) == SumCounts(ks, ms) + ms[k]
  {
    assert (ks + [k])[..|ks|] == ks;
  }

  /** Counting every distinct element once recovers the length: the weights of
      a tally add up to the number of elements tallied. */
  lemma {:induction false} SumCountsDedup<K>(s: seq<K>)
    ensures SumCounts(Dedup(s), multiset(s)) == |s|
  {
    if s != [] {
      var p := s[..|s| - 1];
      var x := s[|s| - 1];
      assert s == p + [x];
      SumCountsDedup(p);
      DedupSnoc(p, x);
      DedupFacts(p);
      SumCountsAdd(Dedup(p), multiset(p), x);
      assert multiset(s) == multiset(p) + multiset{x};
      if x !in p {
        SumCountsSnoc(Dedup(p), x, multiset(s));
        assert multiset(p)[x] == 0;
      }
    }
  }

  /** One count on a dictionary whose keys, in insertion order, are `ks`:
      `m[k] = m.GetValueOrDefault(k) + 1` in C#, `m.set(k, (m.get(k) || 0) + 1)`
      in JavaScript. A new key joins the end of the order. */
  method CountOne<K>(m0: map<K, nat>, ks0: seq<K>, k: K, ghost s: seq<K>) returns (m: map<K, nat>, ks: seq<K>)
    requires m0 == Tally(s) && ks0 == Dedup(s)
    ensures m == Tally(s + [k]) && ks == Dedup(s + [k])
  {
    assert k in m0 <==> k in s by {
      TallyCounts(s);
      if k in s {
        var i :| 0 <= i < |s| && s[i] == k;
      }
    }
    ks := if k in m0 then ks0 else ks0 + [k];
    m := m0[k := (if k in m0 then m0[k] else 0) + 1];
    assert m == Tally(s + [k]) by {
      TallySnoc(s, k);
    }
    assert ks == Dedup(s + [k]) by {
      DedupSnoc(s, k);
    }
  }

  /** `s.filter(p)`: the elements that pass, in their order. */
  function Filter<T>(s: seq<T>, p: T -> bool): (r: seq<T>)
    ensures |r| <= |s|
  {
    if s == [] then []
    else Filter(s[..|s| - 1], p) + (if p(s[|s| - 1]) then [s[|s| - 1]] else [])
  }

  lemma FilterSingle<T>(x: T, p: T -> bool)
    ensures Filter([x], p) == if p(x) then [x] else []
  {
    assert [x][..0] == [];
  }

  /** An element is kept exactly when it occurs and passes. */
  lemma {:induction false} FilterMembers<T>(s: seq<T>, p: T -> bool)
    ensures forall x :: x in Filter(s, p) <==> x in s && p(x)
  {
    if s != [] {
      var init := s[..|s| - 1];
      assert s == init + [s[|s| - 1]];
      FilterMembers(init, p);
    }
  }

  /** Filtering commutes with concatenation, so it keeps the order. */
  lemma {:induction false} FilterAppend<T>(a: seq<T>, b: seq<T>, p: T -> bool)
    ensures Filter(a + b, p) == Filter(a, p) + Filter(b, p)
    decreases |b|
  {
    if b == [] {
      assert a + b == a;
    } else {
      var init := b[..|b| - 1];
      var x := b[|b| - 1];
      assert (a + b)[..|a + b| - 1] == a + init;
      FilterAppend(a, init, p);
      AppendAssoc(Filter(a, p), Filter(init, p), if p(x) then [x] else []);
    }
  }

  /** Nothing is dropped when everything passes. */
  lemma {:induction false} FilterAll<T>(s: seq<T>, p: T -> bool)
    requires forall i :: 0 <= i < |s| ==> p(s[i])
    ensures Filter(s, p) == s
  {
    if s != [] {
      var init := s[..|s| - 1];
      assert s == init + [s[|s| - 1]];
      FilterAll(init, p);
    }
  }

  /** Without its last element a distinct sequence stays distinct and no
      longer holds that element. */
  lemma DistinctInit<T>(s: seq<T>)
    requires Distinct(s) && s != []
    ensures Distinct(s[..|s| - 1]) && s[|s| - 1] !in s[..|s| - 1]
  {
    var init := s[..|s| - 1];
    forall i | 0 <= i < |init| ensures init[i] != s[|s| - 1] {
      assert init[i] == s[i];
    }
  }

  /** Without its first element a distinct sequence stays distinct and no
      longer holds that element. */
  lemma DistinctTail<T>(s: seq<T>)
    requires Distinct(s) && s != []
    ensures Distinct(s[1..]) && s[0] !in s[1..]
  {
    var rest := s[1..];
    forall i | 0 <= i < |rest| ensures rest[i] != s[0] {
      assert rest[i] == s[i + 1];
    }
  }

  /** Of two distinct elements that pass, the same one comes first before
      and after filtering. */
  lemma {:induction false} FilterKeepsOrder<T>(s: seq<T>, p: T -> bool, a: T, b: T)
    requires Distinct(s) && a in s && b in s && p(a) && p(b)
    ensures a in Filter(s, p) && b in Filter(s, p)
    ensures IndexOf(s, a) < IndexOf(s, b) <==> IndexOf(Filter(s, p), a) < IndexOf(Filter(s, p), b)
  {
    var init := s[..|s| - 1];
    var z := s[|s| - 1];
    assert s == init + [z];
    var f := Filter(init, p);
    var tail := if p(z) then [z] else [];
    assert Filter(s, p) == f + tail;
    FilterMembers(init, p);
    DistinctInit(s);
    if a != z && b != z {
      FilterKeepsOrder(init, p, a, b);
      IndexOfPrefix(init, [z], a);
      IndexOfPrefix(init, [z], b);
      IndexOfPrefix(f, tail, a);
      IndexOfPrefix(f, tail, b);
    } else if a != z {
      IndexOfPrefix(init, [z], a);
      IndexOfPrefix(f, tail, a);
      assert IndexOf(s, z) == |init|;
      assert IndexOf(f + tail, z) == |f|;
    } else if b != z {
      IndexOfPrefix(init, [z], b);
      IndexOfPrefix(f, tail, b);
      assert IndexOf(s, z) == |init|;
      assert IndexOf(f + tail, z) == |f|;
    }
  }
}
