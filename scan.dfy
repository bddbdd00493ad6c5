/** The packer's token scan and frequency order: the loop over the matches of
    `/\b\w+\b/g` that records each distinct token once, in first-seen order,
    with its number of occurrences, and the stable sort by descending count. */
module Scan {
  import opened Text
  import opened Words

  predicate Distinct(s: seq<string>) {
    forall i, j :: 0 <= i < j < |s| ==> s[i] != s[j]
  }

  /** The index of the first occurrence of `t` in `s`. */
  function IndexOf(s: seq<string>, t: string): (k: nat)
    requires t in s
    ensures k < |s| && s[k] == t
    decreases |s|
  {
    if s[0] == t then 0 else 1 + IndexOf(s[1..], t)
  }

  /** No earlier element is `t`. */
  lemma {:induction false} IndexOfFirst(s: seq<string>, t: string, j: nat)
    requires t in s && j < IndexOf(s, t)
    ensures s[j] != t
    decreases |s|
  {
    if j > 0 {
      IndexOfFirst(s[1..], t, j - 1);
    }
  }

  /** The distinct elements of `ts`, each once, in order of first occurrence. */
  function FirstSeen(ts: seq<string>): (ds: seq<string>)
    ensures |ds| <= |ts|
    decreases |ts|
  {
    if ts == [] then []
    else
      var ds := FirstSeen(ts[..|ts| - 1]);
      var t := ts[|ts| - 1];
      if t in ds then ds else ds + [t]
  }

  /** FirstSeen lists every element of `ts` exactly once and nothing else. */
  lemma {:induction false} FirstSeenSpec(ts: seq<string>)
    ensures forall t :: t in FirstSeen(ts) <==> t in ts
    ensures Distinct(FirstSeen(ts))
    decreases |ts|
  {
    if ts != [] {
      var init, t := ts[..|ts| - 1], ts[|ts| - 1];
      FirstSeenSpec(init);
      assert ts == init + [t];
      assert forall u :: u in ts <==> u in init || u == t;
    }
  }

  /** FirstSeen lists the tokens in the order in which they first occur. */
  lemma {:induction false} FirstSeenOrder(ts: seq<string>, i: nat, j: nat)
    requires i < j < |FirstSeen(ts)|
    ensures FirstSeen(ts)[i] in ts && FirstSeen(ts)[j] in ts
    ensures IndexOf(ts, FirstSeen(ts)[i]) < IndexOf(ts, FirstSeen(ts)[j])
    decreases |ts|
  {
    FirstSeenSpec(ts);
    var ts' := ts[..|ts| - 1];
    var ds' := FirstSeen(ts');
    var t := ts[|ts| - 1];
    var ds := FirstSeen(ts);
    FirstSeenSpec(ts');
    assert ts == ts' + [t];
    IndexOfPrefix(ts', [t], ds[i]);
    if j < |ds'| {
      assert ds[i] == ds'[i] && ds[j] == ds'[j];
      IndexOfPrefix(ts', [t], ds[j]);
      FirstSeenOrder(ts', i, j);
    } else {
      assert ds[j] == t && t !in ts';
    }
  }

  lemma {:induction false} IndexOfPrefix(a: seq<string>, b: seq<string>, t: string)
    requires t in a
    ensures IndexOf(a + b, t) == IndexOf(a, t)
    decreases |a|
  {
    assert (a + b)[0] == a[0];
    if a[0] != t {
      assert (a + b)[1..] == a[1..] + b;
      IndexOfPrefix(a[1..], b, t);
    }
  }

  /** `wordCount.get(w) || 0`. */
  function CountOf(counts: map<string, nat>, w: string): (r: nat) {
    if w in counts then counts[w] else 0
  }

  /** The number of occurrences of each token of `code`. */
  function Counts(code: string): (counts: map<string, nat>)
    ensures forall w :: w in counts <==> w in Tokens(code)
    ensures forall w :: w in counts ==> counts[w] == multiset(Tokens(code))[w]
  {
    map w | w in Tokens(code) :: multiset(Tokens(code))[w]
  }

  lemma {:induction false} DistinctCount(a: seq<string>, x: string)
    requires Distinct(a)
    ensures multiset(a)[x] <= 1
    decreases |a|
  {
    if a != [] {
      var init := a[..|a| - 1];
      assert a == init + [a[|a| - 1]];
      DistinctCount(init, x);
      if x == a[|a| - 1] {
        assert x !in init;
      }
    }
  }

  /** A permutation has the same elements. */
  lemma {:induction false} PermutationMembers(a: seq<string>, b: seq<string>)
    requires multiset(a) == multiset(b)
    ensures forall t :: t in a <==> t in b
  {
    forall t ensures t in a <==> t in b {
      assert t in a <==> t in multiset(a);
      assert t in b <==> t in multiset(b);
    }
  }

  /** A permutation of distinct elements has distinct elements. */
  lemma {:induction false} DistinctPermutation(a: seq<string>, b: seq<string>)
    requires Distinct(a) && multiset(a) == multiset(b)
    ensures Distinct(b)
  {
    forall i, j | 0 <= i < j < |b| ensures b[i] != b[j] {
      if b[i] == b[j] {
        DistinctCount(a, b[i]);
        TwiceCount(b, i, j);
      }
    }
  }

  lemma {:induction false} TwiceCount(b: seq<string>, i: nat, j: nat)
    requires i < j < |b| && b[i] == b[j]
    ensures multiset(b)[b[i]] >= 2
  {
    assert b == b[..j] + b[j..];
    assert b[i] in b[..j] && b[j] in b[j..];
    assert multiset(b)[b[i]] == multiset(b[..j])[b[i]] + multiset(b[j..])[b[i]];
  }

  /** The counts the scan builds are the token counts. */
  lemma {:induction false} CountsUnique(code: string, m: map<string, nat>)
    requires CountsTokens(m, Tokens(code))
    ensures m == Counts(code)
  {
  }

  /** `m` maps each element of `ts` to its number of occurrences and maps
      nothing else. */
  ghost predicate CountsTokens(m: map<string, nat>, ts: seq<string>) {
    && (forall w :: w in m <==> w in ts)
    && (forall w :: w in m ==> m[w] == multiset(ts)[w])
  }

  /** The counts the scan has built after the matches `ts`: one more
      occurrence adds one to the count of its token. */
  function CountMap(ts: seq<string>): (m: map<string, nat>)
    ensures |m| <= |ts|
    decreases |ts|
  {
    if ts == [] then map[]
    else
      var m := CountMap(ts[..|ts| - 1]);
      var t := ts[|ts| - 1];
      m[t := CountOf(m, t) + 1]
  }

  /** The scan's counts are the numbers of occurrences. */
  lemma {:induction false} CountMapCounts(ts: seq<string>)
    ensures CountsTokens(CountMap(ts), ts)
    decreases |ts|
  {
    if ts != [] {
      var init, t := ts[..|ts| - 1], ts[|ts| - 1];
      CountMapCounts(init);
      CountStep(CountMap(init), init, t);
      assert ts == init + [t];
    }
  }

  /** The token scan over the matches of `/\b\w+\b/g` (Tokens(code)):
      `words` lists the distinct matches in first-seen order, and `wordCount`
      maps each to its number of occurrences. */
  method ScanWords(matches: seq<string>) returns (words: seq<string>, wordCount: map<string, nat>)
    ensures words == FirstSeen(matches)
    ensures wordCount == CountMap(matches)
  {
    words := [];
    wordCount := map[];
    ghost var seen: seq<string> := [];
    var i := 0;
    while i < |matches|
      invariant 0 <= i <= |matches|
      invariant seen == matches[..i]
      invariant words == FirstSeen(seen)
      invariant wordCount == CountMap(seen)
    {
      var word := matches[i];
      FirstSeenStep(seen, word);
      CountMapStep(seen, word);
      wordCount := wordCount[word := CountOf(wordCount, word) + 1];
      if word !in words {
        words := words + [word];
      }
      assert matches[..i + 1] == seen + [word];
      seen := seen + [word];
      i := i + 1;
    }
    assert matches[..i] == matches;
  }

  /** One more occurrence of `t` adds one to its count. */
  lemma {:induction false} CountStep(m: map<string, nat>, ts: seq<string>, t: string)
    requires CountsTokens(m, ts)
    ensures CountsTokens(m[t := CountOf(m, t) + 1], ts + [t])
  {
    var m', ts' := m[t := CountOf(m, t) + 1], ts + [t];
    assert multiset(ts') == multiset(ts) + multiset{t};
    forall w ensures w in m' <==> w in ts' {
      assert w in ts' <==> w in ts || w == t;
    }
  }

  lemma {:induction false} CountMapStep(ts: seq<string>, t: string)
    ensures CountMap(ts + [t]) == CountMap(ts)[t := CountOf(CountMap(ts), t) + 1]
  {
    var ts' := ts + [t];
    assert ts'[..|ts'| - 1] == ts;
  }

  /** One more token extends the first-seen list when it is new. */
  lemma {:induction false} FirstSeenStep(ts: seq<string>, t: string)
    ensures FirstSeen(ts + [t])
            == (if t in FirstSeen(ts) then FirstSeen(ts) else FirstSeen(ts) + [t])
  {
    var ts' := ts + [t];
    assert ts'[..|ts'| - 1] == ts;
  }

  // ---------------------------------------------------------------------
  // `words.sort((a, b) => count(b) - count(a))`: Array.prototype.sort is
  // stable, so the result is the stable sort by descending count.

  /** The count at `i` is at most the one before it. */
  predicate OrderedAt(s: seq<string>, counts: map<string, nat>, i: int) {
    0 < i < |s| ==> CountOf(counts, s[i - 1]) >= CountOf(counts, s[i])
  }

  /** Every token's count is at least the next one's. */
  predicate NonIncreasing(s: seq<string>, counts: map<string, nat>) {
    forall i :: 0 <= i < |s| ==> OrderedAt(s, counts, i)
  }

  /** In a non-increasing sequence every earlier count is at least every
      later one. */
  lemma {:induction false} NonIncreasingPair(s: seq<string>, counts: map<string, nat>, i: nat, j: nat)
    requires NonIncreasing(s, counts) && i <= j < |s|
    ensures CountOf(counts, s[i]) >= CountOf(counts, s[j])
    decreases j - i
  {
    if i < j {
      NonIncreasingPair(s, counts, i + 1, j);
      assert OrderedAt(s, counts, i + 1);
    }
  }

  /** The elements of `s` with count `k`, in their order in `s`. */
  function WithCount(s: seq<string>, counts: map<string, nat>, k: nat): (r: seq<string>)
    decreases |s|
  {
    if s == [] then []
    else (if CountOf(counts, s[0]) == k then [s[0]] else []) + WithCount(s[1..], counts, k)
  }

  /** Places `x` after every element whose count is at least its own. */
  function Insert(x: string, s: seq<string>, counts: map<string, nat>): (r: seq<string>)
    ensures |r| == |s| + 1
    decreases |s|
  {
    if s == [] || CountOf(counts, s[0]) < CountOf(counts, x) then [x] + s
    else [s[0]] + Insert(x, s[1..], counts)
  }

  /** Insert adds exactly `x`. */
  lemma {:induction false} InsertPermutes(x: string, s: seq<string>, counts: map<string, nat>)
    ensures multiset(Insert(x, s, counts)) == multiset(s) + multiset{x}
    decreases |s|
  {
    if s != [] && CountOf(counts, s[0]) >= CountOf(counts, x) {
      InsertPermutes(x, s[1..], counts);
      assert s == [s[0]] + s[1..];
    }
  }

  /** Insert keeps the order, and its first element is `x` or the first
      element of `s`. */
  lemma {:induction false} InsertSorted(x: string, s: seq<string>, counts: map<string, nat>)
    requires NonIncreasing(s, counts)
    ensures NonIncreasing(Insert(x, s, counts), counts)
    ensures Insert(x, s, counts)[0] == x || Insert(x, s, counts)[0] == s[0]
    decreases |s|
  {
    if s == [] || CountOf(counts, s[0]) < CountOf(counts, x) {
      NonIncreasingCons(x, s, counts);
    } else {
      NonIncreasingTail(s, counts);
      InsertSorted(x, s[1..], counts);
      assert OrderedAt(s, counts, 1);
      NonIncreasingCons(s[0], Insert(x, s[1..], counts), counts);
    }
  }

  lemma {:induction false} NonIncreasingCons(h: string, t: seq<string>, counts: map<string, nat>)
    requires NonIncreasing(t, counts)
    requires t != [] ==> CountOf(counts, t[0]) <= CountOf(counts, h)
    ensures NonIncreasing([h] + t, counts)
  {
    var r := [h] + t;
    forall i | 0 <= i < |r| ensures OrderedAt(r, counts, i) {
      if 1 < i < |r| {
        assert OrderedAt(t, counts, i - 1);
        assert r[i] == t[i - 1] && r[i - 1] == t[i - 2];
      }
    }
  }

  lemma {:induction false} NonIncreasingTail(s: seq<string>, counts: map<string, nat>)
    requires s != [] && NonIncreasing(s, counts)
    ensures NonIncreasing(s[1..], counts)
  {
    var s' := s[1..];
    forall i | 0 <= i < |s'| ensures OrderedAt(s', counts, i) {
      if 0 < i < |s'| {
        assert OrderedAt(s, counts, i + 1);
        assert s'[i - 1] == s[i] && s'[i] == s[i + 1];
      }
    }
  }

  /** The stable descending sort, by insertion. */
  function SortByCount(ws: seq<string>, counts: map<string, nat>): (r: seq<string>)
    ensures |r| == |ws|
    decreases |ws|
  {
    if ws == [] then []
    else Insert(ws[|ws| - 1], SortByCount(ws[..|ws| - 1], counts), counts)
  }

  /** The sort returns its input in non-increasing count order. */
  lemma {:induction false} SortByCountSorted(ws: seq<string>, counts: map<string, nat>)
    ensures NonIncreasing(SortByCount(ws, counts), counts)
    decreases |ws|
  {
    if ws != [] {
      var init := ws[..|ws| - 1];
      SortByCountSorted(init, counts);
      InsertSorted(ws[|ws| - 1], SortByCount(init, counts), counts);
    }
  }

  /** The sort returns a permutation of its input. */
  lemma {:induction false} SortByCountPermutes(ws: seq<string>, counts: map<string, nat>)
    ensures multiset(SortByCount(ws, counts)) == multiset(ws)
    decreases |ws|
  {
    if ws != [] {
      var init, x := ws[..|ws| - 1], ws[|ws| - 1];
      SortByCountPermutes(init, counts);
      InsertPermutes(x, SortByCount(init, counts), counts);
      assert ws == init + [x];
    }
  }

  lemma {:induction false} WithCountConcat(a: seq<string>, b: seq<string>, counts: map<string, nat>, k: nat)
    ensures WithCount(a + b, counts, k) == WithCount(a, counts, k) + WithCount(b, counts, k)
    decreases |a|
  {
    if a == [] {
      assert a + b == b;
    } else {
      var ab := a + b;
      assert ab[0] == a[0] && ab[1..] == a[1..] + b;
      WithCountConcat(a[1..], b, counts, k);
    }
  }

  /** No element of a non-increasing sequence that starts below `k` has
      count `k`. */
  lemma {:induction false} WithCountNone(s: seq<string>, counts: map<string, nat>, k: nat)
    requires NonIncreasing(s, counts)
    requires s != [] ==> CountOf(counts, s[0]) < k
    ensures WithCount(s, counts, k) == []
    decreases |s|
  {
    if s != [] {
      NonIncreasingTail(s, counts);
      assert OrderedAt(s, counts, 1);
      WithCountNone(s[1..], counts, k);
    }
  }

  /** Inserting `x` adds it after the elements of its own count. */
  lemma {:induction false} InsertWithCount(x: string, s: seq<string>, counts: map<string, nat>, k: nat)
    requires NonIncreasing(s, counts)
    ensures WithCount(Insert(x, s, counts), counts, k)
            == WithCount(s, counts, k) + WithCount([x], counts, k)
    decreases |s|
  {
    if s == [] {
      assert Insert(x, s, counts) == [x];
    } else if CountOf(counts, s[0]) < CountOf(counts, x) {
      InsertFront(x, s, counts, k);
    } else {
      var s' := s[1..];
      NonIncreasingTail(s, counts);
      InsertWithCount(x, s', counts, k);
      assert Insert(x, s, counts) == [s[0]] + Insert(x, s', counts);
      WithCountConcat([s[0]], Insert(x, s', counts), counts, k);
      WithCountConcat([s[0]], s', counts, k);
      assert s == [s[0]] + s';
    }
  }

  /** Inserting `x` in front of elements whose counts are all below its own. */
  lemma {:induction false} InsertFront(x: string, s: seq<string>, counts: map<string, nat>, k: nat)
    requires s != [] && NonIncreasing(s, counts)
    requires CountOf(counts, s[0]) < CountOf(counts, x)
    ensures WithCount(Insert(x, s, counts), counts, k)
            == WithCount(s, counts, k) + WithCount([x], counts, k)
  {
    assert Insert(x, s, counts) == [x] + s;
    WithCountConcat([x], s, counts, k);
    if CountOf(counts, x) == k {
      WithCountNone(s, counts, k);
    } else {
      assert [x][1..] == [];
      assert WithCount([x], counts, k) == [];
    }
  }

  /** The sort is stable: the tokens that share a count keep their relative
      order. */
  lemma {:induction false} SortByCountStable(ws: seq<string>, counts: map<string, nat>, k: nat)
    ensures WithCount(SortByCount(ws, counts), counts, k) == WithCount(ws, counts, k)
    decreases |ws|
  {
    if ws != [] {
      var init := ws[..|ws| - 1];
      SortByCountStable(init, counts, k);
      SortByCountSorted(init, counts);
      InsertWithCount(ws[|ws| - 1], SortByCount(init, counts), counts, k);
      assert ws == init + [ws[|ws| - 1]];
      WithCountConcat(init, [ws[|ws| - 1]], counts, k);
    }
  }
}
