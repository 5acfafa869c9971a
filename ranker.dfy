// `search_chunks`: score every chunk against the question, sort the
// `(score, chunk)` pairs in descending order and keep the first `top_k` texts.
module Ranker {
  import opened Numbers
  import opened Strings

  /** Keywords whose presence in a chunk raises its score. */
  const BoostKeywords: seq<string> :=
    ["ภาษา C", "ฟังก์ชัน", "ตัวแปร", "โครงสร้าง", "พัฒนา", "เกิดขึ้น", "ค.ศ.", "Ritchie", "BCPL"]

  /** What one keyword found in a chunk adds to its score. */
  const Boost: real := 0.08

  /** How many chunks the answer step asks for. */
  const DefaultTopK: int := 8

  /** A similarity measure between two strings; `difflib`'s ratio is one, and
      the model treats it as an arbitrary function into [0, 1]. */
  type Similarity = (string, string) -> real

  ghost predicate IsRatio(ratio: Similarity)
  {
    forall a, b :: 0.0 <= ratio(a, b) <= 1.0
  }

  // ---------------------------------------------------------------------
  // Scores
  // ---------------------------------------------------------------------

  /** How many of `kws` occur in `c`, case-sensitively, counted once each. */
  function Hits(kws: seq<string>, c: string): (n: nat)
    ensures n <= |kws|
  {
    if kws == [] then 0
    else Hits(kws[..|kws| - 1], c) + (if Contains(c, kws[|kws| - 1]) then 1 else 0)
  }

  predicate Distinct(kws: seq<string>)
  {
    forall i, j :: 0 <= i < j < |kws| ==> kws[i] != kws[j]
  }

  lemma BoostKeywordsDistinct()
    ensures Distinct(BoostKeywords)
  {
  }

  /** The distinct keywords of `kws` that occur in `c`. */
  ghost function Found(kws: seq<string>, c: string): set<string>
  {
    set kw | kw in kws && Contains(c, kw)
  }

  lemma FoundSnoc(init: seq<string>, last: string, c: string)
    ensures Found(init + [last], c) == Found(init, c) + (if Contains(c, last) then {last} else {})
  {
    var kws := init + [last];
    forall kw ensures kw in kws <==> kw in init || kw == last {
      if kw in kws {
        var i :| 0 <= i < |kws| && kws[i] == kw;
        if i < |init| { assert init[i] == kw; }
      }
    }
  }

  /** For a list without repeats, `Hits` is the number of distinct keywords
      that occur in the chunk. */
  lemma {:induction false} HitsIsCount(kws: seq<string>, c: string)
    requires Distinct(kws)
    ensures Hits(kws, c) == |Found(kws, c)|
  {
    if kws != [] {
      var init := kws[..|kws| - 1];
      var last := kws[|kws| - 1];
      assert Distinct(init);
      HitsIsCount(init, c);
      assert kws == init + [last];
      FoundSnoc(init, last, c);
      assert last !in init;
      assert last !in Found(init, c);
    }
  }

  /** The score `search_chunks` gives chunk `c` for `query`: the similarity of
      the lower-cased texts plus one boost per keyword found in the chunk. */
  function ScoreOf(ratio: Similarity, query: string, c: string): real
  {
    ratio(Lower(query), Lower(c)) + Boost * Hits(BoostKeywords, c) as real
  }

  /** A score is the similarity plus 0.08 per distinct keyword in the chunk,
      so it lies between that boost and 1 above it, and below 1.72 overall. */
  lemma ScoreBounds(ratio: Similarity, query: string, c: string)
    requires IsRatio(ratio)
    ensures var boost := Boost * |Found(BoostKeywords, c)| as real;
      && ScoreOf(ratio, query, c) == ratio(Lower(query), Lower(c)) + boost
      && boost <= ScoreOf(ratio, query, c) <= 1.0 + boost
      && 0.0 <= ScoreOf(ratio, query, c) <= 1.0 + Boost * |BoostKeywords| as real
  {
    BoostKeywordsDistinct();
    HitsIsCount(BoostKeywords, c);
    assert 0.0 <= ratio(Lower(query), Lower(c)) <= 1.0;
  }

  /** The scoring loop of `search_chunks` for one chunk. */
  method KeywordScore(query: string, c: string, ratio: Similarity) returns (score: real)
    ensures score == ScoreOf(ratio, query, c)
  {
    score := ratio(Lower(query), Lower(c));
    for i := 0 to |BoostKeywords|
      invariant score == ratio(Lower(query), Lower(c)) + Boost * Hits(BoostKeywords[..i], c) as real
    {
      assert BoostKeywords[..i + 1][..i] == BoostKeywords[..i];
      if Contains(c, BoostKeywords[i]) {
        score := score + Boost;
      }
    }
    assert BoostKeywords[..|BoostKeywords|] == BoostKeywords;
  }

  // ---------------------------------------------------------------------
  // The order of `(score, chunk)` pairs
  // ---------------------------------------------------------------------

  datatype Scored = Scored(score: real, text: string)

  /** `x >= y` for Python tuples: by score, then by chunk text. */
  predicate Geq(x: Scored, y: Scored)
  {
    x.score > y.score || (x.score == y.score && TextLe(y.text, x.text))
  }

  lemma GeqTotal(x: Scored, y: Scored)
    ensures Geq(x, y) || Geq(y, x)
  {
    TextLeTotal(x.text, y.text);
  }

  lemma GeqAntisymmetric(x: Scored, y: Scored)
    requires Geq(x, y) && Geq(y, x)
    ensures x == y
  {
    TextLeAntisymmetric(x.text, y.text);
  }

  lemma GeqTransitive(x: Scored, y: Scored, z: Scored)
    requires Geq(x, y) && Geq(y, z)
    ensures Geq(x, z)
  {
    if x.score == y.score == z.score {
      TextLeTransitive(z.text, y.text, x.text);
    }
  }

  /** Non-increasing, as `sort(reverse=True)` leaves the list. */
  predicate Sorted(s: seq<Scored>)
  {
    forall i, j :: 0 <= i < j < |s| ==> Geq(s[i], s[j])
  }

  function Insert(x: Scored, s: seq<Scored>): seq<Scored>
  {
    if s == [] || Geq(x, s[0]) then [x] + s else [s[0]] + Insert(x, s[1..])
  }

  /** The descending order of a list of pairs, by insertion. */
  function SortDesc(s: seq<Scored>): seq<Scored>
  {
    if s == [] then [] else Insert(s[0], SortDesc(s[1..]))
  }

  lemma {:induction false} InsertSorted(x: Scored, s: seq<Scored>)
    requires Sorted(s)
    ensures multiset(Insert(x, s)) == multiset(s) + multiset{x}
    ensures Sorted(Insert(x, s))
  {
    if s == [] {
    } else if Geq(x, s[0]) {
      forall k | 0 <= k < |s| ensures Geq(x, s[k]) {
        if k > 0 {
          GeqTransitive(x, s[0], s[k]);
        }
      }
      ConsSorted(x, s);
    } else {
      GeqTotal(x, s[0]);
      var tail := Insert(x, s[1..]);
      InsertSorted(x, s[1..]);
      assert s == [s[0]] + s[1..];
      BoundAll(s[0], x, s[1..], tail);
      ConsSorted(s[0], tail);
    }
  }

  /** A list stays descending when a pair at least as large as all of it is
      put in front. */
  lemma ConsSorted(h: Scored, t: seq<Scored>)
    requires Sorted(t)
    requires forall j :: 0 <= j < |t| ==> Geq(h, t[j])
    ensures Sorted([h] + t)
  {
    var r := [h] + t;
    forall i, j | 0 <= i < j < |r| ensures Geq(r[i], r[j]) {
      if i == 0 {
        assert r[j] == t[j - 1];
      } else {
        assert r[i] == t[i - 1] && r[j] == t[j - 1];
      }
    }
  }

  /** A bound on every element of a list and on `x` bounds every element of a
      list that holds the same pairs plus `x`. */
  lemma BoundAll(h: Scored, x: Scored, s: seq<Scored>, t: seq<Scored>)
    requires Sorted([h] + s) && Geq(h, x)
    requires multiset(t) == multiset(s) + multiset{x}
    ensures forall j :: 0 <= j < |t| ==> Geq(h, t[j])
  {
    forall j | 0 <= j < |t| ensures Geq(h, t[j]) {
      assert t[j] in multiset(t);
      if t[j] != x {
        assert t[j] in multiset(s);
        var k :| 0 <= k < |s| && s[k] == t[j];
        assert ([h] + s)[0] == h && ([h] + s)[k + 1] == t[j];
      }
    }
  }

  lemma {:induction false} SortDescCorrect(s: seq<Scored>)
    ensures Sorted(SortDesc(s))
    ensures multiset(SortDesc(s)) == multiset(s)
  {
    if s != [] {
      SortDescCorrect(s[1..]);
      InsertSorted(s[0], SortDesc(s[1..]));
      assert s == [s[0]] + s[1..];
    }
  }

  /** Pairs are totally ordered, so a list has only one descending order: two
      sorted lists holding the same pairs are equal. */
  lemma {:induction false} SortedUnique(a: seq<Scored>, b: seq<Scored>)
    requires Sorted(a) && Sorted(b) && multiset(a) == multiset(b)
    ensures a == b
  {
    if a == [] {
      assert |b| == |multiset(b)| == 0;
    } else {
      assert |b| == |multiset(b)| > 0;
      if a[0] != b[0] {
        HeadIsGreatest(a, b[0]);
        HeadIsGreatest(b, a[0]);
        GeqAntisymmetric(a[0], b[0]);
      }
      DropHead(a);
      DropHead(b);
      SortedUnique(a[1..], b[1..]);
    }
  }

  lemma HeadIsGreatest(s: seq<Scored>, x: Scored)
    requires Sorted(s) && x in multiset(s) && x != s[0]
    ensures Geq(s[0], x)
  {
    var i :| 0 <= i < |s| && s[i] == x;
  }

  lemma DropHead(s: seq<Scored>)
    requires s != []
    ensures multiset(s[1..]) == multiset(s) - multiset{s[0]}
    ensures Sorted(s) ==> Sorted(s[1..])
  {
    assert s == [s[0]] + s[1..];
  }

  /** The first `n` elements of `a` are in descending order. */
  ghost predicate SortedPrefix(a: array<Scored>, n: int)
    reads a
  {
    forall p, q :: 0 <= p < q < n && q < a.Length ==> Geq(a[p], a[q])
  }

  /** `scored.sort(reverse=True)`: an in-place insertion sort. */
  method SortDescending(a: array<Scored>)
    modifies a
    ensures a[..] == SortDesc(old(a[..]))
  {
    for i := 0 to a.Length
      invariant SortedPrefix(a, i)
      invariant multiset(a[..]) == multiset(old(a[..]))
    {
      InsertAt(a, i);
    }
    assert Sorted(a[..]) by {
      forall p, q | 0 <= p < q < |a[..]| ensures Geq(a[..][p], a[..][q]) {
        assert Geq(a[p], a[q]);
      }
    }
    SortDescCorrect(old(a[..]));
    SortedUnique(a[..], SortDesc(old(a[..])));
  }

  /** One step of the insertion sort: move `a[i]` left past every smaller
      pair, so that the first `i + 1` elements are in order. */
  method InsertAt(a: array<Scored>, i: nat)
    requires i < a.Length && SortedPrefix(a, i)
    modifies a
    ensures SortedPrefix(a, i + 1)
    ensures multiset(a[..]) == multiset(old(a[..]))
    ensures multiset(a[..i + 1]) == multiset(old(a[..i + 1]))
    ensures a[i + 1..] == old(a[i + 1..])
  {
    var j := MoveLeft(a, i);
    PrefixMultiset(old(a[..]), a[..], i + 1);
    forall p, q | 0 <= p < q <= i ensures Geq(a[p], a[q]) {
      if q == j && p < j - 1 {
        GeqTransitive(a[p], a[j - 1], a[j]);
      }
    }
  }

  /** The swapping loop of one insertion step: `a[i]` moves left to `a[j]`,
      past every pair it beats, and stops below a pair that is at least it. */
  method MoveLeft(a: array<Scored>, i: nat) returns (j: nat)
    requires i < a.Length && SortedPrefix(a, i)
    modifies a
    ensures j <= i && (j == 0 || Geq(a[j - 1], a[j]))
    ensures forall p, q :: 0 <= p < q <= i && p != j && q != j ==> Geq(a[p], a[q])
    ensures forall q :: j < q <= i ==> Geq(a[j], a[q])
    ensures multiset(a[..]) == multiset(old(a[..]))
    ensures a[i + 1..] == old(a[i + 1..])
  {
    j := i;
    while j > 0 && !Geq(a[j - 1], a[j])
      invariant 0 <= j <= i
      invariant forall p, q :: 0 <= p < q <= i && p != j && q != j ==> Geq(a[p], a[q])
      invariant forall q :: j < q <= i ==> Geq(a[j], a[q])
      invariant multiset(a[..]) == multiset(old(a[..]))
      invariant a[i + 1..] == old(a[i + 1..])
    {
      GeqTotal(a[j - 1], a[j]);
      Swap(a, j - 1, j);
      j := j - 1;
    }
  }

  /** Two rearrangements of each other that agree from `n` on are
      rearrangements of each other up to `n`. */
  lemma PrefixMultiset<T>(s: seq<T>, t: seq<T>, n: nat)
    requires n <= |s| == |t| && multiset(s) == multiset(t) && s[n..] == t[n..]
    ensures multiset(s[..n]) == multiset(t[..n])
  {
    assert s == s[..n] + s[n..] && t == t[..n] + t[n..];
    assert multiset(s) == multiset(s[..n]) + multiset(s[n..]);
    assert multiset(t) == multiset(t[..n]) + multiset(t[n..]);
    assert multiset(s[..n]) == multiset(s) - multiset(s[n..]);
    assert multiset(t[..n]) == multiset(t) - multiset(t[n..]);
  }

  /** Exchanges two neighbouring elements. */
  method Swap(a: array<Scored>, x: nat, y: nat)
    requires x < y < a.Length
    modifies a
    ensures a[x] == old(a[y]) && a[y] == old(a[x])
    ensures forall k :: 0 <= k < a.Length && k != x && k != y ==> a[k] == old(a[k])
    ensures multiset(a[..]) == multiset(old(a[..]))
    ensures forall n :: y < n <= a.Length ==> a[n..] == old(a[n..])
  {
    a[x], a[y] := a[y], a[x];
  }

  // ---------------------------------------------------------------------
  // search_chunks
  // ---------------------------------------------------------------------

  /** The pair `search_chunks` builds for chunk `c`. */
  function Key(ratio: Similarity, query: string, c: string): Scored
  {
    Scored(ScoreOf(ratio, query, c), c)
  }

  function ScoreAll(ratio: Similarity, query: string, chunks: seq<string>): (r: seq<Scored>)
    ensures |r| == |chunks|
    ensures forall i :: 0 <= i < |chunks| ==> r[i] == Key(ratio, query, chunks[i])
  {
    seq(|chunks|, i requires 0 <= i < |chunks| => Key(ratio, query, chunks[i]))
  }

  /** `[c for _, c in pairs]` */
  function Texts(s: seq<Scored>): (r: seq<string>)
    ensures |r| == |s|
    ensures forall i :: 0 <= i < |s| ==> r[i] == s[i].text
  {
    seq(|s|, i requires 0 <= i < |s| => s[i].text)
  }

  /** Where the Python slice `xs[:k]` of a list of length `n` stops: a negative
      `k` counts from the end. */
  function SliceStop(n: nat, k: int): nat
  {
    if k >= 0 then Min(k, n) else Max(n + k, 0)
  }

  /** All chunks as `(score, chunk)` pairs in descending order. */
  function Ranking(ratio: Similarity, query: string, chunks: seq<string>): seq<Scored>
  {
    SortDesc(ScoreAll(ratio, query, chunks))
  }

  /** The result of `search_chunks(query, chunks, top_k)`. */
  function SearchResult(ratio: Similarity, query: string, chunks: seq<string>, topK: int): seq<string>
  {
    var ranked := Ranking(ratio, query, chunks);
    SortDescCorrect(ScoreAll(ratio, query, chunks));
    assert |ranked| == |multiset(ranked)| == |chunks|;
    Texts(ranked[..SliceStop(|chunks|, topK)])
  }

  /** `search_chunks` as written: a scoring loop, an in-place sort, a slice. */
  method SearchChunks(query: string, chunks: seq<string>, topK: int, ratio: Similarity)
    returns (result: seq<string>)
    ensures result == SearchResult(ratio, query, chunks, topK)
  {
    var scored: seq<Scored> := [];
    for i := 0 to |chunks|
      invariant |scored| == i
      invariant forall k :: 0 <= k < i ==> scored[k] == Key(ratio, query, chunks[k])
    {
      var score := KeywordScore(query, chunks[i], ratio);
      scored := scored + [Scored(score, chunks[i])];
    }
    assert scored == ScoreAll(ratio, query, chunks);
    var a := new Scored[|scored|](k requires 0 <= k < |scored| => scored[k]);
    assert a[..] == scored;
    SortDescending(a);
    result := Texts(a[..SliceStop(a.Length, topK)]);
  }

  // ---------------------------------------------------------------------
  // What the ranking promises
  // ---------------------------------------------------------------------

  /** Every pair of the ranking is the key of one of the chunks, and the
      ranking holds the same pairs as the scored list. */
  lemma RankingFacts(ratio: Similarity, query: string, chunks: seq<string>)
    ensures var ranked := Ranking(ratio, query, chunks);
      && Sorted(ranked)
      && multiset(ranked) == multiset(ScoreAll(ratio, query, chunks))
      && |ranked| == |chunks|
      && forall i :: 0 <= i < |ranked| ==>
           ranked[i].text in chunks && ranked[i] == Key(ratio, query, ranked[i].text)
  {
    var all := ScoreAll(ratio, query, chunks);
    var ranked := Ranking(ratio, query, chunks);
    SortDescCorrect(all);
    assert |ranked| == |multiset(ranked)| == |chunks|;
    forall i | 0 <= i < |ranked|
      ensures ranked[i].text in chunks && ranked[i] == Key(ratio, query, ranked[i].text)
    {
      assert ranked[i] in multiset(all);
      var k :| 0 <= k < |all| && all[k] == ranked[i];
    }
  }

  /** The result has `min(top_k, len(chunks))` texts for a non-negative
      `top_k`; a negative `top_k` drops that many from the end instead. No
      chunks, no result. */
  lemma SearchLength(ratio: Similarity, query: string, chunks: seq<string>, topK: int)
    ensures var r := SearchResult(ratio, query, chunks, topK);
      && (topK >= 0 ==> |r| == Min(topK, |chunks|))
      && (topK < 0 ==> |r| == Max(|chunks| + topK, 0))
      && (chunks == [] ==> r == [])
  {
    RankingFacts(ratio, query, chunks);
  }

  /** Every returned text is one of the chunks. */
  lemma SearchMembership(ratio: Similarity, query: string, chunks: seq<string>, topK: int)
    ensures forall x :: x in SearchResult(ratio, query, chunks, topK) ==> x in chunks
  {
    RankingFacts(ratio, query, chunks);
  }

  /** The result is in descending `(score, text)` order: an earlier chunk has
      a higher score, or the same score and a text that is not smaller. */
  lemma SearchOrdered(ratio: Similarity, query: string, chunks: seq<string>, topK: int)
    ensures var r := SearchResult(ratio, query, chunks, topK);
      forall i, j :: 0 <= i < j < |r| ==>
        ScoreOf(ratio, query, r[i]) > ScoreOf(ratio, query, r[j])
        || (ScoreOf(ratio, query, r[i]) == ScoreOf(ratio, query, r[j]) && TextLe(r[j], r[i]))
  {
    var ranked := Ranking(ratio, query, chunks);
    RankingFacts(ratio, query, chunks);
    var r := SearchResult(ratio, query, chunks, topK);
    forall i, j | 0 <= i < j < |r|
      ensures Geq(Key(ratio, query, r[i]), Key(ratio, query, r[j]))
    {
      assert r[i] == ranked[i].text && r[j] == ranked[j].text;
    }
  }

  /** Nothing left out outranks anything kept: a chunk absent from the result
      has a `(score, text)` pair no greater than that of any returned chunk. */
  lemma SearchKeepsBest(ratio: Similarity, query: string, chunks: seq<string>, topK: int)
    ensures var r := SearchResult(ratio, query, chunks, topK);
      forall c, i :: c in chunks && c !in r && 0 <= i < |r| ==>
        Geq(Key(ratio, query, r[i]), Key(ratio, query, c))
  {
    var ranked := Ranking(ratio, query, chunks);
    RankingFacts(ratio, query, chunks);
    var r := SearchResult(ratio, query, chunks, topK);
    forall c, i | c in chunks && c !in r && 0 <= i < |r|
      ensures Geq(Key(ratio, query, r[i]), Key(ratio, query, c))
    {
      var k := KeyInRanking(ratio, query, chunks, c);
      assert r[i] == ranked[i].text;
      assert ranked[k].text == c;
      assert forall j :: 0 <= j < |r| ==> r[j] == ranked[j].text;
    }
  }

  /** The key of every chunk has a place in the ranking. */
  lemma KeyInRanking(ratio: Similarity, query: string, chunks: seq<string>, c: string) returns (k: nat)
    requires c in chunks
    ensures k < |Ranking(ratio, query, chunks)| && Ranking(ratio, query, chunks)[k] == Key(ratio, query, c)
  {
    var all := ScoreAll(ratio, query, chunks);
    var ranked := Ranking(ratio, query, chunks);
    SortDescCorrect(all);
    var t :| 0 <= t < |chunks| && chunks[t] == c;
    assert all[t] == Key(ratio, query, c);
    assert Key(ratio, query, c) in multiset(ranked);
    k :| 0 <= k < |ranked| && ranked[k] == Key(ratio, query, c);
  }

  lemma {:induction false} TextsConcat(a: seq<Scored>, b: seq<Scored>)
    ensures Texts(a + b) == Texts(a) + Texts(b)
  {
  }

  /** Rearranging the pairs rearranges their texts. */
  lemma {:induction false} TextsPermutation(s: seq<Scored>, t: seq<Scored>)
    requires multiset(s) == multiset(t)
    ensures multiset(Texts(s)) == multiset(Texts(t))
    decreases |s|
  {
    if s == [] {
      assert |t| == |multiset(t)| == 0;
    } else {
      assert s[0] in multiset(t);
      var k :| 0 <= k < |t| && t[k] == s[0];
      var rest := RemoveAt(t, k);
      var tail := RemoveAt(s, 0);
      assert multiset(tail) == multiset(rest) by {
        assert multiset(tail) == multiset(s) - multiset{s[0]};
      }
      TextsPermutation(tail, rest);
    }
  }

  /** Taking out the pair at `k` takes out that pair and its text. */
  lemma RemoveAt(t: seq<Scored>, k: nat) returns (rest: seq<Scored>)
    requires k < |t|
    ensures |rest| == |t| - 1
    ensures multiset(t) == multiset(rest) + multiset{t[k]}
    ensures multiset(Texts(t)) == multiset(Texts(rest)) + multiset{t[k].text}
  {
    var a, b := t[..k], t[k + 1..];
    rest := a + b;
    assert t == a + [t[k]] + b;
    MultisetSplit(a, t[k], b);
    TextsConcat(a, [t[k]]);
    TextsConcat(a + [t[k]], b);
    TextsConcat(a, b);
    MultisetSplit(Texts(a), t[k].text, Texts(b));
  }

  lemma MultisetSplit<T>(a: seq<T>, x: T, b: seq<T>)
    ensures multiset(a + [x] + b) == multiset(a + b) + multiset{x}
  {
  }

  /** Asking for at least as many chunks as there are returns all of them,
      reordered. */
  lemma SearchPermutation(ratio: Similarity, query: string, chunks: seq<string>, topK: int)
    requires topK >= |chunks|
    ensures multiset(SearchResult(ratio, query, chunks, topK)) == multiset(chunks)
  {
    var all := ScoreAll(ratio, query, chunks);
    var ranked := Ranking(ratio, query, chunks);
    RankingFacts(ratio, query, chunks);
    assert ranked[..|chunks|] == ranked;
    TextsPermutation(ranked, all);
    assert Texts(all) == chunks;
  }

  /** A chunk that scores strictly higher than every other chunk comes first
      whenever at least one chunk is asked for. */
  lemma BestChunkFirst(ratio: Similarity, query: string, chunks: seq<string>, topK: int, best: string)
    requires best in chunks && topK >= 1
    requires forall c :: c in chunks && c != best ==> ScoreOf(ratio, query, c) < ScoreOf(ratio, query, best)
    ensures var r := SearchResult(ratio, query, chunks, topK);
      |r| >= 1 && r[0] == best
  {
    var r := SearchResult(ratio, query, chunks, topK);
    SearchLength(ratio, query, chunks, topK);
    SearchMembership(ratio, query, chunks, topK);
    SearchKeepsBest(ratio, query, chunks, topK);
    SearchOrdered(ratio, query, chunks, topK);
  }
}
