/**
 * Reading the co-occurrence network and counters in
 * public/data/slash_data-main/an_tp_test.py: the min-weight score of a word
 * set, the problem-word pairs found around a keyword, the candidate pairs
 * for the time series and the evenly spaced periods whose networks are kept.
 */
module Selection {
  import opened Common
  import opened Ids
  import opened CoOccurrence

  // ---------------------------------------------------------------- helpers

  /** The greatest element of a non-empty finite set. */
  function SetMax(s: set<int>): (m: int)
    requires s != {}
    ensures m in s && forall x :: x in s ==> x <= m
  {
    assert exists y :: y in s by {
      if forall y :: y !in s {
        assert false;
      }
    }
    var negated := set y | y in s :: -y;
    assert forall y :: y in s ==> -y in negated;
    -SetMin(negated)
  }

  /** No element occurs twice. */
  predicate NoDup<T(==)>(s: seq<T>)
  {
    forall i, j :: 0 <= i < j < |s| ==> s[i] != s[j]
  }

  // ---------------------------------------------------------------- _score_set

  /** Python's truthiness of an optional word: present and non-empty. */
  predicate Given(t: Option<string>)
  {
    t.Some? && t.value != ""
  }

  /** Every edge the score needs is present: keyword–problem (for a given keyword) and problem–problem. */
  predicate AllEdges(g: Graph, teguchi: Option<string>, ps: seq<string>)
  {
    && (Given(teguchi) ==> forall k :: 0 <= k < |ps| ==> HasEdge(g, teguchi.value, ps[k]))
    && (forall i, j :: 0 <= i < j < |ps| ==> HasEdge(g, ps[i], ps[j]))
  }

  /** The weights of the keyword–problem edges. */
  function KeywordWeights(g: Graph, t: string, ps: seq<string>): set<int>
    requires forall k :: 0 <= k < |ps| ==> HasEdge(g, t, ps[k])
  {
    set k | 0 <= k < |ps| :: Weight(g, t, ps[k]) as int
  }

  /** The weights of all the needed edges. */
  function Needed(g: Graph, teguchi: Option<string>, ps: seq<string>): set<int>
    requires AllEdges(g, teguchi, ps)
  {
    (if Given(teguchi) then KeywordWeights(g, teguchi.value, ps) else {}) + PairWeights(g, ps)
  }

  /** The weights of the problem–problem edges, one per pair of positions. */
  function PairWeights(g: Graph, ps: seq<string>): set<int>
    requires forall i, j :: 0 <= i < j < |ps| ==> HasEdge(g, ps[i], ps[j])
  {
    set i, j | 0 <= i < j < |ps| :: Weight(g, ps[i], ps[j]) as int
  }

  /** The edges at a word. */
  function Incident(g: Graph, p: string): set<Pair>
  {
    set q | q in g && (q.0 == p || q.1 == p)
  }

  /** The fallback: the heaviest edge at a word, 0 when it has none. */
  function NeighbourMax(g: Graph, p: string): (r: int)
    ensures r >= 0
    ensures forall q :: q in Incident(g, p) ==> g[q] <= r
    ensures r == 0 || exists q :: q in Incident(g, p) && g[q] == r
  {
    var ws := set q | q in Incident(g, p) :: g[q] as int;
    assert forall q :: q in Incident(g, p) ==> g[q] as int in ws;
    if ws == {} then 0
    else
      var m := SetMax(ws);
      if m < 0 then 0 else m
  }

  /**
   * `_score_set`: 0 when a needed edge is missing; otherwise the least
   * weight among the needed edges; with no edge needed at all, the heaviest
   * edge at the one problem word when no keyword is passed, and 0 otherwise.
   */
  ghost function Score(g: Graph, teguchi: Option<string>, ps: seq<string>): (r: int)
    ensures r >= 0
    ensures !AllEdges(g, teguchi, ps) ==> r == 0
  {
    if !AllEdges(g, teguchi, ps) then 0
    else
      var ws := Needed(g, teguchi, ps);
      if ws != {} then SetMin(ws)
      else if teguchi.None? && |ps| == 1 then NeighbourMax(g, ps[0])
      else 0
  }

  /** When every needed edge is there, the score is at most each needed weight and, when an edge is needed, equal to one of them. */
  lemma ScoreBounds(g: Graph, teguchi: Option<string>, ps: seq<string>)
    requires AllEdges(g, teguchi, ps)
    ensures Given(teguchi) ==> forall k :: 0 <= k < |ps| ==> Score(g, teguchi, ps) <= Weight(g, teguchi.value, ps[k])
    ensures forall i, j :: 0 <= i < j < |ps| ==> Score(g, teguchi, ps) <= Weight(g, ps[i], ps[j])
    ensures (Given(teguchi) && |ps| > 0) || |ps| > 1 ==>
      ((Given(teguchi) && exists k :: 0 <= k < |ps| && Score(g, teguchi, ps) == Weight(g, teguchi.value, ps[k]))
       || exists i, j :: 0 <= i < j < |ps| && Score(g, teguchi, ps) == Weight(g, ps[i], ps[j]))
  {
    var ws := Needed(g, teguchi, ps);
    assert Given(teguchi) ==> forall k :: 0 <= k < |ps| ==> Weight(g, teguchi.value, ps[k]) as int in ws;
    assert forall i, j :: 0 <= i < j < |ps| ==> Weight(g, ps[i], ps[j]) as int in ws;
    assert Given(teguchi) && |ps| > 0 ==> Weight(g, teguchi.value, ps[0]) as int in ws;
    assert |ps| > 1 ==> Weight(g, ps[0], ps[1]) as int in ws;
  }

  /** With one word and no keyword, the score is the weight of the word's heaviest edge. */
  lemma SingleWordScore(g: Graph, p: string)
    ensures Score(g, None, [p]) == NeighbourMax(g, p)
  {
    assert AllEdges(g, None, [p]);
  }

  /** The first loop of `_score_set`: the keyword–problem weights, or failure at the first missing edge. */
  method KeywordEdges(g: Graph, t: string, ps: seq<string>) returns (ok: bool, weights: seq<int>)
    ensures ok <==> forall k :: 0 <= k < |ps| ==> HasEdge(g, t, ps[k])
    ensures ok ==> forall x :: x in weights <==> x in KeywordWeights(g, t, ps)
  {
    weights := [];
    for k := 0 to |ps|
      invariant forall m :: 0 <= m < k ==> HasEdge(g, t, ps[m])
      invariant forall x :: x in weights <==> exists m :: 0 <= m < k && HasEdge(g, t, ps[m]) && x == Weight(g, t, ps[m])
    {
      if HasEdge(g, t, ps[k]) {
        weights := weights + [Weight(g, t, ps[k])];
      } else {
        return false, weights;
      }
    }
    ok := true;
  }

  /** The pairs (i, j) of `combinations(problems, 2)` for one i: the weights appended, or failure at a missing edge. */
  method PairRow(g: Graph, ps: seq<string>, i: nat, weights0: seq<int>) returns (ok: bool, weights: seq<int>)
    requires i < |ps|
    ensures ok <==> forall j :: i < j < |ps| ==> HasEdge(g, ps[i], ps[j])
    ensures ok ==> forall x :: x in weights <==>
      (x in weights0 || exists j :: i < j < |ps| && HasEdge(g, ps[i], ps[j]) && x == Weight(g, ps[i], ps[j]))
  {
    weights := weights0;
    for j := i + 1 to |ps|
      invariant forall b :: i < b < j ==> HasEdge(g, ps[i], ps[b])
      invariant forall x :: x in weights <==>
        (x in weights0 || exists b :: i < b < j && HasEdge(g, ps[i], ps[b]) && x == Weight(g, ps[i], ps[b]))
    {
      if HasEdge(g, ps[i], ps[j]) {
        weights := weights + [Weight(g, ps[i], ps[j])];
      } else {
        return false, weights;
      }
    }
    ok := true;
  }

  /** The loop over `combinations(problems, 2)`: the weights appended, or failure at the first missing edge. */
  method PairEdges(g: Graph, ps: seq<string>, weights0: seq<int>) returns (ok: bool, weights: seq<int>)
    ensures ok <==> forall i, j :: 0 <= i < j < |ps| ==> HasEdge(g, ps[i], ps[j])
    ensures ok ==> forall x :: x in weights <==> x in weights0 || x in PairWeights(g, ps)
  {
    weights := weights0;
    for i := 0 to |ps|
      invariant forall a, b :: 0 <= a < i && a < b < |ps| ==> HasEdge(g, ps[a], ps[b])
      invariant forall x :: x in weights <==> (x in weights0 ||
        exists a, b :: 0 <= a < i && a < b < |ps| && HasEdge(g, ps[a], ps[b]) && x == Weight(g, ps[a], ps[b]))
    {
      ok, weights := PairRow(g, ps, i, weights);
      if !ok {
        return false, weights;
      }
    }
    ok := true;
  }

  /** `_score_set` as written: the weights collected in loops, with an early return for a missing edge. */
  method ScoreSet(g: Graph, teguchi: Option<string>, ps: seq<string>) returns (r: int)
    ensures r == Score(g, teguchi, ps)
  {
    var ok := true;
    var weights: seq<int> := [];
    if Given(teguchi) {
      ok, weights := KeywordEdges(g, teguchi.value, ps);
      if !ok {
        return 0;
      }
    }
    ghost var keyword := weights;
    assert Given(teguchi) ==> forall x :: x in keyword <==> x in KeywordWeights(g, teguchi.value, ps);
    ok, weights := PairEdges(g, ps, weights);
    if !ok {
      return 0;
    }
    ghost var ws := Needed(g, teguchi, ps);
    assert forall x :: x in weights <==> x in ws;
    assert (set x | x in weights) == ws;
    ScoreOfNeeded(g, teguchi, ps);
    if weights == [] {
      if teguchi.None? && |ps| == 1 {
        r := MaxIncident(g, ps[0]);
      } else {
        r := 0;
      }
    } else {
      assert weights[0] in ws;
      r := SetMin(set x | x in weights);
    }
  }

  /** The score once every needed edge is present, stated on the set of their weights. */
  lemma ScoreOfNeeded(g: Graph, teguchi: Option<string>, ps: seq<string>)
    requires AllEdges(g, teguchi, ps)
    ensures Needed(g, teguchi, ps) != {} ==> Score(g, teguchi, ps) == SetMin(Needed(g, teguchi, ps))
    ensures Needed(g, teguchi, ps) == {} ==>
      Score(g, teguchi, ps) == if teguchi.None? && |ps| == 1 then NeighbourMax(g, ps[0]) else 0
  {
  }

  /** The fallback loop over the word's edges, keeping the heaviest weight seen (starting from 0). */
  method MaxIncident(g: Graph, p: string) returns (maxw: int)
    ensures maxw == NeighbourMax(g, p)
  {
    maxw := 0;
    var edges := Incident(g, p);
    var todo := edges;
    while todo != {}
      invariant todo <= edges
      invariant maxw >= 0
      invariant forall q :: q in edges && q !in todo ==> g[q] <= maxw
      invariant maxw == 0 || exists q :: q in edges && g[q] == maxw
      decreases |todo|
    {
      var q :| q in todo;
      if g[q] > maxw {
        maxw := g[q];
      }
      todo := todo - {q};
    }
    var best := NeighbourMax(g, p);
    if best != 0 {
      var q :| q in edges && g[q] == best;
      assert best <= maxw;
    }
    if maxw != 0 {
      var q :| q in edges && g[q] == maxw;
      assert maxw <= best;
    }
  }

  // ---------------------------------------------------------------- extract_problem_sets_for_teguchi

  /** The sort key `G[t][n]["weight"]`. */
  function KeyWeight(g: Graph, t: string, n: string): int
  {
    Count(g, Sorted(t, n))
  }

  function ByWeight(g: Graph, t: string): string -> int
  {
    (n: string) => KeyWeight(g, t, n)
  }

  /** `not classifier.is_teguchi(n)`. */
  function NotKeyword(teguchiWords: set<string>): string -> bool
  {
    (n: string) => n !in teguchiWords
  }

  /** Heaviest first. */
  predicate Descending(key: string -> int, s: seq<string>)
  {
    forall i, j :: 0 <= i < j < |s| ==> key(s[i]) >= key(s[j])
  }

  /** One step of a stable descending sort: `x` goes after every element at least as heavy. */
  function InsertByWeight(key: string -> int, x: string, s: seq<string>): (r: seq<string>)
    requires Descending(key, s)
    ensures forall e :: e in r <==> e in s || e == x
    ensures Descending(key, r)
    ensures multiset(r) == multiset(s) + multiset{x}
  {
    if s == [] then [x]
    else
      var n := |s| - 1;
      assert s == s[..n] + [s[n]];
      if key(s[n]) >= key(x) then
        AppendLightest(key, s, x);
        s + [x]
      else
        var init := s[..n];
        var r := InsertByWeight(key, x, init);
        assert forall e :: e in init ==> key(e) >= key(s[n]);
        AppendLightest(key, r, s[n]);
        assert multiset(s) == multiset(init) + multiset{s[n]};
        r + [s[n]]
  }

  /** A word no heavier than the last of a descending list can follow it. */
  lemma AppendLightest(key: string -> int, s: seq<string>, y: string)
    requires Descending(key, s)
    requires s != [] ==> key(s[|s| - 1]) >= key(y)
    ensures Descending(key, s + [y])
  {
    var t := s + [y];
    forall i, j | 0 <= i < j < |t|
      ensures key(t[i]) >= key(t[j])
    {
      if j == |s| {
        assert key(t[i]) >= key(s[|s| - 1]);
      }
    }
  }

  /** `list.sort(key=key, reverse=True)`: stable, heaviest first, the same words. */
  function SortByWeight(key: string -> int, xs: seq<string>): (r: seq<string>)
    ensures forall e :: e in r <==> e in xs
    ensures multiset(r) == multiset(xs)
    ensures Descending(key, r)
  {
    if xs == [] then []
    else
      var n := |xs| - 1;
      assert xs == xs[..n] + [xs[n]];
      InsertByWeight(key, xs[n], SortByWeight(key, xs[..n]))
  }

  /** Python's `s[:k]`; a negative k drops |k| elements from the end. */
  function Prefix<T>(s: seq<T>, k: int): (r: seq<T>)
    ensures |r| == if k >= 0 then (if k < |s| then k else |s|) else (if |s| + k > 0 then |s| + k else 0)
    ensures r == s[..|r|]
  {
    if k >= 0 then (if k < |s| then s[..k] else s)
    else if |s| + k > 0 then s[..|s| + k] else []
  }

  /**
   * The problem words around keyword t: its neighbours (in the order `order`
   * the graph lists them) that are not keywords, heaviest edge first, the
   * first `maxN` of them.
   */
  function Problems(g: Graph, t: string, teguchiWords: set<string>, maxN: int, order: seq<string>): seq<string>
  {
    Prefix(SortByWeight(ByWeight(g, t), Keep(NotKeyword(teguchiWords), order)), maxN)
  }

  /** When `order` lists t's neighbours, the problem words are neighbours of t that are not keywords. */
  lemma ProblemsAreNeighbours(g: Graph, t: string, teguchiWords: set<string>, maxN: int, order: seq<string>)
    requires forall n :: n in order <==> HasEdge(g, t, n)
    ensures forall p :: p in Problems(g, t, teguchiWords, maxN, order) ==> HasEdge(g, t, p) && p !in teguchiWords
  {
    var sorted := SortByWeight(ByWeight(g, t), Keep(NotKeyword(teguchiWords), order));
    var ps := Problems(g, t, teguchiWords, maxN, order);
    assert forall p :: p in ps ==> p in sorted;
  }

  /**
   * At most `maxN` problem words are kept, and no non-keyword neighbour left
   * out has a heavier edge to t than any one kept.
   */
  lemma ProblemsHeaviest(g: Graph, t: string, teguchiWords: set<string>, maxN: int, order: seq<string>)
    requires forall n :: n in order <==> HasEdge(g, t, n)
    ensures maxN >= 0 ==> |Problems(g, t, teguchiWords, maxN, order)| <= maxN
    ensures forall n, p :: (HasEdge(g, t, n) && n !in teguchiWords && n !in Problems(g, t, teguchiWords, maxN, order)
                            && p in Problems(g, t, teguchiWords, maxN, order)) ==> KeyWeight(g, t, n) <= KeyWeight(g, t, p)
  {
    var key := ByWeight(g, t);
    var kept := Keep(NotKeyword(teguchiWords), order);
    var sorted := SortByWeight(key, kept);
    var ps := Problems(g, t, teguchiWords, maxN, order);
    assert ps == sorted[..|ps|];
    TopPrefix(key, sorted, |ps|);
    forall n, p | HasEdge(g, t, n) && n !in teguchiWords && n !in ps && p in ps
      ensures KeyWeight(g, t, n) <= KeyWeight(g, t, p)
    {
      assert n in kept;
      assert key(n) <= key(p);
    }
  }

  /** In a list sorted heaviest first, nothing outside a prefix outweighs anything inside it. */
  lemma TopPrefix(key: string -> int, sorted: seq<string>, m: nat)
    requires Descending(key, sorted) && m <= |sorted|
    ensures forall n, p :: n in sorted && n !in sorted[..m] && p in sorted[..m] ==> key(n) <= key(p)
  {
    forall n, p | n in sorted && n !in sorted[..m] && p in sorted[..m]
      ensures key(n) <= key(p)
    {
      var k :| 0 <= k < |sorted| && sorted[k] == n;
      var i :| 0 <= i < m && sorted[..m][i] == p;
      assert k >= m by {
        assert forall j :: 0 <= j < m ==> sorted[..m][j] == sorted[j];
      }
    }
  }

  /** A score above 0 needs the edge between the two words, so they differ. */
  lemma PositiveScoreDistinct(g: Graph, t: Option<string>, a: string, b: string)
    requires Score(g, t, [a, b]) > 0
    ensures a != b && HasEdge(g, a, b)
  {
    assert AllEdges(g, t, [a, b]);
    var ps := [a, b];
    assert HasEdge(g, ps[0], ps[1]);
  }

  /** Every pair in `scores` is ordered and mapped to its score with t, which is above 0. */
  ghost predicate ScoredWith(g: Graph, t: string, scores: map<Pair, int>)
  {
    forall p :: p in scores ==> Ordered(p) && scores[p] == Score(g, Some(t), [p.0, p.1]) && scores[p] > 0
  }

  /** Recording an ordered pair with its positive score keeps every recorded score right. */
  lemma ScoredAdd(g: Graph, t: string, scores: map<Pair, int>, p: Pair, sc: int)
    requires ScoredWith(g, t, scores)
    requires Ordered(p) && sc == Score(g, Some(t), [p.0, p.1]) && sc > 0
    ensures ScoredWith(g, t, scores[p := sc])
  {
  }

  /** Positions a < b of two problem words that are not keywords and whose sorted pair scores above 0 with t. */
  ghost predicate Qualifies(ps: seq<string>, teguchiWords: set<string>, g: Graph, t: string, a: int, b: int)
    requires 0 <= a < b < |ps|
  {
    ps[a] !in teguchiWords && ps[b] !in teguchiWords
    && Score(g, Some(t), [Sorted(ps[a], ps[b]).0, Sorted(ps[a], ps[b]).1]) > 0
  }

  /** The keyword sets t + (a, b) the loops have found before they reach the pair of positions (i, j). */
  ghost function FoundSet(ps: seq<string>, teguchiWords: set<string>, g: Graph, t: string, i: int, j: int): set<Pair>
  {
    set a, b | 0 <= a < b < |ps| && (a < i || (a == i && b < j)) && Qualifies(ps, teguchiWords, g, t, a, b)
      :: Sorted(ps[a], ps[b])
  }

  /**
   * `extract_problem_sets_for_teguchi`: nothing when t is not in the
   * network; otherwise each sorted pair of two problem words whose set with
   * t scores above 0, mapped to that score.
   */
  method ExtractProblemSets(g: Graph, t: string, teguchiWords: set<string>, maxN: int, order: seq<string>)
    returns (scores: map<Pair, int>)
    ensures !IsNode(g, t) ==> scores == map[]
    ensures IsNode(g, t) ==>
      var ps := Problems(g, t, teguchiWords, maxN, order);
      scores.Keys == FoundSet(ps, teguchiWords, g, t, |ps|, 0)
    ensures forall p :: p in scores ==> Ordered(p) && scores[p] == Score(g, Some(t), [p.0, p.1]) && scores[p] > 0
  {
    scores := map[];
    if !IsNode(g, t) {
      return;
    }
    var ps := Problems(g, t, teguchiWords, maxN, order);
    for i := 0 to |ps|
      invariant scores.Keys == FoundSet(ps, teguchiWords, g, t, i, i + 1)
      invariant ScoredWith(g, t, scores)
    {
      scores := ScanRow(g, t, teguchiWords, ps, i, scores);
      FoundRow(ps, teguchiWords, g, t, i);
    }
    FoundDone(ps, teguchiWords, g, t);
  }

  /** The inner loop of `extract_problem_sets_for_teguchi`: the pairs (i, j) for every j after i. */
  method ScanRow(g: Graph, t: string, teguchiWords: set<string>, ps: seq<string>, i: nat, scores0: map<Pair, int>)
    returns (scores: map<Pair, int>)
    requires i < |ps|
    requires scores0.Keys == FoundSet(ps, teguchiWords, g, t, i, i + 1)
    requires ScoredWith(g, t, scores0)
    ensures scores.Keys == FoundSet(ps, teguchiWords, g, t, i, |ps|)
    ensures ScoredWith(g, t, scores)
  {
    scores := scores0;
    for j := i + 1 to |ps|
      invariant scores.Keys == FoundSet(ps, teguchiWords, g, t, i, j)
      invariant ScoredWith(g, t, scores)
    {
      scores := ScanPair(g, t, teguchiWords, ps, i, j, scores);
    }
  }

  /** One pass of the inner loop: the pair of positions (i, j). */
  method ScanPair(g: Graph, t: string, teguchiWords: set<string>, ps: seq<string>, i: nat, j: nat, scores0: map<Pair, int>)
    returns (scores: map<Pair, int>)
    requires i < j < |ps|
    requires scores0.Keys == FoundSet(ps, teguchiWords, g, t, i, j)
    requires ScoredWith(g, t, scores0)
    ensures scores.Keys == FoundSet(ps, teguchiWords, g, t, i, j + 1)
    ensures ScoredWith(g, t, scores)
  {
    scores := scores0;
    FoundStep(ps, teguchiWords, g, t, i, j);
    if ps[i] in teguchiWords || ps[j] in teguchiWords {
      assert !Qualifies(ps, teguchiWords, g, t, i, j);
      return;
    }
    var tpl := Sorted(ps[i], ps[j]);
    var sc := ScoreSet(g, Some(t), [tpl.0, tpl.1]);
    if sc > 0 {
      assert Qualifies(ps, teguchiWords, g, t, i, j);
      PositiveScoreDistinct(g, Some(t), tpl.0, tpl.1);
      scores := scores0[tpl := sc];
      ScoredAdd(g, t, scores0, tpl, sc);
      assert scores.Keys == scores0.Keys + {tpl};
    } else {
      assert !Qualifies(ps, teguchiWords, g, t, i, j);
    }
  }

  /** Passing position pair (i, j) adds exactly its own sorted pair, when it qualifies. */
  lemma FoundStep(ps: seq<string>, teguchiWords: set<string>, g: Graph, t: string, i: int, j: int)
    requires 0 <= i < j < |ps|
    ensures FoundSet(ps, teguchiWords, g, t, i, j + 1) ==
      FoundSet(ps, teguchiWords, g, t, i, j)
      + (if Qualifies(ps, teguchiWords, g, t, i, j) then {Sorted(ps[i], ps[j])} else {})
  {
    FoundStepNew(ps, teguchiWords, g, t, i, j);
    FoundStepKept(ps, teguchiWords, g, t, i, j);
  }

  /** What visiting (i, j) finds is either found before or the pair at (i, j). */
  lemma FoundStepNew(ps: seq<string>, teguchiWords: set<string>, g: Graph, t: string, i: int, j: int)
    requires 0 <= i < j < |ps|
    ensures forall p :: p in FoundSet(ps, teguchiWords, g, t, i, j + 1) ==>
      p in FoundSet(ps, teguchiWords, g, t, i, j) || (Qualifies(ps, teguchiWords, g, t, i, j) && p == Sorted(ps[i], ps[j]))
  {
    var after := FoundSet(ps, teguchiWords, g, t, i, j + 1);
    var before := FoundSet(ps, teguchiWords, g, t, i, j);
    forall p | p in after
      ensures p in before || (Qualifies(ps, teguchiWords, g, t, i, j) && p == Sorted(ps[i], ps[j]))
    {
      var a, b :| 0 <= a < b < |ps| && (a < i || (a == i && b < j + 1))
        && Qualifies(ps, teguchiWords, g, t, a, b) && p == Sorted(ps[a], ps[b]);
      if (a, b) != (i, j) {
        assert p in before;
      }
    }
  }

  /** Visiting (i, j) keeps what was found before and adds the pair at (i, j) when it qualifies. */
  lemma FoundStepKept(ps: seq<string>, teguchiWords: set<string>, g: Graph, t: string, i: int, j: int)
    requires 0 <= i < j < |ps|
    ensures FoundSet(ps, teguchiWords, g, t, i, j) <= FoundSet(ps, teguchiWords, g, t, i, j + 1)
    ensures Qualifies(ps, teguchiWords, g, t, i, j) ==> Sorted(ps[i], ps[j]) in FoundSet(ps, teguchiWords, g, t, i, j + 1)
  {
    var after := FoundSet(ps, teguchiWords, g, t, i, j + 1);
    var before := FoundSet(ps, teguchiWords, g, t, i, j);
    forall p | p in before
      ensures p in after
    {
      var a, b :| 0 <= a < b < |ps| && (a < i || (a == i && b < j))
        && Qualifies(ps, teguchiWords, g, t, a, b) && p == Sorted(ps[a], ps[b]);
      assert a < i || (a == i && b < j + 1);
    }
    if Qualifies(ps, teguchiWords, g, t, i, j) {
      assert Sorted(ps[i], ps[j]) in after by {
        assert 0 <= i < j < |ps| && (i < i || (i == i && j < j + 1));
      }
    }
  }

  /** Finishing row i (every partner j visited) is starting row i + 1. */
  lemma FoundRow(ps: seq<string>, teguchiWords: set<string>, g: Graph, t: string, i: int)
    requires 0 <= i < |ps|
    ensures FoundSet(ps, teguchiWords, g, t, i, |ps|) == FoundSet(ps, teguchiWords, g, t, i + 1, i + 2)
  {
  }

  /** Every pair of positions has been visited once the rows run out. */
  lemma FoundDone(ps: seq<string>, teguchiWords: set<string>, g: Graph, t: string)
    ensures FoundSet(ps, teguchiWords, g, t, |ps|, |ps| + 1) == FoundSet(ps, teguchiWords, g, t, |ps|, 0)
  {
  }

  // ---------------------------------------------------------------- select_candidate_pairs_improved

  /** The pair is skipped for holding a keyword. */
  predicate Excluded(p: Pair, teguchiWords: set<string>, exclude: bool)
  {
    exclude && (p.0 in teguchiWords || p.1 in teguchiWords)
  }

  /** The per-period quota the first loop actually keeps to: at least one pair is taken before `kept >= perKeep` is checked. */
  function Quota(perKeep: int): nat
  {
    if perKeep >= 1 then perKeep else 1
  }

  /** The first pair of a listing that is not skipped. */
  predicate FirstAllowed(l: seq<Pair>, i: int, teguchiWords: set<string>, exclude: bool)
  {
    0 <= i < |l| && !Excluded(l[i], teguchiWords, exclude)
    && forall m :: 0 <= m < i ==> Excluded(l[m], teguchiWords, exclude)
  }

  /** What the selection keeps while it runs: no repeats, no skipped pair, only listed pairs. */
  ghost predicate Selected(s: seq<Pair>, listings: seq<seq<Pair>>, overall: seq<Pair>, teguchiWords: set<string>, exclude: bool)
  {
    && NoDup(s)
    && (forall x :: x in s ==> !Excluded(x, teguchiWords, exclude))
    && (forall x :: x in s ==> x in overall || exists k :: 0 <= k < |listings| && x in listings[k])
  }

  /** One period of the first loop: up to the quota of new pairs from its listing, its first allowed pair always among them. */
  method TakeFromPeriod(top: seq<Pair>, selected0: seq<Pair>, teguchiWords: set<string>, perKeep: int, exclude: bool)
    returns (selected: seq<Pair>)
    requires NoDup(selected0)
    ensures NoDup(selected)
    ensures selected0 <= selected && |selected| <= |selected0| + Quota(perKeep)
    ensures forall x :: x in selected ==> x in selected0 || (x in top && !Excluded(x, teguchiWords, exclude))
    ensures forall i :: FirstAllowed(top, i, teguchiWords, exclude) ==> top[i] in selected
  {
    selected := selected0;
    var kept := 0;
    var n := 0;
    while n < |top|
      invariant 0 <= n <= |top|
      invariant NoDup(selected)
      invariant selected0 <= selected && |selected| == |selected0| + kept
      invariant kept == 0 || kept < perKeep
      invariant forall x :: x in selected ==> x in selected0 || (x in top && !Excluded(x, teguchiWords, exclude))
      invariant forall i :: FirstAllowed(top, i, teguchiWords, exclude) && i < n ==> top[i] in selected
    {
      var pair := top[n];
      n := n + 1;
      if Excluded(pair, teguchiWords, exclude) {
        continue;
      }
      if pair !in selected {
        selected := selected + [pair];
        kept := kept + 1;
      }
      if kept >= perKeep {
        assert forall i :: FirstAllowed(top, i, teguchiWords, exclude) ==> i < n;
        break;
      }
    }
  }

  /**
   * `select_candidate_pairs_improved` over each period's `most_common()`
   * pairs (`listings`) and those of their sum (`overall`): no pair twice, no
   * pair holding a keyword when `exclude` is set, only listed pairs, each
   * period's first allowed pair, at most max(Quota·periods, target) pairs,
   * and every allowed pair of the overall listing when fewer than the
   * target were found. The closing de-duplication changes nothing.
   */
  method SelectCandidatePairs(listings: seq<seq<Pair>>, overall: seq<Pair>, teguchiWords: set<string>,
                              perKeep: int, fill: int, exclude: bool)
    returns (uniq: seq<Pair>)
    ensures NoDup(uniq)
    ensures forall x :: x in uniq ==> !Excluded(x, teguchiWords, exclude)
    ensures exclude ==> forall x :: x in uniq ==> x.0 !in teguchiWords && x.1 !in teguchiWords
    ensures forall x :: x in uniq ==> x in overall || exists k :: 0 <= k < |listings| && x in listings[k]
    ensures forall k, i :: 0 <= k < |listings| && FirstAllowed(listings[k], i, teguchiWords, exclude) ==> listings[k][i] in uniq
    ensures |uniq| <= Quota(perKeep) * |listings| || |uniq| <= perKeep * |listings| + fill
    ensures |uniq| < perKeep * |listings| + fill ==>
      forall x :: x in overall && !Excluded(x, teguchiWords, exclude) ==> x in uniq
  {
    var selected: seq<Pair> := [];
    for k := 0 to |listings|
      invariant Selected(selected, listings, overall, teguchiWords, exclude)
      invariant |selected| <= Quota(perKeep) * k
      invariant forall m, i :: 0 <= m < k && FirstAllowed(listings[m], i, teguchiWords, exclude) ==> listings[m][i] in selected
    {
      ghost var before := selected;
      selected := TakeFromPeriod(listings[k], selected, teguchiWords, perKeep, exclude);
      assert forall x :: x in before ==> x in selected;
    }
    ghost var firstPhase := selected;
    var target := perKeep * |listings| + fill;
    var n := 0;
    while n < |overall|
      invariant 0 <= n <= |overall|
      invariant Selected(selected, listings, overall, teguchiWords, exclude)
      invariant firstPhase <= selected
      invariant |selected| == |firstPhase| || |selected| <= target
      invariant forall m :: 0 <= m < n && !Excluded(overall[m], teguchiWords, exclude) ==> overall[m] in selected
    {
      if |selected| >= target {
        break;
      }
      var pair := overall[n];
      n := n + 1;
      if Excluded(pair, teguchiWords, exclude) {
        continue;
      }
      if pair in selected {
        continue;
      }
      selected := selected + [pair];
    }
    assert forall x :: x in firstPhase ==> x in selected;
    uniq := [];
    var seen: set<Pair> := {};
    for k := 0 to |selected|
      invariant uniq == selected[..k]
      invariant seen == set x | x in uniq
    {
      if selected[k] !in seen {
        uniq := uniq + [selected[k]];
        seen := seen + {selected[k]};
      }
    }
    assert selected[..|selected|] == selected;
  }

  // ---------------------------------------------------------------- select_period_indices_for_saving

  /** Python's `round(num / den)` on exact values: to the nearest integer, halves to the even one. */
  function RoundHalfEven(num: nat, den: nat): (r: nat)
    requires den > 0
    ensures 2 * (num - den * r) <= den && 2 * (den * r - num) <= den
    ensures 2 * (num - den * r) == den || 2 * (den * r - num) == den ==> r % 2 == 0
  {
    var q := num / den;
    var rem := num % den;
    assert num - den * q == rem;
    assert den * (q + 1) - num == den - rem;
    if 2 * rem < den then q
    else if 2 * rem > den then q + 1
    else if q % 2 == 0 then q else q + 1
  }

  /** `min(n - 1, max(0, idx))`. */
  function Clamp(idx: int, n: int): int
  {
    if idx < 0 then (if n - 1 < 0 then n - 1 else 0) else if idx > n - 1 then n - 1 else idx
  }

  /** `round(i * step)` for `step = (n - 1) / (m - 1)`, clamped to [0, n - 1]. */
  function Spaced(n: int, m: int, i: nat): (r: int)
    requires 2 <= m < n
    ensures 0 <= r < n
  {
    Clamp(RoundHalfEven(i * (n - 1), m - 1), n)
  }

  /** `[int(round(i * step)) for i in range(m)]`, clamped. */
  function SpacedIndices(n: int, m: int): (s: seq<int>)
    requires 2 <= m < n
    ensures |s| == m && forall i :: 0 <= i < m ==> s[i] == Spaced(n, m, i)
    ensures forall x :: x in s ==> 0 <= x < n
  {
    seq(m, i requires 0 <= i < m => Spaced(n, m, i))
  }

  /** The first and the last period are always among the evenly spaced ones. */
  lemma SpacedEnds(n: int, m: int)
    requires 2 <= m < n
    ensures Spaced(n, m, 0) == 0 && Spaced(n, m, m - 1) == n - 1
  {
    assert 0 * (n - 1) == 0;
    ExactRound(m - 1, n - 1);
  }

  /** Rounding an exact quotient gives it back. */
  lemma ExactRound(den: nat, a: nat)
    requires den > 0
    ensures RoundHalfEven(den * a, den) == a
  {
    var r := RoundHalfEven(den * a, den);
    var k := a - r;
    assert den * a - den * r == den * k;
    MulSign(den, k);
  }

  /** A positive factor keeps a product at least as far from 0 as itself. */
  lemma {:induction false} MulSign(b: int, k: int)
    requires b > 0
    ensures k > 0 ==> b * k >= b
    ensures k < 0 ==> b * k <= -b
    decreases if k < 0 then -k else k
  {
    if k > 1 {
      MulSign(b, k - 1);
      assert b * k == b * (k - 1) + b;
    } else if k < -1 {
      MulSign(b, k + 1);
      assert b * k == b * (k + 1) - b;
    }
  }

  /** A repeat-free sequence holding all of 0 .. n-1 has at least n elements. */
  lemma CoversRange(u: seq<int>, n: nat)
    requires NoDup(u)
    requires forall x :: 0 <= x < n ==> x in u
    ensures |u| >= n
  {
    DistinctCard(u);
    var rs := seq(n, i requires 0 <= i < n => i);
    DistinctCard(rs);
    assert (set x | x in rs) <= set x | x in u;
    SubsetCard(set x | x in rs, set x | x in u);
  }

  lemma SubsetCard<T>(a: set<T>, b: set<T>)
    requires a <= b
    ensures |a| <= |b|
  {
    assert b == a + (b - a);
  }

  /** A set has no more elements than a sequence listing it. */
  lemma {:induction false} SeqSetCard<T>(s: seq<T>)
    ensures |set x | x in s| <= |s|
  {
    if s != [] {
      var n := |s| - 1;
      SeqSetCard(s[..n]);
      assert (set x | x in s) == (set x | x in s[..n]) + {s[n]};
    }
  }

  /** The top-up loop: the lowest unused periods are appended until there are m. */
  method FillIndices(n: int, m: int, uniq0: seq<int>) returns (uniq: seq<int>)
    requires 0 < m < n
    requires NoDup(uniq0) && |uniq0| <= m && forall x :: x in uniq0 ==> 0 <= x < n
    ensures NoDup(uniq) && |uniq| == m && uniq0 <= uniq
    ensures forall x :: x in uniq ==> 0 <= x < n
  {
    uniq := uniq0;
    var i := 0;
    while |uniq| < m && i < n
      invariant 0 <= i <= n
      invariant NoDup(uniq) && |uniq| <= m && uniq0 <= uniq
      invariant forall x :: x in uniq ==> 0 <= x < n
      invariant forall x :: 0 <= x < i ==> x in uniq
      decreases n - i
    {
      if i !in uniq {
        uniq := uniq + [i];
      }
      i := i + 1;
    }
    if |uniq| < m {
      CoversRange(uniq, n);
    }
  }

  /** The branch with 2 <= m < n: the evenly spaced periods, deduplicated, sorted and topped up to m. */
  method EvenlySpaced(n: int, m: int) returns (r: seq<int>)
    requires 2 <= m < n
    ensures |r| == m && StrictlyIncreasing(r)
    ensures forall x :: x in r ==> 0 <= x < n
    ensures forall i :: 0 <= i < m ==> Spaced(n, m, i) in r
  {
    var indices := SpacedIndices(n, m);
    var spaced := set x | x in indices;
    var uniq := Ascending(spaced);
    SeqSetCard(indices);
    var full := FillIndices(n, m, uniq);
    assert full[..m] == full;
    DistinctCard(full);
    r := Ascending(set x | x in full);
    assert forall i :: 0 <= i < m ==> indices[i] in spaced;
  }

  /**
   * `select_period_indices_for_saving(n, m)`: all of 0 .. n-1 when n <= m;
   * the ZeroDivisionError of m == 1 < n as None; nothing when m <= 0 < n;
   * otherwise exactly m distinct periods in ascending order, every evenly
   * spaced one among them, topped up from the lowest unused ones.
   */
  method SelectPeriodIndices(n: int, m: int) returns (r: Option<seq<int>>)
    ensures n <= m ==> r.Some? && |r.value| == (if n > 0 then n else 0) && forall i :: 0 <= i < |r.value| ==> r.value[i] == i
    ensures m == 1 < n <==> r.None?
    ensures m <= 0 && m < n ==> r == Some([])
    ensures 2 <= m < n ==> r.Some? && |r.value| == m && StrictlyIncreasing(r.value)
    ensures 2 <= m < n ==> forall x :: x in r.value ==> 0 <= x < n
    ensures 2 <= m < n ==> forall i :: 0 <= i < m ==> Spaced(n, m, i) in r.value
  {
    if n <= m {
      return Some(seq(if n > 0 then n else 0, i => i));
    }
    if m == 1 {
      return None;
    }
    if m <= 0 {
      return Some([]);
    }
    var kept := EvenlySpaced(n, m);
    r := Some(kept);
  }
}
