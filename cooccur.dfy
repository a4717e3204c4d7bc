/**
 * Word co-occurrence counting in public/data/slash_data-main/an_tp_test.py:
 * the keyword classifier, the frequency filter after tokenisation, the pair
 * counter, the network built from it and the per-period top table.
 */
module CoOccurrence {
  import opened Common

  // ---------------------------------------------------------------- pairs

  /** A counter key: Python's `tuple(sorted((a, b)))`. */
  type Pair = (string, string)

  /** `tuple(sorted((a, b)))`, in Python's code-point order on `str`. */
  function Sorted(a: string, b: string): (p: Pair)
    ensures p == (a, b) || p == (b, a)
    ensures LexLe(p.0, p.1)
  {
    if LexLe(a, b) then (a, b) else LexLeTotal(a, b); (b, a)
  }

  /** A key of two distinct words in ascending order. */
  predicate Ordered(p: Pair)
  {
    LexLt(p.0, p.1)
  }

  /** For an ordered pair, sorting gives it back from either order of its words, and from nothing else. */
  lemma SortedIs(a: string, b: string, p: Pair)
    requires Ordered(p)
    ensures Sorted(a, b) == p <==> (a, b) == p || (b, a) == p
  {
    if (b, a) == p && LexLe(a, b) {
      LexLeAntisymmetric(a, b);
    }
  }

  /** Sorting two distinct words gives an ordered pair. */
  lemma SortedOrdered(a: string, b: string)
    requires a != b
    ensures Ordered(Sorted(a, b))
  {
  }

  // ---------------------------------------------------------------- classifier

  /** `teguchi_map`: each label with its keywords, in the dict's order. */
  type TeguchiMap = seq<(string, seq<string>)>

  /** The label `get_label` reports: that of the last entry whose keywords list `w`, if any. */
  function LastLabel(tm: TeguchiMap, w: string): (r: Option<string>)
    ensures r.Some? <==> exists i :: 0 <= i < |tm| && w in tm[i].1
    ensures r.Some? ==> exists i :: 0 <= i < |tm| && w in tm[i].1 && tm[i].0 == r.value
                                    && forall j :: i < j < |tm| ==> w !in tm[j].1
  {
    if tm == [] then None
    else if w in tm[|tm| - 1].1 then Some(tm[|tm| - 1].0)
    else
      var r := LastLabel(tm[..|tm| - 1], w);
      assert forall i :: 0 <= i < |tm| - 1 ==> tm[..|tm| - 1][i] == tm[i];
      r
  }

  /** `word2teguchi` agrees with LastLabel on every word. */
  ghost predicate LabelsOf(m: map<string, string>, tm: TeguchiMap)
  {
    forall w :: (w in m <==> LastLabel(tm, w).Some?) && (w in m ==> m[w] == LastLabel(tm, w).value)
  }

  /** `ModalityClassifier`: the keyword map and the word-to-label dict its constructor fills. */
  class ModalityClassifier {
    const teguchiMap: TeguchiMap
    var word2teguchi: map<string, string>

    ghost predicate Valid()
      reads this
    {
      LabelsOf(word2teguchi, teguchiMap)
    }

    /** `__init__`: every keyword of every label, later labels overwriting earlier ones. */
    constructor (tm: TeguchiMap)
      ensures teguchiMap == tm && Valid()
    {
      teguchiMap := tm;
      var m: map<string, string> := map[];
      for i := 0 to |tm|
        invariant LabelsOf(m, tm[..i])
      {
        var tag := tm[i].0;
        var keywords := tm[i].1;
        assert tm[..i + 1][..i] == tm[..i];
        for k := 0 to |keywords|
          invariant forall w :: w in m <==> LastLabel(tm[..i], w).Some? || w in keywords[..k]
          invariant forall w :: w in m ==>
            m[w] == (if w in keywords[..k] then tag else LastLabel(tm[..i], w).value)
        {
          assert keywords[..k + 1] == keywords[..k] + [keywords[k]];
          m := m[keywords[k] := tag];
        }
        assert keywords[..|keywords|] == keywords;
      }
      assert tm[..|tm|] == tm;
      word2teguchi := m;
    }

    /** `is_teguchi`: the word is a keyword of some label. */
    predicate IsTeguchi(w: string)
      reads this
      requires Valid()
      ensures IsTeguchi(w) <==> exists i :: 0 <= i < |teguchiMap| && w in teguchiMap[i].1
    {
      w in word2teguchi
    }

    /** `get_label`: the last label listing the word, or None. */
    function GetLabel(w: string): (r: Option<string>)
      reads this
      requires Valid()
      ensures r == LastLabel(teguchiMap, w)
    {
      if w in word2teguchi then Some(word2teguchi[w]) else None
    }

    /** The words `is_teguchi` accepts. */
    function TeguchiWords(): (s: set<string>)
      reads this
      requires Valid()
      ensures forall w :: w in s <==> exists i :: 0 <= i < |teguchiMap| && w in teguchiMap[i].1
    {
      word2teguchi.Keys
    }
  }

  // ---------------------------------------------------------------- tokenisation

  /** A cell of the text column: a string, or a missing value (pandas' NaN). */
  datatype Doc = Str(text: string) | NotStr

  /** The texts of the string cells, in order. */
  function StrTexts(docs: seq<Doc>): (r: seq<string>)
    ensures |r| <= |docs|
    ensures forall t :: t in r <==> Str(t) in docs
  {
    if docs == [] then []
    else
      var init := StrTexts(docs[..|docs| - 1]);
      assert forall d :: d in docs <==> d in docs[..|docs| - 1] || d == docs[|docs| - 1];
      init + (match docs[|docs| - 1] case Str(t) => [t] case NotStr => [])
  }

  /** All tokens of all documents, in order. */
  function Flatten(docs: seq<seq<string>>): seq<string>
  {
    if docs == [] then [] else Flatten(docs[..|docs| - 1]) + docs[|docs| - 1]
  }

  /** Each text through the tokenizer. */
  function Tokenized(texts: seq<string>, tokenize: string -> seq<string>): (r: seq<seq<string>>)
    ensures |r| == |texts| && forall k :: 0 <= k < |texts| ==> r[k] == tokenize(texts[k])
  {
    seq(|texts|, k requires 0 <= k < |texts| => tokenize(texts[k]))
  }

  const MinTokenFreq := 3
  const MaxTokenFreq := 500

  /** A document's tokens whose corpus frequency lies in [3, 500], in order. */
  function FreqFilter(doc: seq<string>, freq: multiset<string>): (r: seq<string>)
    ensures forall t :: t in r <==> t in doc && MinTokenFreq <= freq[t] <= MaxTokenFreq
  {
    Keep((t: string) => MinTokenFreq <= freq[t] <= MaxTokenFreq, doc)
  }

  /** Filtering a document piecewise gives the same tokens in the same order. */
  lemma FreqFilterAppend(a: seq<string>, b: seq<string>, freq: multiset<string>)
    ensures FreqFilter(a + b, freq) == FreqFilter(a, freq) + FreqFilter(b, freq)
  {
    KeepAppend((t: string) => MinTokenFreq <= freq[t] <= MaxTokenFreq, a, b);
  }

  /**
   * `tokenize_corpus`, with janome's tokenizer as the parameter `tokenize`:
   * one output document per string cell, each keeping, in order, the tokens
   * whose frequency over the whole corpus lies in [3, 500]; and that
   * frequency count (a Counter, here a multiset).
   */
  function TokenizeCorpus(docs: seq<Doc>, tokenize: string -> seq<string>): (r: (seq<seq<string>>, multiset<string>))
    ensures |r.0| == |StrTexts(docs)|
    ensures r.1 == multiset(Flatten(Tokenized(StrTexts(docs), tokenize)))
    ensures forall k :: 0 <= k < |r.0| ==> r.0[k] == FreqFilter(tokenize(StrTexts(docs)[k]), r.1)
    ensures forall k, t :: 0 <= k < |r.0| && t in r.0[k] ==> MinTokenFreq <= r.1[t] <= MaxTokenFreq
  {
    var texts := StrTexts(docs);
    var processed := Tokenized(texts, tokenize);
    var freq := multiset(Flatten(processed));
    (seq(|processed|, k requires 0 <= k < |processed| => FreqFilter(processed[k], freq)), freq)
  }

  // ---------------------------------------------------------------- counting

  /** A Counter of pairs; a pair it lacks counts 0. */
  type Counter = map<Pair, nat>

  function Count(c: Counter, p: Pair): nat
  {
    if p in c then c[p] else 0
  }

  /** `cooccurrence[pair] += 1`. */
  function Bump(c: Counter, p: Pair): (r: Counter)
    ensures r.Keys == c.Keys + {p}
    ensures Count(r, p) == Count(c, p) + 1
    ensures forall q :: q != p ==> Count(r, q) == Count(c, q)
  {
    c[p := Count(c, p) + 1]
  }

  /** `min(i + window_size + 1, len(tokens))`: the end of position i's window. */
  function WindowEnd(n: int, w: nat, i: int): int
  {
    if i + w + 1 < n then i + w + 1 else n
  }

  /** The windowed loops of one document, from position i and partner j on. */
  function Windowed(c: Counter, t: seq<string>, w: nat, i: nat, j: nat): Counter
    decreases |t| - i, |t| + 1 - j
  {
    if i >= |t| then c
    else if j >= WindowEnd(|t|, w, i) then Windowed(c, t, w, i + 1, i + 2)
    else Windowed(if t[i] != t[j] then Bump(c, Sorted(t[i], t[j])) else c, t, w, i, j + 1)
  }

  /** The loop over `combinations(uniq, 2)`, from pair (i, j) on. */
  function Combos(c: Counter, u: seq<string>, i: nat, j: nat): Counter
    decreases |u| - i, |u| + 1 - j
  {
    if i >= |u| then c
    else if j >= |u| then Combos(c, u, i + 1, i + 2)
    else Combos(Bump(c, Sorted(u[i], u[j])), u, i, j + 1)
  }

  /** `list(set(tokens))`: the distinct tokens (in order of first occurrence). */
  function Distinct(t: seq<string>): (u: seq<string>)
    ensures forall x :: x in u <==> x in t
    ensures forall a, b :: 0 <= a < b < |u| ==> u[a] != u[b]
  {
    if t == [] then []
    else
      var u := Distinct(t[..|t| - 1]);
      assert forall x :: x in t <==> x in t[..|t| - 1] || x == t[|t| - 1];
      if t[|t| - 1] in u then u else u + [t[|t| - 1]]
  }

  /** One document's contribution: none if it is empty, the window pairs with a window, all pairs of its distinct words without. */
  function DocStep(c: Counter, t: seq<string>, w: nat): Counter
  {
    if t == [] then c
    else if w > 0 then Windowed(c, t, w, 0, 1)
    else Combos(c, Distinct(t), 0, 1)
  }

  /** The counter after documents d.. are added to c. */
  function Docs(c: Counter, docs: seq<seq<string>>, w: nat, d: nat): Counter
    decreases |docs| - d
  {
    if d >= |docs| then c else Docs(DocStep(c, docs[d], w), docs, w, d + 1)
  }

  /** What `build_cooccurrence_counter(docs, window_size)` returns; a window of 0 or None is w == 0. */
  function CounterOf(docs: seq<seq<string>>, w: nat): Counter
  {
    Docs(map[], docs, w, 0)
  }

  /** The windowed branch of `build_cooccurrence_counter` for one non-empty document. */
  method CountWindowed(c0: Counter, tokens: seq<string>, w: nat) returns (c: Counter)
    ensures c == Windowed(c0, tokens, w, 0, 1)
  {
    c := c0;
    for i := 0 to |tokens|
      invariant Windowed(c, tokens, w, i, i + 1) == Windowed(c0, tokens, w, 0, 1)
    {
      var hi := WindowEnd(|tokens|, w, i);
      for j := i + 1 to hi
        invariant Windowed(c, tokens, w, i, j) == Windowed(c0, tokens, w, 0, 1)
      {
        if tokens[i] != tokens[j] {
          c := Bump(c, Sorted(tokens[i], tokens[j]));
        }
      }
      assert Windowed(c, tokens, w, i, hi) == Windowed(c, tokens, w, i + 1, i + 2);
    }
  }

  /** The branch without a window: every pair of the document's distinct words. */
  method CountCombos(c0: Counter, uniq: seq<string>) returns (c: Counter)
    ensures c == Combos(c0, uniq, 0, 1)
  {
    c := c0;
    for i := 0 to |uniq|
      invariant Combos(c, uniq, i, i + 1) == Combos(c0, uniq, 0, 1)
    {
      for j := i + 1 to |uniq|
        invariant Combos(c, uniq, i, j) == Combos(c0, uniq, 0, 1)
      {
        c := Bump(c, Sorted(uniq[i], uniq[j]));
      }
    }
  }

  /** `build_cooccurrence_counter`: a loop over the documents that bumps the counter. */
  method BuildCounter(docs: seq<seq<string>>, w: nat) returns (c: Counter)
    ensures c == CounterOf(docs, w)
  {
    c := map[];
    for d := 0 to |docs|
      invariant Docs(c, docs, w, d) == CounterOf(docs, w)
    {
      var tokens := docs[d];
      if tokens == [] {
        continue;
      }
      if w > 0 {
        c := CountWindowed(c, tokens, w);
      } else {
        c := CountCombos(c, Distinct(tokens));
      }
    }
  }

  // ---------------------------------------------------------------- counter properties

  /** Every key is a sorted pair of two distinct words and counts at least once. */
  ghost predicate WellKeyed(c: Counter)
  {
    forall p :: p in c ==> Ordered(p) && c[p] >= 1
  }

  lemma {:induction false} WindowedKeyed(c: Counter, t: seq<string>, w: nat, i: nat, j: nat)
    requires WellKeyed(c)
    ensures WellKeyed(Windowed(c, t, w, i, j))
    decreases |t| - i, |t| + 1 - j
  {
    if i >= |t| {
    } else if j >= WindowEnd(|t|, w, i) {
      WindowedKeyed(c, t, w, i + 1, i + 2);
    } else if t[i] != t[j] {
      SortedOrdered(t[i], t[j]);
      WindowedKeyed(Bump(c, Sorted(t[i], t[j])), t, w, i, j + 1);
    } else {
      WindowedKeyed(c, t, w, i, j + 1);
    }
  }

  lemma {:induction false} CombosKeyed(c: Counter, u: seq<string>, i: nat, j: nat)
    requires WellKeyed(c)
    requires forall a, b :: 0 <= a < b < |u| ==> u[a] != u[b]
    requires i < j
    ensures WellKeyed(Combos(c, u, i, j))
    decreases |u| - i, |u| + 1 - j
  {
    if i >= |u| {
    } else if j >= |u| {
      CombosKeyed(c, u, i + 1, i + 2);
    } else {
      SortedOrdered(u[i], u[j]);
      CombosKeyed(Bump(c, Sorted(u[i], u[j])), u, i, j + 1);
    }
  }

  lemma {:induction false} DocsKeyed(c: Counter, docs: seq<seq<string>>, w: nat, d: nat)
    requires WellKeyed(c)
    ensures WellKeyed(Docs(c, docs, w, d))
    decreases |docs| - d
  {
    if d < |docs| {
      var t := docs[d];
      if t != [] {
        if w > 0 {
          WindowedKeyed(c, t, w, 0, 1);
        } else {
          CombosKeyed(c, Distinct(t), 0, 1);
        }
      }
      DocsKeyed(DocStep(c, t, w), docs, w, d + 1);
    }
  }

  /** The counter's keys are sorted pairs of two distinct tokens, each counted at least once. */
  lemma CounterKeys(docs: seq<seq<string>>, w: nat)
    ensures forall p :: p in CounterOf(docs, w) ==> LexLt(p.0, p.1) && CounterOf(docs, w)[p] >= 1
  {
    DocsKeyed(map[], docs, w, 0);
  }

  // ---- with a window

  /** Positions (x, y) the windowed loops have yet to visit from (i, j). */
  predicate Pending(t: seq<string>, w: nat, i: nat, j: nat, x: int, y: int)
  {
    0 <= x < y < |t| && y <= x + w && (i < x || (i == x && j <= y))
  }

  /** A pair of positions in one window whose words differ and sort to p. */
  predicate WindowHit(t: seq<string>, w: nat, i: nat, j: nat, p: Pair, x: int, y: int)
  {
    Pending(t, w, i, j, x, y) && t[x] != t[y] && Sorted(t[x], t[y]) == p
  }

  lemma {:induction false} WindowedSource(c: Counter, t: seq<string>, w: nat, i: nat, j: nat, p: Pair)
    requires i < j
    ensures p in Windowed(c, t, w, i, j) <==> p in c || exists x, y :: WindowHit(t, w, i, j, p, x, y)
    decreases |t| - i, |t| + 1 - j
  {
    if i >= |t| {
      assert forall x, y :: !Pending(t, w, i, j, x, y);
    } else if j >= WindowEnd(|t|, w, i) {
      var i1, j1 := i + 1, i + 2;
      WindowedSource(c, t, w, i1, j1, p);
      assert Windowed(c, t, w, i, j) == Windowed(c, t, w, i1, j1);
      if exists x, y :: WindowHit(t, w, i, j, p, x, y) {
        var x, y :| WindowHit(t, w, i, j, p, x, y);
        assert WindowHit(t, w, i1, j1, p, x, y);
      }
      if exists x, y :: WindowHit(t, w, i1, j1, p, x, y) {
        var x, y :| WindowHit(t, w, i1, j1, p, x, y);
        assert WindowHit(t, w, i, j, p, x, y);
      }
    } else {
      var c' := if t[i] != t[j] then Bump(c, Sorted(t[i], t[j])) else c;
      var j1 := j + 1;
      WindowedSource(c', t, w, i, j1, p);
      assert Windowed(c, t, w, i, j) == Windowed(c', t, w, i, j1);
      if p in c' && p !in c {
        assert WindowHit(t, w, i, j, p, i, j);
      }
      if exists x, y :: WindowHit(t, w, i, j1, p, x, y) {
        var x, y :| WindowHit(t, w, i, j1, p, x, y);
        assert WindowHit(t, w, i, j, p, x, y);
      }
      if exists x, y :: WindowHit(t, w, i, j, p, x, y) {
        var x, y :| WindowHit(t, w, i, j, p, x, y);
        if (x, y) != (i, j) {
          assert WindowHit(t, w, i, j1, p, x, y);
        } else {
          assert p in c';
        }
      }
    }
  }

  /**
   * With a window, a pair is counted for a document exactly when two
   * positions x < y <= x + w of it hold its two (different) words.
   */
  lemma WindowedPairs(t: seq<string>, w: nat, p: Pair)
    requires t != [] && w > 0
    ensures p in DocStep(map[], t, w) <==>
      exists x, y :: 0 <= x < y < |t| && y <= x + w && t[x] != t[y] && Sorted(t[x], t[y]) == p
  {
    WindowedSource(map[], t, w, 0, 1, p);
    if p in DocStep(map[], t, w) {
      var x, y :| WindowHit(t, w, 0, 1, p, x, y);
    }
    if exists x, y :: 0 <= x < y < |t| && y <= x + w && t[x] != t[y] && Sorted(t[x], t[y]) == p {
      var x, y :| 0 <= x < y < |t| && y <= x + w && t[x] != t[y] && Sorted(t[x], t[y]) == p;
      assert WindowHit(t, w, 0, 1, p, x, y);
    }
  }

  // ---- without a window

  /** How many of the remaining visits of the combination loops sort to p. */
  function PairsFrom(u: seq<string>, i: nat, j: nat, p: Pair): nat
    decreases |u| - i, |u| + 1 - j
  {
    if i >= |u| then 0
    else if j >= |u| then PairsFrom(u, i + 1, i + 2, p)
    else (if Sorted(u[i], u[j]) == p then 1 else 0) + PairsFrom(u, i, j + 1, p)
  }

  lemma {:induction false} CombosCount(c: Counter, u: seq<string>, i: nat, j: nat, p: Pair)
    ensures Count(Combos(c, u, i, j), p) == Count(c, p) + PairsFrom(u, i, j, p)
    decreases |u| - i, |u| + 1 - j
  {
    if i >= |u| {
    } else if j >= |u| {
      CombosCount(c, u, i + 1, i + 2, p);
      assert Combos(c, u, i, j) == Combos(c, u, i + 1, i + 2);
    } else {
      var c' := Bump(c, Sorted(u[i], u[j]));
      CombosCount(c', u, i, j + 1, p);
      assert Combos(c, u, i, j) == Combos(c', u, i, j + 1);
    }
  }

  lemma {:induction false} PairsFromAbsent(u: seq<string>, i: nat, j: nat, p: Pair)
    requires !(p.0 in u && p.1 in u)
    ensures PairsFrom(u, i, j, p) == 0
    decreases |u| - i, |u| + 1 - j
  {
    if i >= |u| {
    } else if j >= |u| {
      PairsFromAbsent(u, i + 1, i + 2, p);
    } else {
      PairsFromAbsent(u, i, j + 1, p);
    }
  }

  /** With distinct words, the one visit that sorts to p is that of its two positions lo < hi. */
  lemma {:induction false} PairsFromOnce(u: seq<string>, i: nat, j: nat, p: Pair, lo: nat, hi: nat)
    requires forall a, b :: 0 <= a < b < |u| ==> u[a] != u[b]
    requires Ordered(p) && lo < hi < |u| && Sorted(u[lo], u[hi]) == p
    requires i < j
    ensures PairsFrom(u, i, j, p) == if i < lo || (i == lo && j <= hi) then 1 else 0
    decreases |u| - i, |u| + 1 - j
  {
    SortedIs(u[lo], u[hi], p);
    if i >= |u| {
    } else if j >= |u| {
      PairsFromOnce(u, i + 1, i + 2, p, lo, hi);
    } else {
      PairsFromOnce(u, i, j + 1, p, lo, hi);
      SortedIs(u[i], u[j], p);
      if Sorted(u[i], u[j]) == p {
        assert i == lo && j == hi;
      }
    }
  }

  /** Without a window, a document adds one to a pair when it holds both words, and nothing otherwise. */
  lemma CombosOnce(c: Counter, t: seq<string>, p: Pair)
    requires Ordered(p)
    ensures Count(DocStep(c, t, 0), p) == Count(c, p) + (if p.0 in t && p.1 in t then 1 else 0)
  {
    if t != [] {
      var u := Distinct(t);
      CombosCount(c, u, 0, 1, p);
      if p.0 in t && p.1 in t {
        var a :| 0 <= a < |u| && u[a] == p.0;
        var b :| 0 <= b < |u| && u[b] == p.1;
        if a < b {
          SortedIs(u[a], u[b], p);
          PairsFromOnce(u, 0, 1, p, a, b);
        } else {
          SortedIs(u[b], u[a], p);
          PairsFromOnce(u, 0, 1, p, b, a);
        }
      } else {
        PairsFromAbsent(u, 0, 1, p);
      }
    }
  }

  /** The number of documents d.. that hold both a and b. */
  function DocsWith(docs: seq<seq<string>>, a: string, b: string, d: nat): nat
    decreases |docs| - d
  {
    if d >= |docs| then 0
    else (if a in docs[d] && b in docs[d] then 1 else 0) + DocsWith(docs, a, b, d + 1)
  }

  lemma {:induction false} DocsCount(c: Counter, docs: seq<seq<string>>, d: nat, p: Pair)
    requires Ordered(p)
    ensures Count(Docs(c, docs, 0, d), p) == Count(c, p) + DocsWith(docs, p.0, p.1, d)
    decreases |docs| - d
  {
    if d < |docs| {
      CombosOnce(c, docs[d], p);
      DocsCount(DocStep(c, docs[d], 0), docs, d + 1, p);
    }
  }

  /**
   * Without a window, a sorted pair of distinct words counts the documents
   * holding both of them: once per document, however often they recur.
   */
  lemma DocumentCount(docs: seq<seq<string>>, p: Pair)
    requires Ordered(p)
    ensures Count(CounterOf(docs, 0), p) == DocsWith(docs, p.0, p.1, 0)
    ensures Count(CounterOf(docs, 0), p) <= |docs|
  {
    DocsCount(map[], docs, 0, p);
    DocsWithBound(docs, p.0, p.1, 0);
  }

  lemma {:induction false} DocsWithBound(docs: seq<seq<string>>, a: string, b: string, d: nat)
    ensures DocsWith(docs, a, b, d) <= if d <= |docs| then |docs| - d else 0
    decreases |docs| - d
  {
    if d < |docs| {
      DocsWithBound(docs, a, b, d + 1);
    }
  }

  // ---------------------------------------------------------------- network

  /** Sorting does not depend on the order the two distinct words come in. */
  lemma SortedSymmetric(a: string, b: string)
    requires a != b
    ensures Sorted(a, b) == Sorted(b, a)
  {
    if LexLe(a, b) && LexLe(b, a) {
      LexLeAntisymmetric(a, b);
    }
  }

  /** An undirected weighted graph; each edge is stored under its sorted pair of end words. */
  type Graph = map<Pair, nat>

  /** `build_cooccurrence_network_from_counter`: an edge, weighted by its count, for each pair counted at least `minFreq` times. */
  function Network(c: Counter, minFreq: int): (g: Graph)
    ensures forall p :: p in g <==> p in c && c[p] >= minFreq
    ensures forall p :: p in g ==> g[p] == c[p]
  {
    map p | p in c && c[p] >= minFreq :: c[p]
  }

  /** Thresholding twice is thresholding once at the larger bound. */
  lemma NetworkCompose(c: Counter, m1: int, m2: int)
    ensures Network(Network(c, m1), m2) == Network(c, if m1 < m2 then m2 else m1)
  {
    var m := if m1 < m2 then m2 else m1;
    assert Network(Network(c, m1), m2).Keys == Network(c, m).Keys;
  }

  /** `G.has_edge(a, b)`; the graph has no loops. */
  predicate HasEdge(g: Graph, a: string, b: string)
  {
    a != b && Sorted(a, b) in g
  }

  /** `G[a][b]["weight"]`. */
  function Weight(g: Graph, a: string, b: string): nat
    requires HasEdge(g, a, b)
  {
    g[Sorted(a, b)]
  }

  /** `v in G`: a word is a node when it ends some edge. */
  predicate IsNode(g: Graph, v: string)
  {
    exists p :: p in g && (p.0 == v || p.1 == v)
  }

  /** Edges are undirected: the same edge, with the same weight, from either end. */
  lemma EdgeSymmetric(g: Graph, a: string, b: string)
    ensures HasEdge(g, a, b) <==> HasEdge(g, b, a)
    ensures HasEdge(g, a, b) ==> Weight(g, a, b) == Weight(g, b, a)
  {
    if a != b {
      SortedSymmetric(a, b);
    }
  }

  /**
   * Built from a counter of sorted distinct pairs, the network has an edge
   * a–b exactly when the pair of a and b was counted at least `minFreq`
   * times, and its weight is that count.
   */
  lemma NetworkEdges(c: Counter, minFreq: int, a: string, b: string)
    requires forall p :: p in c ==> Ordered(p)
    ensures HasEdge(Network(c, minFreq), a, b) <==>
      ((a, b) in c && c[(a, b)] >= minFreq) || ((b, a) in c && c[(b, a)] >= minFreq)
    ensures HasEdge(Network(c, minFreq), a, b) ==> Weight(Network(c, minFreq), a, b) == Count(c, Sorted(a, b))
  {
    if (a, b) in c {
      SortedIs(a, b, (a, b));
    }
    if (b, a) in c {
      SortedIs(a, b, (b, a));
    }
  }

  // ---------------------------------------------------------------- top table

  /** `Counter.most_common()`: every entry of the counter once, by descending count. */
  predicate MostCommon(c: Counter, l: seq<(Pair, nat)>)
  {
    && (forall k :: 0 <= k < |l| ==> l[k].0 in c && l[k].1 == c[l[k].0])
    && (forall p :: p in c ==> exists k :: 0 <= k < |l| && l[k].0 == p)
    && (forall k, m :: 0 <= k < m < |l| ==> l[k].0 != l[m].0 && l[k].1 >= l[m].1)
  }

  /** The key cell `f"{a}|{b}"`. */
  function KeyText(p: Pair): (s: string)
    ensures |s| == |p.0| + 1 + |p.1|
    ensures s[..|p.0|] == p.0 && s[|p.0|] == '|' && s[|p.0| + 1..] == p.1
  {
    p.0 + "|" + p.1
  }

  /** The display cell `f"{a}|{b} ({n})"`: the key, then the count in parentheses. */
  function DisplayText(e: (Pair, nat)): (s: string)
    ensures |s| >= |KeyText(e.0)| + 4 && s[..|KeyText(e.0)|] == KeyText(e.0)
    ensures s[|KeyText(e.0)|] == ' ' && s[|KeyText(e.0)| + 1] == '(' && s[|s| - 1] == ')'
    ensures AllDigits(s[|KeyText(e.0)| + 2..|s| - 1])
  {
    KeyText(e.0) + " (" + NatToDecimal(e.1) + ")"
  }

  /** The digits between the parentheses read back as the pair's count. */
  lemma DisplayTextRead(e: (Pair, nat))
    ensures var s := DisplayText(e);
      DecimalValue(s[|KeyText(e.0)| + 2..|s| - 1]) == e.1
  {
    var s := DisplayText(e);
    assert s[|KeyText(e.0)| + 2..|s| - 1] == NatToDecimal(e.1);
    DecimalRoundTrip(e.1);
  }

  /**
   * The per-period loop of `build_cooccurrence_top_table`: from each
   * counter's `most_common` listing, a display column and a key column of
   * exactly `topN` cells, the first `topN` entries followed by "" padding.
   */
  method TopColumns(listings: seq<seq<(Pair, nat)>>, topN: nat) returns (display: seq<seq<string>>, keys: seq<seq<string>>)
    ensures |display| == |listings| && |keys| == |listings|
    ensures forall k :: 0 <= k < |listings| ==> |display[k]| == topN && |keys[k]| == topN
    ensures forall k, i :: 0 <= k < |listings| && 0 <= i < topN ==>
      if i < |listings[k]| then display[k][i] == DisplayText(listings[k][i]) && keys[k][i] == KeyText(listings[k][i].0)
      else display[k][i] == "" && keys[k][i] == ""
  {
    display, keys := [], [];
    for k := 0 to |listings|
      invariant |display| == k && |keys| == k
      invariant forall m :: 0 <= m < k ==> |display[m]| == topN && |keys[m]| == topN
      invariant forall m, i :: 0 <= m < k && 0 <= i < topN ==>
        if i < |listings[m]| then display[m][i] == DisplayText(listings[m][i]) && keys[m][i] == KeyText(listings[m][i].0)
        else display[m][i] == "" && keys[m][i] == ""
    {
      var top := if topN < |listings[k]| then listings[k][..topN] else listings[k];
      var formatted := seq(|top|, i requires 0 <= i < |top| => DisplayText(top[i]));
      var keyed := seq(|top|, i requires 0 <= i < |top| => KeyText(top[i].0));
      display := display + [PadTo(formatted, topN)];
      keys := keys + [PadTo(keyed, topN)];
    }
  }

  /**
   * A `most_common` listing has one entry per counted pair, so a column
   * has min(topN, number of pairs) filled cells and "" in the rest.
   */
  lemma {:induction false} ListingLength(c: Counter, l: seq<(Pair, nat)>)
    requires MostCommon(c, l)
    ensures |l| == |c|
  {
    var ks := seq(|l|, k requires 0 <= k < |l| => l[k].0);
    DistinctCard(ks);
    forall p | p in c
      ensures p in ks
    {
      var k :| 0 <= k < |l| && l[k].0 == p;
      assert ks[k] == p;
    }
    assert c.Keys == set p | p in ks;
  }

  /** A sequence without repeats has as many elements as its set. */
  lemma {:induction false} DistinctCard<T>(s: seq<T>)
    requires forall a, b :: 0 <= a < b < |s| ==> s[a] != s[b]
    ensures |set x | x in s| == |s|
  {
    if s != [] {
      var n := |s| - 1;
      DistinctCard(s[..n]);
      assert (set x | x in s) == (set x | x in s[..n]) + {s[n]};
      assert s[n] !in s[..n];
    }
  }

  /** The row labels "1" … "topN". */
  function RowIndex(topN: nat): (r: seq<string>)
    ensures |r| == topN && forall i :: 0 <= i < topN ==> r[i] == NatToDecimal(i + 1)
  {
    seq(topN, i requires 0 <= i < topN => NatToDecimal(i + 1))
  }

  /**
   * `pd.DataFrame({label: cols[i] for i, label in enumerate(labels)})`:
   * an IndexError (None) when there are more labels than columns; a
   * repeated label keeps the column of its last occurrence.
   */
  function Frame(labels: seq<string>, cols: seq<seq<string>>): (r: Option<map<string, seq<string>>>)
    ensures r.Some? <==> |labels| <= |cols|
    ensures r.Some? ==> forall l :: l in r.value <==> l in labels
  {
    if |labels| > |cols| then None
    else if labels == [] then Some(map[])
    else
      var n := |labels| - 1;
      var init := Frame(labels[..n], cols);
      assert forall l :: l in labels <==> l in labels[..n] || l == labels[n];
      Some(init.value[labels[n] := cols[n]])
  }

  /** Each label's column is the one given at its last occurrence. */
  lemma {:induction false} FrameLastWins(labels: seq<string>, cols: seq<seq<string>>, i: nat)
    requires i < |labels| <= |cols|
    requires forall j :: i < j < |labels| ==> labels[j] != labels[i]
    ensures Frame(labels, cols).value[labels[i]] == cols[i]
  {
    var n := |labels| - 1;
    if i < n {
      FrameLastWins(labels[..n], cols, i);
    }
  }

  /**
   * `build_cooccurrence_top_table`: the display and key frames (None for
   * the IndexError of more labels than counters), each period's column
   * holding exactly `topN` cells, and the row labels.
   */
  method BuildTopTable(labels: seq<string>, listings: seq<seq<(Pair, nat)>>, topN: nat)
    returns (display: Option<map<string, seq<string>>>, keys: Option<map<string, seq<string>>>, index: seq<string>)
    ensures display.Some? <==> |labels| <= |listings|
    ensures keys.Some? <==> |labels| <= |listings|
    ensures display.Some? ==> forall l :: l in display.value <==> l in labels
    ensures display.Some? ==> forall l :: l in display.value ==> |display.value[l]| == topN
    ensures keys.Some? ==> forall l :: l in keys.value ==> |keys.value[l]| == topN
    ensures |index| == topN && forall i :: 0 <= i < topN ==> index[i] == NatToDecimal(i + 1)
  {
    var d, k := TopColumns(listings, topN);
    display := Frame(labels, d);
    keys := Frame(labels, k);
    if display.Some? {
      forall l | l in display.value
        ensures |display.value[l]| == topN && |keys.value[l]| == topN
      {
        var i := LastOccurrence(labels, l);
        FrameLastWins(labels, d, i);
        FrameLastWins(labels, k, i);
      }
    }
    index := RowIndex(topN);
  }

  /** The position of a label's last occurrence. */
  function LastOccurrence(labels: seq<string>, l: string): (i: nat)
    requires l in labels
    ensures i < |labels| && labels[i] == l && forall j :: i < j < |labels| ==> labels[j] != l
  {
    if labels[|labels| - 1] == l then |labels| - 1 else LastOccurrence(labels[..|labels| - 1], l)
  }
}
