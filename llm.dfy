/** The deterministic parts of `LLMGenerator` (src/app/llm/llm.py): the
    choice of the four drafts offered in a poll, and the routing of a
    generation request by mode. The language model, its scores and the
    Python parser behind `is_syntax_ok` are outside: the scores come in as a
    map and syntax validity as a predicate. */
module Llm {
  import opened Wrappers
  import Sorting

  const MaxDraftLength: nat := 95
  const SyntaxBonus: int := 20
  const PickCount: nat := 4

  /** A draft and its score, `(score, d)`. */
  type Scored = (int, string)

  /** `[d for d in drafts if len(d) <= 95]`. */
  function Short(drafts: seq<string>): (r: seq<string>)
    ensures forall k :: 0 <= k < |r| ==> |r[k]| <= MaxDraftLength && r[k] in drafts
  {
    if drafts == [] then []
    else
      var last := drafts[|drafts| - 1];
      Short(drafts[..|drafts| - 1]) + (if |last| <= MaxDraftLength then [last] else [])
  }

  /** The first occurrence of each element, in order. */
  function Dedupe(s: seq<string>): (r: seq<string>)
    ensures forall k :: 0 <= k < |r| ==> r[k] in s
  {
    if s == [] then []
    else
      var init, last := s[..|s| - 1], s[|s| - 1];
      Dedupe(init) + (if last in init then [] else [last])
  }

  /** `llm_scores.get(d, 0)`, plus 20 when the draft parses. */
  function ScoreOf(d: string, scores: map<string, int>, syntaxOk: string -> bool): int {
    (if d in scores then scores[d] else 0) + (if syntaxOk(d) then SyntaxBonus else 0)
  }

  /** The `scored` list: each draft with its score, in order. */
  function ScoreAll(ds: seq<string>, scores: map<string, int>, syntaxOk: string -> bool): (r: seq<Scored>)
    ensures |r| == |ds|
    ensures forall k :: 0 <= k < |r| ==> r[k] == (ScoreOf(ds[k], scores, syntaxOk), ds[k])
  {
    if ds == [] then []
    else ScoreAll(ds[..|ds| - 1], scores, syntaxOk) + [(ScoreOf(ds[|ds| - 1], scores, syntaxOk), ds[|ds| - 1])]
  }

  /** The sort key: `sort(reverse=True, key=score)` is the stable ascending
      sort by the negated score. */
  function NegScore(p: Scored): int {
    -p.0
  }

  /** `[d for (_, d) in ps]`. */
  function Drafts(ps: seq<Scored>): (r: seq<string>)
    ensures |r| == |ps|
    ensures forall k :: 0 <= k < |r| ==> r[k] == ps[k].1
  {
    if ps == [] then [] else Drafts(ps[..|ps| - 1]) + [ps[|ps| - 1].1]
  }

  /** `s[:n]`. */
  function Take<T>(s: seq<T>, n: nat): (r: seq<T>)
    ensures |r| == if |s| <= n then |s| else n
    ensures r == s[..|r|]
  {
    if |s| <= n then s else s[..n]
  }

  /** The drafts that survive the length filter and the deduplication. */
  function Candidates(drafts: seq<string>): seq<string> {
    Dedupe(Short(drafts))
  }

  /** The sorted `scored` list. */
  function Ranked(drafts: seq<string>, scores: map<string, int>, syntaxOk: string -> bool): seq<Scored> {
    Sorting.SortBy(ScoreAll(Candidates(drafts), scores, syntaxOk), NegScore)
  }

  /** What `pick_best_4` returns. */
  function Best4(drafts: seq<string>, scores: map<string, int>, syntaxOk: string -> bool): (r: seq<string>)
    ensures |r| <= PickCount
  {
    Drafts(Take(Ranked(drafts, scores, syntaxOk), PickCount))
  }

  /** `pick_best_4`: filter by length, drop repeats keeping the first, score,
      sort by score from high to low keeping ties in order, take four. */
  method PickBest4(drafts: seq<string>, scores: map<string, int>, syntaxOk: string -> bool) returns (best: seq<string>)
    ensures best == Best4(drafts, scores, syntaxOk)
  {
    var uniq := DedupeDrafts(Short(drafts));
    var scored := ScoreDrafts(uniq, scores, syntaxOk);
    scored := Sorting.SortBy(scored, NegScore);
    best := Drafts(Take(scored, PickCount));
  }

  /** The loop over the drafts with the `seen` set: the first copy of each
      draft, in order. */
  method DedupeDrafts(short: seq<string>) returns (uniq: seq<string>)
    ensures uniq == Dedupe(short)
  {
    var seen: set<string> := {};
    uniq := [];
    var i := 0;
    while i < |short|
      invariant 0 <= i <= |short|
      invariant uniq == Dedupe(short[..i])
      invariant seen == set k | 0 <= k < i :: short[k]
    {
      var d := short[i];
      assert short[..i + 1][..i] == short[..i];
      assert d in short[..i] <==> d in seen by {
        if d in seen {
          var k :| 0 <= k < i && short[k] == d;
          assert short[..i][k] == d;
        }
      }
      if d !in seen {
        uniq := uniq + [d];
        seen := seen + {d};
      }
      i := i + 1;
    }
    assert short[..i] == short;
  }

  /** The scoring loop: each draft paired with its score, in order. */
  method ScoreDrafts(uniq: seq<string>, scores: map<string, int>, syntaxOk: string -> bool) returns (scored: seq<Scored>)
    ensures scored == ScoreAll(uniq, scores, syntaxOk)
  {
    scored := [];
    var i := 0;
    while i < |uniq|
      invariant 0 <= i <= |uniq|
      invariant scored == ScoreAll(uniq[..i], scores, syntaxOk)
    {
      assert uniq[..i + 1][..i] == uniq[..i];
      var d := uniq[i];
      var score := if d in scores then scores[d] else 0;
      if syntaxOk(d) {
        score := score + SyntaxBonus;
      }
      assert score == ScoreOf(d, scores, syntaxOk);
      assert ScoreAll(uniq[..i + 1], scores, syntaxOk) == ScoreAll(uniq[..i], scores, syntaxOk) + [(score, d)];
      scored := scored + [(score, d)];
      i := i + 1;
    }
    assert uniq[..i] == uniq;
  }

  // ---------------------------------------------------------------------
  // What the choice promises
  // ---------------------------------------------------------------------

  predicate Distinct<T(==)>(s: seq<T>) {
    forall i, j :: 0 <= i < j < |s| ==> s[i] != s[j]
  }

  /** Every pair carries the score of its draft. */
  predicate ScoresHold(ps: seq<Scored>, scores: map<string, int>, syntaxOk: string -> bool) {
    forall k :: 0 <= k < |ps| ==> ps[k].0 == ScoreOf(ps[k].1, scores, syntaxOk)
  }

  lemma {:induction false} DedupeDistinct(s: seq<string>)
    ensures Distinct(Dedupe(s))
  {
    if s != [] {
      DedupeDistinct(s[..|s| - 1]);
    }
  }

  /** Deduplication keeps one copy of each element. */
  lemma {:induction false} DedupeCount(s: seq<string>)
    ensures |Dedupe(s)| == |set x | x in s|
  {
    if s != [] {
      var init, last := s[..|s| - 1], s[|s| - 1];
      DedupeCount(init);
      var elems := set x | x in init;
      assert (set x | x in s) == elems + {last} by {
        assert s == init + [last];
      }
      if last in init {
        assert elems + {last} == elems;
        assert Dedupe(s) == Dedupe(init);
      } else {
        assert last !in elems;
        assert |elems + {last}| == |elems| + 1;
        assert Dedupe(s) == Dedupe(init) + [last];
      }
    }
  }

  lemma {:induction false} ShortKeepsShortDrafts(drafts: seq<string>)
    ensures (set x | x in Short(drafts)) == (set d | d in drafts && |d| <= MaxDraftLength)
  {
    if drafts != [] {
      var init, last := drafts[..|drafts| - 1], drafts[|drafts| - 1];
      ShortKeepsShortDrafts(init);
      assert drafts == init + [last];
      assert (set d | d in drafts && |d| <= MaxDraftLength)
          == (set d | d in init && |d| <= MaxDraftLength) + (if |last| <= MaxDraftLength then {last} else {});
      var sh := Short(init) + (if |last| <= MaxDraftLength then [last] else []);
      assert Short(drafts) == sh;
      assert (set x | x in sh) == (set x | x in Short(init)) + (if |last| <= MaxDraftLength then {last} else {});
    }
  }

  lemma {:induction false} DistinctCount<T>(s: seq<T>, x: T)
    requires Distinct(s)
    ensures multiset(s)[x] <= 1
  {
    if s != [] {
      var init, last := s[..|s| - 1], s[|s| - 1];
      forall i, j | 0 <= i < j < |init| ensures init[i] != init[j] {
        assert init[i] == s[i] && init[j] == s[j];
      }
      DistinctCount(init, x);
      assert s == init + [last];
      if x == last {
        forall i | 0 <= i < |init| ensures init[i] != x {
          assert init[i] == s[i];
        }
        assert x !in init;
      }
    }
  }

  lemma RepeatCount<T>(s: seq<T>, i: int, j: int)
    requires 0 <= i < j < |s| && s[i] == s[j]
    ensures multiset(s)[s[i]] >= 2
  {
    assert s == s[..j] + [s[j]] + s[j + 1..];
    assert s[..j][i] == s[i];
    assert multiset(s) == multiset(s[..j]) + multiset{s[j]} + multiset(s[j + 1..]);
  }

  /** A reordering of a sequence without repeats has none either. */
  lemma PermutationKeepsDistinct<T>(a: seq<T>, b: seq<T>)
    requires Distinct(a) && multiset(a) == multiset(b)
    ensures Distinct(b)
  {
    forall i, j | 0 <= i < j < |b| ensures b[i] != b[j] {
      if b[i] == b[j] {
        RepeatCount(b, i, j);
        DistinctCount(a, b[i]);
      }
    }
  }

  /** The pairs of a ranking are those of the scored list. */
  lemma RankedPairs(drafts: seq<string>, scores: map<string, int>, syntaxOk: string -> bool)
    ensures var u := Candidates(drafts);
            var ranked := Ranked(drafts, scores, syntaxOk);
            && |ranked| == |u|
            && ScoresHold(ranked, scores, syntaxOk)
            && Distinct(ranked)
            && (forall k :: 0 <= k < |ranked| ==> ranked[k].1 in u)
  {
    var u := Candidates(drafts);
    var scored := ScoreAll(u, scores, syntaxOk);
    var ranked := Ranked(drafts, scores, syntaxOk);
    DedupeDistinct(Short(drafts));
    forall i, j | 0 <= i < j < |scored| ensures scored[i] != scored[j] {
      assert scored[i].1 == u[i] && scored[j].1 == u[j];
    }
    PermutationKeepsDistinct(scored, ranked);
    forall k | 0 <= k < |ranked|
      ensures ranked[k].0 == ScoreOf(ranked[k].1, scores, syntaxOk) && ranked[k].1 in u
    {
      assert ranked[k] in multiset(ranked);
      assert ranked[k] in multiset(scored);
      var a :| 0 <= a < |scored| && scored[a] == ranked[k];
    }
  }

  /** Every draft offered is at most 95 characters long, comes from the
      input, and none is offered twice. */
  lemma Best4Drafts(drafts: seq<string>, scores: map<string, int>, syntaxOk: string -> bool)
    ensures var best := Best4(drafts, scores, syntaxOk);
            && Distinct(best)
            && forall k :: 0 <= k < |best| ==> best[k] in drafts && |best[k]| <= MaxDraftLength
  {
    var ranked := Ranked(drafts, scores, syntaxOk);
    var top := Take(ranked, PickCount);
    var best := Best4(drafts, scores, syntaxOk);
    RankedPairs(drafts, scores, syntaxOk);
    forall k | 0 <= k < |best| ensures best[k] in drafts && |best[k]| <= MaxDraftLength {
      assert best[k] == ranked[k].1;
      assert ranked[k].1 in Candidates(drafts);
    }
    forall i, j | 0 <= i < j < |best| ensures best[i] != best[j] {
      assert best[i] == ranked[i].1 && best[j] == ranked[j].1;
      assert ranked[i] != ranked[j];
    }
  }

  /** Four drafts are offered, or all the distinct short drafts when there
      are fewer. */
  lemma Best4Count(drafts: seq<string>, scores: map<string, int>, syntaxOk: string -> bool)
    ensures var n := |set d | d in drafts && |d| <= MaxDraftLength|;
            |Best4(drafts, scores, syntaxOk)| == if n <= PickCount then n else PickCount
  {
    RankedPairs(drafts, scores, syntaxOk);
    DedupeCount(Short(drafts));
    ShortKeepsShortDrafts(drafts);
  }

  /** The drafts come from the highest score down. */
  lemma Best4ScoresDescend(drafts: seq<string>, scores: map<string, int>, syntaxOk: string -> bool)
    ensures var best := Best4(drafts, scores, syntaxOk);
            forall i, j :: 0 <= i < j < |best| ==> ScoreOf(best[i], scores, syntaxOk) >= ScoreOf(best[j], scores, syntaxOk)
  {
    var ranked := Ranked(drafts, scores, syntaxOk);
    var best := Best4(drafts, scores, syntaxOk);
    RankedPairs(drafts, scores, syntaxOk);
    Sorting.SortBySorted(ScoreAll(Candidates(drafts), scores, syntaxOk), NegScore);
    forall i, j | 0 <= i < j < |best| ensures ScoreOf(best[i], scores, syntaxOk) >= ScoreOf(best[j], scores, syntaxOk) {
      assert best[i] == ranked[i].1 && best[j] == ranked[j].1;
      assert NegScore(ranked[i]) <= NegScore(ranked[j]);
    }
  }

  /** The drafts among `ds` with score `v`, in order. */
  function WithScore(ds: seq<string>, v: int, scores: map<string, int>, syntaxOk: string -> bool): seq<string> {
    if ds == [] then []
    else
      var last := ds[|ds| - 1];
      WithScore(ds[..|ds| - 1], v, scores, syntaxOk) + (if ScoreOf(last, scores, syntaxOk) == v then [last] else [])
  }

  lemma {:induction false} DraftsWithKey(ps: seq<Scored>, v: int, scores: map<string, int>, syntaxOk: string -> bool)
    requires ScoresHold(ps, scores, syntaxOk)
    ensures Drafts(Sorting.WithKey(ps, NegScore, -v)) == WithScore(Drafts(ps), v, scores, syntaxOk)
  {
    if ps != [] {
      var init, last := ps[..|ps| - 1], ps[|ps| - 1];
      DraftsWithKey(init, v, scores, syntaxOk);
      assert Drafts(ps)[..|ps| - 1] == Drafts(init);
      var w := Sorting.WithKey(init, NegScore, -v);
      if NegScore(last) == -v {
        assert Drafts(w + [last])[..|w|] == Drafts(w);
      } else {
        assert w + [] == w;
      }
    }
  }

  lemma {:induction false} WithKeyOfPrefix(s: seq<Scored>, t: seq<Scored>, k: int)
    requires t <= s
    ensures Sorting.WithKey(t, NegScore, k) <= Sorting.WithKey(s, NegScore, k)
  {
    if |t| < |s| {
      var init := s[..|s| - 1];
      WithKeyOfPrefix(init, t, k);
    } else {
      assert t == s;
    }
  }

  lemma {:induction false} DraftsOfPrefix(a: seq<Scored>, b: seq<Scored>)
    requires a <= b
    ensures Drafts(a) <= Drafts(b)
  {
  }

  lemma {:induction false} ScoreAllDrafts(ds: seq<string>, scores: map<string, int>, syntaxOk: string -> bool)
    ensures Drafts(ScoreAll(ds, scores, syntaxOk)) == ds
    ensures ScoresHold(ScoreAll(ds, scores, syntaxOk), scores, syntaxOk)
  {
  }

  /** Stability: the drafts offered with a given score are the first ones
      with that score among the candidates, in their order of first
      occurrence. */
  lemma Best4Stable(drafts: seq<string>, scores: map<string, int>, syntaxOk: string -> bool, v: int)
    ensures WithScore(Best4(drafts, scores, syntaxOk), v, scores, syntaxOk)
         <= WithScore(Candidates(drafts), v, scores, syntaxOk)
  {
    var u := Candidates(drafts);
    var scored := ScoreAll(u, scores, syntaxOk);
    var ranked := Sorting.SortBy(scored, NegScore);
    var top := Take(ranked, PickCount);
    assert Best4(drafts, scores, syntaxOk) == Drafts(top);
    RankedPairs(drafts, scores, syntaxOk);
    ScoresHoldOfPrefix(ranked, top, scores, syntaxOk);
    ScoreAllDrafts(u, scores, syntaxOk);
    TopKeepsScoreOrder(scored, top, v, scores, syntaxOk);
  }

  lemma ScoresHoldOfPrefix(ps: seq<Scored>, t: seq<Scored>, scores: map<string, int>, syntaxOk: string -> bool)
    requires ScoresHold(ps, scores, syntaxOk) && t <= ps
    ensures ScoresHold(t, scores, syntaxOk)
  {
    forall k | 0 <= k < |t| ensures t[k].0 == ScoreOf(t[k].1, scores, syntaxOk) {
      assert t[k] == ps[k];
    }
  }

  /** The drafts offered are the best-scoring candidates: a candidate that
      is not offered scores no higher than any draft that is. */
  lemma Best4Top(drafts: seq<string>, scores: map<string, int>, syntaxOk: string -> bool, d: string, e: string)
    requires d in Candidates(drafts) && d !in Best4(drafts, scores, syntaxOk)
    requires e in Best4(drafts, scores, syntaxOk)
    ensures ScoreOf(d, scores, syntaxOk) <= ScoreOf(e, scores, syntaxOk)
  {
    var u := Candidates(drafts);
    var scored := ScoreAll(u, scores, syntaxOk);
    var ranked := Ranked(drafts, scores, syntaxOk);
    var top := Take(ranked, PickCount);
    var best := Best4(drafts, scores, syntaxOk);
    RankedPairs(drafts, scores, syntaxOk);
    Sorting.SortBySorted(scored, NegScore);
    var i :| 0 <= i < |u| && u[i] == d;
    assert scored[i] == (ScoreOf(d, scores, syntaxOk), d);
    assert scored[i] in multiset(ranked);
    var p :| 0 <= p < |ranked| && ranked[p] == scored[i];
    var q :| 0 <= q < |best| && best[q] == e;
    assert best[q] == ranked[q].1;
    forall k | 0 <= k < |best| ensures ranked[k].1 != d {
      assert best[k] == top[k].1 && top[k] == ranked[k];
      assert best[k] in best;
    }
    assert |best| <= p;
    assert NegScore(ranked[q]) <= NegScore(ranked[p]);
  }

  /** The drafts of one score in a prefix of the ranking are a prefix of
      the drafts of that score in the scored list. */
  lemma TopKeepsScoreOrder(scored: seq<Scored>, top: seq<Scored>, v: int, scores: map<string, int>, syntaxOk: string -> bool)
    requires ScoresHold(scored, scores, syntaxOk) && ScoresHold(top, scores, syntaxOk)
    requires top <= Sorting.SortBy(scored, NegScore)
    ensures WithScore(Drafts(top), v, scores, syntaxOk) <= WithScore(Drafts(scored), v, scores, syntaxOk)
  {
    WithKeyOfPrefix(Sorting.SortBy(scored, NegScore), top, -v);
    Sorting.SortByStable(scored, NegScore, -v);
    DraftsOfPrefix(Sorting.WithKey(top, NegScore, -v), Sorting.WithKey(scored, NegScore, -v));
    DraftsWithKey(top, v, scores, syntaxOk);
    DraftsWithKey(scored, v, scores, syntaxOk);
  }

  /** `route_by_mode`: the node a request of each mode starts at; any other
      mode has none. */
  function RouteByMode(mode: string): (r: Option<string>)
    ensures r.None? <==> mode !in {"zero", "next", "complete"}
    ensures mode == "zero" ==> r == Some("zero_history")
    ensures mode == "next" ==> r == Some("next_line")
    ensures mode == "complete" ==> r == Some("auto_complete")
  {
    if mode == "zero" then Some("zero_history")
    else if mode == "next" then Some("next_line")
    else if mode == "complete" then Some("auto_complete")
    else None
  }

  /** The keys of the conditional edges leaving the graph's start. */
  const StartEdges: set<string> := {"zero_history", "next_line", "auto_complete"}

  /** Every route leads to a start edge, and each start edge is reached by
      exactly one mode. */
  lemma RoutesMatchStartEdges()
    ensures forall mode :: RouteByMode(mode).Some? ==> RouteByMode(mode).value in StartEdges
    ensures forall node :: node in StartEdges ==> exists mode :: RouteByMode(mode) == Some(node)
    ensures forall m1, m2 :: RouteByMode(m1).Some? && RouteByMode(m1) == RouteByMode(m2) ==> m1 == m2
  {
    assert RouteByMode("zero") == Some("zero_history");
    assert RouteByMode("next") == Some("next_line");
    assert RouteByMode("complete") == Some("auto_complete");
  }
}
