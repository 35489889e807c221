/** Maximal marginal relevance re-ranking (`mmr`) and the cosine similarity it
    uses to compare document embeddings. */
module Mmr {
  import opened Common
  import opened MaxNorm
  import opened Sorting

  type Vector = seq<real>

  // ---------------------------------------------------------------------------
  // Cosine similarity
  // ---------------------------------------------------------------------------

  /** `sum(p * q for p, q in zip(v1, v2))`: pairs beyond the shorter vector are
      ignored. */
  function Dot(v1: Vector, v2: Vector): real
    decreases |v1|
  {
    if v1 == [] || v2 == [] then 0.0 else v1[0] * v2[0] + Dot(v1[1..], v2[1..])
  }

  /** `sum([val ** 2 for val in v])`. */
  function SumSq(v: Vector): real
    decreases |v|
  {
    if v == [] then 0.0 else v[0] * v[0] + SumSq(v[1..])
  }

  /** `cosine_similarity(v1, v2)`, with `math.sqrt` as the parameter `sqrt`:
      0 when the product of the magnitudes is 0, otherwise the dot product
      divided by it. */
  function CosineSimilarity(v1: Vector, v2: Vector, sqrt: real -> real): real
  {
    var magnitude := sqrt(SumSq(v1)) * sqrt(SumSq(v2));
    if magnitude == 0.0 then 0.0 else Dot(v1, v2) / magnitude
  }

  lemma {:induction false} DotSymmetric(v1: Vector, v2: Vector)
    ensures Dot(v1, v2) == Dot(v2, v1)
    decreases |v1|
  {
    if v1 != [] && v2 != [] {
      DotSymmetric(v1[1..], v2[1..]);
    }
  }

  /** The dot product only sees the common length of the two vectors. */
  lemma {:induction false} DotOverZip(v1: Vector, v2: Vector)
    ensures Dot(v1, v2) == Dot(v1[..Min(|v1|, |v2|)], v2[..Min(|v1|, |v2|)])
    decreases |v1|
  {
    var n := Min(|v1|, |v2|);
    if v1 != [] && v2 != [] {
      DotOverZip(v1[1..], v2[1..]);
      assert v1[..n][1..] == v1[1..][..n - 1];
      assert v2[..n][1..] == v2[1..][..n - 1];
    }
  }

  lemma {:induction false} DotSelfIsSumSq(v: Vector)
    ensures Dot(v, v) == SumSq(v)
    decreases |v|
  {
    if v != [] {
      DotSelfIsSumSq(v[1..]);
    }
  }

  /** A sum of squares is never negative. */
  lemma {:induction false} SumSqNonNegative(v: Vector)
    ensures SumSq(v) >= 0.0
    decreases |v|
  {
    if v != [] {
      SumSqNonNegative(v[1..]);
      SquareSign(v[0]);
    }
  }

  /** The zero vector has a zero sum of squares. */
  lemma {:induction false} SumSqOfZeroVector(v: Vector)
    requires forall i :: 0 <= i < |v| ==> v[i] == 0.0
    ensures SumSq(v) == 0.0
    decreases |v|
  {
    if v != [] {
      assert forall i :: 0 <= i < |v[1..]| ==> v[1..][i] == v[i + 1];
      SumSqOfZeroVector(v[1..]);
    }
  }

  lemma SquareSign(x: real)
    ensures x * x >= 0.0
  {
    if x < 0.0 {
      var y := -x;
      assert y * y > 0.0;
      assert x * x == y * y;
    } else if x > 0.0 {
      assert x * x > 0.0;
    }
  }

  lemma CosineSymmetric(v1: Vector, v2: Vector, sqrt: real -> real)
    ensures CosineSimilarity(v1, v2, sqrt) == CosineSimilarity(v2, v1, sqrt)
  {
    DotSymmetric(v1, v2);
    assert sqrt(SumSq(v1)) * sqrt(SumSq(v2)) == sqrt(SumSq(v2)) * sqrt(SumSq(v1));
  }

  /** A zero vector (zero magnitude) has similarity 0 with everything. */
  lemma CosineOfZeroVector(v1: Vector, v2: Vector, sqrt: real -> real)
    requires sqrt(0.0) == 0.0
    requires forall i :: 0 <= i < |v1| ==> v1[i] == 0.0
    ensures CosineSimilarity(v1, v2, sqrt) == 0.0
    ensures CosineSimilarity(v2, v1, sqrt) == 0.0
  {
    SumSqOfZeroVector(v1);
    CosineSymmetric(v1, v2, sqrt);
  }

  /** With a true square root, a non-zero vector is fully similar to itself. */
  lemma CosineSelfIsOne(v: Vector, sqrt: real -> real)
    requires SumSq(v) != 0.0
    requires sqrt(SumSq(v)) * sqrt(SumSq(v)) == SumSq(v)
    ensures CosineSimilarity(v, v, sqrt) == 1.0
  {
    DotSelfIsSumSq(v);
    var m := sqrt(SumSq(v)) * sqrt(SumSq(v));
    assert m == SumSq(v);
    assert Dot(v, v) / m == 1.0;
  }

  // ---------------------------------------------------------------------------
  // Built-in `max` over a list
  // ---------------------------------------------------------------------------

  /** `max(s)` of a non-empty list of numbers. */
  function MaxOfSeq(s: seq<real>): (m: real)
    requires s != []
    ensures m in s
    ensures forall i :: 0 <= i < |s| ==> s[i] <= m
  {
    if |s| == 1 then s[0]
    else
      var m := MaxOfSeq(s[..|s| - 1]);
      assert forall i :: 0 <= i < |s| - 1 ==> s[..|s| - 1][i] == s[i];
      if s[|s| - 1] > m then s[|s| - 1] else m
  }

  /** The position `max` picks: the first one holding the largest value (a
      later element replaces the current best only when strictly larger). */
  function FirstArgMax(s: seq<real>): (b: nat)
    requires s != []
    ensures b < |s|
    ensures forall i :: 0 <= i < |s| ==> s[i] <= s[b]
    ensures forall i :: 0 <= i < b ==> s[i] < s[b]
  {
    if |s| == 1 then 0
    else
      var b := FirstArgMax(s[..|s| - 1]);
      assert forall i :: 0 <= i < |s| - 1 ==> s[..|s| - 1][i] == s[i];
      if s[|s| - 1] > s[b] then |s| - 1 else b
  }

  // ---------------------------------------------------------------------------
  // Candidates
  // ---------------------------------------------------------------------------

  /** `doc['id'] in vectors`: the embedding map is keyed by strings, so an
      integer identifier never has a vector. */
  predicate HasVector(id: RawId, vectors: map<string, Vector>)
  {
    id.StrId? && id.s in vectors
  }

  predicate AllHaveVectors(ids: seq<RawId>, vectors: map<string, Vector>)
  {
    forall i :: 0 <= i < |ids| ==> HasVector(ids[i], vectors)
  }

  /** Having a vector carries over to any list of the same identifiers. */
  lemma AllHaveVectorsWithin(a: seq<RawId>, b: seq<RawId>, vectors: map<string, Vector>)
    requires AllHaveVectors(b, vectors)
    requires forall x :: x in a ==> x in b
    ensures AllHaveVectors(a, vectors)
  {
    forall i | 0 <= i < |a| ensures HasVector(a[i], vectors) {
      assert a[i] in a;
    }
  }

  /** `doc_ids_with_vectors`: the identifiers that have a vector, in input order. */
  function Eligible(docs: seq<Doc>, vectors: map<string, Vector>): (e: seq<RawId>)
    ensures AllHaveVectors(e, vectors)
    ensures forall x :: x in e <==> exists i :: 0 <= i < |docs| && docs[i].id == x && HasVector(x, vectors)
    decreases |docs|
  {
    if docs == [] then []
    else
      var rest := Eligible(docs[1..], vectors);
      assert forall i :: 0 < i < |docs| ==> docs[i] == docs[1..][i - 1];
      if HasVector(docs[0].id, vectors) then [docs[0].id] + rest else rest
  }

  lemma {:induction false} EligibleNoDuplicates(docs: seq<Doc>, vectors: map<string, Vector>)
    requires DistinctIds(docs)
    ensures NoDuplicates(Eligible(docs, vectors))
    decreases |docs|
  {
    if docs != [] {
      EligibleNoDuplicates(docs[1..], vectors);
      var rest := Eligible(docs[1..], vectors);
      if docs[0].id in rest {
        var i :| 0 <= i < |docs[1..]| && docs[1..][i].id == docs[0].id && HasVector(docs[0].id, vectors);
        assert docs[i + 1].id == docs[0].id;
      }
    }
  }

  /** The eligible identifiers, in input order, that are not yet selected: what
      `remaining_ids` holds at every step. */
  function Unselected(e: seq<RawId>, selected: seq<RawId>): seq<RawId>
    decreases |e|
  {
    if e == [] then []
    else if e[0] in selected then Unselected(e[1..], selected)
    else [e[0]] + Unselected(e[1..], selected)
  }

  lemma {:induction false} UnselectedMembers(e: seq<RawId>, selected: seq<RawId>)
    ensures forall x :: x in Unselected(e, selected) <==> x in e && x !in selected
    decreases |e|
  {
    if e != [] {
      UnselectedMembers(e[1..], selected);
    }
  }

  lemma {:induction false} UnselectedIgnores(e: seq<RawId>, selected: seq<RawId>, x: RawId)
    requires x !in e
    ensures Unselected(e, selected + [x]) == Unselected(e, selected)
    decreases |e|
  {
    if e != [] {
      UnselectedIgnores(e[1..], selected, x);
      assert e[0] in selected + [x] <==> e[0] in selected;
    }
  }

  lemma {:induction false} UnselectedNoDuplicates(e: seq<RawId>, selected: seq<RawId>)
    requires NoDuplicates(e)
    ensures NoDuplicates(Unselected(e, selected))
    decreases |e|
  {
    if e != [] {
      assert NoDuplicates(e[1..]) by {
        forall i, j | 0 <= i < j < |e[1..]| ensures e[1..][i] != e[1..][j] {
          assert e[1..][i] == e[i + 1] && e[1..][j] == e[j + 1];
        }
      }
      UnselectedNoDuplicates(e[1..], selected);
      UnselectedMembers(e[1..], selected);
      assert e[0] !in e[1..];
    }
  }

  /** `remaining_ids.remove(best_id)` keeps `remaining_ids` equal to the
      unselected eligible identifiers once `best_id` is selected. */
  lemma {:induction false} UnselectedRemove(e: seq<RawId>, selected: seq<RawId>, x: RawId)
    requires NoDuplicates(e)
    requires x in Unselected(e, selected)
    ensures RemoveFirst(Unselected(e, selected), x) == Unselected(e, selected + [x])
    decreases |e|
  {
    assert NoDuplicates(e[1..]) by {
      forall i, j | 0 <= i < j < |e[1..]| ensures e[1..][i] != e[1..][j] {
        assert e[1..][i] == e[i + 1] && e[1..][j] == e[j + 1];
      }
    }
    UnselectedMembers(e[1..], selected);
    if e[0] == x {
      assert x !in e[1..];
      UnselectedIgnores(e[1..], selected, x);
    } else if e[0] in selected {
      UnselectedRemove(e[1..], selected, x);
    } else {
      UnselectedRemove(e[1..], selected, x);
      assert e[0] !in selected + [x];
    }
  }

  /** After the first pick, `remaining_ids` is the rest of the eligible list. */
  lemma UnselectedAfterFirst(e: seq<RawId>)
    requires NoDuplicates(e) && e != []
    ensures Unselected(e, [e[0]]) == e[1..]
  {
    assert e[0] !in e[1..];
    UnselectedIgnores(e[1..], [], e[0]);
    assert [] + [e[0]] == [e[0]];
    UnselectedNone(e[1..]);
  }

  lemma {:induction false} UnselectedNone(e: seq<RawId>)
    ensures Unselected(e, []) == e
    decreases |e|
  {
    if e != [] {
      UnselectedNone(e[1..]);
    }
  }

  // ---------------------------------------------------------------------------
  // The greedy selection, for any scoring rule
  // ---------------------------------------------------------------------------

  /** The marginal relevance of a candidate given what is already selected. */
  type Scorer = (seq<RawId>, RawId) -> real

  /** The values of `mmr_scores`, in the order of `remaining_ids`. */
  function ScoresFor(score: Scorer, chosen: seq<RawId>, u: seq<RawId>): (r: seq<real>)
    ensures |r| == |u|
  {
    seq(|u|, p requires 0 <= p < |u| => score(chosen, u[p]))
  }

  /** The `while` loop of `mmr` as a recursion: while fewer than `k` are
      selected and candidates remain, select the first candidate of largest
      score and drop it from the candidates. */
  function GreedyFrom(score: Scorer, k: int, chosen: seq<RawId>, u: seq<RawId>): (g: seq<RawId>)
    ensures chosen <= g && |g| <= (if |chosen| >= k then |chosen| else k)
    ensures forall x :: x in g ==> x in chosen || x in u
    decreases |u|
  {
    if |chosen| >= k || u == [] then chosen
    else
      var x := Pick(score, chosen, u);
      GreedyFrom(score, k, chosen + [x], RemoveFirst(u, x))
  }

  /** `best_id = max(mmr_scores, key=mmr_scores.get)`. */
  function Pick(score: Scorer, chosen: seq<RawId>, u: seq<RawId>): (x: RawId)
    requires u != []
    ensures x in u
  {
    u[FirstArgMax(ScoresFor(score, chosen, u))]
  }

  /** `x` is what one round of the loop selects after `chosen`: a candidate of
      largest score, and the first such one in candidate order. */
  ghost predicate IsGreedyPick(score: Scorer, e: seq<RawId>, chosen: seq<RawId>, x: RawId)
  {
    IsFirstBest(score, chosen, Unselected(e, chosen), x)
  }

  /** `x` is a candidate of largest score, and no candidate before it scores
      as much. */
  ghost predicate IsFirstBest(score: Scorer, chosen: seq<RawId>, u: seq<RawId>, x: RawId)
  {
    x in u &&
    forall p :: 0 <= p < |u| ==>
      score(chosen, u[p]) <= score(chosen, x) &&
      (p < IndexOf(u, x) ==> score(chosen, u[p]) < score(chosen, x))
  }

  /** `max(mmr_scores, key=mmr_scores.get)` picks the first best candidate. */
  lemma FirstArgMaxIsFirstBest(score: Scorer, chosen: seq<RawId>, u: seq<RawId>)
    requires u != [] && NoDuplicates(u)
    ensures IsFirstBest(score, chosen, u, Pick(score, chosen, u))
  {
    var sc := ScoresFor(score, chosen, u);
    var b := FirstArgMax(sc);
    assert IndexOf(u, u[b]) == b;
    forall p | 0 <= p < |u| ensures sc[p] == score(chosen, u[p]) {
    }
  }

  /** The selection rule of `mmr` stated without the loop: the first eligible
      identifier, then greedy picks, until `k` are selected (at least one) or
      the eligible identifiers run out. */
  ghost predicate IsGreedySelection(score: Scorer, k: int, e: seq<RawId>, sel: seq<RawId>)
  {
    e != [] &&
    |sel| == (if k <= 1 then 1 else Min(k, |e|)) &&
    sel[0] == e[0] &&
    forall i {:trigger IsGreedyPick(score, e, sel[..i], sel[i])} :: 1 <= i < |sel| ==> IsGreedyPick(score, e, sel[..i], sel[i])
  }

  /** Two greedy picks after the same selection are the same identifier:
      each is at least as good as the other, so neither can come first. */
  lemma PickUnique(score: Scorer, e: seq<RawId>, chosen: seq<RawId>, x: RawId, y: RawId)
    requires IsGreedyPick(score, e, chosen, x)
    requires IsGreedyPick(score, e, chosen, y)
    ensures x == y
  {
  }

  /** Selections that follow the rule and agree on their first `i` entries
      agree on one more. */
  lemma StepAgree(score: Scorer, k: int, e: seq<RawId>, s: seq<RawId>, t: seq<RawId>, i: nat)
    requires IsGreedySelection(score, k, e, s)
    requires IsGreedySelection(score, k, e, t)
    requires 1 <= i < |s| && s[..i] == t[..i]
    ensures s[..i + 1] == t[..i + 1]
  {
    assert IsGreedyPick(score, e, t[..i], t[i]);
    PickUnique(score, e, s[..i], s[i], t[i]);
    assert s[..i + 1] == s[..i] + [s[i]];
    assert t[..i + 1] == t[..i] + [t[i]];
  }

  /** Two selections that follow the rule agree on their first `i` entries. */
  lemma {:induction false} GreedyPrefixAgree(score: Scorer, k: int, e: seq<RawId>, s: seq<RawId>, t: seq<RawId>, i: nat)
    requires IsGreedySelection(score, k, e, s)
    requires IsGreedySelection(score, k, e, t)
    requires 1 <= i <= |s|
    ensures s[..i] == t[..i]
  {
    if i == 1 {
      assert s[..1] == [s[0]] && t[..1] == [t[0]];
    } else {
      GreedyPrefixAgree(score, k, e, s, t, i - 1);
      StepAgree(score, k, e, s, t, i - 1);
    }
  }

  /** The selection rule leaves no choice: two selections that follow it are
      equal. */
  lemma GreedySelectionUnique(score: Scorer, k: int, e: seq<RawId>, s: seq<RawId>, t: seq<RawId>)
    requires IsGreedySelection(score, k, e, s)
    requires IsGreedySelection(score, k, e, t)
    ensures s == t
  {
    GreedyPrefixAgree(score, k, e, s, t, |s|);
    assert s == s[..|s|] && t == t[..|t|];
  }

  /** The pick of one round of the loop is a greedy pick. */
  lemma GreedyStepPick(score: Scorer, e: seq<RawId>, chosen: seq<RawId>)
    requires NoDuplicates(e)
    requires Unselected(e, chosen) != []
    ensures IsGreedyPick(score, e, chosen, Pick(score, chosen, Unselected(e, chosen)))
  {
    UnselectedNoDuplicates(e, chosen);
    FirstArgMaxIsFirstBest(score, chosen, Unselected(e, chosen));
  }

  /** One round of the loop selects an unselected eligible identifier, and
      removing it from the candidates leaves the unselected eligible
      identifiers. */
  lemma GreedyStep(score: Scorer, e: seq<RawId>, chosen: seq<RawId>)
    requires NoDuplicates(e) && NoDuplicates(chosen)
    requires forall x :: x in chosen ==> x in e
    requires Unselected(e, chosen) != []
    ensures
      var x := Pick(score, chosen, Unselected(e, chosen));
      && NoDuplicates(chosen + [x])
      && (forall y :: y in chosen + [x] ==> y in e)
      && RemoveFirst(Unselected(e, chosen), x) == Unselected(e, chosen + [x])
  {
    var u := Unselected(e, chosen);
    var x := Pick(score, chosen, u);
    UnselectedMembers(e, chosen);
    UnselectedRemove(e, chosen, x);
    var chosen' := chosen + [x];
    assert x !in chosen;
    forall i, j | 0 <= i < j < |chosen'| ensures chosen'[i] != chosen'[j] {
      if j == |chosen| { assert chosen'[i] in chosen; }
    }
  }

  /** The loop from a state where the candidates are the unselected eligible
      identifiers: the selection only grows, stays duplicate-free and
      eligible, and stops short of `k` only when every eligible identifier is
      selected. */
  lemma {:induction false} GreedyFromGrows(score: Scorer, k: int, e: seq<RawId>, chosen: seq<RawId>)
    requires NoDuplicates(e) && NoDuplicates(chosen)
    requires forall x :: x in chosen ==> x in e
    ensures
      var g := GreedyFrom(score, k, chosen, Unselected(e, chosen));
      && chosen <= g
      && NoDuplicates(g)
      && (forall x :: x in g ==> x in e)
      && (|g| < k ==> forall x :: x in e ==> x in g)
    decreases |Unselected(e, chosen)|
  {
    var u := Unselected(e, chosen);
    if |chosen| < k && u != [] {
      var x := Pick(score, chosen, u);
      var chosen' := chosen + [x];
      GreedyStep(score, e, chosen);
      GreedyFromGrows(score, k, e, chosen');
      assert GreedyFrom(score, k, chosen, u) == GreedyFrom(score, k, chosen', Unselected(e, chosen'));
    } else if u == [] {
      UnselectedMembers(e, chosen);
    }
  }

  /** The loop selects `k` identifiers, or all candidates if there are fewer. */
  lemma {:induction false} GreedyFromLength(score: Scorer, k: int, e: seq<RawId>, chosen: seq<RawId>)
    requires NoDuplicates(e) && NoDuplicates(chosen)
    requires forall x :: x in chosen ==> x in e
    ensures |GreedyFrom(score, k, chosen, Unselected(e, chosen))|
            == if |chosen| >= k then |chosen| else Min(k, |chosen| + |Unselected(e, chosen)|)
    decreases |Unselected(e, chosen)|
  {
    var u := Unselected(e, chosen);
    if |chosen| < k && u != [] {
      var x := Pick(score, chosen, u);
      var chosen' := chosen + [x];
      GreedyStep(score, e, chosen);
      GreedyFromLength(score, k, e, chosen');
      assert GreedyFrom(score, k, chosen, u) == GreedyFrom(score, k, chosen', Unselected(e, chosen'));
      assert |Unselected(e, chosen')| == |u| - 1;
    }
  }

  /** Every identifier the loop adds is a greedy pick. */
  lemma {:induction false} GreedyFromPicks(score: Scorer, k: int, e: seq<RawId>, chosen: seq<RawId>)
    requires NoDuplicates(e) && NoDuplicates(chosen)
    requires forall x :: x in chosen ==> x in e
    ensures
      var g := GreedyFrom(score, k, chosen, Unselected(e, chosen));
      forall i {:trigger IsGreedyPick(score, e, g[..i], g[i])} :: |chosen| <= i < |g| ==> IsGreedyPick(score, e, g[..i], g[i])
    decreases |Unselected(e, chosen)|
  {
    var u := Unselected(e, chosen);
    if |chosen| < k && u != [] {
      var x := Pick(score, chosen, u);
      var chosen' := chosen + [x];
      GreedyStep(score, e, chosen);
      GreedyStepPick(score, e, chosen);
      GreedyFromPicks(score, k, e, chosen');
      GreedyFromGrows(score, k, e, chosen');
      var g := GreedyFrom(score, k, chosen', Unselected(e, chosen'));
      assert GreedyFrom(score, k, chosen, u) == g;
      assert g[..|chosen|] == chosen && g[|chosen|] == x by {
        assert g[..|chosen'|] == chosen';
        assert chosen'[..|chosen|] == chosen;
      }
    }
  }

  /** The loop started as `mmr` starts it, with the first eligible identifier
      selected, follows the selection rule. */
  lemma GreedyIsGreedySelection(score: Scorer, k: int, e: seq<RawId>)
    requires e != [] && NoDuplicates(e)
    ensures IsGreedySelection(score, k, e, GreedyFrom(score, k, [e[0]], e[1..]))
  {
    UnselectedAfterFirst(e);
    GreedyFromLength(score, k, e, [e[0]]);
    GreedyFromPicks(score, k, e, [e[0]]);
    GreedyFromGrows(score, k, e, [e[0]]);
    var sel := GreedyFrom(score, k, [e[0]], e[1..]);
    assert |sel| == (if 1 >= k then 1 else Min(k, 1 + |e[1..]|));
  }

  /** It selects distinct eligible identifiers. */
  lemma GreedyDistinctEligible(score: Scorer, k: int, e: seq<RawId>)
    requires e != [] && NoDuplicates(e)
    ensures var sel := GreedyFrom(score, k, [e[0]], e[1..]);
            NoDuplicates(sel) && forall x :: x in sel ==> x in e
  {
    UnselectedAfterFirst(e);
    GreedyFromGrows(score, k, e, [e[0]]);
  }

  /** With room for every eligible identifier it selects them all. */
  lemma GreedyRoomySelectsAll(score: Scorer, k: int, e: seq<RawId>)
    requires e != [] && NoDuplicates(e) && k >= |e|
    ensures forall x :: x in e ==> x in GreedyFrom(score, k, [e[0]], e[1..])
  {
    UnselectedAfterFirst(e);
    GreedyFromGrows(score, k, e, [e[0]]);
    GreedyFromLength(score, k, e, [e[0]]);
    var sel := GreedyFrom(score, k, [e[0]], e[1..]);
    if |sel| >= k {
      AllWithinAndAsLong(sel, e);
    }
  }

  // ---------------------------------------------------------------------------
  // Marginal relevance
  // ---------------------------------------------------------------------------

  /** `vectors[doc_id]`; the loop only looks up identifiers that are keys. */
  function VectorOf(vectors: map<string, Vector>, id: RawId): Vector
  {
    if HasVector(id, vectors) then vectors[id.s] else []
  }

  /** `[cosine_similarity(vectors[doc_id], vectors[sel_id]) for sel_id in selected_ids]`. */
  function Sims(vectors: map<string, Vector>, id: RawId, chosen: seq<RawId>, sqrt: real -> real): (r: seq<real>)
    ensures |r| == |chosen|
  {
    seq(|chosen|, j requires 0 <= j < |chosen| => CosineSimilarity(VectorOf(vectors, id), VectorOf(vectors, chosen[j]), sqrt))
  }

  /** `max_sim`: the largest similarity to an already selected document, 0 when
      nothing is selected. */
  function MaxSim(vectors: map<string, Vector>, id: RawId, chosen: seq<RawId>, sqrt: real -> real): (m: real)
    ensures chosen == [] ==> m == 0.0
    ensures chosen != [] ==> m in Sims(vectors, id, chosen, sqrt)
    ensures forall j :: 0 <= j < |chosen| ==> Sims(vectors, id, chosen, sqrt)[j] <= m
  {
    if chosen == [] then 0.0 else MaxOfSeq(Sims(vectors, id, chosen, sqrt))
  }

  /** `lambda_val * relevance - (1 - lambda_val) * max_sim`. */
  function MmrScore(lam: real, relevance: real, maxSim: real): real
  {
    lam * relevance - (1.0 - lam) * maxSim
  }

  /** The marginal relevance of candidate `id` once `chosen` is selected, with
      `scores.get(doc_id, 0)` as its relevance. */
  function MmrScoreOf(rel: map<RawId, real>, vectors: map<string, Vector>, lam: real, sqrt: real -> real,
                      chosen: seq<RawId>, id: RawId): real
  {
    MmrScore(lam, Get0(rel, id), MaxSim(vectors, id, chosen, sqrt))
  }

  function MmrScorer(rel: map<RawId, real>, vectors: map<string, Vector>, lam: real, sqrt: real -> real): Scorer
  {
    (chosen: seq<RawId>, id: RawId) => MmrScoreOf(rel, vectors, lam, sqrt, chosen, id)
  }

  /** `scores` after normalisation: each document's score divided by the
      largest score when that is positive. */
  ghost function Relevance(documents: seq<Doc>): map<RawId, real>
    requires Scored(documents)
  {
    Normalized(DictFrom(DocIds(documents), RawScores(documents)))
  }

  /** `selected_ids` when the loop ends. */
  ghost function MmrSelection(documents: seq<Doc>, vectors: map<string, Vector>, lam: real, k: int,
                              sqrt: real -> real): seq<RawId>
    requires Scored(documents) && Eligible(documents, vectors) != []
  {
    var e := Eligible(documents, vectors);
    GreedyFrom(MmrScorer(Relevance(documents), vectors, lam, sqrt), k, [e[0]], e[1..])
  }

  /** What the loop selects follows the selection rule, is duplicate-free and
      belongs to documents that have a vector. */
  lemma MmrSelectionIsGreedy(documents: seq<Doc>, vectors: map<string, Vector>, lam: real, k: int,
                             sqrt: real -> real)
    requires Scored(documents) && Eligible(documents, vectors) != [] && DistinctIds(documents)
    ensures var e := Eligible(documents, vectors);
            var sel := MmrSelection(documents, vectors, lam, k, sqrt);
            && IsGreedySelection(MmrScorer(Relevance(documents), vectors, lam, sqrt), k, e, sel)
            && NoDuplicates(sel)
            && (forall j :: 0 <= j < |sel| ==> sel[j] in e && sel[j] in DocIds(documents))
            && (k >= |e| ==> forall x :: x in e ==> x in sel)
  {
    var e := Eligible(documents, vectors);
    var sel := MmrSelection(documents, vectors, lam, k, sqrt);
    EligibleNoDuplicates(documents, vectors);
    var score := MmrScorer(Relevance(documents), vectors, lam, sqrt);
    GreedyIsGreedySelection(score, k, e);
    GreedyDistinctEligible(score, k, e);
    if k >= |e| {
      GreedyRoomySelectsAll(score, k, e);
    }
    forall j | 0 <= j < |sel| ensures sel[j] in DocIds(documents) {
      assert sel[j] in sel;
      var i :| 0 <= i < |documents| && documents[i].id == sel[j] && HasVector(sel[j], vectors);
      assert DocIds(documents)[i] == sel[j];
    }
  }

  /** Any selection that follows the rule is the loop's selection. */
  lemma GreedySelectionIsMmrSelection(documents: seq<Doc>, vectors: map<string, Vector>, lam: real, k: int,
                                      sqrt: real -> real, sel: seq<RawId>)
    requires Scored(documents) && Eligible(documents, vectors) != [] && DistinctIds(documents)
    requires IsGreedySelection(MmrScorer(Relevance(documents), vectors, lam, sqrt), k, Eligible(documents, vectors), sel)
    ensures sel == MmrSelection(documents, vectors, lam, k, sqrt)
  {
    MmrSelectionIsGreedy(documents, vectors, lam, k, sqrt);
    GreedySelectionUnique(MmrScorer(Relevance(documents), vectors, lam, sqrt), k, Eligible(documents, vectors),
                          sel, MmrSelection(documents, vectors, lam, k, sqrt));
  }

  // ---------------------------------------------------------------------------
  // The result list
  // ---------------------------------------------------------------------------

  /** The documents whose identifier was selected, in document order:
      `[doc for doc in documents if doc['id'] in selected_ids]`. */
  function Picked(documents: seq<Doc>, chosen: seq<RawId>): (r: seq<Doc>)
    ensures forall d :: d in r <==> d in documents && d.id in chosen
    decreases |documents|
  {
    if documents == [] then []
    else if documents[0].id in chosen then [documents[0]] + Picked(documents[1..], chosen)
    else Picked(documents[1..], chosen)
  }

  /** The document carrying each selected identifier, in selection order. */
  function SelectedDocs(documents: seq<Doc>, chosen: seq<RawId>): (r: seq<Doc>)
    requires forall j :: 0 <= j < |chosen| ==> chosen[j] in DocIds(documents)
    ensures |r| == |chosen|
    ensures forall j :: 0 <= j < |chosen| ==> r[j] in documents && r[j].id == chosen[j]
  {
    seq(|chosen|, j requires 0 <= j < |chosen| => documents[IndexOf(DocIds(documents), chosen[j])])
  }

  /** The dict lookup `doc['score']` fails when a document has no score. */
  const MissingScore := "KeyError: 'score'"

  /** Every eligible identifier is the identifier of an input document. */
  lemma EligibleInDocIds(docs: seq<Doc>, vectors: map<string, Vector>)
    ensures forall x :: x in Eligible(docs, vectors) ==> x in DocIds(docs)
  {
    forall x | x in Eligible(docs, vectors) ensures x in DocIds(docs) {
      var i :| 0 <= i < |docs| && docs[i].id == x && HasVector(x, vectors);
      assert DocIds(docs)[i] == x;
    }
  }

  /** A list with every repeat after the first occurrence dropped. */
  function Dedup(e: seq<RawId>): (d: seq<RawId>)
    ensures NoDuplicates(d)
    ensures forall x :: x in d <==> x in e
    ensures |e| > 0 ==> |d| > 0 && d[0] == e[0]
    decreases |e|
  {
    if e == [] then []
    else
      var n := |e| - 1;
      var rest := Dedup(e[..n]);
      assert e == e[..n] + [e[n]];
      if e[n] in rest then rest
      else
        var d := rest + [e[n]];
        assert NoDuplicates(d) by {
          forall i, j | 0 <= i < j < |d| ensures d[i] != d[j] {
            assert d[i] == rest[i];
            if j < |rest| {
              assert d[j] == rest[j];
            }
          }
        }
        d
  }

  /** A list without repeats is its own deduplication. */
  lemma {:induction false} DedupOfDistinct(e: seq<RawId>)
    requires NoDuplicates(e)
    ensures Dedup(e) == e
    decreases |e|
  {
    if e != [] {
      var n := |e| - 1;
      DedupOfDistinct(e[..n]);
      assert e[n] !in e[..n];
      assert e == e[..n] + [e[n]];
    }
  }

  /** The result list `mmr` is documented to return, for any input: the loop
      run over the eligible identifiers taken once each, and the document of
      each selected identifier, in selection order. It never holds more than
      `k` documents, nor a document twice, nor two with the same identifier. */
  function DiversifiedDocs(documents: seq<Doc>, vectors: map<string, Vector>, score: Scorer, k: int): (r: seq<Doc>)
    requires Eligible(documents, vectors) != []
    ensures 1 <= |r| && (k >= 1 ==> |r| <= k)
    ensures r[0].id == Eligible(documents, vectors)[0]
    ensures DistinctIds(r)
    ensures forall j :: 0 <= j < |r| ==> r[j] in documents && HasVector(r[j].id, vectors)
  {
    var e := Dedup(Eligible(documents, vectors));
    assert Eligible(documents, vectors)[0] in e;
    var sel := GreedyFrom(score, k, [e[0]], e[1..]);
    GreedyDistinctEligible(score, k, e);
    EligibleInDocIds(documents, vectors);
    assert forall j :: 0 <= j < |sel| ==> sel[j] in e by {
      forall j | 0 <= j < |sel| ensures sel[j] in e {
        assert sel[j] in sel;
      }
    }
    SelectedDocs(documents, sel)
  }

  /** What `mmr` returns: `[]` without documents or vectors, the first `k`
      documents when none has a vector, a `KeyError` for a missing score, and
      otherwise the diversified selection. */
  ghost function MmrOutcome(documents: seq<Doc>, vectors: map<string, Vector>, lam: real, k: int,
                            sqrt: real -> real): (r: Result<seq<Doc>>)
    ensures r.Ok? && k >= 1 ==> |r.value| <= k
    ensures r.Ok? ==> forall j :: 0 <= j < |r.value| ==> r.value[j] in documents
  {
    if documents == [] || vectors == map[] then Ok([])
    else if Eligible(documents, vectors) == [] then
      var t := Take(documents, k);
      assert forall j :: 0 <= j < |t| ==> t[j] == documents[j];
      Ok(t)
    else if !Scored(documents) then Err(MissingScore)
    else Ok(DiversifiedDocs(documents, vectors, MmrScorer(Relevance(documents), vectors, lam, sqrt), k))
  }

  /** With distinct input identifiers the corrected selection is the loop's
      selection over the eligible identifiers themselves. */
  lemma MmrOutcomeOfDistinct(documents: seq<Doc>, vectors: map<string, Vector>, lam: real, k: int, sqrt: real -> real)
    requires DistinctIds(documents) && Scored(documents) && Eligible(documents, vectors) != []
    ensures forall j :: 0 <= j < |MmrSelection(documents, vectors, lam, k, sqrt)| ==>
              MmrSelection(documents, vectors, lam, k, sqrt)[j] in DocIds(documents)
    ensures MmrOutcome(documents, vectors, lam, k, sqrt) == Ok(SelectedDocs(documents, MmrSelection(documents, vectors, lam, k, sqrt)))
  {
    var e := Eligible(documents, vectors);
    assert e[0] in e;
    MmrSelectionIsGreedy(documents, vectors, lam, k, sqrt);
    EligibleNoDuplicates(documents, vectors);
    DedupOfDistinct(e);
  }

  /** The final filter as written keeps every document whose identifier was
      selected, so two documents sharing an identifier are both returned: with
      `k = 1` the loop selects one identifier and the filter returns two
      documents, where one is meant. */
  lemma RepeatedIdExceedsK(score: Scorer)
    ensures var a := StrId("a");
            var documents := [Doc(a, Some(1.0), map[]), Doc(a, Some(0.5), map[])];
            var vectors := map["a" := [1.0]];
            && Eligible(documents, vectors) == [a, a]
            && GreedyFrom(score, 1, [a], [a]) == [a]
            && |Picked(documents, [a])| == 2
            && |DiversifiedDocs(documents, vectors, score, 1)| == 1
  {
    var a := StrId("a");
    var documents := [Doc(a, Some(1.0), map[]), Doc(a, Some(0.5), map[])];
    var vectors := map["a" := [1.0]];
    assert documents[1..][1..] == [];
    assert Eligible(documents[1..][1..], vectors) == [];
    assert Eligible(documents, vectors) == [a, a];
    assert Picked(documents[1..][1..], [a]) == [];
  }

  /** A repeated eligible identifier stays among the candidates after the
      first copy is taken, so the loop can select it a second time: with
      identifiers `a, a, b`, `k = 2` and `a` scoring no lower than `b`, the
      loop selects `a` twice, the filter returns both `a` documents and `b` is
      never considered further, while the selection over distinct identifiers
      returns the `a` and the `b` document. */
  lemma RepeatedIdSelectedTwice(score: Scorer, documents: seq<Doc>, vectors: map<string, Vector>)
    requires |documents| == 3 && documents[0].id == documents[1].id == StrId("a") && documents[2].id == StrId("b")
    requires "a" in vectors && "b" in vectors
    requires score([StrId("a")], StrId("a")) >= score([StrId("a")], StrId("b"))
    ensures Eligible(documents, vectors) == [StrId("a"), StrId("a"), StrId("b")]
    ensures GreedyFrom(score, 2, [StrId("a")], [StrId("a"), StrId("b")]) == [StrId("a"), StrId("a")]
    ensures Picked(documents, [StrId("a"), StrId("a")]) == [documents[0], documents[1]]
    ensures DiversifiedDocs(documents, vectors, score, 2) == [documents[0], documents[2]]
  {
    var a, b := StrId("a"), StrId("b");
    ThreeDocsEligible(documents, vectors);
    GreedyTakesRepeat(score, a, b);
    ThreeDocsPicked(documents, [a, a]);
    ThreeDocsDiversified(score, documents, vectors);
  }

  /** The selection over distinct identifiers for the three documents above. */
  lemma ThreeDocsDiversified(score: Scorer, documents: seq<Doc>, vectors: map<string, Vector>)
    requires |documents| == 3 && documents[0].id == documents[1].id == StrId("a") && documents[2].id == StrId("b")
    requires "a" in vectors && "b" in vectors
    ensures DiversifiedDocs(documents, vectors, score, 2) == [documents[0], documents[2]]
  {
    var a, b := StrId("a"), StrId("b");
    ThreeDocsEligible(documents, vectors);
    DedupRepeatedHead(a, b);
    GreedyTakesOther(score, a, b);
    ThreeDocsSelected(documents);
    var e := Dedup(Eligible(documents, vectors));
    assert e == [a, b] && e[1..] == [b];
    assert GreedyFrom(score, 2, [e[0]], e[1..]) == [a, b];
  }

  /** With the repeat `x` still a candidate and scoring no lower than `y`, the
      second round selects `x` again. */
  lemma GreedyTakesRepeat(score: Scorer, x: RawId, y: RawId)
    requires score([x], x) >= score([x], y)
    ensures GreedyFrom(score, 2, [x], [x, y]) == [x, x]
  {
    assert ScoresFor(score, [x], [x, y]) == [score([x], x), score([x], y)];
    assert Pick(score, [x], [x, y]) == x;
  }

  /** With only `y` left, the second round selects it. */
  lemma GreedyTakesOther(score: Scorer, x: RawId, y: RawId)
    ensures GreedyFrom(score, 2, [x], [y]) == [x, y]
  {
    assert Pick(score, [x], [y]) == y;
    assert RemoveFirst([y], y) == [];
  }

  /** The eligible identifiers of the three documents above. */
  lemma ThreeDocsEligible(documents: seq<Doc>, vectors: map<string, Vector>)
    requires |documents| == 3 && documents[0].id == documents[1].id == StrId("a") && documents[2].id == StrId("b")
    requires "a" in vectors && "b" in vectors
    ensures Eligible(documents, vectors) == [StrId("a"), StrId("a"), StrId("b")]
  {
    var d1 := documents[1..];
    var d2 := d1[1..];
    assert d2[1..] == [];
    assert Eligible(d2[1..], vectors) == [];
    assert Eligible(d2, vectors) == [StrId("b")];
    assert Eligible(d1, vectors) == [StrId("a"), StrId("b")];
  }

  /** The filter over the three documents above keeps the two `a` documents. */
  lemma ThreeDocsPicked(documents: seq<Doc>, chosen: seq<RawId>)
    requires |documents| == 3 && documents[0].id == documents[1].id == StrId("a") && documents[2].id == StrId("b")
    requires StrId("a") in chosen && StrId("b") !in chosen
    ensures Picked(documents, chosen) == documents[..2]
  {
    var d1 := documents[1..];
    var d2 := d1[1..];
    assert d2[1..] == [];
    assert Picked(d2[1..], chosen) == [];
    assert Picked(d2, chosen) == [];
    assert Picked(d1, chosen) == [d1[0]];
  }

  /** The document of `a` and then that of `b`, among the three documents above. */
  lemma ThreeDocsSelected(documents: seq<Doc>)
    requires |documents| == 3 && documents[0].id == documents[1].id == StrId("a") && documents[2].id == StrId("b")
    ensures DocIds(documents) == [StrId("a"), StrId("a"), StrId("b")]
    ensures SelectedDocs(documents, [StrId("a"), StrId("b")]) == [documents[0], documents[2]]
  {
    var ids := DocIds(documents);
    assert ids == [StrId("a"), StrId("a"), StrId("b")];
    assert IndexOf(ids, StrId("a")) == 0;
    assert ids[1..][1..] == [StrId("b")];
    assert IndexOf(ids, StrId("b")) == 2;
  }

  /** Deduplicating `x, x, y` for distinct `x` and `y` gives `x, y`. */
  lemma DedupRepeatedHead(x: RawId, y: RawId)
    requires x != y
    ensures Dedup([x, x, y]) == [x, y]
  {
    var e := [x, x, y];
    assert e[..2][..1] == [x];
    assert Dedup(e[..2][..1][..0]) == [];
    assert Dedup(e[..2]) == [x];
  }

  /** The documents kept by the final filter have distinct identifiers. */
  lemma {:induction false} PickedDistinct(documents: seq<Doc>, chosen: seq<RawId>)
    requires DistinctIds(documents)
    ensures DistinctIds(Picked(documents, chosen))
    decreases |documents|
  {
    if documents != [] {
      var rest := documents[1..];
      assert DistinctIds(rest) by {
        forall i, j | 0 <= i < j < |rest| ensures rest[i].id != rest[j].id {
          assert rest[i] == documents[i + 1] && rest[j] == documents[j + 1];
        }
      }
      PickedDistinct(rest, chosen);
      var r := Picked(rest, chosen);
      if documents[0].id in chosen {
        forall j | 0 <= j < |r| ensures r[j].id != documents[0].id {
          assert r[j] in rest;
          var p :| 0 <= p < |rest| && rest[p] == r[j];
          assert documents[p + 1] == r[j];
        }
      }
    }
  }

  /** Reordering a list with distinct identifiers keeps them distinct. */
  lemma PermutationKeepsDistinctIds(a: seq<Doc>, b: seq<Doc>)
    requires DistinctIds(a) && multiset(a) == multiset(b)
    ensures DistinctIds(b)
  {
    assert NoDuplicates(a) by {
      forall i, j | 0 <= i < j < |a| ensures a[i] != a[j] {
        assert a[i].id != a[j].id;
      }
    }
    PermutationNoDuplicates(a, b);
    forall i, j | 0 <= i < j < |b| ensures b[i].id != b[j].id {
      assert b[i] != b[j];
      assert b[i] in multiset(a) && b[j] in multiset(a);
      var p :| 0 <= p < |a| && a[p] == b[i];
      var q :| 0 <= q < |a| && a[q] == b[j];
    }
  }

  /** Position of a document's identifier in the selection: the sort key of
      `final_documents.sort(key=lambda doc: selected_ids.index(doc['id']))`. */
  function SelectionRank(chosen: seq<RawId>, d: Doc): real
  {
    IndexOf(chosen, d.id) as real
  }

  /** The selection position of each document of `r`. */
  function Ranks(chosen: seq<RawId>, r: seq<Doc>): (g: seq<int>)
    ensures |g| == |r| && forall j :: 0 <= j < |r| ==> g[j] == IndexOf(chosen, r[j].id)
  {
    seq(|r|, j requires 0 <= j < |r| => IndexOf(chosen, r[j].id) as int)
  }

  /** A reordering of the filtered documents holds documents with distinct,
      selected identifiers. */
  lemma ReorderedPicked(documents: seq<Doc>, chosen: seq<RawId>, r: seq<Doc>)
    requires DistinctIds(documents)
    requires multiset(r) == multiset(Picked(documents, chosen))
    ensures DistinctIds(r)
    ensures forall j :: 0 <= j < |r| ==> r[j] in documents && r[j].id in chosen
  {
    var picked := Picked(documents, chosen);
    PickedDistinct(documents, chosen);
    PermutationKeepsDistinctIds(picked, r);
    forall j | 0 <= j < |r| ensures r[j] in picked {
      assert r[j] in multiset(r);
    }
  }

  /** Sorted by selection position with distinct identifiers, the positions
      strictly increase. */
  lemma RanksIncrease(chosen: seq<RawId>, r: seq<Doc>, key: Doc -> real)
    requires forall d :: key(d) == SelectionRank(chosen, d)
    requires SortedBy(r, key, false) && DistinctIds(r)
    requires forall j :: 0 <= j < |r| ==> r[j].id in chosen
    ensures forall p, q :: 0 <= p < q < |r| ==> Ranks(chosen, r)[p] < Ranks(chosen, r)[q]
  {
    var g := Ranks(chosen, r);
    forall p, q | 0 <= p < q < |r| ensures g[p] < g[q] {
      assert key(r[p]) <= key(r[q]);
      assert chosen[g[p]] == r[p].id && chosen[g[q]] == r[q].id;
    }
  }

  /** Every selection position is the position of some document of `r`. */
  lemma RanksOnto(documents: seq<Doc>, chosen: seq<RawId>, r: seq<Doc>)
    requires NoDuplicates(chosen)
    requires forall j :: 0 <= j < |chosen| ==> chosen[j] in DocIds(documents)
    requires multiset(r) == multiset(Picked(documents, chosen))
    ensures forall v :: 0 <= v < |chosen| ==> v in Ranks(chosen, r)
  {
    var g := Ranks(chosen, r);
    forall v | 0 <= v < |chosen| ensures v in g {
      var d := documents[IndexOf(DocIds(documents), chosen[v])];
      assert d in Picked(documents, chosen);
      assert d in multiset(r);
      var j :| 0 <= j < |r| && r[j] == d;
      assert IndexOf(chosen, chosen[v]) == v;
      assert g[j] == v;
    }
  }

  /** Sorting the filtered documents by selection position lists, for each
      selected identifier in turn, the document that carries it. */
  lemma SortedPickIsSelection(documents: seq<Doc>, chosen: seq<RawId>, r: seq<Doc>, key: Doc -> real)
    requires DistinctIds(documents) && NoDuplicates(chosen)
    requires forall j :: 0 <= j < |chosen| ==> chosen[j] in DocIds(documents)
    requires forall d :: key(d) == SelectionRank(chosen, d)
    requires multiset(r) == multiset(Picked(documents, chosen))
    requires SortedBy(r, key, false)
    ensures r == SelectedDocs(documents, chosen)
  {
    ReorderedPicked(documents, chosen, r);
    RanksIncrease(chosen, r, key);
    RanksOnto(documents, chosen, r);
    var g := Ranks(chosen, r);
    IncreasingOntoIsIdentity(g, |chosen|);
    var want := SelectedDocs(documents, chosen);
    forall j | 0 <= j < |r| ensures r[j] == want[j] {
      assert r[j].id == chosen[g[j]];
      var p :| 0 <= p < |documents| && documents[p] == r[j];
      var q := IndexOf(DocIds(documents), chosen[j]);
    }
  }

  /** The inner `for` loop: `mmr_scores` for every remaining candidate. */
  method ScoreCandidates(scores: map<RawId, real>, vectors: map<string, Vector>, lam: real, sqrt: real -> real,
                         selected: seq<RawId>, remaining: seq<RawId>)
    returns (mmrScores: seq<real>)
    requires AllHaveVectors(selected, vectors) && AllHaveVectors(remaining, vectors)
    ensures mmrScores == ScoresFor(MmrScorer(scores, vectors, lam, sqrt), selected, remaining)
  {
    mmrScores := [];
    for i := 0 to |remaining|
      invariant |mmrScores| == i
      invariant forall p :: 0 <= p < i ==> mmrScores[p] == MmrScoreOf(scores, vectors, lam, sqrt, selected, remaining[p])
    {
      var docId := remaining[i];
      var relevance := Get0(scores, docId);
      var maxSim := 0.0;
      if selected != [] {
        var sims := seq(|selected|, j requires 0 <= j < |selected| =>
                        CosineSimilarity(vectors[docId.s], vectors[selected[j].s], sqrt));
        assert sims == Sims(vectors, docId, selected, sqrt);
        if sims != [] {
          maxSim := MaxOfSeq(sims);
        }
      }
      mmrScores := mmrScores + [MmrScore(lam, relevance, maxSim)];
    }
  }

  /** The `while` loop: greedy picks after the first eligible identifier. */
  method SelectIds(scores: map<RawId, real>, vectors: map<string, Vector>, lam: real, k: int, sqrt: real -> real,
                   eligible: seq<RawId>)
    returns (selected: seq<RawId>)
    requires eligible != [] && AllHaveVectors(eligible, vectors)
    ensures selected == GreedyFrom(MmrScorer(scores, vectors, lam, sqrt), k, [eligible[0]], eligible[1..])
  {
    ghost var score := MmrScorer(scores, vectors, lam, sqrt);
    // `remaining_ids` is not empty here, so the first pick always happens.
    selected := [eligible[0]];
    var remaining := eligible[1..];
    assert eligible[0] in eligible;
    AllHaveVectorsWithin(remaining, eligible, vectors);
    while |selected| < k && remaining != []
      invariant AllHaveVectors(selected, vectors) && AllHaveVectors(remaining, vectors)
      invariant GreedyFrom(score, k, selected, remaining) == GreedyFrom(score, k, [eligible[0]], eligible[1..])
      decreases |remaining|
    {
      var mmrScores := ScoreCandidates(scores, vectors, lam, sqrt, selected, remaining);
      // `mmr_scores` has one entry per remaining candidate, so the source's
      // `if not mmr_scores: break` never fires.
      var best := FirstArgMax(mmrScores);
      var bestId := remaining[best];
      assert bestId == Pick(score, selected, remaining);
      AllHaveVectorsWithin(selected + [bestId], selected + remaining, vectors);
      AllHaveVectorsWithin(RemoveFirst(remaining, bestId), remaining, vectors);
      selected := selected + [bestId];
      remaining := RemoveFirst(remaining, bestId);
    }
  }

  /** `mmr(documents, vectors, lambda_val, k)`, with `math.sqrt` as `sqrt`. */
  method Mmr(documents: seq<Doc>, vectors: map<string, Vector>, lam: real, k: int, sqrt: real -> real)
    returns (r: Result<seq<Doc>>)
    requires DistinctIds(documents)
    ensures r == MmrOutcome(documents, vectors, lam, k, sqrt)
  {
    if documents == [] || vectors == map[] {
      return Ok([]);
    }
    var eligible := Eligible(documents, vectors);
    if eligible == [] {
      return Ok(Take(documents, k));
    }
    if !Scored(documents) {
      return Err(MissingScore);
    }
    var scores := NormalizeByMax(DictFrom(DocIds(documents), RawScores(documents)));
    var selected := SelectIds(scores, vectors, lam, k, sqrt, eligible);
    MmrSelectionIsGreedy(documents, vectors, lam, k, sqrt);
    MmrOutcomeOfDistinct(documents, vectors, lam, k, sqrt);
    var picked := Picked(documents, selected);
    var sorted := SortSeq(picked, d => SelectionRank(selected, d), false);
    SortedPickIsSelection(documents, selected, sorted, d => SelectionRank(selected, d));
    r := Ok(sorted);
  }

  // ---------------------------------------------------------------------------
  // What the result is
  // ---------------------------------------------------------------------------

  /** The first eligible identifier is that of the first document, in input
      order, that has a vector. */
  lemma {:induction false} EligibleHead(docs: seq<Doc>, vectors: map<string, Vector>)
    requires Eligible(docs, vectors) != []
    ensures exists i :: 0 <= i < |docs| && docs[i].id == Eligible(docs, vectors)[0] && HasVector(docs[i].id, vectors)
                        && forall j :: 0 <= j < i ==> !HasVector(docs[j].id, vectors)
    decreases |docs|
  {
    if !HasVector(docs[0].id, vectors) {
      EligibleHead(docs[1..], vectors);
      var i :| 0 <= i < |docs| - 1 && docs[1..][i].id == Eligible(docs[1..], vectors)[0]
               && HasVector(docs[1..][i].id, vectors)
               && forall j :: 0 <= j < i ==> !HasVector(docs[1..][j].id, vectors);
      assert docs[i + 1] == docs[1..][i];
      forall j | 0 <= j < i + 1 ensures !HasVector(docs[j].id, vectors) {
        if j > 0 {
          assert docs[j] == docs[1..][j - 1];
        }
      }
    }
  }

  /** The largest score of a result list. */
  ghost predicate IsTopScore(documents: seq<Doc>, m: real)
    requires Scored(documents)
  {
    (exists i :: 0 <= i < |documents| && documents[i].score.value == m)
    && forall i :: 0 <= i < |documents| ==> documents[i].score.value <= m
  }

  /** Each document's relevance is its own score divided by the largest score
      of all documents (with or without a vector) when that is positive, and
      the score itself otherwise. */
  lemma RelevanceIsScoreOverTop(documents: seq<Doc>)
    requires Scored(documents) && DistinctIds(documents) && documents != []
    ensures exists m :: IsTopScore(documents, m)
              && forall i :: 0 <= i < |documents| ==>
                   (documents[i].id in Relevance(documents)
                    && Relevance(documents)[documents[i].id]
                       == if m > 0.0 then documents[i].score.value / m else documents[i].score.value)
  {
    var ids, vals := DocIds(documents), RawScores(documents);
    var d := DictFrom(ids, vals);
    DictFromLastWins(ids, vals);
    assert ids[0] in ids;
    var m := MaxOf(d);
    forall i | 0 <= i < |documents| ensures ids[i] in d && d[ids[i]] == documents[i].score.value {
      assert ids[i] in ids;
      var p := LastIndex(ids, ids[i]);
      assert p == i;
    }
    var top :| top in d && d[top] == m;
    var t :| 0 <= t < |ids| && ids[t] == top;
    assert documents[t].score.value == m;
    forall i | 0 <= i < |documents| ensures documents[i].score.value <= m {
      assert d[ids[i]] <= m;
    }
    assert IsTopScore(documents, m);
  }

  /** With a scored list and eligible documents, the result lists the document
      of each selected identifier in selection order: `min(k, #eligible)` of
      them for `k >= 1` and exactly one for `k <= 0`, the first being the first
      document that has a vector. */
  lemma MmrOutcomeSelected(documents: seq<Doc>, vectors: map<string, Vector>, lam: real, k: int, sqrt: real -> real)
    requires DistinctIds(documents) && Scored(documents) && Eligible(documents, vectors) != []
    ensures var r := MmrOutcome(documents, vectors, lam, k, sqrt);
            var e := Eligible(documents, vectors);
            var sel := MmrSelection(documents, vectors, lam, k, sqrt);
            && r.Ok?
            && |r.value| == (if k <= 1 then 1 else Min(k, |e|)) == |sel|
            && (forall j :: 0 <= j < |r.value| ==> r.value[j] in documents && r.value[j].id == sel[j])
            && r.value[0].id == e[0]
  {
    var e := Eligible(documents, vectors);
    assert e[0] in e;
    MmrSelectionIsGreedy(documents, vectors, lam, k, sqrt);
    MmrOutcomeOfDistinct(documents, vectors, lam, k, sqrt);
  }

  /** A successful result holds documents of the input with distinct
      identifiers, at most `k` of them when `k >= 1`; the only failure is a
      missing `score` once a document has a vector. */
  lemma MmrOutcomeWithin(documents: seq<Doc>, vectors: map<string, Vector>, lam: real, k: int, sqrt: real -> real)
    requires DistinctIds(documents)
    ensures var r := MmrOutcome(documents, vectors, lam, k, sqrt);
            && (r.Err? <==> Eligible(documents, vectors) != [] && !Scored(documents))
            && (r.Ok? ==> DistinctIds(r.value) && forall j :: 0 <= j < |r.value| ==> r.value[j] in documents)
            && (r.Ok? && k >= 1 ==> |r.value| <= k)
  {
    var r := MmrOutcome(documents, vectors, lam, k, sqrt);
    var e := Eligible(documents, vectors);
    if e != [] {
      assert e[0] in e;
      assert documents != [] && vectors != map[];
    }
    if e != [] && Scored(documents) {
      MmrSelectionIsGreedy(documents, vectors, lam, k, sqrt);
      MmrOutcomeOfDistinct(documents, vectors, lam, k, sqrt);
      var sel := MmrSelection(documents, vectors, lam, k, sqrt);
      forall i, j | 0 <= i < j < |r.value| ensures r.value[i].id != r.value[j].id {
        assert r.value[i].id == sel[i] && r.value[j].id == sel[j];
      }
    } else if r.Ok? && documents != [] && vectors != map[] {
      var t := Take(documents, k);
      assert r.value == t;
      forall j | 0 <= j < |t| ensures t[j] in documents {
        assert t[j] == documents[j];
      }
      forall i, j | 0 <= i < j < |t| ensures t[i].id != t[j].id {
        assert t[i] == documents[i] && t[j] == documents[j];
      }
    }
  }

  /** The vector dict is keyed by strings, so a list whose identifiers are all
      integers has no eligible document and comes back as its first `k`
      entries, undiversified. */
  lemma IntIdsNeverEligible(documents: seq<Doc>, vectors: map<string, Vector>, lam: real, k: int, sqrt: real -> real)
    requires DistinctIds(documents) && documents != [] && vectors != map[]
    requires forall i :: 0 <= i < |documents| ==> documents[i].id.IntId?
    ensures Eligible(documents, vectors) == []
    ensures MmrOutcome(documents, vectors, lam, k, sqrt) == Ok(Take(documents, k))
  {
  }
}
