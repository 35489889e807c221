/** Fusion of the vector-search and keyword-search result lists into one
    ranking (`blend_scores`): vector scores are max-normalised, keyword results
    contribute the reciprocal of their rank, and each identifier's two
    contributions are mixed with weight `alpha`. */
module Scoring {
  import opened Common
  import opened MaxNorm
  import opened Sorting

  /** `1.0 / (i + 1)` for the ranks 0 .. n - 1. */
  function ReciprocalRanks(n: nat): seq<real>
  {
    seq(n, i requires 0 <= i < n => 1.0 / (i + 1) as real)
  }

  /** `vec_scores` before normalisation: `{str(r['id']): r['score'] for r in vec_results}`. */
  function VecScoreMap(vec: seq<Doc>): map<string, real>
    requires Scored(vec)
  {
    DictFrom(Ids(vec), RawScores(vec))
  }

  /** `kw_scores`: `{str(r['id']): 1.0 / (i + 1) for i, r in enumerate(kw_results)}`. */
  function KwScoreMap(kw: seq<Doc>): map<string, real>
  {
    DictFrom(Ids(kw), ReciprocalRanks(|kw|))
  }

  /** `vec_scores` after the in-place normalisation. */
  ghost function VecComponent(vec: seq<Doc>): map<string, real>
    requires Scored(vec)
  {
    Normalized(VecScoreMap(vec))
  }

  /** `all_ids`: the union of the keys of the two score dicts. */
  function AllIds(vec: seq<Doc>, kw: seq<Doc>): set<string>
    requires Scored(vec)
  {
    VecScoreMap(vec).Keys + KwScoreMap(kw).Keys
  }

  /** `blended_score = alpha * vec_score + (1 - alpha) * kw_score`. */
  function Mix(alpha: real, vecScore: real, kwScore: real): real
  {
    alpha * vecScore + (1.0 - alpha) * kwScore
  }

  /** In a list with distinct identifiers the first position of an
      identifier is its only one. */
  lemma FirstIndexOfDistinct(docs: seq<Doc>, p: int)
    requires forall i, j :: 0 <= i < j < |docs| ==> Str(docs[i].id) != Str(docs[j].id)
    requires 0 <= p < |docs|
    ensures FirstIndexFrom(docs, Str(docs[p].id), 0) == p
  {
    var g := FirstIndexFrom(docs, Str(docs[p].id), 0);
    assert g <= p;
  }

  /** Position of the first document at or after `from` whose canonical
      identifier is `id`, or `|docs|` when there is none. */
  function FirstIndexFrom(docs: seq<Doc>, id: string, from: nat): (i: nat)
    requires from <= |docs|
    ensures from <= i <= |docs|
    ensures i < |docs| ==> Str(docs[i].id) == id
    ensures forall j :: from <= j < i ==> Str(docs[j].id) != id
    decreases |docs| - from
  {
    if from == |docs| then from
    else if Str(docs[from].id) == id then from
    else FirstIndexFrom(docs, id, from + 1)
  }

  /** `next((r for r in docs if str(r['id']) == id), None)`. */
  function FirstWithStrId(docs: seq<Doc>, id: string): (r: Option<Doc>)
    ensures r.None? <==> id !in Ids(docs)
    ensures r.Some? ==> exists i :: 0 <= i < |docs| && docs[i] == r.value && Str(docs[i].id) == id
                          && forall j :: 0 <= j < i ==> Str(docs[j].id) != id
  {
    var i := FirstIndexFrom(docs, id, 0);
    if i < |docs| then
      assert Ids(docs)[i] == id;
      Some(docs[i])
    else
      assert forall j :: 0 <= j < |docs| ==> Ids(docs)[j] != id;
      None
  }

  /** `id` is the canonical identifier of some vector or keyword result. */
  predicate InUnion(vec: seq<Doc>, kw: seq<Doc>, id: string)
  {
    id in Ids(vec) || id in Ids(kw)
  }

  /** The document whose payload the blended entry keeps: the first vector
      result with that identifier, otherwise the first keyword result. */
  function SourceDoc(vec: seq<Doc>, kw: seq<Doc>, id: string): (d: Doc)
    requires InUnion(vec, kw, id)
    ensures Str(d.id) == id
  {
    match FirstWithStrId(vec, id)
    case Some(d) => d
    case None => FirstWithStrId(kw, id).value
  }

  /** The sort key `x['score']`. */
  function ScoreKey(d: Doc): real
  {
    if d.score.Some? then d.score.value else 0.0
  }

  /** A copy of `src` whose `score` is `alpha * vec_score + (1 - alpha) *
      kw_score`, a side missing from its dict counting 0. */
  function BlendEntry(src: Doc, vecScores: map<string, real>, kwScores: map<string, real>, alpha: real, id: string): Doc
  {
    src.(score := Some(Mix(alpha, Get0(vecScores, id), Get0(kwScores, id))))
  }

  /** The entry `blend_scores` emits for `id`: a copy of its source document
      whose `score` is the blended score. */
  ghost function BlendedDoc(vec: seq<Doc>, kw: seq<Doc>, alpha: real, id: string): Doc
    requires Scored(vec)
    requires InUnion(vec, kw, id)
  {
    BlendEntry(SourceDoc(vec, kw, id), VecComponent(vec), KwScoreMap(kw), alpha, id)
  }

  lemma BlendedDocScore(vec: seq<Doc>, kw: seq<Doc>, alpha: real, id: string)
    requires Scored(vec)
    requires InUnion(vec, kw, id)
    ensures BlendedDoc(vec, kw, alpha, id).score
            == Some(Mix(alpha, Get0(VecComponent(vec), id), Get0(KwScoreMap(kw), id)))
  {
    assert BlendedDoc(vec, kw, alpha, id) == BlendEntry(SourceDoc(vec, kw, id), VecComponent(vec), KwScoreMap(kw), alpha, id);
  }

  /** The key set of the score dicts is the set of canonical identifiers. */
  lemma AllIdsAreUnion(vec: seq<Doc>, kw: seq<Doc>)
    requires Scored(vec)
    ensures forall id :: id in AllIds(vec, kw) <==> InUnion(vec, kw, id)
  {
    ScoreMapKeys(vec, kw);
  }

  /** The blend result as a collection: one entry per identifier of the union,
      each the blended copy of its source document. */
  ghost predicate BlendEntries(vec: seq<Doc>, kw: seq<Doc>, alpha: real, r: seq<Doc>)
    requires Scored(vec)
  {
    && (forall i :: 0 <= i < |r| ==> InUnion(vec, kw, Str(r[i].id)) && r[i] == BlendedDoc(vec, kw, alpha, Str(r[i].id)))
    && (forall i, j :: 0 <= i < j < |r| ==> Str(r[i].id) != Str(r[j].id))
    && (forall id :: InUnion(vec, kw, id) ==> exists i :: 0 <= i < |r| && Str(r[i].id) == id)
  }

  /** What `blend_scores` returns: the entries, sorted by non-increasing score.
      The order among equal scores is left open, as the source iterates a set. */
  ghost predicate IsBlendOf(vec: seq<Doc>, kw: seq<Doc>, alpha: real, r: seq<Doc>)
    requires Scored(vec)
  {
    BlendEntries(vec, kw, alpha, r) && SortedBy(r, ScoreKey, true)
  }

  /** Sorting permutes the entries and keeps every property of the collection. */
  lemma PermutationKeepsEntries(vec: seq<Doc>, kw: seq<Doc>, alpha: real, a: seq<Doc>, b: seq<Doc>)
    requires Scored(vec)
    requires BlendEntries(vec, kw, alpha, a) && multiset(a) == multiset(b)
    ensures BlendEntries(vec, kw, alpha, b)
  {
    assert |b| == |multiset(b)| == |multiset(a)| == |a|;
    forall i | 0 <= i < |b|
      ensures InUnion(vec, kw, Str(b[i].id)) && b[i] == BlendedDoc(vec, kw, alpha, Str(b[i].id))
    {
      assert b[i] in multiset(a);
    }
    forall i, j | 0 <= i < j < |a|
      ensures a[i] != a[j]
    {
      assert Str(a[i].id) != Str(a[j].id);
    }
    PermutationNoDuplicates(a, b);
    forall i, j | 0 <= i < j < |b|
      ensures Str(b[i].id) != Str(b[j].id)
    {
      assert b[i] != b[j];
    }
    forall id | InUnion(vec, kw, id)
      ensures exists i :: 0 <= i < |b| && Str(b[i].id) == id
    {
      var i :| 0 <= i < |a| && Str(a[i].id) == id;
      assert a[i] in multiset(b);
      var j :| 0 <= j < |b| && b[j] == a[i];
    }
  }

  /** The entries emitted so far cover exactly the identifiers in `done`, once
      each, each the blended copy of its source document. */
  ghost predicate PartialBlend(vec: seq<Doc>, kw: seq<Doc>, alpha: real, done: set<string>, out: seq<Doc>)
    requires Scored(vec)
  {
    && (forall i :: 0 <= i < |out| ==> Str(out[i].id) in done)
    && (forall i :: 0 <= i < |out| ==>
          InUnion(vec, kw, Str(out[i].id)) && out[i] == BlendedDoc(vec, kw, alpha, Str(out[i].id)))
    && (forall i, j :: 0 <= i < j < |out| ==> Str(out[i].id) != Str(out[j].id))
    && (forall id :: id in done ==> exists i :: 0 <= i < |out| && Str(out[i].id) == id)
  }

  /** One iteration of the loop: emitting the entry of a new identifier. */
  lemma PartialBlendExtend(vec: seq<Doc>, kw: seq<Doc>, alpha: real, done: set<string>, out: seq<Doc>, id: string)
    requires Scored(vec)
    requires PartialBlend(vec, kw, alpha, done, out)
    requires id !in done && InUnion(vec, kw, id)
    ensures PartialBlend(vec, kw, alpha, done + {id}, out + [BlendedDoc(vec, kw, alpha, id)])
  {
    var d := BlendedDoc(vec, kw, alpha, id);
    var out' := out + [d];
    assert Str(d.id) == id;
    forall i | 0 <= i < |out'|
      ensures Str(out'[i].id) in done + {id}
      ensures InUnion(vec, kw, Str(out'[i].id)) && out'[i] == BlendedDoc(vec, kw, alpha, Str(out'[i].id))
    {
      if i < |out| {
        assert out'[i] == out[i];
      }
    }
    forall i, j | 0 <= i < j < |out'|
      ensures Str(out'[i].id) != Str(out'[j].id)
    {
      if j < |out| {
        assert out'[i] == out[i] && out'[j] == out[j];
      } else {
        assert out'[i] == out[i];
      }
    }
    forall x | x in done + {id}
      ensures exists i :: 0 <= i < |out'| && Str(out'[i].id) == x
    {
      if x == id {
        assert Str(out'[|out|].id) == x;
      } else {
        var i :| 0 <= i < |out| && Str(out[i].id) == x;
        assert out'[i] == out[i];
      }
    }
  }

  /** A partial blend over the whole union is the blend collection. */
  lemma PartialBlendComplete(vec: seq<Doc>, kw: seq<Doc>, alpha: real, out: seq<Doc>)
    requires Scored(vec)
    requires PartialBlend(vec, kw, alpha, AllIds(vec, kw), out)
    ensures BlendEntries(vec, kw, alpha, out)
  {
    AllIdsAreUnion(vec, kw);
  }

  /** `blend_scores(vec_results, kw_results, alpha)`: normalise, build one
      blended entry per identifier of the union (in whatever order the set
      yields them), then sort in place by descending score. */
  method BlendScores(vec: seq<Doc>, kw: seq<Doc>, alpha: real) returns (r: seq<Doc>)
    requires Scored(vec)
    ensures IsBlendOf(vec, kw, alpha, r)
  {
    var vecScores := VecScoreMap(vec);
    vecScores := NormalizeByMax(vecScores);
    var kwScores := KwScoreMap(kw);
    var allIds := vecScores.Keys + kwScores.Keys;
    AllIdsAreUnion(vec, kw);
    var out: seq<Doc> := [];
    var todo := allIds;
    while todo != {}
      invariant todo <= allIds
      invariant vecScores == VecComponent(vec) && kwScores == KwScoreMap(kw)
      invariant allIds == AllIds(vec, kw)
      invariant PartialBlend(vec, kw, alpha, allIds - todo, out)
      decreases |todo|
    {
      var docId :| docId in todo;
      // Every identifier of the union has a source document, so the source's
      // `if doc:` guard always holds.
      var doc := SourceDoc(vec, kw, docId);
      PartialBlendExtend(vec, kw, alpha, allIds - todo, out, docId);
      out := out + [BlendEntry(doc, vecScores, kwScores, alpha, docId)];
      assert allIds - (todo - {docId}) == (allIds - todo) + {docId};
      todo := todo - {docId};
    }
    assert allIds - todo == allIds;
    PartialBlendComplete(vec, kw, alpha, out);
    r := SortSeq(out, ScoreKey, true);
    PermutationKeepsEntries(vec, kw, alpha, out, r);
  }

  /** A repeated identifier takes the vector score of its last occurrence. */
  lemma VecScoreIsLastOccurrence(vec: seq<Doc>, id: string)
    requires Scored(vec)
    requires id in Ids(vec)
    ensures id in VecScoreMap(vec)
    ensures exists i :: 0 <= i < |vec| && Str(vec[i].id) == id && VecScoreMap(vec)[id] == vec[i].score.value
                        && forall j :: i < j < |vec| ==> Str(vec[j].id) != id
  {
    var ids, vals := Ids(vec), RawScores(vec);
    assert |ids| == |vals| == |vec|;
    DictFromLastWins(ids, vals);
    var i := LastIndex(ids, id);
    assert VecScoreMap(vec)[id] == vals[i] == vec[i].score.value;
    assert Str(vec[i].id) == ids[i] == id;
    forall j | i < j < |vec| ensures Str(vec[j].id) != id {
      assert ids[j] == Str(vec[j].id);
    }
  }

  /** A keyword result contributes the reciprocal of the rank of the last
      occurrence of its identifier, whatever its own score. */
  lemma KwScoreIsReciprocalRank(kw: seq<Doc>, id: string)
    requires id in Ids(kw)
    ensures id in KwScoreMap(kw)
    ensures exists i :: 0 <= i < |kw| && Str(kw[i].id) == id && KwScoreMap(kw)[id] == 1.0 / (i + 1) as real
                        && forall j :: i < j < |kw| ==> Str(kw[j].id) != id
  {
    var ids, vals := Ids(kw), ReciprocalRanks(|kw|);
    assert |ids| == |vals| == |kw|;
    DictFromLastWins(ids, vals);
    var i := LastIndex(ids, id);
    assert KwScoreMap(kw)[id] == vals[i] == 1.0 / (i + 1) as real;
    assert Str(kw[i].id) == ids[i] == id;
    forall j | i < j < |kw| ensures Str(kw[j].id) != id {
      assert ids[j] == Str(kw[j].id);
    }
  }

  /** The score dicts have an entry exactly for the identifiers of their list. */
  lemma ScoreMapKeys(vec: seq<Doc>, kw: seq<Doc>)
    requires Scored(vec)
    ensures forall id :: id in VecScoreMap(vec) <==> id in Ids(vec)
    ensures forall id :: id in KwScoreMap(kw) <==> id in Ids(kw)
  {
    DictFromLastWins(Ids(vec), RawScores(vec));
    DictFromLastWins(Ids(kw), ReciprocalRanks(|kw|));
  }

  /** With a positive (kept) vector score, every vector score is divided by the
      largest one: the top vector result contributes exactly 1.0 and no vector
      contribution exceeds 1.0. */
  lemma VecTopContributesOne(vec: seq<Doc>)
    requires Scored(vec)
    requires exists id :: id in VecScoreMap(vec) && VecScoreMap(vec)[id] > 0.0
    ensures VecScoreMap(vec) != map[] && MaxOf(VecScoreMap(vec)) > 0.0
    ensures forall id :: id in VecScoreMap(vec) ==> VecComponent(vec)[id] == VecScoreMap(vec)[id] / MaxOf(VecScoreMap(vec))
    ensures exists i :: 0 <= i < |vec| && Str(vec[i].id) in VecComponent(vec) && VecComponent(vec)[Str(vec[i].id)] == 1.0
    ensures forall id :: id in VecComponent(vec) ==> VecComponent(vec)[id] <= 1.0
  {
    var m := VecScoreMap(vec);
    var id0 :| id0 in m && m[id0] > 0.0;
    assert m[id0] <= MaxOf(m);
    NormalizedTopIsOne(m);
    var k :| k in m && Normalized(m)[k] == 1.0;
    ScoreMapKeys(vec, []);
    var p :| 0 <= p < |vec| && Ids(vec)[p] == k;
  }

  /** When no vector score is positive the raw vector scores are kept. */
  lemma VecNonPositiveKept(vec: seq<Doc>)
    requires Scored(vec)
    requires forall id :: id in VecScoreMap(vec) ==> VecScoreMap(vec)[id] <= 0.0
    ensures VecComponent(vec) == VecScoreMap(vec)
  {
    var m := VecScoreMap(vec);
    if m != map[] {
      var top :| top in m && m[top] == MaxOf(m);
    }
  }

  /** The blend is empty exactly when both inputs are. */
  lemma BlendEmptyIff(vec: seq<Doc>, kw: seq<Doc>, alpha: real, r: seq<Doc>)
    requires Scored(vec)
    requires IsBlendOf(vec, kw, alpha, r)
    ensures r == [] <==> vec == [] && kw == []
  {
    if r != [] {
      assert InUnion(vec, kw, Str(r[0].id));
    }
    if vec != [] {
      assert Ids(vec)[0] == Str(vec[0].id);
      assert InUnion(vec, kw, Str(vec[0].id));
    } else if kw != [] {
      assert Ids(kw)[0] == Str(kw[0].id);
      assert InUnion(vec, kw, Str(kw[0].id));
    }
  }

  /** Each output score is `alpha * vec + (1 - alpha) * kw`, a side missing
      from its dict counting 0. */
  lemma BlendEntryScoreIs(vec: seq<Doc>, kw: seq<Doc>, alpha: real, r: seq<Doc>, i: int)
    requires Scored(vec)
    requires BlendEntries(vec, kw, alpha, r)
    requires 0 <= i < |r|
    ensures r[i].score == Some(Mix(alpha, Get0(VecComponent(vec), Str(r[i].id)), Get0(KwScoreMap(kw), Str(r[i].id))))
  {
    assert r[i] == BlendedDoc(vec, kw, alpha, Str(r[i].id));
    BlendedDocScore(vec, kw, alpha, Str(r[i].id));
  }

  /** Each output entry is the first vector result with its identifier, or
      failing that the first keyword result, with only `score` replaced. */
  lemma BlendEntryIsCopy(vec: seq<Doc>, kw: seq<Doc>, alpha: real, r: seq<Doc>, i: int)
    requires Scored(vec)
    requires BlendEntries(vec, kw, alpha, r)
    requires 0 <= i < |r|
    ensures Str(r[i].id) in Ids(vec) ==>
              exists j :: 0 <= j < |vec| && r[i] == vec[j].(score := r[i].score)
                          && forall q :: 0 <= q < j ==> Str(vec[q].id) != Str(r[i].id)
    ensures Str(r[i].id) !in Ids(vec) ==>
              exists j :: 0 <= j < |kw| && r[i] == kw[j].(score := r[i].score)
                          && forall q :: 0 <= q < j ==> Str(kw[q].id) != Str(r[i].id)
  {
    var id := Str(r[i].id);
    AllIdsAreUnion(vec, kw);
    assert r[i] == BlendedDoc(vec, kw, alpha, id);
    var o := FirstWithStrId(vec, id);
    if id in Ids(vec) {
      assert o.Some?;
      assert r[i] == o.value.(score := r[i].score);
    } else {
      var o' := FirstWithStrId(kw, id);
      assert r[i] == o'.value.(score := r[i].score);
    }
  }

  /** No canonical identifier occurs twice in a result list. */
  ghost predicate DistinctStrIds(docs: seq<Doc>)
  {
    forall i, j :: 0 <= i < j < |docs| ==> Str(docs[i].id) != Str(docs[j].id)
  }

  /** A keyword-only blend is `(1 - alpha) / (rank + 1)`. */
  lemma MixKeywordOnly(alpha: real, p: nat)
    ensures Mix(alpha, 0.0, 1.0 / (p + 1) as real) == (1.0 - alpha) / (p + 1) as real
  {
  }

  /** With a keyword weight, a larger rank gives a strictly smaller
      keyword-only blend. */
  lemma MixKeywordOnlyDecreases(alpha: real, p: nat, q: nat)
    requires alpha < 1.0 && p < q
    ensures Mix(alpha, 0.0, 1.0 / (q + 1) as real) < Mix(alpha, 0.0, 1.0 / (p + 1) as real)
  {
    var a, b := (p + 1) as real, (q + 1) as real;
    assert 1.0 / b == a / (a * b) && 1.0 / a == b / (a * b);
    assert a / (a * b) < b / (a * b);
    var c := 1.0 - alpha;
    assert c * (1.0 / b) < c * (1.0 / a);
  }

  /** With distinct identifiers, keyword result `p` contributes `1 / (p + 1)`. */
  lemma DistinctKwScore(kw: seq<Doc>, p: int)
    requires DistinctStrIds(kw)
    requires 0 <= p < |kw|
    ensures Str(kw[p].id) in KwScoreMap(kw) && KwScoreMap(kw)[Str(kw[p].id)] == 1.0 / (p + 1) as real
  {
    assert Ids(kw)[p] == Str(kw[p].id);
    KwScoreIsReciprocalRank(kw, Str(kw[p].id));
  }

  /** Without vector results only the keyword side contributes. */
  lemma KeywordOnlyScore(kw: seq<Doc>, alpha: real, r: seq<Doc>, j: int)
    requires BlendEntries([], kw, alpha, r)
    requires 0 <= j < |r|
    ensures r[j].score == Some(Mix(alpha, 0.0, Get0(KwScoreMap(kw), Str(r[j].id))))
  {
    assert VecScoreMap([]) == map[];
    assert VecComponent([]) == map[];
    BlendEntryScoreIs([], kw, alpha, r, j);
  }

  /** The rank in `kw` of each output entry. */
  function Ranks(kw: seq<Doc>, r: seq<Doc>): seq<int>
  {
    seq(|r|, j requires 0 <= j < |r| => FirstIndexFrom(kw, Str(r[j].id), 0))
  }

  /** Without vector results, each entry is the keyword result of its rank
      with its score replaced by the keyword-only blend of that rank. */
  lemma KeywordOnlyEntry(kw: seq<Doc>, alpha: real, r: seq<Doc>, j: int)
    requires DistinctStrIds(kw)
    requires BlendEntries([], kw, alpha, r)
    requires 0 <= j < |r|
    ensures |Ranks(kw, r)| == |r| && 0 <= Ranks(kw, r)[j] < |kw|
    ensures r[j] == kw[Ranks(kw, r)[j]].(score := Some(Mix(alpha, 0.0, 1.0 / (Ranks(kw, r)[j] + 1) as real)))
  {
    KeywordOnlyRank(kw, alpha, r, j);
    var p := Ranks(kw, r)[j];
    KeywordOnlyScore(kw, alpha, r, j);
    DistinctKwScore(kw, p);
    assert Get0(KwScoreMap(kw), Str(r[j].id)) == 1.0 / (p + 1) as real;
  }

  /** Without vector results, each entry copies the keyword result of its rank. */
  lemma KeywordOnlyRank(kw: seq<Doc>, alpha: real, r: seq<Doc>, j: int)
    requires DistinctStrIds(kw)
    requires BlendEntries([], kw, alpha, r)
    requires 0 <= j < |r|
    ensures |Ranks(kw, r)| == |r| && 0 <= Ranks(kw, r)[j] < |kw|
    ensures r[j] == kw[Ranks(kw, r)[j]].(score := r[j].score)
  {
    assert Ids([]) == [];
    BlendEntryIsCopy([], kw, alpha, r, j);
    var p :| 0 <= p < |kw| && r[j] == kw[p].(score := r[j].score);
    assert Str(r[j].id) == Str(kw[p].id);
    FirstIndexOfDistinct(kw, p);
    assert Ranks(kw, r)[j] == p;
  }

  lemma KeywordOnlyRankEntries(kw: seq<Doc>, alpha: real, r: seq<Doc>)
    requires DistinctStrIds(kw)
    requires BlendEntries([], kw, alpha, r)
    ensures |Ranks(kw, r)| == |r|
    ensures forall j :: 0 <= j < |r| ==>
              0 <= Ranks(kw, r)[j] < |kw| && r[j] == kw[Ranks(kw, r)[j]].(score := Some(Mix(alpha, 0.0, 1.0 / (Ranks(kw, r)[j] + 1) as real)))
  {
    forall j | 0 <= j < |r|
      ensures 0 <= Ranks(kw, r)[j] < |kw| && r[j] == kw[Ranks(kw, r)[j]].(score := Some(Mix(alpha, 0.0, 1.0 / (Ranks(kw, r)[j] + 1) as real)))
    {
      KeywordOnlyEntry(kw, alpha, r, j);
    }
  }

  /** Two keyword-only entries in descending score order have increasing ranks. */
  lemma KeywordOnlyPairOrder(alpha: real, x: Doc, y: Doc, p: nat, q: nat)
    requires alpha < 1.0 && p != q
    requires x.score == Some(Mix(alpha, 0.0, 1.0 / (p + 1) as real))
    requires y.score == Some(Mix(alpha, 0.0, 1.0 / (q + 1) as real))
    requires InOrder(ScoreKey, true, x, y)
    ensures p < q
  {
    if q < p {
      MixKeywordOnlyDecreases(alpha, q, p);
    }
  }

  lemma KeywordOnlyRanksPair(kw: seq<Doc>, alpha: real, r: seq<Doc>, p: int, q: int)
    requires alpha < 1.0 && DistinctStrIds(kw)
    requires IsBlendOf([], kw, alpha, r)
    requires 0 <= p < q < |r|
    ensures |Ranks(kw, r)| == |r| && Ranks(kw, r)[p] < Ranks(kw, r)[q]
  {
    var g := Ranks(kw, r);
    var x, y := r[p], r[q];
    assert Str(x.id) != Str(y.id);
    assert InOrder(ScoreKey, true, x, y);
    KeywordOnlyEntry(kw, alpha, r, p);
    KeywordOnlyEntry(kw, alpha, r, q);
    assert x.score == Some(Mix(alpha, 0.0, 1.0 / (g[p] + 1) as real));
    assert y.score == Some(Mix(alpha, 0.0, 1.0 / (g[q] + 1) as real));
    assert x.id == kw[g[p]].id && y.id == kw[g[q]].id;
    KeywordOnlyPairOrder(alpha, x, y, g[p], g[q]);
  }

  /** Sorting by descending score puts the ranks in increasing order. */
  lemma KeywordOnlyRanksIncrease(kw: seq<Doc>, alpha: real, r: seq<Doc>)
    requires alpha < 1.0 && DistinctStrIds(kw)
    requires IsBlendOf([], kw, alpha, r)
    ensures forall p, q :: 0 <= p < q < |r| ==> Ranks(kw, r)[p] < Ranks(kw, r)[q]
  {
    forall p, q | 0 <= p < q < |r|
      ensures Ranks(kw, r)[p] < Ranks(kw, r)[q]
    {
      KeywordOnlyRanksPair(kw, alpha, r, p, q);
    }
  }

  /** Every rank occurs, since every keyword identifier has an entry. */
  lemma KeywordOnlyRanksOnto(kw: seq<Doc>, alpha: real, r: seq<Doc>)
    requires DistinctStrIds(kw)
    requires BlendEntries([], kw, alpha, r)
    ensures forall v :: 0 <= v < |kw| ==> v in Ranks(kw, r)
  {
    var g := Ranks(kw, r);
    forall v | 0 <= v < |kw|
      ensures v in g
    {
      assert Ids(kw)[v] == Str(kw[v].id);
      assert InUnion([], kw, Str(kw[v].id));
      var j :| 0 <= j < |r| && Str(r[j].id) == Str(kw[v].id);
      FirstIndexOfDistinct(kw, v);
      assert g[j] == v;
    }
  }

  /** Degradation to keyword-only ranking: without vector results (and with
      a keyword weight), the blend keeps the keyword results in rank order,
      each with score `(1 - alpha) / (rank + 1)`. */
  lemma KeywordOnlyKeepsRankOrder(kw: seq<Doc>, alpha: real, r: seq<Doc>)
    requires alpha < 1.0 && DistinctStrIds(kw)
    requires IsBlendOf([], kw, alpha, r)
    ensures |r| == |kw|
    ensures forall i :: 0 <= i < |r| ==> r[i] == kw[i].(score := Some((1.0 - alpha) / (i + 1) as real))
  {
    var g := Ranks(kw, r);
    KeywordOnlyRankEntries(kw, alpha, r);
    KeywordOnlyRanksIncrease(kw, alpha, r);
    KeywordOnlyRanksOnto(kw, alpha, r);
    IncreasingOntoIsIdentity(g, |kw|);
    forall i | 0 <= i < |r|
      ensures r[i] == kw[i].(score := Some((1.0 - alpha) / (i + 1) as real))
    {
      assert g[i] == i;
      MixKeywordOnly(alpha, i);
    }
  }
}
