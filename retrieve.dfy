/** `hybrid_retrieve`: vector search, keyword search, blending, diversification
    and truncation, with the outcome of each external call (the embedding and
    vector search, the keyword search, the vector fetch) given as a parameter. */
module Retrieve {
  import opened Common
  import opened Sorting
  import opened Scoring
  import opened Mmr

  /** What an external call yields: its value, or an exception. */
  datatype Outcome<T> = Returned(value: T) | Raised(error: string)

  const Alpha := 0.6
  const MmrPool := 20
  const MmrLambda := 0.5
  const ResultLimit := 12

  /** What the vector search returns: string identifiers, each once, and a
      score on every result. */
  ghost predicate VectorResultsOk(docs: seq<Doc>)
  {
    Scored(docs) && DistinctIds(docs) && forall i :: 0 <= i < |docs| ==> docs[i].id.StrId?
  }

  /** `vec_results` after step 1: empty when the step is switched off or fails. */
  function VecResults(useVectorSearch: bool, vecSearch: Outcome<seq<Doc>>): seq<Doc>
  {
    if useVectorSearch && vecSearch.Returned? then vecSearch.value else []
  }

  /** `blended_results` after step 3, once one list is non-empty: the blend of
      both lists when both are non-empty, otherwise the non-empty one as it is. */
  ghost predicate IsBlended(vec: seq<Doc>, kw: seq<Doc>, b: seq<Doc>)
    requires Scored(vec)
  {
    if vec != [] && kw != [] then IsBlendOf(vec, kw, Alpha, b)
    else if kw != [] then b == kw
    else b == vec
  }

  /** Step 4: the diversified top of the blended list when the list has more
      than one entry and vectors were fetched and `mmr` succeeds; otherwise the
      first twelve blended entries. */
  ghost function Finish(blended: seq<Doc>, fetch: Outcome<map<string, Vector>>, sqrt: real -> real): seq<Doc>
  {
    var pool := Take(blended, MmrPool);
    if pool == [] then []
    else if |blended| > 1 && fetch.Returned? && fetch.value != map[] then
      match MmrOutcome(pool, fetch.value, MmrLambda, ResultLimit, sqrt)
      case Ok(diverse) => diverse
      case Err(_) => Take(blended, ResultLimit)
    else Take(blended, ResultLimit)
  }

  /** The decision table of `hybrid_retrieve`. */
  ghost predicate IsRetrieval(queryText: string, useVectorSearch: bool, vecSearch: Outcome<seq<Doc>>,
                              kwSearch: Outcome<seq<Doc>>, fetch: Outcome<map<string, Vector>>,
                              sqrt: real -> real, r: seq<Doc>)
    requires vecSearch.Returned? ==> VectorResultsOk(vecSearch.value)
  {
    var vec := VecResults(useVectorSearch, vecSearch);
    if queryText == "" then r == []
    else if kwSearch.Raised? then r == Take(vec, ResultLimit)
    else
      var kw := kwSearch.value;
      if vec == [] && kw == [] then r == []
      else exists b :: IsBlended(vec, kw, b) && DistinctIds(Take(b, MmrPool)) && r == Finish(b, fetch, sqrt)
  }

  /** A blend lists each canonical identifier once, so its raw identifiers are
      distinct too. */
  lemma BlendDistinctIds(vec: seq<Doc>, kw: seq<Doc>, alpha: real, r: seq<Doc>)
    requires Scored(vec) && IsBlendOf(vec, kw, alpha, r)
    ensures DistinctIds(r)
  {
    forall i, j | 0 <= i < j < |r| ensures r[i].id != r[j].id {
      assert Str(r[i].id) != Str(r[j].id);
    }
  }

  /** The blended list has distinct identifiers once both inputs do. */
  lemma BlendedDistinctIds(vec: seq<Doc>, kw: seq<Doc>, b: seq<Doc>)
    requires Scored(vec) && DistinctIds(vec) && DistinctIds(kw)
    requires IsBlended(vec, kw, b)
    ensures DistinctIds(b)
  {
    if vec != [] && kw != [] {
      BlendDistinctIds(vec, kw, Alpha, b);
    }
  }

  /** Step 4 never returns more than twelve documents, and returns documents
      of the blended list with distinct identifiers. */
  lemma FinishWithin(blended: seq<Doc>, fetch: Outcome<map<string, Vector>>, sqrt: real -> real)
    requires DistinctIds(blended)
    ensures DistinctIds(Take(blended, MmrPool))
    ensures |Finish(blended, fetch, sqrt)| <= ResultLimit
    ensures DistinctIds(Finish(blended, fetch, sqrt))
    ensures forall d :: d in Finish(blended, fetch, sqrt) ==> d in blended
  {
    var pool := Take(blended, MmrPool);
    TakeKeepsDistinctIds(blended, MmrPool);
    TakeKeepsDistinctIds(blended, ResultLimit);
    var t := Take(blended, ResultLimit);
    forall d | d in t ensures d in blended {
      var j :| 0 <= j < |t| && t[j] == d;
    }
    if pool != [] && |blended| > 1 && fetch.Returned? && fetch.value != map[] {
      MmrOutcomeWithin(pool, fetch.value, MmrLambda, ResultLimit, sqrt);
      var m := MmrOutcome(pool, fetch.value, MmrLambda, ResultLimit, sqrt);
      if m.Ok? {
        forall d | d in m.value ensures d in blended {
          var j :| 0 <= j < |m.value| && m.value[j] == d;
          var p :| 0 <= p < |pool| && pool[p] == d;
        }
      }
    }
  }

  /** Every path returns at most twelve documents, each identifier once. */
  lemma RetrievalAtMostTwelve(queryText: string, useVectorSearch: bool, vecSearch: Outcome<seq<Doc>>,
                              kwSearch: Outcome<seq<Doc>>, fetch: Outcome<map<string, Vector>>,
                              sqrt: real -> real, r: seq<Doc>)
    requires vecSearch.Returned? ==> VectorResultsOk(vecSearch.value)
    requires kwSearch.Returned? ==> DistinctIds(kwSearch.value)
    requires IsRetrieval(queryText, useVectorSearch, vecSearch, kwSearch, fetch, sqrt, r)
    ensures |r| <= ResultLimit
    ensures DistinctIds(r)
  {
    var vec := VecResults(useVectorSearch, vecSearch);
    if queryText != "" && kwSearch.Raised? {
      TakeKeepsDistinctIds(vec, ResultLimit);
    } else if queryText != "" && (vec != [] || kwSearch.value != []) {
      var b :| IsBlended(vec, kwSearch.value, b) && DistinctIds(Take(b, MmrPool)) && r == Finish(b, fetch, sqrt);
      BlendedDistinctIds(vec, kwSearch.value, b);
      FinishWithin(b, fetch, sqrt);
    }
  }

  /** With one list empty, the documents returned are documents of the other
      list, unchanged. */
  lemma SingleSourceKeepsDocuments(queryText: string, useVectorSearch: bool, vecSearch: Outcome<seq<Doc>>,
                                   kwSearch: Outcome<seq<Doc>>, fetch: Outcome<map<string, Vector>>,
                                   sqrt: real -> real, r: seq<Doc>)
    requires vecSearch.Returned? ==> VectorResultsOk(vecSearch.value)
    requires kwSearch.Returned? ==> DistinctIds(kwSearch.value)
    requires IsRetrieval(queryText, useVectorSearch, vecSearch, kwSearch, fetch, sqrt, r)
    requires kwSearch.Returned?
    requires VecResults(useVectorSearch, vecSearch) == [] || kwSearch.value == []
    ensures VecResults(useVectorSearch, vecSearch) == [] ==> forall d :: d in r ==> d in kwSearch.value
    ensures kwSearch.value == [] ==> forall d :: d in r ==> d in VecResults(useVectorSearch, vecSearch)
  {
    var vec := VecResults(useVectorSearch, vecSearch);
    if queryText != "" && (vec != [] || kwSearch.value != []) {
      var b :| IsBlended(vec, kwSearch.value, b) && DistinctIds(Take(b, MmrPool)) && r == Finish(b, fetch, sqrt);
      BlendedDistinctIds(vec, kwSearch.value, b);
      FinishWithin(b, fetch, sqrt);
    }
  }

  /** `hybrid_retrieve(persona, use_vector_search)`, `queryText` being the
      persona's `query_text` (empty when missing). */
  method HybridRetrieve(queryText: string, useVectorSearch: bool, vecSearch: Outcome<seq<Doc>>,
                        kwSearch: Outcome<seq<Doc>>, fetch: Outcome<map<string, Vector>>,
                        sqrt: real -> real)
    returns (r: seq<Doc>)
    requires vecSearch.Returned? ==> VectorResultsOk(vecSearch.value)
    requires kwSearch.Returned? ==> DistinctIds(kwSearch.value)
    ensures IsRetrieval(queryText, useVectorSearch, vecSearch, kwSearch, fetch, sqrt, r)
    ensures |r| <= ResultLimit
  {
    if queryText == "" {
      return [];
    }
    // Step 1: vector search; a failure leaves the list empty.
    var vecResults: seq<Doc> := [];
    if useVectorSearch {
      if vecSearch.Returned? {
        vecResults := vecSearch.value;
      } else {
        vecResults := [];
      }
    }
    // Step 2: keyword search; a failure ends the retrieval.
    if kwSearch.Raised? {
      if vecResults != [] {
        r := Take(vecResults, ResultLimit);
        TakeKeepsDistinctIds(vecResults, ResultLimit);
        return;
      }
      return [];
    }
    var kwResults := kwSearch.value;
    // Step 3: blending.
    var blended: seq<Doc>;
    if vecResults != [] && kwResults != [] {
      blended := BlendScores(vecResults, kwResults, Alpha);
    } else if kwResults != [] {
      blended := kwResults;
    } else if vecResults != [] {
      blended := vecResults;
    } else {
      return [];
    }
    BlendedDistinctIds(vecResults, kwResults, blended);
    FinishWithin(blended, fetch, sqrt);
    // Step 4: diversification of the top twenty.
    var pool := Take(blended, MmrPool);
    var topIdsForMmr := Ids(pool);
    if topIdsForMmr == [] {
      return [];
    }
    if |blended| > 1 {
      if fetch.Returned? && fetch.value != map[] {
        var diverse := Mmr.Mmr(pool, fetch.value, MmrLambda, ResultLimit, sqrt);
        if diverse.Ok? {
          return diverse.value;
        }
      }
    }
    r := Take(blended, ResultLimit);
  }
}
