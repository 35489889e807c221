/** The judge's structured answer: the `Evidence` and `JudgeOutput` records,
    the JSON values they are parsed from, the validation that turns a JSON value
    into a record (or rejects it), and the dump that turns a record back into a
    JSON value. */
module JudgeSchema {
  import opened Common

  /** A parsed JSON value. Objects are dicts: each key once. */
  datatype Json =
    | JNull
    | JBool(b: bool)
    | JInt(i: int)
    | JStr(s: string)
    | JArr(items: seq<Json>)
    | JObj(fields: map<string, Json>)

  /** One piece of evidence; only `type` is required. */
  datatype Evidence = Evidence(
    kind: string,
    title: Option<string>,
    desc: Option<string>,
    year: Option<int>,
    link: Option<string>,
    role: Option<string>)

  /** The judgement of one candidate. */
  datatype JudgeOutput = JudgeOutput(
    candidateId: string,
    fitScore: int,
    reasonKo: string,
    evidence: seq<Evidence>)

  const MinFitScore := 0
  const MaxFitScore := 100

  /** The field constraints a record satisfies once validated. */
  predicate WellFormed(o: JudgeOutput)
  {
    MinFitScore <= o.fitScore <= MaxFitScore
  }

  // ---------------------------------------------------------------------------
  // A reference description of the accepted JSON values
  // ---------------------------------------------------------------------------

  /** An optional `str` field: absent, `null` or a string. */
  predicate OptionalStrOk(f: map<string, Json>, key: string)
  {
    key !in f || f[key].JNull? || f[key].JStr?
  }

  /** An optional `int` field: absent, `null` or an integer. */
  predicate OptionalIntOk(f: map<string, Json>, key: string)
  {
    key !in f || f[key].JNull? || f[key].JInt?
  }

  predicate EvidenceConforms(j: Json)
  {
    && j.JObj?
    && "type" in j.fields && j.fields["type"].JStr?
    && OptionalStrOk(j.fields, "title")
    && OptionalStrOk(j.fields, "desc")
    && OptionalIntOk(j.fields, "year")
    && OptionalStrOk(j.fields, "link")
    && OptionalStrOk(j.fields, "role")
  }

  /** The schema of `JudgeOutput`: four required keys with their types, the
      score within its bounds, every evidence entry conforming; other keys are
      ignored. */
  predicate Conforms(j: Json)
  {
    && j.JObj?
    && "candidate_id" in j.fields && j.fields["candidate_id"].JStr?
    && "fit_score" in j.fields && j.fields["fit_score"].JInt?
    && MinFitScore <= j.fields["fit_score"].i <= MaxFitScore
    && "reason_ko" in j.fields && j.fields["reason_ko"].JStr?
    && "evidence" in j.fields && j.fields["evidence"].JArr?
    && forall e :: e in j.fields["evidence"].items ==> EvidenceConforms(e)
  }

  // ---------------------------------------------------------------------------
  // Validation
  // ---------------------------------------------------------------------------

  function OptionalStr(f: map<string, Json>, key: string): (r: Result<Option<string>>)
    ensures r.Ok? <==> OptionalStrOk(f, key)
    ensures r.Ok? && r.value.Some? ==> key in f && f[key] == JStr(r.value.value)
    ensures r.Ok? && r.value.None? ==> key !in f || f[key] == JNull
  {
    if key !in f then Ok(None)
    else match f[key]
      case JNull => Ok(None)
      case JStr(s) => Ok(Some(s))
      case _ => Err(key + ": Input should be a valid string")
  }

  function OptionalInt(f: map<string, Json>, key: string): (r: Result<Option<int>>)
    ensures r.Ok? <==> OptionalIntOk(f, key)
    ensures r.Ok? && r.value.Some? ==> key in f && f[key] == JInt(r.value.value)
    ensures r.Ok? && r.value.None? ==> key !in f || f[key] == JNull
  {
    if key !in f then Ok(None)
    else match f[key]
      case JNull => Ok(None)
      case JInt(n) => Ok(Some(n))
      case _ => Err(key + ": Input should be a valid integer")
  }

  function RequiredStr(f: map<string, Json>, key: string): (r: Result<string>)
    ensures r.Ok? <==> key in f && f[key].JStr?
    ensures r.Ok? ==> f[key] == JStr(r.value)
  {
    if key !in f then Err(key + ": Field required")
    else if f[key].JStr? then Ok(f[key].s)
    else Err(key + ": Input should be a valid string")
  }

  /** `Evidence` validation of one JSON value. */
  function ValidateEvidence(j: Json): (r: Result<Evidence>)
    ensures r.Ok? ==> j.JObj? && "type" in j.fields && j.fields["type"] == JStr(r.value.kind)
    ensures r.Ok? && r.value.year.Some? ==> j.JObj? && "year" in j.fields && j.fields["year"] == JInt(r.value.year.value)
    ensures r.Ok? && r.value.title.Some? ==> j.JObj? && "title" in j.fields && j.fields["title"] == JStr(r.value.title.value)
    ensures r.Ok? ==> j.JObj? && OptionalStr(j.fields, "title") == Ok(r.value.title)
    ensures r.Ok? ==> j.JObj? && OptionalStr(j.fields, "desc") == Ok(r.value.desc)
    ensures r.Ok? ==> j.JObj? && OptionalInt(j.fields, "year") == Ok(r.value.year)
    ensures r.Ok? ==> j.JObj? && OptionalStr(j.fields, "link") == Ok(r.value.link)
    ensures r.Ok? ==> j.JObj? && OptionalStr(j.fields, "role") == Ok(r.value.role)
  {
    if !j.JObj? then Err("Input should be a valid dictionary")
    else
      var f := j.fields;
      var kind := RequiredStr(f, "type");
      var title := OptionalStr(f, "title");
      var desc := OptionalStr(f, "desc");
      var year := OptionalInt(f, "year");
      var link := OptionalStr(f, "link");
      var role := OptionalStr(f, "role");
      if kind.Err? then Err(kind.error)
      else if title.Err? then Err(title.error)
      else if desc.Err? then Err(desc.error)
      else if year.Err? then Err(year.error)
      else if link.Err? then Err(link.error)
      else if role.Err? then Err(role.error)
      else Ok(Evidence(kind.value, title.value, desc.value, year.value, link.value, role.value))
  }

  /** `List[Evidence]` validation: every entry must validate. */
  function ValidateEvidenceList(items: seq<Json>): (r: Result<seq<Evidence>>)
    ensures r.Ok? ==> |r.value| == |items|
    ensures r.Ok? ==> forall i :: 0 <= i < |items| ==> ValidateEvidence(items[i]) == Ok(r.value[i])
  {
    if items == [] then Ok([])
    else
      var head := ValidateEvidence(items[0]);
      var tail := ValidateEvidenceList(items[1..]);
      if head.Err? then Err(head.error)
      else if tail.Err? then Err(tail.error)
      else Ok([head.value] + tail.value)
  }

  /** `JudgeOutput` validation of one JSON value. */
  function ValidateJudgeOutput(j: Json): (r: Result<JudgeOutput>)
    ensures r.Ok? ==> WellFormed(r.value)
  {
    if !j.JObj? then Err("Input should be a valid dictionary")
    else
      var f := j.fields;
      var cid := RequiredStr(f, "candidate_id");
      var reason := RequiredStr(f, "reason_ko");
      if cid.Err? then Err(cid.error)
      else if "fit_score" !in f then Err("fit_score: Field required")
      else if !f["fit_score"].JInt? then Err("fit_score: Input should be a valid integer")
      else if f["fit_score"].i < MinFitScore then Err("fit_score: Input should be greater than or equal to 0")
      else if f["fit_score"].i > MaxFitScore then Err("fit_score: Input should be less than or equal to 100")
      else if reason.Err? then Err(reason.error)
      else if "evidence" !in f then Err("evidence: Field required")
      else if !f["evidence"].JArr? then Err("evidence: Input should be a valid list")
      else
        var ev := ValidateEvidenceList(f["evidence"].items);
        if ev.Err? then Err(ev.error)
        else Ok(JudgeOutput(cid.value, f["fit_score"].i, reason.value, ev.value))
  }

  lemma EvidenceValidIff(j: Json)
    ensures ValidateEvidence(j).Ok? <==> EvidenceConforms(j)
  {
    if j.JObj? {
      var f := j.fields;
      assert RequiredStr(f, "type").Ok? <==> "type" in f && f["type"].JStr?;
      assert OptionalStr(f, "title").Ok? <==> OptionalStrOk(f, "title");
      assert OptionalStr(f, "desc").Ok? <==> OptionalStrOk(f, "desc");
      assert OptionalInt(f, "year").Ok? <==> OptionalIntOk(f, "year");
      assert OptionalStr(f, "link").Ok? <==> OptionalStrOk(f, "link");
      assert OptionalStr(f, "role").Ok? <==> OptionalStrOk(f, "role");
    }
  }

  lemma {:induction false} EvidenceListValidIff(items: seq<Json>)
    ensures ValidateEvidenceList(items).Ok? <==> forall e :: e in items ==> EvidenceConforms(e)
  {
    if items != [] {
      EvidenceValidIff(items[0]);
      EvidenceListValidIff(items[1..]);
      assert items == [items[0]] + items[1..];
    }
  }

  /** Validation succeeds exactly on the values the schema describes. */
  lemma ValidIffConforms(j: Json)
    ensures ValidateJudgeOutput(j).Ok? <==> Conforms(j)
  {
    if j.JObj? && "evidence" in j.fields && j.fields["evidence"].JArr? {
      EvidenceListValidIff(j.fields["evidence"].items);
    }
  }

  // ---------------------------------------------------------------------------
  // Dumping
  // ---------------------------------------------------------------------------

  function OptStrJson(o: Option<string>): Json
  {
    if o.Some? then JStr(o.value) else JNull
  }

  function OptIntJson(o: Option<int>): Json
  {
    if o.Some? then JInt(o.value) else JNull
  }

  /** `Evidence.model_dump()`: every field, `None` included. */
  function EvidenceToJson(e: Evidence): (j: Json)
    ensures j.JObj? && j.fields.Keys == {"type", "title", "desc", "year", "link", "role"}
  {
    JObj(map[
      "type" := JStr(e.kind),
      "title" := OptStrJson(e.title),
      "desc" := OptStrJson(e.desc),
      "year" := OptIntJson(e.year),
      "link" := OptStrJson(e.link),
      "role" := OptStrJson(e.role)])
  }

  function EvidenceListToJson(es: seq<Evidence>): (r: seq<Json>)
    ensures |r| == |es| && forall i :: 0 <= i < |es| ==> r[i] == EvidenceToJson(es[i])
  {
    seq(|es|, i requires 0 <= i < |es| => EvidenceToJson(es[i]))
  }

  /** `JudgeOutput.model_dump()`. */
  function ToJson(o: JudgeOutput): (j: Json)
    ensures j.JObj? && j.fields.Keys == {"candidate_id", "fit_score", "reason_ko", "evidence"}
  {
    JObj(map[
      "candidate_id" := JStr(o.candidateId),
      "fit_score" := JInt(o.fitScore),
      "reason_ko" := JStr(o.reasonKo),
      "evidence" := JArr(EvidenceListToJson(o.evidence))])
  }

  lemma EvidenceRoundTrip(e: Evidence)
    ensures ValidateEvidence(EvidenceToJson(e)) == Ok(e)
  {
  }

  lemma {:induction false} EvidenceListRoundTrip(es: seq<Evidence>)
    ensures ValidateEvidenceList(EvidenceListToJson(es)) == Ok(es)
  {
    if es != [] {
      EvidenceRoundTrip(es[0]);
      EvidenceListRoundTrip(es[1..]);
      var js := EvidenceListToJson(es);
      assert js != [] && js[0] == EvidenceToJson(es[0]);
      assert js[1..] == EvidenceListToJson(es[1..]);
      assert es == [es[0]] + es[1..];
    }
  }

  /** A dumped record validates back to itself. */
  lemma RoundTrip(o: JudgeOutput)
    requires WellFormed(o)
    ensures ValidateJudgeOutput(ToJson(o)) == Ok(o)
  {
    EvidenceListRoundTrip(o.evidence);
  }

  /** Dumping a validated value keeps the four fields it was read from. */
  lemma ValidatedKeepsFields(j: Json)
    requires ValidateJudgeOutput(j).Ok?
    ensures var o := ValidateJudgeOutput(j).value;
            && j.fields["candidate_id"] == JStr(o.candidateId)
            && j.fields["fit_score"] == JInt(o.fitScore)
            && j.fields["reason_ko"] == JStr(o.reasonKo)
            && |o.evidence| == |j.fields["evidence"].items|
  {
  }
}
