/** The judging stage: the prompt for one candidate, the judgement of one
    candidate by the language model (with the two fallback judgements), and
    the judging of a candidate list in consecutive batches. */
module Judge {
  import opened Common
  import opened JudgeSchema

  /** A candidate dict, its keys in insertion order. */
  datatype Candidate = Candidate(fields: seq<(string, Json)>)

  /** `candidate.get(key)`: the value of the first entry with that key, `None`
      when there is none. A dict has each key once, so first is the only one. */
  function Get(c: Candidate, key: string): (v: Json)
    ensures v != JNull ==> exists i :: 0 <= i < |c.fields| && c.fields[i] == (key, v)
    decreases |c.fields|
  {
    if c.fields == [] then JNull
    else if c.fields[0].0 == key then c.fields[0].1
    else
      var v := Get(Candidate(c.fields[1..]), key);
      assert v != JNull ==> exists i :: 0 <= i < |c.fields| - 1 && c.fields[1..][i] == (key, v);
      v
  }

  // ---------------------------------------------------------------------------
  // The candidate text of the prompt
  // ---------------------------------------------------------------------------

  /** `"\n".join(lines)`. */
  function Join(lines: seq<string>): string
  {
    if lines == [] then ""
    else if |lines| == 1 then lines[0]
    else lines[0] + "\n" + Join(lines[1..])
  }

  /** `s.split("\n")`. */
  function SplitLines(s: string): (r: seq<string>)
    ensures |r| >= 1
    decreases |s|
  {
    if '\n' !in s then [s]
    else
      var i := IndexOf(s, '\n');
      [s[..i]] + SplitLines(s[i + 1..])
  }

  predicate OneLine(s: string)
  {
    '\n' !in s
  }

  /** Splitting `a + "\n" + b` at its first newline gives `a` and `b`. */
  lemma SplitAtFirstNewline(a: string, b: string)
    requires OneLine(a)
    ensures SplitLines(a + "\n" + b) == [a] + SplitLines(b)
  {
    var s := a + "\n" + b;
    assert s[|a|] == '\n';
    forall j | 0 <= j < |a| ensures s[j] != '\n' {
      assert s[j] == a[j];
    }
    assert IndexOf(s, '\n') == |a|;
    assert s[..|a|] == a;
    assert s[|a| + 1..] == b;
  }

  /** Splitting the joined lines at the newlines gives the lines back. */
  lemma {:induction false} SplitJoin(lines: seq<string>)
    requires lines != []
    requires forall i :: 0 <= i < |lines| ==> OneLine(lines[i])
    ensures SplitLines(Join(lines)) == lines
  {
    if |lines| > 1 {
      SplitAtFirstNewline(lines[0], Join(lines[1..]));
      SplitJoin(lines[1..]);
      assert lines == [lines[0]] + lines[1..];
    }
  }

  /** `f"{key}: {value}"`, given `str(value)`. */
  function FieldLine(key: string, valueText: string): string
  {
    key + ": " + valueText
  }

  /** The lines of the candidate text: one per field, in field order. */
  function FieldLines(c: Candidate, render: Json -> string): (r: seq<string>)
    ensures |r| == |c.fields|
    ensures forall i :: 0 <= i < |c.fields| ==> r[i] == FieldLine(c.fields[i].0, render(c.fields[i].1))
  {
    seq(|c.fields|, i requires 0 <= i < |c.fields| => FieldLine(c.fields[i].0, render(c.fields[i].1)))
  }

  /** `candidate_text`; `render` is Python's `str` on a field value. */
  function CandidateText(c: Candidate, render: Json -> string): string
  {
    Join(FieldLines(c, render))
  }

  /** When no key and no rendered value holds a newline, the candidate text
      has exactly one `key: value` line per field, in field order. */
  lemma CandidateTextLines(c: Candidate, render: Json -> string)
    requires c.fields != []
    requires forall i :: 0 <= i < |c.fields| ==> OneLine(c.fields[i].0) && OneLine(render(c.fields[i].1))
    ensures var lines := SplitLines(CandidateText(c, render));
            && |lines| == |c.fields|
            && forall i :: 0 <= i < |c.fields| ==> lines[i] == c.fields[i].0 + ": " + render(c.fields[i].1)
  {
    var ls := FieldLines(c, render);
    forall i | 0 <= i < |ls| ensures OneLine(ls[i]) {
      var k, t := c.fields[i].0, render(c.fields[i].1);
      assert ls[i] == k + ": " + t;
    }
    SplitJoin(ls);
  }

  // ---------------------------------------------------------------------------
  // The prompt
  // ---------------------------------------------------------------------------

  /** The fixed wording of the prompt around the inserted parts: before the
      candidate id, between it and the persona, between the persona and the
      candidate text, and after the candidate text. */
  datatype PromptFrame = PromptFrame(lead: string, afterId: string, afterPersona: string, tail: string)

  /** `str(candidate.get('id'))` as the prompt prints it. */
  function IdText(c: Candidate, render: Json -> string): string
  {
    render(Get(c, "id"))
  }

  predicate IsInfix(a: string, b: string)
  {
    exists i :: 0 <= i <= |b| && a <= b[i..]
  }

  /** `create_judge_prompt(persona, candidate)`, `personaText` being
      `str(persona)`. The prompt holds the persona and the whole candidate
      text. */
  function JudgePrompt(frame: PromptFrame, personaText: string, c: Candidate, render: Json -> string): (p: string)
    ensures IsInfix(personaText, p)
    ensures IsInfix(CandidateText(c, render), p)
  {
    var head := frame.lead + IdText(c, render) + frame.afterId;
    var text := CandidateText(c, render);
    var p := head + personaText + frame.afterPersona + text + frame.tail;
    assert personaText <= p[|head|..];
    var at := |head| + |personaText| + |frame.afterPersona|;
    assert text <= p[at..];
    p
  }

  // ---------------------------------------------------------------------------
  // Judging one candidate
  // ---------------------------------------------------------------------------

  /** What the model call yields: the response text, or an exception. */
  datatype Reply = Response(text: string) | CallFailed(error: string)

  /** Everything the judge depends on besides the candidate: the persona text,
      the prompt wording, Python's `str` on values, the model call (its reply
      to each prompt) and the JSON parser (`None` for text that is not JSON). */
  datatype Judge = Judge(
    personaText: string,
    frame: PromptFrame,
    render: Json -> string,
    llm: string -> Reply,
    parseJson: string -> Option<Json>)

  const ParseFailureReason := "Error parsing judge response."
  const UnexpectedFailureReason := "An unexpected error occurred."

  /** The judgement that replaces a failed one: score 0, no evidence. */
  function Fallback(c: Candidate, reason: string): (j: Json)
    ensures j.JObj? && j.fields.Keys == {"candidate_id", "fit_score", "reason_ko", "evidence"}
    ensures j.fields["fit_score"] == JInt(0) && j.fields["evidence"] == JArr([])
    ensures j.fields["candidate_id"] == Get(c, "id") && j.fields["reason_ko"] == JStr(reason)
  {
    JObj(map[
      "candidate_id" := Get(c, "id"),
      "fit_score" := JInt(0),
      "reason_ko" := JStr(reason),
      "evidence" := JArr([])])
  }

  /** `judge_candidate(persona, candidate)`: the dumped `JudgeOutput` when the
      reply parses and validates; otherwise a fallback judgement whose reason
      tells a validation failure from any other failure. */
  function JudgeCandidate(judge: Judge, c: Candidate): (j: Json)
    ensures j.JObj? && j.fields.Keys == {"candidate_id", "fit_score", "reason_ko", "evidence"}
    ensures j.fields["fit_score"].JInt? && MinFitScore <= j.fields["fit_score"].i <= MaxFitScore
  {
    var reply := judge.llm(JudgePrompt(judge.frame, judge.personaText, c, judge.render));
    if reply.CallFailed? then Fallback(c, UnexpectedFailureReason)
    else
      var parsed := judge.parseJson(reply.text);
      if parsed.None? then Fallback(c, ParseFailureReason)
      else
        var out := ValidateJudgeOutput(parsed.value);
        if out.Err? then Fallback(c, ParseFailureReason)
        else ToJson(out.value)
  }

  /** The three outcomes of judging one candidate. */
  lemma JudgeCandidateCases(judge: Judge, c: Candidate)
    ensures var reply := judge.llm(JudgePrompt(judge.frame, judge.personaText, c, judge.render));
            var j := JudgeCandidate(judge, c);
            && (reply.CallFailed? ==> j == Fallback(c, UnexpectedFailureReason))
            && (reply.Response? && (judge.parseJson(reply.text).None?
                                    || !Conforms(judge.parseJson(reply.text).value))
                ==> j == Fallback(c, ParseFailureReason))
            && (reply.Response? && judge.parseJson(reply.text).Some? && Conforms(judge.parseJson(reply.text).value)
                ==> ValidateJudgeOutput(j) == ValidateJudgeOutput(judge.parseJson(reply.text).value))
  {
    var reply := judge.llm(JudgePrompt(judge.frame, judge.personaText, c, judge.render));
    if reply.Response? && judge.parseJson(reply.text).Some? {
      var v := judge.parseJson(reply.text).value;
      ValidIffConforms(v);
      if Conforms(v) {
        RoundTrip(ValidateJudgeOutput(v).value);
      }
    }
  }

  /** Every judgement has the shape of a `JudgeOutput`, with a score between 0
      and 100, once the candidate's `id` is a string. */
  lemma JudgeCandidateConforms(judge: Judge, c: Candidate)
    requires Get(c, "id").JStr?
    ensures Conforms(JudgeCandidate(judge, c))
    ensures var j := JudgeCandidate(judge, c);
            MinFitScore <= j.fields["fit_score"].i <= MaxFitScore
  {
    var j := JudgeCandidate(judge, c);
    ValidIffConforms(j);
    var reply := judge.llm(JudgePrompt(judge.frame, judge.personaText, c, judge.render));
    if reply.Response? && judge.parseJson(reply.text).Some? {
      var out := ValidateJudgeOutput(judge.parseJson(reply.text).value);
      if out.Ok? {
        RoundTrip(out.value);
      }
    }
  }

  // ---------------------------------------------------------------------------
  // Judging in batches
  // ---------------------------------------------------------------------------

  /** `candidates[i:i+batch_size]` for `i` in `range(0, len(candidates), batch_size)`. */
  function Batches<T>(s: seq<T>, size: nat): seq<seq<T>>
    requires size > 0
    decreases |s|
  {
    if s == [] then []
    else
      var n := Min(size, |s|);
      [s[..n]] + Batches(s[n..], size)
  }

  function Flatten<T>(parts: seq<seq<T>>): seq<T>
  {
    if parts == [] then [] else parts[0] + Flatten(parts[1..])
  }

  /** The batches, put back together, are the candidate list. */
  lemma {:induction false} BatchesFlatten<T>(s: seq<T>, size: nat)
    requires size > 0
    ensures Flatten(Batches(s, size)) == s
    decreases |s|
  {
    if s != [] {
      var n := Min(size, |s|);
      BatchesFlatten(s[n..], size);
      assert s == s[..n] + s[n..];
    }
  }

  /** Every batch holds `size` candidates except the last, which holds between
      one and `size`. */
  lemma {:induction false} BatchSizes<T>(s: seq<T>, size: nat)
    requires size > 0
    ensures var bs := Batches(s, size);
            forall b :: 0 <= b < |bs| ==> 1 <= |bs[b]| <= size && (b < |bs| - 1 ==> |bs[b]| == size)
    decreases |s|
  {
    if s != [] {
      var n := Min(size, |s|);
      BatchSizes(s[n..], size);
      var bs := Batches(s, size);
      assert bs == [s[..n]] + Batches(s[n..], size);
      forall b | 0 <= b < |bs| ensures 1 <= |bs[b]| <= size && (b < |bs| - 1 ==> |bs[b]| == size) {
        if b == 0 && |bs| > 1 {
          assert s[n..] != [];
        }
      }
    }
  }

  lemma DivIsOne(x: int, d: int)
    requires 0 < d <= x < 2 * d
    ensures x / d == 1
  {
    assert x == d * (x / d) + x % d;
  }

  lemma Distributes(d: int, a: int, b: int)
    ensures d * (a - b) == d * a - d * b
  {
  }

  lemma MulAtLeast(d: int, k: int)
    requires d > 0 && k >= 1
    ensures d * k >= d
  {
  }

  lemma DivPlusOne(x: int, d: int)
    requires 0 <= x && 0 < d
    ensures (x + d) / d == x / d + 1
  {
    var q, m := x / d, x % d;
    var q2, m2 := (x + d) / d, (x + d) % d;
    assert x == d * q + m && 0 <= m < d;
    assert x + d == d * q2 + m2 && 0 <= m2 < d;
    var k := q2 - q - 1;
    Distributes(d, q2, q + 1);
    if k > 0 {
      MulAtLeast(d, k);
    } else if k < 0 {
      MulAtLeast(d, -k);
      Distributes(d, 0, k);
    }
  }

  /** There are `ceil(len(candidates) / batch_size)` batches, the count the
      progress log prints as `(len(candidates) + batch_size - 1) // batch_size`. */
  lemma {:induction false} BatchCount<T>(s: seq<T>, size: nat)
    requires size > 0
    ensures |Batches(s, size)| == (|s| + size - 1) / size
    decreases |s|
  {
    if s != [] {
      var n := Min(size, |s|);
      BatchCount(s[n..], size);
      if |s| <= size {
        DivIsOne(|s| + size - 1, size);
      } else {
        DivPlusOne(|s| - size + size - 1, size);
      }
    }
  }

  /** `[judge_candidate(persona, cand) for cand in batch]`, awaited in order. */
  function JudgeBatch(judge: Judge, batch: seq<Candidate>): (r: seq<Json>)
    ensures |r| == |batch| && forall j :: 0 <= j < |batch| ==> r[j] == JudgeCandidate(judge, batch[j])
  {
    seq(|batch|, j requires 0 <= j < |batch| => JudgeCandidate(judge, batch[j]))
  }

  lemma JudgeBatchAppend(judge: Judge, a: seq<Candidate>, b: seq<Candidate>)
    ensures JudgeBatch(judge, a + b) == JudgeBatch(judge, a) + JudgeBatch(judge, b)
  {
    var l, r := JudgeBatch(judge, a + b), JudgeBatch(judge, a) + JudgeBatch(judge, b);
    forall j | 0 <= j < |l| ensures l[j] == r[j] {
      if j < |a| {
        assert (a + b)[j] == a[j];
      } else {
        assert (a + b)[j] == b[j - |a|];
      }
    }
  }

  /** The judgements of every batch, one list per batch. */
  function JudgeBatches(judge: Judge, batches: seq<seq<Candidate>>): (r: seq<seq<Json>>)
    ensures |r| == |batches| && forall b :: 0 <= b < |batches| ==> r[b] == JudgeBatch(judge, batches[b])
  {
    seq(|batches|, b requires 0 <= b < |batches| => JudgeBatch(judge, batches[b]))
  }

  lemma JudgeBatchesTail(judge: Judge, bs: seq<seq<Candidate>>)
    requires bs != []
    ensures Flatten(JudgeBatches(judge, bs)) == JudgeBatch(judge, bs[0]) + Flatten(JudgeBatches(judge, bs[1..]))
  {
    var jb := JudgeBatches(judge, bs);
    assert jb[1..] == JudgeBatches(judge, bs[1..]);
  }

  /** Judging batch by batch and concatenating the batch results is judging
      the whole list in order. */
  lemma {:induction false} BatchwiseIsWhole(judge: Judge, s: seq<Candidate>, size: nat)
    requires size > 0
    ensures Flatten(JudgeBatches(judge, Batches(s, size))) == JudgeBatch(judge, s)
    decreases |s|
  {
    if s != [] {
      var n := Min(size, |s|);
      BatchwiseIsWhole(judge, s[n..], size);
      var bs := Batches(s, size);
      assert bs[0] == s[..n] && bs[1..] == Batches(s[n..], size);
      JudgeBatchesTail(judge, bs);
      JudgeBatchAppend(judge, s[..n], s[n..]);
      assert s == s[..n] + s[n..];
    }
  }

  /** `range()` with a step of 0 raises. */
  const ZeroStepError := "ValueError: range() arg 3 must not be zero"

  /** `judge_parallel(candidates, persona, batch_size)`. A zero batch size
      raises; a negative one makes the range empty, so nothing is judged. A
      positive one yields one judgement per candidate, in input order. */
  method JudgeParallel(judge: Judge, candidates: seq<Candidate>, batchSize: int) returns (r: Result<seq<Json>>)
    ensures batchSize == 0 ==> r == Err(ZeroStepError)
    ensures batchSize < 0 ==> r == Ok([])
    ensures batchSize > 0 ==> r.Ok? && |r.value| == |candidates|
    ensures batchSize > 0 ==> forall j :: 0 <= j < |candidates| ==> r.value[j] == JudgeCandidate(judge, candidates[j])
    ensures batchSize > 0 ==> r.value == Flatten(JudgeBatches(judge, Batches(candidates, batchSize)))
  {
    if batchSize == 0 {
      return Err(ZeroStepError);
    }
    var judged: seq<Json> := [];
    var i := 0;
    while i < |candidates|
      invariant batchSize > 0 ==> 0 <= i && judged == JudgeBatch(judge, candidates[..Min(i, |candidates|)])
      invariant batchSize < 0 ==> i == 0 && judged == []
      decreases |candidates| - i
    {
      if batchSize < 0 {
        break;
      }
      var end := Min(i + batchSize, |candidates|);
      var batch := candidates[i..end];
      var batchResults := JudgeBatch(judge, batch);
      JudgeBatchAppend(judge, candidates[..i], batch);
      assert candidates[..i] + batch == candidates[..end];
      judged := judged + batchResults;
      i := i + batchSize;
    }
    if batchSize > 0 {
      assert candidates[..Min(i, |candidates|)] == candidates;
      BatchwiseIsWhole(judge, candidates, batchSize);
    }
    r := Ok(judged);
  }
}
