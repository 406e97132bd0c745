/** Retrieval and the mock-mode answer: rank store entries by a given similarity score,
    keep the `k` best, pair each with its stored text and metadata, join them into the
    grounding context, and pick a canned answer from the lower-cased question. */
module RagAgent {
  import opened Wrappers
  import opened Text
  import opened Ingestion

  /** One retrieved record: `{text, meta, score}`. */
  datatype Hit = Hit(text: string, meta: Meta, score: real)

  /** The dictionary `answer_and_propose` returns. */
  datatype Response = Response(answer: string, actions: string, retrievedContext: string)

  /** The `IndexError` raised when a selected store index has no text or metadata. */
  datatype RetrieveError = IndexOutOfRange(index: nat)

  // ===========================================================================
  // argsort(-sims)[:k]
  // ===========================================================================

  predicate InRange(idx: seq<nat>, n: nat) {
    forall j :: 0 <= j < |idx| ==> idx[j] < n
  }

  predicate Distinct(idx: seq<nat>) {
    forall a, b :: 0 <= a < b < |idx| ==> idx[a] != idx[b]
  }

  /** Scores never increase along `idx`. */
  predicate ByScore(sims: seq<real>, idx: seq<nat>)
    requires InRange(idx, |sims|)
  {
    forall a, b :: 0 <= a < b < |idx| ==> sims[idx[a]] >= sims[idx[b]]
  }

  /** `idx` lists each of `0 .. n-1` exactly once. */
  predicate IsPermutation(idx: seq<nat>, n: nat) {
    |idx| == n && InRange(idx, n) && Distinct(idx) && forall j :: 0 <= j < n ==> j in idx
  }

  /** Insert index `x` into a list ranked by descending score, after every index whose
      score is at least `sims[x]`. */
  function InsertByScore(sims: seq<real>, ranked: seq<nat>, x: nat): (r: seq<nat>)
    requires x < |sims| && InRange(ranked, |sims|)
    ensures |r| == |ranked| + 1
    ensures forall y :: y in r <==> y == x || y in ranked
    ensures InRange(r, |sims|)
  {
    if ranked == [] then [x]
    else if sims[ranked[0]] >= sims[x] then [ranked[0]] + InsertByScore(sims, ranked[1..], x)
    else [x] + ranked
  }

  /** A list ranked by score is ranked after its head, and its head scores at least as
      high as every other entry. */
  lemma ByScoreUncons(sims: seq<real>, s: seq<nat>)
    requires |s| > 0 && InRange(s, |sims|) && ByScore(sims, s)
    ensures ByScore(sims, s[1..])
    ensures forall y :: y in s[1..] ==> sims[s[0]] >= sims[y]
  {
    var t := s[1..];
    assert forall a :: 0 <= a < |t| ==> t[a] == s[a + 1];
  }

  /** A head scoring at least as high as a ranked tail gives a ranked list. */
  lemma ByScoreCons(sims: seq<real>, h: nat, t: seq<nat>)
    requires h < |sims| && InRange(t, |sims|) && ByScore(sims, t)
    requires forall y :: y in t ==> sims[h] >= sims[y]
    ensures InRange([h] + t, |sims|) && ByScore(sims, [h] + t)
  {
    var r := [h] + t;
    assert forall a :: 0 < a < |r| ==> r[a] == t[a - 1] && r[a] in t;
  }

  lemma DistinctUncons(s: seq<nat>)
    requires |s| > 0 && Distinct(s)
    ensures Distinct(s[1..]) && s[0] !in s[1..]
  {
    var t := s[1..];
    assert forall a :: 0 <= a < |t| ==> t[a] == s[a + 1];
  }

  lemma DistinctCons(h: nat, t: seq<nat>)
    requires Distinct(t) && h !in t
    ensures Distinct([h] + t)
  {
    var r := [h] + t;
    assert forall a :: 0 < a < |r| ==> r[a] == t[a - 1] && r[a] in t;
  }

  /** Inserting keeps the list ranked by non-increasing score. */
  lemma {:induction false} InsertByScoreKeepsRanking(sims: seq<real>, ranked: seq<nat>, x: nat)
    requires x < |sims| && InRange(ranked, |sims|) && ByScore(sims, ranked)
    ensures ByScore(sims, InsertByScore(sims, ranked, x))
  {
    if ranked == [] {
    } else if sims[ranked[0]] >= sims[x] {
      var rest := ranked[1..];
      ByScoreUncons(sims, ranked);
      InsertByScoreKeepsRanking(sims, rest, x);
      ByScoreCons(sims, ranked[0], InsertByScore(sims, rest, x));
    } else {
      ByScoreUncons(sims, ranked);
      ByScoreCons(sims, x, ranked);
    }
  }

  /** Inserting an index not yet in the list keeps it free of repeats. */
  lemma {:induction false} InsertByScoreKeepsDistinct(sims: seq<real>, ranked: seq<nat>, x: nat)
    requires x < |sims| && InRange(ranked, |sims|) && Distinct(ranked) && x !in ranked
    ensures Distinct(InsertByScore(sims, ranked, x))
  {
    if ranked == [] {
    } else if sims[ranked[0]] >= sims[x] {
      var rest := ranked[1..];
      DistinctUncons(ranked);
      InsertByScoreKeepsDistinct(sims, rest, x);
      DistinctCons(ranked[0], InsertByScore(sims, rest, x));
    } else {
      DistinctCons(x, ranked);
    }
  }

  /** The indices `0 .. n-1` ranked by descending score: `argsort(-sims)` for `n == |sims|`. */
  function RankIndices(sims: seq<real>, n: nat): (r: seq<nat>)
    requires n <= |sims|
    ensures |r| == n && InRange(r, n)
    ensures forall y :: y in r <==> 0 <= y < n
  {
    if n == 0 then []
    else
      var r := InsertByScore(sims, RankIndices(sims, n - 1), n - 1);
      assert forall j :: 0 <= j < |r| ==> r[j] in r;
      r
  }

  /** The ranking is a permutation of the store indices, ordered by descending score. */
  lemma {:induction false} RankIndicesIsRanking(sims: seq<real>, n: nat)
    requires n <= |sims|
    ensures IsPermutation(RankIndices(sims, n), n)
    ensures ByScore(sims, RankIndices(sims, n))
  {
    if n > 0 {
      RankIndicesIsRanking(sims, n - 1);
      InsertByScoreKeepsRanking(sims, RankIndices(sims, n - 1), n - 1);
      InsertByScoreKeepsDistinct(sims, RankIndices(sims, n - 1), n - 1);
    }
  }

  /** `argsort(-sims)[:k]`: the store indices of the `k` best scores, best first. */
  function TopK(sims: seq<real>, k: nat): seq<nat> {
    RankIndices(sims, |sims|)[..Min(k, |sims|)]
  }

  /** `TopK` returns `min(k, N)` distinct valid indices in non-increasing score order,
      `k == 0` gives none, and no unselected index scores higher than a selected one. */
  lemma TopKIsTopK(sims: seq<real>, k: nat)
    ensures |TopK(sims, k)| == Min(k, |sims|)
    ensures k == 0 ==> TopK(sims, k) == []
    ensures InRange(TopK(sims, k), |sims|) && Distinct(TopK(sims, k))
    ensures ByScore(sims, TopK(sims, k))
    ensures forall a, j :: 0 <= a < |TopK(sims, k)| && 0 <= j < |sims| && j !in TopK(sims, k) ==>
      sims[TopK(sims, k)[a]] >= sims[j]
  {
    var ranked := RankIndices(sims, |sims|);
    var top := TopK(sims, k);
    RankIndicesIsRanking(sims, |sims|);
    assert forall a :: 0 <= a < |top| ==> top[a] == ranked[a];
    forall a, j | 0 <= a < |top| && 0 <= j < |sims| && j !in top
      ensures sims[top[a]] >= sims[j]
    {
      assert j in ranked;
      var q :| 0 <= q < |ranked| && ranked[q] == j;
      assert |top| <= q;
    }
  }

  // ===========================================================================
  // Building the results of retrieve
  // ===========================================================================

  /** The list comprehension of `retrieve`: one hit per selected index, in order; the first
      index with no stored text or metadata raises `IndexError`. */
  function BuildHits(texts: seq<string>, metas: seq<Meta>, sims: seq<real>, idx: seq<nat>): Result<seq<Hit>, RetrieveError>
    requires InRange(idx, |sims|)
  {
    if idx == [] then Ok([])
    else if idx[0] >= |texts| || idx[0] >= |metas| then Err(IndexOutOfRange(idx[0]))
    else
      match BuildHits(texts, metas, sims, idx[1..])
      case Err(e) => Err(e)
      case Ok(rest) => Ok([Hit(texts[idx[0]], metas[idx[0]], sims[idx[0]])] + rest)
  }

  /** Every index of `idx` has a stored text and metadata. */
  predicate Stored(texts: seq<string>, metas: seq<Meta>, idx: seq<nat>) {
    forall j :: 0 <= j < |idx| ==> idx[j] < |texts| && idx[j] < |metas|
  }

  /** `BuildHits` succeeds exactly when every selected index is stored, and then hit `j`
      is the text, metadata and score at `idx[j]` and nothing else; otherwise the error
      names a selected index that is not stored. */
  lemma {:induction false} BuildHitsSpec(texts: seq<string>, metas: seq<Meta>, sims: seq<real>, idx: seq<nat>)
    requires InRange(idx, |sims|)
    ensures BuildHits(texts, metas, sims, idx).Ok? <==> Stored(texts, metas, idx)
    ensures BuildHits(texts, metas, sims, idx).Ok? ==>
      var hits := BuildHits(texts, metas, sims, idx).value;
      |hits| == |idx| &&
      forall j :: 0 <= j < |idx| ==> hits[j] == Hit(texts[idx[j]], metas[idx[j]], sims[idx[j]])
    ensures BuildHits(texts, metas, sims, idx).Err? ==>
      var e := BuildHits(texts, metas, sims, idx).error;
      e.index in idx && (e.index >= |texts| || e.index >= |metas|)
  {
    if idx != [] {
      var rest := idx[1..];
      BuildHitsSpec(texts, metas, sims, rest);
      assert forall j :: 1 <= j < |idx| ==> idx[j] == rest[j - 1];
      if Stored(texts, metas, idx) {
        assert Stored(texts, metas, rest);
      }
    }
  }

  /** `retrieve(question, k)` for a given score of every stored embedding against the
      question: the hits of the `k` best-scoring indices. */
  function Retrieve(texts: seq<string>, metas: seq<Meta>, sims: seq<real>, k: nat): Result<seq<Hit>, RetrieveError> {
    TopKIsTopK(sims, k);
    BuildHits(texts, metas, sims, TopK(sims, k))
  }

  /** What `retrieve` returns. It fails only when a selected index has no stored text or
      metadata, which cannot happen when the store lists hold an entry per score. On
      success there are `min(k, N)` hits, hit `j` is the record at the `j`-th selected index,
      scores never increase, and no unselected entry scores above a returned one; `k == 0`
      and an empty store give no hits. */
  lemma RetrieveSpec(texts: seq<string>, metas: seq<Meta>, sims: seq<real>, k: nat)
    ensures Retrieve(texts, metas, sims, k).Ok? <==> Stored(texts, metas, TopK(sims, k))
    ensures |texts| >= |sims| && |metas| >= |sims| ==> Retrieve(texts, metas, sims, k).Ok?
    ensures (k == 0 || sims == []) ==> Retrieve(texts, metas, sims, k) == Ok([])
    ensures Retrieve(texts, metas, sims, k).Ok? ==>
      var hits := Retrieve(texts, metas, sims, k).value;
      var idx := TopK(sims, k);
      |hits| == Min(k, |sims|) == |idx| &&
      (forall j :: 0 <= j < |hits| ==> idx[j] < |sims| && hits[j] == Hit(texts[idx[j]], metas[idx[j]], sims[idx[j]])) &&
      (forall a, b :: 0 <= a < b < |hits| ==> hits[a].score >= hits[b].score) &&
      (forall a, i :: 0 <= a < |hits| && 0 <= i < |sims| && i !in idx ==> hits[a].score >= sims[i])
  {
    var idx := TopK(sims, k);
    TopKIsTopK(sims, k);
    BuildHitsSpec(texts, metas, sims, idx);
  }

  // ===========================================================================
  // The grounding context
  // ===========================================================================

  /** How many characters of each hit's text go into the context. */
  const SnippetLimit: nat := 800

  /** `meta.get('source', 'doc')`. */
  function SourceLabel(meta: Meta): string {
    match meta.source
    case Some(s) => s
    case None => "doc"
  }

  /** One context entry: `"[" + source + "] " + text[:800]`. */
  function ContextEntry(hit: Hit): string {
    "[" + SourceLabel(hit.meta) + "] " + Take(hit.text, SnippetLimit)
  }

  function ContextEntries(hits: seq<Hit>): seq<string> {
    seq(|hits|, j requires 0 <= j < |hits| => ContextEntry(hits[j]))
  }

  /** The context: the entries of the hits, in result order, joined by a blank line. */
  function Context(hits: seq<Hit>): string {
    Join("\n\n", ContextEntries(hits))
  }

  /** An entry is the bracketed source label followed by exactly the first
      `min(800, len(text))` characters of the hit's text; a hit whose metadata has no
      source is labelled "doc". */
  lemma ContextEntryShape(hit: Hit)
    ensures var n := |SourceLabel(hit.meta)|;
      var e := ContextEntry(hit);
      n + 3 <= |e| <= n + 3 + SnippetLimit &&
      e[..n + 3] == "[" + SourceLabel(hit.meta) + "] " &&
      IsPrefix(e[n + 3..], hit.text) &&
      |e| == n + 3 + Min(SnippetLimit, |hit.text|) &&
      e[n + 3..] == hit.text[..Min(SnippetLimit, |hit.text|)] &&
      (|hit.text| <= SnippetLimit ==> e[n + 3..] == hit.text)
    ensures hit.meta.source.None? ==> ContextEntry(hit)[..6] == "[doc] "
  {
    var n := |SourceLabel(hit.meta)|;
    var e := ContextEntry(hit);
    var head := "[" + SourceLabel(hit.meta) + "] ";
    assert e == head + Take(hit.text, SnippetLimit);
    assert |head| == n + 3;
    assert e[..n + 3] == head;
    assert e[n + 3..] == Take(hit.text, SnippetLimit);
  }

  /** No hits give an empty context, and one more hit appends a blank line and its entry. */
  lemma ContextAppend(hits: seq<Hit>, hit: Hit)
    ensures Context([]) == ""
    ensures Context([hit]) == ContextEntry(hit)
    ensures hits != [] ==> Context(hits + [hit]) == Context(hits) + "\n\n" + ContextEntry(hit)
  {
    assert ContextEntries([hit]) == [ContextEntry(hit)];
    if hits != [] {
      assert ContextEntries(hits + [hit]) == ContextEntries(hits) + [ContextEntry(hit)];
      JoinSnoc("\n\n", ContextEntries(hits), ContextEntry(hit));
    }
  }

  /** The entry of hit `j` sits at `PartOffset(j)` of the context, a blank line follows it
      unless it is the last, and the last entry ends the context. */
  lemma ContextLayout(hits: seq<Hit>, j: nat)
    requires j < |hits|
    ensures var es := ContextEntries(hits);
      var c := Context(hits);
      var at := PartOffset("\n\n", es, j);
      at + |ContextEntry(hits[j])| <= |c| &&
      c[at..at + |ContextEntry(hits[j])|] == ContextEntry(hits[j]) &&
      (j + 1 < |hits| ==>
         PartOffset("\n\n", es, j + 1) <= |c| &&
         c[at + |ContextEntry(hits[j])|..PartOffset("\n\n", es, j + 1)] == "\n\n") &&
      (j + 1 == |hits| ==> at + |ContextEntry(hits[j])| == |c|)
  {
    var es := ContextEntries(hits);
    JoinPartAt("\n\n", es, j);
    if j + 1 < |hits| {
      JoinSepAfter("\n\n", es, j);
    } else {
      JoinLength("\n\n", es);
    }
  }

  // ===========================================================================
  // answer_and_propose in mock mode
  // ===========================================================================

  const Q3Phrase: string := "top three customer complaints"

  /** The second phrase the mock branch tests for; it extends the first. */
  const Q3PhraseInQ3: string := Q3Phrase + " in q3"

  const Q3Answer: string :=
    "Top complaints in Q3: 1) CSV export crashes on reports with inline comments (release_notes_q3.md, customer_email_1.txt); "
    + "2) Confusing billing/tier changes (customer_email_2.txt, churn_survey_responses.csv); "
    + "3) API/timeouts for bulk uploads (support_tickets.csv)."

  const Q3Actions: string :=
    "1) Request failing report + repro steps - Support - 4h - Get repro to unblock engineering.\n"
    + "2) Add billing tier explanation + rollback flow - Product - 8h - Reduce churn and urgent support load.\n"
    + "3) Triage API incidents & allocate hotfix engineer - Eng Lead - 12h - Prioritize enterprise-impact issues."

  const FallbackAnswer: string := "Demo answer (mock): couldn't match the question to a canned output."

  const FallbackActions: string := "1) Investigate - Owner - 4h - Demo action."

  /** The test of the mock branch, both disjuncts as written, on the lower-cased question. */
  predicate MatchesQ3(question: string) {
    var q := Lower(question);
    Contains(q, Q3Phrase) || Contains(q, Q3PhraseInQ3)
  }

  /** The canned response for a question, carrying the given context. */
  function MockResponse(question: string, context: string): Response {
    if MatchesQ3(question) then Response(Q3Answer, Q3Actions, context)
    else Response(FallbackAnswer, FallbackActions, context)
  }

  /** The second disjunct of the test adds nothing: the test holds exactly when the
      lower-cased question contains "top three customer complaints". */
  lemma MatchesQ3Iff(question: string)
    ensures MatchesQ3(question) <==> Contains(Lower(question), Q3Phrase)
  {
    assert IsPrefix(Q3Phrase, Q3PhraseInQ3) by {
      assert Q3PhraseInQ3[..|Q3Phrase|] == Q3Phrase;
    }
    ContainsEitherOfPrefix(Lower(question), Q3Phrase, Q3PhraseInQ3);
  }

  /** The mock response always carries the context it was given. It is the Q3 answer and
      actions when the lower-cased question contains the Q3 phrase, and the fallback
      answer and action otherwise. */
  lemma MockResponseSpec(question: string, context: string)
    ensures MockResponse(question, context).retrievedContext == context
    ensures Contains(Lower(question), Q3Phrase) ==>
      MockResponse(question, context) == Response(Q3Answer, Q3Actions, context)
    ensures !Contains(Lower(question), Q3Phrase) ==>
      MockResponse(question, context) == Response(FallbackAnswer, FallbackActions, context)
  {
    MatchesQ3Iff(question);
  }

  /** `answer_and_propose(question, k)` in mock mode, for the given store and scores. */
  function AnswerAndProposeMock(question: string, texts: seq<string>, metas: seq<Meta>, sims: seq<real>, k: nat)
    : Result<Response, RetrieveError>
  {
    match Retrieve(texts, metas, sims, k)
    case Err(e) => Err(e)
    case Ok(hits) => Ok(MockResponse(question, Context(hits)))
  }

  /** Mock mode fails only where retrieval does; otherwise its `retrieved_context` is the
      context of the retrieved hits and its answer follows the Q3 phrase test. */
  lemma AnswerAndProposeMockSpec(question: string, texts: seq<string>, metas: seq<Meta>, sims: seq<real>, k: nat)
    ensures AnswerAndProposeMock(question, texts, metas, sims, k).Ok? <==> Stored(texts, metas, TopK(sims, k))
    ensures AnswerAndProposeMock(question, texts, metas, sims, k).Ok? ==>
      var r := AnswerAndProposeMock(question, texts, metas, sims, k).value;
      r.retrievedContext == Context(Retrieve(texts, metas, sims, k).value) &&
      (Contains(Lower(question), Q3Phrase) ==> r.answer == Q3Answer && r.actions == Q3Actions) &&
      (!Contains(Lower(question), Q3Phrase) ==> r.answer == FallbackAnswer && r.actions == FallbackActions)
    ensures k == 0 ==>
      AnswerAndProposeMock(question, texts, metas, sims, k).Ok? &&
      AnswerAndProposeMock(question, texts, metas, sims, k).value.retrievedContext == ""
  {
    RetrieveSpec(texts, metas, sims, k);
    var res := Retrieve(texts, metas, sims, k);
    if res.Ok? {
      MockResponseSpec(question, Context(res.value));
    }
    ContextAppend([], Hit("", Meta(None, 0, None), 0.0));
  }
}
