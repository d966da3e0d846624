/**
 * The two prompts the interview bot sends: the question-generation prompt,
 * a fixed template followed by the CV and the job description, and the
 * evaluation prompt, a fixed header followed by one `Q<n>:`/`A<n>:` entry per
 * question-answer pair. The template and header texts are parameters.
 */
module Prompts {
  import opened Strings
  import opened QuestionParser

  const CvHeading: string := "\n\nCV:\n"
  const JdHeading: string := "\n\nJob Description:\n"

  /** `generate_questions`: the template, then the CV and the job description under their headings. */
  function GenerationPrompt(template: string, cv: string, jd: string): string {
    template + CvHeading + cv + JdHeading + jd
  }

  /**
   * The CV and the job description stand in the prompt verbatim, in that
   * order, after the template: each can be read back from its place.
   */
  lemma GenerationPromptParts(template: string, cv: string, jd: string)
    ensures var p := GenerationPrompt(template, cv, jd);
      var c := |template| + |CvHeading|;
      && |p| == |template| + |CvHeading| + |cv| + |JdHeading| + |jd|
      && p[..|template|] == template
      && p[c..c + |cv|] == cv
      && p[c + |cv|..c + |cv| + |JdHeading|] == JdHeading
      && p[|p| - |jd|..] == jd
  {
    var p := GenerationPrompt(template, cv, jd);
    var c := |template| + |CvHeading|;
    assert p == (template + CvHeading) + cv + JdHeading + jd;
    assert p[..|template|] == template;
    assert p[c..c + |cv|] == cv;
    assert p[c + |cv|..c + |cv| + |JdHeading|] == JdHeading;
    assert p[|p| - |jd|..] == jd;
  }

  /** Prompts for the same template and CV length are equal only for the same CV and job description. */
  lemma GenerationPromptInjective(template: string, cv: string, jd: string, cv': string, jd': string)
    requires |cv| == |cv'|
    requires GenerationPrompt(template, cv, jd) == GenerationPrompt(template, cv', jd')
    ensures cv == cv' && jd == jd'
  {
    GenerationPromptParts(template, cv, jd);
    GenerationPromptParts(template, cv', jd');
  }

  /** The entry for pair `i`: `Q<i+1>: <question>`, then `A<i+1>: <answer>` and a blank line. */
  function Entry(i: nat, q: QuestionRecord, a: string): string {
    "Q" + Decimal(i + 1) + ": " + q.question + "\nA" + Decimal(i + 1) + ": " + a + "\n\n"
  }

  /** The entries for the first `n` question-answer pairs, in order. */
  function Transcript(questions: seq<QuestionRecord>, responses: seq<string>, n: nat): string
    requires n <= |questions| && n <= |responses|
  {
    if n == 0 then [] else Transcript(questions, responses, n - 1) + Entry(n - 1, questions[n - 1], responses[n - 1])
  }

  function Min(a: nat, b: nat): nat {
    if a <= b then a else b
  }

  /** The evaluation prompt: the header and one entry per pair of `zip(questions, responses)`. */
  function EvaluationPrompt(header: string, questions: seq<QuestionRecord>, responses: seq<string>): string {
    header + Transcript(questions, responses, Min(|questions|, |responses|))
  }

  /** Lines 181-192: the header, then one `+=` per pair until either list runs out. */
  method BuildEvaluationPrompt(header: string, questions: seq<QuestionRecord>, responses: seq<string>)
    returns (prompt: string)
    ensures prompt == EvaluationPrompt(header, questions, responses)
  {
    prompt := header;
    var i := 0;
    while i < |questions| && i < |responses|
      invariant i <= |questions| && i <= |responses|
      invariant prompt == header + Transcript(questions, responses, i)
    {
      prompt := prompt + ("Q" + Decimal(i + 1) + ": " + questions[i].question + "\nA" + Decimal(i + 1) + ": " + responses[i] + "\n\n");
      AppendAfter(header, Transcript(questions, responses, i), Entry(i, questions[i], responses[i]));
      i := i + 1;
    }
  }

  lemma AppendAfter(header: string, t: string, entry: string)
    ensures header + t + entry == header + (t + entry)
  {
  }

  /** An earlier transcript is a prefix of a later one: entries are only ever appended. */
  lemma {:induction false} TranscriptPrefix(questions: seq<QuestionRecord>, responses: seq<string>, m: nat, n: nat)
    requires m <= n <= |questions| && n <= |responses|
    ensures Transcript(questions, responses, m) <= Transcript(questions, responses, n)
    decreases n
  {
    if m < n {
      TranscriptPrefix(questions, responses, m, n - 1);
    }
  }

  /** Entry `i` stands in the transcript right after the entries before it. */
  lemma EntryInTranscript(questions: seq<QuestionRecord>, responses: seq<string>, n: nat, i: nat)
    requires i < n <= |questions| && n <= |responses|
    ensures Transcript(questions, responses, i) + Entry(i, questions[i], responses[i]) <= Transcript(questions, responses, n)
  {
    TranscriptPrefix(questions, responses, i + 1, n);
  }

  /** The transcript of `n` pairs depends on the first `n` questions and answers only. */
  lemma {:induction false} TranscriptTake(questions: seq<QuestionRecord>, responses: seq<string>, n: nat)
    requires n <= |questions| && n <= |responses|
    ensures Transcript(questions, responses, n) == Transcript(questions[..n], responses[..n], n)
  {
    TranscriptAgree(questions, responses, questions[..n], responses[..n], n);
  }

  lemma {:induction false} TranscriptAgree(qs: seq<QuestionRecord>, rs: seq<string>, qs': seq<QuestionRecord>, rs': seq<string>, n: nat)
    requires n <= |qs| && n <= |rs| && n <= |qs'| && n <= |rs'|
    requires qs[..n] == qs'[..n] && rs[..n] == rs'[..n]
    ensures Transcript(qs, rs, n) == Transcript(qs', rs', n)
  {
    if n > 0 {
      assert qs[n - 1] == qs[..n][n - 1] && qs'[n - 1] == qs'[..n][n - 1];
      assert rs[n - 1] == rs[..n][n - 1] && rs'[n - 1] == rs'[..n][n - 1];
      assert qs[..n - 1] == qs[..n][..n - 1] && qs'[..n - 1] == qs'[..n][..n - 1];
      assert rs[..n - 1] == rs[..n][..n - 1] && rs'[..n - 1] == rs'[..n][..n - 1];
      TranscriptAgree(qs, rs, qs', rs', n - 1);
    }
  }

  /**
   * `zip` stops at the shorter list: questions or answers beyond the other
   * list's length leave the evaluation prompt unchanged.
   */
  lemma EvaluationPromptZip(header: string, questions: seq<QuestionRecord>, responses: seq<string>)
    ensures var n := Min(|questions|, |responses|);
      EvaluationPrompt(header, questions, responses) == EvaluationPrompt(header, questions[..n], responses[..n])
  {
    var n := Min(|questions|, |responses|);
    TranscriptTake(questions, responses, n);
  }
}
