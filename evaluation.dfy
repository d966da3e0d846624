/**
 * Reading the evaluation reply: the reply is stripped, the feedback is the
 * group of `Feedback:\s*(.*?)\nScore:` (with `.` matching line breaks) and
 * the score the group of `Score:\s*(\d+)`, each found by a leftmost search,
 * with "No feedback provided." and 0 when a search finds nothing.
 *
 * The searches are written out the way the regular-expression engine runs
 * them: each start position from the left, the greedy `\s*` taking every
 * whitespace character and giving them back one at a time, the lazy group
 * growing until `\nScore:` follows. The lemmas then say what they find in
 * terms of the first label and the first score line.
 */
module Evaluation {
  import opened Options
  import opened Strings

  /** The feedback text and the score stored once the answers are evaluated. */
  datatype Verdict = Verdict(feedback: string, score: nat)

  const FeedbackLabel: string := "Feedback:"
  const ScoreLabel: string := "Score:"
  const ScoreLine: string := "\nScore:"
  const NoFeedback: string := "No feedback provided."

  // ---------------------------------------------------------------------------
  // Feedback:\s*(.*?)\nScore:
  // ---------------------------------------------------------------------------

  /** `(.*?)\nScore:` from `from`: the lazy group stops at the first `\nScore:`. */
  function LazyGroup(s: string, from: nat): Option<string>
    requires from <= |s|
  {
    match Find(s, from, ScoreLine)
    case Some(q) => Some(s[from..q])
    case None => None
  }

  /**
   * `\s*(.*?)\nScore:` after the label ending at `body`, with `\s*` holding
   * `w` characters: on failure `\s*` gives one character back and tries again.
   */
  function BacktrackSpaces(s: string, body: nat, w: nat): Option<string>
    requires body + w <= |s|
    decreases w
  {
    var g := LazyGroup(s, body + w);
    if g.Some? || w == 0 then g else BacktrackSpaces(s, body, w - 1)
  }

  /** The feedback group of a match that starts at `p`, if one does. */
  function FeedbackMatchAt(s: string, p: nat): Option<string>
    requires p <= |s|
  {
    if At(s, p, FeedbackLabel) then
      var body := p + |FeedbackLabel|;
      BacktrackSpaces(s, body, LeadingSpaces(s[body..]))
    else None
  }

  /** `re.search`: the match at the first start position, from `p` on, at which one exists. */
  function FeedbackSearch(s: string, p: nat): Option<string>
    requires p <= |s|
    decreases |s| - p
  {
    var m := FeedbackMatchAt(s, p);
    if m.Some? || p == |s| then m else FeedbackSearch(s, p + 1)
  }

  /** `feedback_match.group(1).strip() if feedback_match else "No feedback provided."` */
  function FeedbackOf(result: string): string {
    match FeedbackSearch(result, 0)
    case Some(g) => Strip(g)
    case None => NoFeedback
  }

  /** Giving back whitespace finds a score line exactly when one follows the label at all. */
  lemma {:induction false} BacktrackSpacesFinds(s: string, body: nat, w: nat)
    requires body + w <= |s|
    ensures BacktrackSpaces(s, body, w).Some? <==> Find(s, body, ScoreLine).Some?
    decreases w
  {
    FindLater(s, body, body + w, ScoreLine);
    if Find(s, body + w, ScoreLine).None? && w > 0 {
      BacktrackSpacesFinds(s, body, w - 1);
    }
  }

  /** When the first score line lies past the whitespace `\s*` took, the group runs from there to it. */
  lemma BacktrackSpacesGroup(s: string, body: nat, w: nat, q: nat)
    requires body + w <= |s|
    requires Find(s, body, ScoreLine) == Some(q) && body + w <= q
    ensures BacktrackSpaces(s, body, w) == Some(s[body + w..q])
  {
    FindLater(s, body, body + w, ScoreLine);
  }

  /** A match starts at a label exactly when a score line follows that label. */
  lemma FeedbackMatchAtFinds(s: string, p: nat)
    requires p <= |s|
    ensures FeedbackMatchAt(s, p).Some? <==>
      At(s, p, FeedbackLabel) && Find(s, p + |FeedbackLabel|, ScoreLine).Some?
  {
    if At(s, p, FeedbackLabel) {
      var body := p + |FeedbackLabel|;
      BacktrackSpacesFinds(s, body, LeadingSpaces(s[body..]));
    }
  }

  /** When no start position from `p` on matches, the search finds nothing. */
  lemma {:induction false} FeedbackSearchNone(s: string, p: nat)
    requires p <= |s|
    requires forall i :: p <= i <= |s| ==> FeedbackMatchAt(s, i).None?
    ensures FeedbackSearch(s, p) == None
    decreases |s| - p
  {
    if p < |s| {
      FeedbackSearchNone(s, p + 1);
    }
  }

  /** After a label with no score line behind it, no start position matches. */
  lemma NoMatchAfter(s: string, p: nat)
    requires p + |FeedbackLabel| <= |s| && Find(s, p + |FeedbackLabel|, ScoreLine).None?
    ensures forall i :: p <= i <= |s| ==> FeedbackMatchAt(s, i).None?
  {
    forall i | p <= i <= |s| ensures FeedbackMatchAt(s, i).None? {
      FeedbackMatchAtFinds(s, i);
      if At(s, i, FeedbackLabel) {
        FindLater(s, p + |FeedbackLabel|, i + |FeedbackLabel|, ScoreLine);
      }
    }
  }

  /**
   * The search is decided at the first `Feedback:` from `p` on: it matches
   * there or nowhere, and without a label it finds nothing.
   */
  lemma {:induction false} FeedbackSearchFirstLabel(s: string, p: nat)
    requires p <= |s|
    ensures FeedbackSearch(s, p) ==
      match Find(s, p, FeedbackLabel)
      case Some(f) => FeedbackMatchAt(s, f)
      case None => None
    decreases |s| - p
  {
    if At(s, p, FeedbackLabel) {
      if FeedbackMatchAt(s, p).None? {
        FeedbackMatchAtFinds(s, p);
        NoMatchAfter(s, p);
        FeedbackSearchNone(s, p);
      }
    } else if p < |s| {
      FeedbackSearchFirstLabel(s, p + 1);
    }
  }

  /**
   * A feedback that is not blank is the text between the first `Feedback:`
   * and the first `\nScore:` after it, stripped.
   */
  lemma FeedbackBetweenLabels(s: string, f: nat, q: nat)
    requires Find(s, 0, FeedbackLabel) == Some(f)
    requires Find(s, f + |FeedbackLabel|, ScoreLine) == Some(q)
    requires !AllSpace(s[f + |FeedbackLabel|..q])
    ensures FeedbackOf(s) == Strip(s[f + |FeedbackLabel|..q])
  {
    var body := f + |FeedbackLabel|;
    var w := LeadingSpaces(s[body..]);
    SpacesEndBefore(s, body, q);
    BacktrackSpacesGroup(s, body, w, q);
    FeedbackOfFirstLabel(s, f, s[body + w..q]);
    LeadingSpacesSpan(s, body);
    StripPastSpaces(s, body, body + w, q);
  }

  /** Text that is not all whitespace stops the whitespace run that starts it. */
  lemma SpacesEndBefore(s: string, body: nat, q: nat)
    requires body <= q <= |s| && !AllSpace(s[body..q])
    ensures body + LeadingSpaces(s[body..]) <= q
  {
    var w := LeadingSpaces(s[body..]);
    var k :| 0 <= k < q - body && !IsSpace(s[body..q][k]);
    assert s[body..q][k] == s[body..][k];
    assert forall i :: 0 <= i < w ==> s[body..][..w][i] == s[body..][i];
  }

  lemma SliceOfSlice<T>(s: seq<T>, a: nat, m: nat, b: nat)
    requires a <= m <= b <= |s|
    ensures s[a..b][..m - a] == s[a..m] && s[a..b][m - a..] == s[m..b]
  {
  }

  /** The whitespace run that starts at `body`, as a span of `s`. */
  lemma LeadingSpacesSpan(s: string, body: nat)
    requires body <= |s|
    ensures body + LeadingSpaces(s[body..]) <= |s| && AllSpace(s[body..body + LeadingSpaces(s[body..])])
  {
    var w := LeadingSpaces(s[body..]);
    assert s[body..][..w] == s[body..body + w];
  }

  /** Stripping a span gives the same as stripping it past whitespace that starts it. */
  lemma StripPastSpaces(s: string, a: nat, m: nat, b: nat)
    requires a <= m <= b <= |s| && AllSpace(s[a..m])
    ensures Strip(s[a..b]) == Strip(s[m..b])
  {
    SliceOfSlice(s, a, m, b);
    StripPrefixSpaces(s[a..b], m - a);
  }

  lemma StripPrefixSpaces(u: string, w: nat)
    requires w <= |u| && AllSpace(u[..w])
    ensures Strip(u) == Strip(u[w..])
  {
    assert u == u[..w] + u[w..];
    StripAfterSpaces(u[..w], u[w..]);
  }

  /**
   * The default is used exactly when there is no `Feedback:` or no `\nScore:`
   * after the first one.
   */
  lemma FeedbackMissing(s: string)
    ensures FeedbackSearch(s, 0).None? <==>
      match Find(s, 0, FeedbackLabel)
      case Some(f) => Find(s, f + |FeedbackLabel|, ScoreLine).None?
      case None => true
  {
    FeedbackSearchFirstLabel(s, 0);
    if Find(s, 0, FeedbackLabel).Some? {
      FeedbackMatchAtFinds(s, Find(s, 0, FeedbackLabel).value);
    }
  }

  /**
   * A blank feedback whose score line starts at the last whitespace character
   * after the label: `\s*` has taken that line break, so the group runs on to
   * the next `\nScore:` when there is one.
   */
  lemma BlankFeedbackRunsOn(s: string, f: nat, q: nat)
    requires Find(s, 0, FeedbackLabel) == Some(f)
    requires var body := f + |FeedbackLabel|;
      0 < LeadingSpaces(s[body..]) && At(s, body + LeadingSpaces(s[body..]) - 1, ScoreLine)
      && Find(s, body + LeadingSpaces(s[body..]), ScoreLine) == Some(q)
    ensures FeedbackOf(s) == Strip(s[f + |FeedbackLabel| + LeadingSpaces(s[f + |FeedbackLabel|..])..q])
  {
    FeedbackAfterSpaces(s, f, q);
  }

  /**
   * A blank feedback whose score line is the last `\nScore:` in the reply:
   * `\s*` gives that line break back, and the group is empty.
   */
  lemma BlankFeedbackEmpty(s: string, f: nat, q: nat)
    requires Find(s, 0, FeedbackLabel) == Some(f)
    requires Find(s, f + |FeedbackLabel|, ScoreLine) == Some(q)
    requires AllSpace(s[f + |FeedbackLabel|..q])
    requires Find(s, q + 1, ScoreLine).None?
    ensures FeedbackOf(s) == []
  {
    BlankGroupEmpty(s, f + |FeedbackLabel|, q);
    FeedbackOfFirstLabel(s, f, []);
  }

  lemma BlankGroupEmpty(s: string, body: nat, q: nat)
    requires body <= |s| && Find(s, body, ScoreLine) == Some(q)
    requires AllSpace(s[body..q]) && Find(s, q + 1, ScoreLine).None?
    ensures BacktrackSpaces(s, body, LeadingSpaces(s[body..])) == Some([])
  {
    BlankRunThroughBreak(s, body, q);
    FindLater(s, body, q, ScoreLine);
    GiveBackBreak(s, body, q, q + 1 - body);
  }

  /** Whitespace up to a score line, then that line's break, is the whole run `\s*` takes. */
  lemma BlankRunThroughBreak(s: string, body: nat, q: nat)
    requires body <= q && At(s, q, ScoreLine) && AllSpace(s[body..q])
    ensures LeadingSpaces(s[body..]) == q + 1 - body
  {
    SpacesThroughBreak(s, body, q);
    SuffixHalves(s, body, q + 1);
    LeadingSpacesAfter(s[body..q + 1], s[q + 1..]);
    ScoreLabelStopsSpaces(s, q);
  }

  lemma SpacesThroughBreak(s: string, body: nat, q: nat)
    requires body <= q && At(s, q, ScoreLine) && AllSpace(s[body..q])
    ensures AllSpace(s[body..q + 1])
  {
    assert s[q] == ScoreLine[0];
    assert s[body..q + 1] == s[body..q] + [s[q]];
    AllSpaceConcat(s[body..q], [s[q]]);
  }

  lemma SuffixHalves<T>(s: seq<T>, a: nat, m: nat)
    requires a <= m <= |s|
    ensures s[a..] == s[a..m] + s[m..]
  {
  }

  lemma ScoreLabelStopsSpaces(s: string, q: nat)
    requires At(s, q, ScoreLine)
    ensures LeadingSpaces(s[q + 1..]) == 0
  {
    assert s[q + 1..][0] == ScoreLine[1];
  }

  /** With no score line after the break, `\s*` gives the break back and the group is empty. */
  lemma GiveBackBreak(s: string, body: nat, q: nat, w: nat)
    requires body <= q && body + w == q + 1 && q < |s| && Find(s, q, ScoreLine) == Some(q) && Find(s, q + 1, ScoreLine).None?
    ensures BacktrackSpaces(s, body, w) == Some([])
  {
    assert LazyGroup(s, body + w) == None;
    assert LazyGroup(s, body + (w - 1)) == Some(s[q..q]);
    assert s[q..q] == [];
  }

  /** When a score line follows all the whitespace after the first label, the group starts after that whitespace. */
  lemma FeedbackAfterSpaces(s: string, f: nat, q: nat)
    requires Find(s, 0, FeedbackLabel) == Some(f)
    requires Find(s, f + |FeedbackLabel| + LeadingSpaces(s[f + |FeedbackLabel|..]), ScoreLine) == Some(q)
    ensures FeedbackOf(s) == Strip(s[f + |FeedbackLabel| + LeadingSpaces(s[f + |FeedbackLabel|..])..q])
  {
    MatchAtTaken(s, f, q);
    FeedbackOfMatch(s, f, s[f + |FeedbackLabel| + LeadingSpaces(s[f + |FeedbackLabel|..])..q]);
  }

  lemma MatchAtTaken(s: string, f: nat, q: nat)
    requires At(s, f, FeedbackLabel)
    requires Find(s, f + |FeedbackLabel| + LeadingSpaces(s[f + |FeedbackLabel|..]), ScoreLine) == Some(q)
    ensures FeedbackMatchAt(s, f) == Some(s[f + |FeedbackLabel| + LeadingSpaces(s[f + |FeedbackLabel|..])..q])
  {
    BacktrackSpacesTaken(s, f + |FeedbackLabel|, LeadingSpaces(s[f + |FeedbackLabel|..]), q);
  }

  /** The feedback is the stripped group of the match at the first label. */
  lemma FeedbackOfMatch(s: string, f: nat, g: string)
    requires Find(s, 0, FeedbackLabel) == Some(f) && FeedbackMatchAt(s, f) == Some(g)
    ensures FeedbackOf(s) == Strip(g)
  {
    FeedbackSearchFirstLabel(s, 0);
  }

  /** When a score line follows all the whitespace, `\s*` keeps every character it took. */
  lemma BacktrackSpacesTaken(s: string, body: nat, w: nat, q: nat)
    requires body + w <= |s| && Find(s, body + w, ScoreLine) == Some(q)
    ensures BacktrackSpaces(s, body, w) == Some(s[body + w..q])
  {
  }

  /** The feedback is the stripped group found after the first label. */
  lemma FeedbackOfFirstLabel(s: string, f: nat, g: string)
    requires Find(s, 0, FeedbackLabel) == Some(f) && f + |FeedbackLabel| <= |s|
    requires BacktrackSpaces(s, f + |FeedbackLabel|, LeadingSpaces(s[f + |FeedbackLabel|..])) == Some(g)
    ensures FeedbackOf(s) == Strip(g)
  {
    FeedbackSearchFirstLabel(s, 0);
  }

  // ---------------------------------------------------------------------------
  // Score:\s*(\d+)
  // ---------------------------------------------------------------------------

  /**
   * `\s*(\d+)` after the label ending at `body`, with `\s*` holding `w`
   * characters: the greedy digit run when a digit comes next; otherwise
   * `\s*` gives one character back and tries again.
   */
  function BacktrackDigits(s: string, body: nat, w: nat): (r: Option<string>)
    requires body + w <= |s|
    ensures r.Some? ==> r.value != [] && AllDigits(r.value)
    decreases w
  {
    var d := LeadingDigits(s[body + w..]);
    if d > 0 then
      assert s[body + w..body + w + d] == s[body + w..][..d];
      Some(s[body + w..body + w + d])
    else if w == 0 then None
    else BacktrackDigits(s, body, w - 1)
  }

  /** The digit group of a match that starts at `p`, if one does. */
  function ScoreMatchAt(s: string, p: nat): (r: Option<string>)
    requires p <= |s|
    ensures r.Some? ==> r.value != [] && AllDigits(r.value)
  {
    if At(s, p, ScoreLabel) then
      var body := p + |ScoreLabel|;
      BacktrackDigits(s, body, LeadingSpaces(s[body..]))
    else None
  }

  /** `re.search`: the match at the first start position, from `p` on, at which one exists. */
  function ScoreSearch(s: string, p: nat): (r: Option<string>)
    requires p <= |s|
    ensures r.Some? ==> r.value != [] && AllDigits(r.value)
    decreases |s| - p
  {
    var m := ScoreMatchAt(s, p);
    if m.Some? || p == |s| then m else ScoreSearch(s, p + 1)
  }

  /** `int(score_match.group(1)) if score_match else 0` */
  function ScoreOf(result: string): nat {
    match ScoreSearch(result, 0)
    case Some(ds) => DigitsValue(ds)
    case None => 0
  }

  /** Where the digits of a `Score:` at `p` must start: after all the whitespace behind the label. */
  function DigitsStart(s: string, p: nat): (d: nat)
    requires At(s, p, ScoreLabel)
    ensures p + |ScoreLabel| <= d <= |s|
  {
    p + |ScoreLabel| + LeadingSpaces(s[p + |ScoreLabel|..])
  }

  /** A `Score:` at `p` whose whitespace run is followed by a digit. */
  predicate ScoreAt(s: string, p: nat) {
    At(s, p, ScoreLabel) && DigitsStart(s, p) < |s| && IsDigit(s[DigitsStart(s, p)])
  }

  /** The digit run that follows the whitespace after a `Score:` at `p`. */
  function ScoreDigits(s: string, p: nat): (ds: string)
    requires ScoreAt(s, p)
    ensures ds != [] && AllDigits(ds)
  {
    var d := DigitsStart(s, p);
    assert s[d..][0] == s[d];
    assert s[d..d + LeadingDigits(s[d..])] == s[d..][..LeadingDigits(s[d..])];
    s[d..d + LeadingDigits(s[d..])]
  }

  /**
   * Giving back whitespace never helps `\d+`: a character `\s*` gives back is
   * whitespace, never a digit, so only the longest run can be followed by one.
   */
  lemma {:induction false} BacktrackDigitsLongest(s: string, body: nat, w: nat)
    requires body + w <= |s| && w <= LeadingSpaces(s[body..])
    ensures w < LeadingSpaces(s[body..]) ==> BacktrackDigits(s, body, w) == None
    ensures w == LeadingSpaces(s[body..]) && LeadingDigits(s[body + w..]) == 0 ==> BacktrackDigits(s, body, w) == None
    decreases w
  {
    if w < LeadingSpaces(s[body..]) {
      assert s[body + w..][0] == s[body..][..LeadingSpaces(s[body..])][w];
    }
    if w > 0 {
      BacktrackDigitsLongest(s, body, w - 1);
    }
  }

  /** A match starts at `p` exactly at a `Score:` followed by whitespace and a digit, and its group is the digit run there. */
  lemma ScoreMatchAtDigits(s: string, p: nat)
    requires p <= |s|
    ensures ScoreMatchAt(s, p) == if ScoreAt(s, p) then Some(ScoreDigits(s, p)) else None
  {
    if At(s, p, ScoreLabel) {
      DigitRunStart(s, DigitsStart(s, p));
      if LeadingDigits(s[DigitsStart(s, p)..]) > 0 {
        DigitsAfterSpaces(s, p);
      } else {
        NoDigitsAfterSpaces(s, p);
      }
    }
  }

  /** A `Score:` whose whitespace run is followed by a digit starts a match whose group is that digit run. */
  lemma DigitsAfterSpaces(s: string, p: nat)
    requires At(s, p, ScoreLabel) && LeadingDigits(s[DigitsStart(s, p)..]) > 0
    ensures ScoreMatchAt(s, p) == Some(s[DigitsStart(s, p)..DigitsStart(s, p) + LeadingDigits(s[DigitsStart(s, p)..])])
  {
    var body := p + |ScoreLabel|;
    var w := LeadingSpaces(s[body..]);
    assert DigitsStart(s, p) == body + w;
    assert ScoreMatchAt(s, p) == BacktrackDigits(s, body, w);
    BacktrackDigitsTaken(s, body, w);
  }

  /** A `Score:` whose whitespace run is not followed by a digit starts no match. */
  lemma NoDigitsAfterSpaces(s: string, p: nat)
    requires At(s, p, ScoreLabel) && LeadingDigits(s[DigitsStart(s, p)..]) == 0
    ensures ScoreMatchAt(s, p) == None
  {
    BacktrackDigitsLongest(s, p + |ScoreLabel|, LeadingSpaces(s[p + |ScoreLabel|..]));
  }

  /** A digit run starts at `d` exactly when a digit is there. */
  lemma DigitRunStart(s: string, d: nat)
    requires d <= |s|
    ensures LeadingDigits(s[d..]) > 0 <==> d < |s| && IsDigit(s[d])
  {
    if d < |s| {
      assert s[d..][0] == s[d];
    }
  }

  /** When a digit follows all the whitespace, the group is the whole digit run there. */
  lemma BacktrackDigitsTaken(s: string, body: nat, w: nat)
    requires body + w <= |s| && LeadingDigits(s[body + w..]) > 0
    ensures BacktrackDigits(s, body, w) == Some(s[body + w..body + w + LeadingDigits(s[body + w..])])
  {
  }

  /** The score comes from the first `Score:` followed by whitespace and a digit. */
  lemma {:induction false} ScoreSearchFirst(s: string, p: nat, i: nat)
    requires p <= i <= |s| && ScoreAt(s, i)
    requires forall j :: p <= j < i ==> !ScoreAt(s, j)
    ensures ScoreSearch(s, p) == Some(ScoreDigits(s, i))
    decreases i - p
  {
    ScoreMatchAtDigits(s, p);
    if p < i {
      ScoreSearchFirst(s, p + 1, i);
    }
  }

  /** Without a `Score:` followed by whitespace and a digit, the search finds nothing. */
  lemma {:induction false} ScoreSearchNone(s: string, p: nat)
    requires p <= |s|
    requires forall j :: p <= j <= |s| ==> !ScoreAt(s, j)
    ensures ScoreSearch(s, p) == None
    decreases |s| - p
  {
    ScoreMatchAtDigits(s, p);
    if p < |s| {
      ScoreSearchNone(s, p + 1);
    }
  }

  /**
   * The score is the value of the digits after the first `Score:` that has
   * digits behind its whitespace, and 0 when no `Score:` does.
   */
  lemma ScoreFromFirstMatch(s: string, i: nat)
    requires i <= |s| && ScoreAt(s, i)
    requires forall j :: 0 <= j < i ==> !ScoreAt(s, j)
    ensures ScoreOf(s) == DigitsValue(ScoreDigits(s, i))
  {
    ScoreSearchFirst(s, 0, i);
  }

  lemma ScoreDefault(s: string)
    requires forall j :: 0 <= j <= |s| ==> !ScoreAt(s, j)
    ensures ScoreOf(s) == 0
  {
    ScoreSearchNone(s, 0);
  }

  // ---------------------------------------------------------------------------
  // The whole reply
  // ---------------------------------------------------------------------------

  /** Lines 204-209: the reply is stripped, then both searches run on it. */
  function ParseEvaluation(reply: string): Verdict {
    var result := Strip(reply);
    Verdict(FeedbackOf(result), ScoreOf(result))
  }
  // ---------------------------------------------------------------------------
  // A reply in the requested format
  // ---------------------------------------------------------------------------

  /** `Feedback: <paragraph>` and `Score: <n>%` on the next line, as the evaluation prompt asks. */
  function Formatted(fb: string, n: nat): string {
    "Feedback: " + fb + ("\nScore: " + Decimal(n) + "%")
  }

  /** A `Score:` starting in the feedback line would have to lie inside the feedback. */
  lemma NoScoreLabelBefore(fb: string, tail: string, j: nat)
    requires !Occurs(ScoreLabel, fb) && tail != [] && tail[0] == '\n'
    requires j <= 10 + |fb|
    ensures !At("Feedback: " + fb + tail, j, ScoreLabel)
  {
    if j < 10 {
      NotAtInLabel(fb, tail, j);
    } else if j + 6 <= 10 + |fb| {
      NotAtInFeedback(fb, tail, j);
    } else {
      NotAtAcrossBreak("Feedback: " + fb, tail, j);
    }
  }

  lemma NotAtInLabel(b: string, c: string, j: nat)
    requires j < 10
    ensures !At("Feedback: " + b + c, j, ScoreLabel)
  {
    var s := "Feedback: " + b + c;
    assert s[j] == "Feedback: "[j];
    if j + 6 <= |s| {
      assert s[j..j + 6][0] == s[j];
    }
  }

  lemma NotAtInFeedback(fb: string, tail: string, j: nat)
    requires !Occurs(ScoreLabel, fb) && 10 <= j && j + 6 <= 10 + |fb|
    ensures !At("Feedback: " + fb + tail, j, ScoreLabel)
  {
    InsideMiddle("Feedback: ", fb, tail, j - 10, 6);
    assert !At(fb, j - 10, ScoreLabel);
  }

  lemma NotAtAcrossBreak(a: string, c: string, j: nat)
    requires c != [] && c[0] == '\n' && j <= |a| < j + 6
    ensures !At(a + c, j, ScoreLabel)
  {
    if j + 6 <= |a + c| {
      NewlineInside(a, c, j, 6);
    }
  }

  lemma InsideMiddle<T>(a: seq<T>, b: seq<T>, c: seq<T>, i: nat, k: nat)
    requires i + k <= |b|
    ensures (a + b + c)[|a| + i..|a| + i + k] == b[i..i + k]
  {
  }

  lemma NewlineInside(a: string, c: string, j: nat, k: nat)
    requires c != [] && c[0] == '\n' && j <= |a| < j + k <= |a| + |c|
    ensures (a + c)[j..j + k][|a| - j] == '\n'
  {
  }

  /** The first `\nScore:` after the label is the one that ends the feedback line. */
  lemma FormattedScoreLine(fb: string, n: nat)
    requires !Occurs(ScoreLabel, fb)
    ensures Find(Formatted(fb, n), |FeedbackLabel|, ScoreLine) == Some(10 + |fb|)
  {
    FormattedLineAt(fb, n);
    FormattedNoLineBefore(fb, n);
    FindFirst(Formatted(fb, n), |FeedbackLabel|, ScoreLine, 10 + |fb|);
  }

  lemma FormattedLineAt(fb: string, n: nat)
    ensures At(Formatted(fb, n), 10 + |fb|, ScoreLine)
  {
    var tail := "\nScore: " + Decimal(n) + "%";
    var s := Formatted(fb, n);
    assert s[10 + |fb|..10 + |fb| + 7] == tail[..7];
  }

  lemma FormattedNoLineBefore(fb: string, n: nat)
    requires !Occurs(ScoreLabel, fb)
    ensures forall p: nat :: |FeedbackLabel| <= p < 10 + |fb| ==> !At(Formatted(fb, n), p, ScoreLine)
  {
    var tail := "\nScore: " + Decimal(n) + "%";
    var s := Formatted(fb, n);
    forall p: nat | |FeedbackLabel| <= p < 10 + |fb| ensures !At(s, p, ScoreLine) {
      NoScoreLabelBefore(fb, tail, p + 1);
      if p + 7 <= |s| {
        assert s[p + 1..p + 7] == s[p..p + 7][1..];
      }
    }
  }

  /** The score of a formatted reply sits after its `\nScore: `, and no earlier `Score:` has digits. */
  lemma FormattedScore(fb: string, n: nat)
    requires !Occurs(ScoreLabel, fb)
    ensures ScoreOf(Formatted(fb, n)) == n
  {
    ScoreLineDigits("Feedback: " + fb, n);
    FormattedNoScoreBefore(fb, n);
    ScoreFromFirstMatch(Formatted(fb, n), 11 + |fb|);
    DigitsValueDecimal(n);
  }

  /** After any text, `\nScore: <n>%` puts a `Score:` with the digits of `n` behind it. */
  lemma ScoreLineDigits(pre: string, n: nat)
    ensures var s := pre + ("\nScore: " + Decimal(n) + "%");
      ScoreAt(s, |pre| + 1) && ScoreDigits(s, |pre| + 1) == Decimal(n)
  {
    ScoreLineShape(pre, n);
    SpaceThenDecimal(n);
    ScoreAtSingleSpace(pre + ("\nScore: " + Decimal(n) + "%"), |pre| + 1, |Decimal(n)|);
  }

  /** A `Score:` followed by one space and a run of `k` digits. */
  lemma ScoreAtSingleSpace(s: string, p: nat, k: nat)
    requires At(s, p, ScoreLabel) && LeadingSpaces(s[p + 6..]) == 1
    requires 0 < k && p + 7 + k <= |s| && LeadingDigits(s[p + 7..]) == k
    ensures ScoreAt(s, p) && ScoreDigits(s, p) == s[p + 7..p + 7 + k]
  {
    assert DigitsStart(s, p) == p + 7;
    DigitRunStart(s, p + 7);
  }

  lemma ScoreLineShape(pre: string, n: nat)
    ensures var s := pre + ("\nScore: " + Decimal(n) + "%");
      && At(s, |pre| + 1, ScoreLabel)
      && s[|pre| + 7..] == [' '] + (Decimal(n) + "%")
      && s[|pre| + 8..] == Decimal(n) + "%"
      && s[|pre| + 8] == Decimal(n)[0]
      && s[|pre| + 8..|pre| + 8 + |Decimal(n)|] == Decimal(n)
  {
    var tail := "\nScore: " + Decimal(n) + "%";
    var s := pre + tail;
    var i := |pre| + 1;
    assert s[i..i + 6] == tail[1..7];
    assert s[i + 6..] == [' '] + (Decimal(n) + "%");
    assert s[i + 7..] == Decimal(n) + "%";
    assert s[i + 7..i + 7 + |Decimal(n)|] == Decimal(n);
  }

  /** One space, then the digits of `n` and `%`: `\s*` takes the space and `\d+` all the digits. */
  lemma SpaceThenDecimal(n: nat)
    ensures LeadingSpaces([' '] + (Decimal(n) + "%")) == 1
    ensures LeadingDigits(Decimal(n) + "%") == |Decimal(n)|
  {
    var t := Decimal(n) + "%";
    LeadingSpacesAfter([' '], t);
    assert t[0] == Decimal(n)[0];
    DigitStopsSpaces(t);
    assert t == Decimal(n) + ['%'] + [];
    LeadingDigitsOf(Decimal(n), '%', []);
  }

  lemma DigitStopsSpaces(t: string)
    requires t != [] && IsDigit(t[0])
    ensures LeadingSpaces(t) == 0
  {
  }

  lemma FormattedNoScoreBefore(fb: string, n: nat)
    requires !Occurs(ScoreLabel, fb)
    ensures forall j :: 0 <= j < 11 + |fb| ==> !ScoreAt(Formatted(fb, n), j)
  {
    var tail := "\nScore: " + Decimal(n) + "%";
    forall j | 0 <= j < 11 + |fb| ensures !ScoreAt(Formatted(fb, n), j) {
      NoScoreLabelBefore(fb, tail, j);
    }
  }

  /** The feedback of a formatted reply is its paragraph. */
  lemma FormattedFeedback(fb: string, n: nat)
    requires IsStripped(fb) && !Occurs(ScoreLabel, fb)
    ensures FeedbackOf(Formatted(fb, n)) == fb
  {
    if fb == [] {
      FormattedBlankFeedback(n);
    } else {
      FormattedParagraph(fb, n);
    }
  }

  /** An empty paragraph: its score line is the only one, so `\s*` gives the break back. */
  lemma FormattedBlankFeedback(n: nat)
    ensures FeedbackOf(Formatted([], n)) == []
  {
    var s := Formatted([], n);
    FormattedFeedbackSpan([], n);
    FormattedScoreLine([], n);
    assert AllSpace(s[|FeedbackLabel|..10]) by {
      assert s[|FeedbackLabel|..10] == " ";
    }
    FormattedTailOneLine(n);
    NoBreakNoScoreLine(s, 11);
    BlankFeedbackEmpty(s, 0, 10);
  }

  /** Past the line break, a formatted reply with an empty paragraph has no other line break. */
  lemma FormattedTailOneLine(n: nat)
    ensures forall k :: 11 <= k < |Formatted([], n)| ==> Formatted([], n)[k] != '\n'
  {
    var s := Formatted([], n);
    var tail := "\nScore: " + Decimal(n) + "%";
    assert s == ("Feedback: " + []) + tail;
    assert |"Feedback: " + []| == 10;
    forall k | 11 <= k < |s| ensures s[k] != '\n' {
      assert s[k] == tail[k - 10];
      if 18 <= k < 18 + |Decimal(n)| {
        assert tail[k - 10] == Decimal(n)[k - 18];
      }
    }
  }

  /** Text without a line break from `from` on holds no `\nScore:` there. */
  lemma NoBreakNoScoreLine(s: string, from: nat)
    requires from <= |s| && forall k :: from <= k < |s| ==> s[k] != '\n'
    ensures Find(s, from, ScoreLine).None?
  {
    forall p: nat | from <= p ensures !At(s, p, ScoreLine) {
      if p + 7 <= |s| {
        assert s[p..p + 7][0] == s[p];
      }
    }
  }

  /** A paragraph that is not empty. */
  lemma FormattedParagraph(fb: string, n: nat)
    requires fb != [] && IsStripped(fb) && !Occurs(ScoreLabel, fb)
    ensures FeedbackOf(Formatted(fb, n)) == fb
  {
    var s := Formatted(fb, n);
    FormattedFeedbackSpan(fb, n);
    FormattedScoreLine(fb, n);
    assert !IsSpace((" " + fb)[1]);
    FeedbackBetweenLabels(s, 0, 10 + |fb|);
    StripPadding(" ", fb, []);
    assert " " + fb + [] == " " + fb;
  }

  lemma FormattedFeedbackSpan(fb: string, n: nat)
    ensures Find(Formatted(fb, n), 0, FeedbackLabel) == Some(0)
    ensures Formatted(fb, n)[|FeedbackLabel|..10 + |fb|] == " " + fb
  {
    var s := Formatted(fb, n);
    assert s[..9] == FeedbackLabel;
    assert s[|FeedbackLabel|..10 + |fb|] == " " + fb;
  }

  /**
   * A reply in exactly the requested format, with a one-paragraph feedback
   * that does not itself hold `Score:`, is read back as that feedback and score.
   */
  lemma ParseFormatted(fb: string, n: nat)
    requires IsStripped(fb) && !Occurs(ScoreLabel, fb)
    ensures ParseEvaluation(Formatted(fb, n)) == Verdict(fb, n)
  {
    FormattedStripped(fb, n);
    FormattedFeedback(fb, n);
    FormattedScore(fb, n);
  }

  /** A formatted reply starts with `F` and ends with `%`, so stripping keeps it whole. */
  lemma FormattedStripped(fb: string, n: nat)
    ensures Strip(Formatted(fb, n)) == Formatted(fb, n)
  {
    var s := Formatted(fb, n);
    assert IsStripped(s) by {
      assert s[0] == 'F' && s[|s| - 1] == '%';
    }
    StripPadding([], s, []);
    assert [] + s + [] == s;
  }

  /** The reply `Feedback: Good effort overall.` / `Score: 75%` gives that feedback and 75. */
  lemma GoodEffortExample()
    ensures ParseEvaluation("Feedback: Good effort overall.\nScore: 75%") == Verdict("Good effort overall.", 75)
  {
    var fb := "Good effort overall.";
    GoodEffortReply();
    NoInitialNoOccurrence(ScoreLabel, fb);
    ParseFormatted(fb, 75);
  }

  lemma GoodEffortReply()
    ensures Formatted("Good effort overall.", 75) == "Feedback: Good effort overall.\nScore: 75%"
  {
    DecimalSeventyFive();
    GoodEffortPieces();
  }

  lemma GoodEffortPieces()
    ensures "Feedback: " + "Good effort overall." + ("\nScore: " + "75" + "%") == "Feedback: Good effort overall.\nScore: 75%"
  {
    assert "\nScore: " + "75" + "%" == "\nScore: 75%";
    assert "Feedback: " + "Good effort overall." == "Feedback: Good effort overall.";
  }

  lemma DecimalSeventyFive()
    ensures Decimal(75) == "75"
  {
    assert Decimal(7) == "7";
  }

  /** A text without the first character of a pattern does not contain the pattern. */
  lemma NoInitialNoOccurrence(pat: string, s: string)
    requires pat != [] && pat[0] !in s
    ensures !Occurs(pat, s)
  {
    forall p: nat | p <= |s| ensures !At(s, p, pat) {
      if p + |pat| <= |s| {
        assert s[p..p + |pat|][0] == s[p];
      }
    }
  }
}
