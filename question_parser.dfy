/**
 * The question-reply parser `parse_questions`: the model's reply is cut at
 * every `Q<digits>:` marker, the text before the first marker is dropped, and
 * every block that strips to three or more lines becomes a question record
 * built from its first three lines.
 */
module QuestionParser {
  import opened Options
  import opened Strings

  datatype QuestionRecord = QuestionRecord(question: string, sampleAnswer: string, keyPoints: string)

  // ---------------------------------------------------------------------------
  // re.split(r'Q\d+:', reply)
  // ---------------------------------------------------------------------------

  /** `Q`, one or more digits, `:` — one match of the pattern `Q\d+:`. */
  predicate IsMarker(t: string) {
    |t| >= 3 && t[0] == 'Q' && t[|t| - 1] == ':' && AllDigits(t[1..|t| - 1])
  }

  /** The length of the marker that starts `s`, or 0 when `s` does not start with one. */
  function MarkerLength(s: string): (m: nat)
    ensures m == 0 || (3 <= m <= |s| && IsMarker(s[..m]))
  {
    if s != [] && s[0] == 'Q' then
      var d := LeadingDigits(s[1..]);
      if 0 < d && d + 1 < |s| && s[d + 1] == ':' then
        assert s[..d + 2][1..d + 1] == s[1..][..d];
        d + 2
      else 0
    else 0
  }

  /** A marker that starts `s` is the one `MarkerLength` measures: no other prefix is a marker. */
  lemma MarkerLengthExact(s: string, j: nat)
    requires j <= |s| && IsMarker(s[..j])
    ensures MarkerLength(s) == j
  {
    var t := s[..j];
    var d := LeadingDigits(s[1..]);
    assert forall k :: 1 <= k < j - 1 ==> s[k] == t[1..j - 1][k - 1];
    assert d == j - 2;
  }

  /** A marker found at the start of a prefix of `s` is also the marker that starts `s`. */
  lemma MarkerLengthPrefix(u: string, s: string)
    requires u <= s && MarkerLength(u) > 0
    ensures MarkerLength(s) == MarkerLength(u)
  {
    var m := MarkerLength(u);
    assert s[..m] == u[..m];
    MarkerLengthExact(s, m);
  }

  /** A marker never spans a line break. */
  lemma MarkerHasNoNewline(t: string)
    requires IsMarker(t)
    ensures '\n' !in t
  {
    forall i | 0 < i < |t| - 1 ensures t[i] != '\n' {
      assert t[i] == t[1..|t| - 1][i - 1];
    }
  }

  /** No marker starts anywhere inside `t`. */
  predicate MarkerFree(t: string) {
    forall k :: 0 <= k < |t| ==> MarkerLength(t[k..]) == 0
  }

  datatype Section = Section(marker: string, block: string)

  /** A reply cut at its markers: the text before the first marker, then each marker with the block after it. */
  datatype Pieces = Pieces(preamble: string, sections: seq<Section>)

  /**
   * `re.split(r'Q\d+:', s)`, scanning left to right and cutting at each
   * marker found; each marker is kept beside the block that follows it.
   */
  function SplitOnMarkers(s: string): (p: Pieces)
    ensures forall k :: 0 <= k < |p.sections| ==> IsMarker(p.sections[k].marker)
    decreases |s|
  {
    if s == [] then Pieces([], [])
    else
      var m := MarkerLength(s);
      if m > 0 then
        var rest := SplitOnMarkers(s[m..]);
        Pieces([], [Section(s[..m], rest.preamble)] + rest.sections)
      else
        var rest := SplitOnMarkers(s[1..]);
        Pieces([s[0]] + rest.preamble, rest.sections)
  }

  function Concat(sections: seq<Section>): string {
    if sections == [] then [] else sections[0].marker + sections[0].block + Concat(sections[1..])
  }

  function Rejoin(p: Pieces): string {
    p.preamble + Concat(p.sections)
  }

  /** Splitting loses nothing: the pieces and markers, put back together, are the reply. */
  lemma {:induction false} RejoinSplit(s: string)
    ensures Rejoin(SplitOnMarkers(s)) == s
    decreases |s|
  {
    if s != [] {
      var m := MarkerLength(s);
      if m > 0 {
        RejoinSplit(s[m..]);
        SliceHalves(s, m);
        RejoinAfterMarker(s[..m], s[m..]);
      } else {
        RejoinSplit(s[1..]);
        SliceHalves(s, 1);
        assert s[..1] == [s[0]];
        RejoinAfterChar(s[0], s[1..]);
      }
    }
  }

  lemma SliceHalves<T>(s: seq<T>, m: nat)
    requires m <= |s|
    ensures s[..m] + s[m..] == s
  {
  }

  lemma RejoinAfterMarker(marker: string, t: string)
    requires marker != [] && MarkerLength(marker + t) == |marker|
    requires Rejoin(SplitOnMarkers(t)) == t
    ensures Rejoin(SplitOnMarkers(marker + t)) == marker + t
  {
    SplitAtMarker(marker, t);
    RejoinCons(SplitOnMarkers(marker + t), marker, SplitOnMarkers(t));
  }

  lemma RejoinCons(p: Pieces, marker: string, rest: Pieces)
    requires p == Pieces([], [Section(marker, rest.preamble)] + rest.sections)
    ensures Rejoin(p) == marker + Rejoin(rest)
  {
    ConcatCons(marker, rest.preamble, rest.sections);
  }

  /** One unfolding of `SplitOnMarkers` at a marker. */
  lemma SplitAtMarker(marker: string, t: string)
    requires marker != [] && MarkerLength(marker + t) == |marker|
    ensures SplitOnMarkers(marker + t)
         == Pieces([], [Section(marker, SplitOnMarkers(t).preamble)] + SplitOnMarkers(t).sections)
  {
    var s := marker + t;
    assert s[..|marker|] == marker && s[|marker|..] == t;
  }

  lemma ConcatCons(marker: string, block: string, sections: seq<Section>)
    ensures Concat([Section(marker, block)] + sections) == marker + block + Concat(sections)
  {
    assert ([Section(marker, block)] + sections)[1..] == sections;
  }

  lemma RejoinAfterChar(c: char, t: string)
    requires MarkerLength([c] + t) == 0
    requires Rejoin(SplitOnMarkers(t)) == t
    ensures Rejoin(SplitOnMarkers([c] + t)) == [c] + t
  {
    var s := [c] + t;
    assert s[1..] == t;
    assert s[0] == c;
  }

  /** The cuts are at every marker: no marker starts inside the preamble or inside a block. */
  lemma {:induction false} SplitPiecesMarkerFree(s: string)
    ensures MarkerFree(SplitOnMarkers(s).preamble)
    ensures forall k :: 0 <= k < |SplitOnMarkers(s).sections| ==> MarkerFree(SplitOnMarkers(s).sections[k].block)
    decreases |s|
  {
    if s != [] {
      var m := MarkerLength(s);
      if m > 0 {
        SplitPiecesMarkerFree(s[m..]);
        BlocksMarkerFreeAfterMarker(SplitOnMarkers(s), SplitOnMarkers(s[m..]), s[..m]);
      } else {
        SplitPiecesMarkerFree(s[1..]);
        RejoinSplit(s[1..]);
        PreambleMarkerFreeStep(s, SplitOnMarkers(s[1..]));
      }
    }
  }

  lemma PreambleMarkerFreeStep(s: string, rest: Pieces)
    requires s != [] && MarkerLength(s) == 0
    requires s[1..] == rest.preamble + Concat(rest.sections) && MarkerFree(rest.preamble)
    ensures MarkerFree([s[0]] + rest.preamble)
  {
    assert s == [s[0]] + s[1..];
    PreambleMarkerFreeAfterChar(s[0], rest.preamble, Concat(rest.sections));
  }

  lemma BlocksMarkerFreeAfterMarker(p: Pieces, rest: Pieces, marker: string)
    requires p == Pieces([], [Section(marker, rest.preamble)] + rest.sections)
    requires MarkerFree(rest.preamble)
    requires forall k :: 0 <= k < |rest.sections| ==> MarkerFree(rest.sections[k].block)
    ensures MarkerFree(p.preamble)
    ensures forall k :: 0 <= k < |p.sections| ==> MarkerFree(p.sections[k].block)
  {
    assert forall k :: 1 <= k < |p.sections| ==> p.sections[k] == rest.sections[k - 1];
  }

  /** A character at which no marker starts keeps a marker-free preamble marker-free. */
  lemma PreambleMarkerFreeAfterChar(c: char, pre: string, tail: string)
    requires MarkerLength([c] + (pre + tail)) == 0 && MarkerFree(pre)
    ensures MarkerFree([c] + pre)
  {
    var p := [c] + pre;
    forall k | 0 <= k < |p| ensures MarkerLength(p[k..]) == 0 {
      if k == 0 {
        assert p[0..] == p;
        if MarkerLength(p) > 0 {
          assert p <= [c] + (pre + tail);
          MarkerLengthPrefix(p, [c] + (pre + tail));
        }
      } else {
        assert p[k..] == pre[k - 1..];
      }
    }
  }

  /** Text in which no marker starts is carried whole into the preamble. */
  lemma {:induction false} SplitSkip(t: string, u: string)
    requires forall k :: 0 <= k < |t| ==> MarkerLength((t + u)[k..]) == 0
    ensures SplitOnMarkers(t + u) == Pieces(t + SplitOnMarkers(u).preamble, SplitOnMarkers(u).sections)
    decreases |t|
  {
    if t == [] {
      assert t + u == u;
    } else {
      SkipStep(t, u, SplitOnMarkers(u).preamble);
      SplitSkip(t[1..], u);
    }
  }

  /** One character of `SplitSkip`: no marker at the front, and the rest still free of markers. */
  lemma SkipStep(t: string, u: string, pre: string)
    requires t != []
    requires forall k :: 0 <= k < |t| ==> MarkerLength((t + u)[k..]) == 0
    ensures MarkerLength(t + u) == 0 && (t + u)[1..] == t[1..] + u
    ensures forall k :: 0 <= k < |t| - 1 ==> MarkerLength((t[1..] + u)[k..]) == 0
    ensures [(t + u)[0]] + (t[1..] + pre) == t + pre
  {
    var s := t + u;
    assert s[0..] == s;
    assert s[1..] == t[1..] + u;
    forall k | 0 <= k < |t| - 1 ensures MarkerLength((t[1..] + u)[k..]) == 0 {
      assert (t[1..] + u)[k..] == s[k + 1..];
    }
    assert [s[0]] + (t[1..] + pre) == t + pre;
  }

  // ---------------------------------------------------------------------------
  // The blocks and the records built from them
  // ---------------------------------------------------------------------------

  /** `re.split(r'Q\d+:', reply)[1:]`: the text after each marker, up to the next one. */
  function Blocks(reply: string): (bs: seq<string>)
    ensures |bs| == |SplitOnMarkers(reply).sections|
  {
    var p := SplitOnMarkers(reply);
    seq(|p.sections|, k requires 0 <= k < |p.sections| => p.sections[k].block)
  }

  /** `block.strip().split("\n")`. */
  function BlockLines(block: string): seq<string> {
    Split(Strip(block), '\n')
  }

  /** The `len(lines) >= 3` test: blank lines count. */
  predicate Accepts(block: string) {
    |BlockLines(block)| >= 3
  }

  /** The sample-answer tag `"A" + str(n) + ":"`. */
  function AnswerTag(n: nat): string {
    "A" + Decimal(n) + ":"
  }

  const KeyPointsTag: string := "Key Points:"

  /** Stripped and on one line. */
  predicate Clean(t: string) {
    IsStripped(t) && '\n' !in t
  }

  predicate CleanRecord(r: QuestionRecord) {
    Clean(r.question) && Clean(r.sampleAnswer) && Clean(r.keyPoints)
  }

  /**
   * The record for the block at position `i` among all blocks, dropped ones
   * included: line 0 stripped, line 1 without `A<i+1>:`, line 2 without
   * `Key Points:`, each stripped. Lines after the third play no part.
   */
  function RecordOf(block: string, i: nat): (r: QuestionRecord)
    requires Accepts(block)
    ensures CleanRecord(r)
  {
    var lines := BlockLines(block);
    QuestionRecord(
      Strip(lines[0]),
      Strip(RemoveAll(lines[1], AnswerTag(i + 1))),
      Strip(RemoveAll(lines[2], KeyPointsTag)))
  }

  /** Lines after the third play no part: blocks whose first three lines agree give the same record. */
  lemma RecordOfFirstThreeLines(block: string, block': string, i: nat)
    requires Accepts(block) && Accepts(block')
    requires BlockLines(block)[..3] == BlockLines(block')[..3]
    ensures RecordOf(block, i) == RecordOf(block', i)
  {
    var lines, lines' := BlockLines(block), BlockLines(block');
    assert lines[0] == lines[..3][0] && lines[1] == lines[..3][1] && lines[2] == lines[..3][2];
    assert lines'[0] == lines'[..3][0] && lines'[1] == lines'[..3][1] && lines'[2] == lines'[..3][2];
  }

  /** The record the loop builds for the block at position `i`, or nothing when the block is dropped. */
  function Candidate(block: string, i: nat): Option<QuestionRecord> {
    if Accepts(block) then Some(RecordOf(block, i)) else None
  }

  function Candidates(blocks: seq<string>): (cs: seq<Option<QuestionRecord>>)
    ensures |cs| == |blocks|
  {
    seq(|blocks|, k requires 0 <= k < |blocks| => Candidate(blocks[k], k))
  }

  /** The values present in `xs`, in order: what a loop appending each present value collects. */
  function Present<T>(xs: seq<Option<T>>): (ys: seq<T>)
    ensures |ys| <= |xs|
  {
    if xs == [] then []
    else
      var n := |xs| - 1;
      Present(xs[..n]) + if xs[n].Some? then [xs[n].value] else []
  }

  /** What `parse_questions` returns for `reply`. */
  function Parse(reply: string): seq<QuestionRecord> {
    Present(Candidates(Blocks(reply)))
  }

  /** Collecting one more element appends its value when it has one. */
  lemma PresentSnoc<T>(xs: seq<Option<T>>, i: nat)
    requires i < |xs|
    ensures Present(xs[..i + 1]) == Present(xs[..i]) + if xs[i].Some? then [xs[i].value] else []
  {
    assert xs[..i + 1][..i] == xs[..i];
  }

  /** `parse_questions`: the loop over the blocks that appends one record per accepted block. */
  method ParseQuestions(reply: string) returns (questions: seq<QuestionRecord>)
    ensures questions == Parse(reply)
  {
    var blocks := Blocks(reply);
    ghost var candidates := Candidates(blocks);
    questions := [];
    var i := 0;
    while i < |blocks|
      invariant i <= |blocks|
      invariant questions == Present(candidates[..i])
    {
      var lines := Split(Strip(blocks[i]), '\n');
      PresentSnoc(candidates, i);
      if |lines| >= 3 {
        var question := Strip(lines[0]);
        var sampleAnswer := Strip(RemoveAll(lines[1], "A" + Decimal(i + 1) + ":"));
        var keyPoints := Strip(RemoveAll(lines[2], "Key Points:"));
        questions := questions + [QuestionRecord(question, sampleAnswer, keyPoints)];
      }
      i := i + 1;
    }
    assert candidates[..i] == candidates;
  }

  // ---------------------------------------------------------------------------
  // Which blocks become records, and in what order
  // ---------------------------------------------------------------------------

  /** The positions of the present values, in increasing order. */
  function PresentIndices<T>(xs: seq<Option<T>>): (idx: seq<nat>)
    ensures forall k :: 0 <= k < |idx| ==> idx[k] < |xs| && xs[idx[k]].Some?
    ensures forall k, l :: 0 <= k < l < |idx| ==> idx[k] < idx[l]
    ensures forall j :: 0 <= j < |xs| && xs[j].Some? ==> j in idx
  {
    if xs == [] then []
    else
      var n := |xs| - 1;
      assert forall j :: 0 <= j < n ==> xs[..n][j] == xs[j];
      PresentIndices(xs[..n]) + if xs[n].Some? then [n] else []
  }

  lemma {:induction false} PresentFollowsIndices<T>(xs: seq<Option<T>>)
    ensures |Present(xs)| == |PresentIndices(xs)|
    ensures forall k :: 0 <= k < |Present(xs)| ==> Present(xs)[k] == xs[PresentIndices(xs)[k]].value
  {
    if xs != [] {
      var n := |xs| - 1;
      PresentFollowsIndices(xs[..n]);
      FollowsSnoc(xs, Present(xs[..n]), PresentIndices(xs[..n]));
    }
  }

  lemma FollowsSnoc<T>(xs: seq<Option<T>>, ys: seq<T>, idx: seq<nat>)
    requires xs != [] && |ys| == |idx|
    requires forall k :: 0 <= k < |ys| ==> idx[k] < |xs| - 1 && xs[..|xs| - 1][idx[k]].Some? && ys[k] == xs[..|xs| - 1][idx[k]].value
    ensures var n := |xs| - 1;
      var ys' := ys + if xs[n].Some? then [xs[n].value] else [];
      var idx' := idx + if xs[n].Some? then [n] else [];
      |ys'| == |idx'| && forall k :: 0 <= k < |ys'| ==> idx'[k] < |xs| && xs[idx'[k]].Some? && ys'[k] == xs[idx'[k]].value
  {
  }

  /** When every value is present, all of them are collected, in place. */
  lemma {:induction false} PresentAll<T>(xs: seq<Option<T>>)
    requires forall k :: 0 <= k < |xs| ==> xs[k].Some?
    ensures |Present(xs)| == |xs|
    ensures forall k :: 0 <= k < |xs| ==> Present(xs)[k] == xs[k].value
  {
    if xs != [] {
      var n := |xs| - 1;
      assert forall j :: 0 <= j < n ==> xs[..n][j] == xs[j];
      PresentAll(xs[..n]);
    }
  }

  /** The positions of the accepted blocks of `reply`, in marker order. */
  function AcceptedIndices(reply: string): (idx: seq<nat>)
    ensures forall k :: 0 <= k < |idx| ==> idx[k] < |Blocks(reply)| && Accepts(Blocks(reply)[idx[k]])
    ensures forall k, l :: 0 <= k < l < |idx| ==> idx[k] < idx[l]
    ensures forall j :: 0 <= j < |Blocks(reply)| && Accepts(Blocks(reply)[j]) ==> j in idx
  {
    PresentIndices(Candidates(Blocks(reply)))
  }

  /**
   * The records are exactly the accepted blocks, in marker order, each built
   * from its own block and numbered by its position among all the blocks; there
   * are never more records than markers.
   */
  lemma ParseFollowsMarkers(reply: string)
    ensures |Parse(reply)| == |AcceptedIndices(reply)| <= |SplitOnMarkers(reply).sections|
    ensures forall k :: 0 <= k < |Parse(reply)| ==>
      Parse(reply)[k] == RecordOf(Blocks(reply)[AcceptedIndices(reply)[k]], AcceptedIndices(reply)[k])
  {
    PresentFollowsIndices(Candidates(Blocks(reply)));
  }

  /** Every field of every record is stripped and on one line. */
  lemma ParseClean(reply: string)
    ensures forall k :: 0 <= k < |Parse(reply)| ==> CleanRecord(Parse(reply)[k])
  {
    ParseFollowsMarkers(reply);
  }

  /** Text in which no marker starts is all preamble. */
  lemma {:induction false} SplitMarkerFree(t: string)
    requires MarkerFree(t)
    ensures SplitOnMarkers(t) == Pieces(t, [])
    decreases |t|
  {
    if t != [] {
      assert t[0..] == t;
      forall k | 0 <= k < |t| - 1 ensures MarkerLength(t[1..][k..]) == 0 {
        assert t[1..][k..] == t[k + 1..];
      }
      SplitMarkerFree(t[1..]);
      assert [t[0]] + t[1..] == t;
    }
  }

  /** Without sections, the whole reply is the preamble, in which no marker starts. */
  lemma NoSectionsMarkerFree(reply: string)
    requires SplitOnMarkers(reply).sections == []
    ensures MarkerFree(reply)
  {
    RejoinSplit(reply);
    SplitPiecesMarkerFree(reply);
    PreambleOnly(SplitOnMarkers(reply), reply);
  }

  lemma PreambleOnly(p: Pieces, reply: string)
    requires p.sections == [] && Rejoin(p) == reply && MarkerFree(p.preamble)
    ensures MarkerFree(reply)
  {
    assert Concat(p.sections) == [];
    assert p.preamble + [] == p.preamble;
  }

  /** A reply has blocks exactly when a marker occurs in it. */
  lemma BlocksIffMarker(reply: string)
    ensures Blocks(reply) == [] <==> MarkerFree(reply)
  {
    if MarkerFree(reply) {
      SplitMarkerFree(reply);
    }
    if Blocks(reply) == [] {
      NoSectionsMarkerFree(reply);
    }
  }

  /** A reply without a marker yields no question at all. */
  lemma ParseWithoutMarkers(reply: string)
    requires MarkerFree(reply)
    ensures Parse(reply) == []
  {
    BlocksIffMarker(reply);
  }

  // ---------------------------------------------------------------------------
  // Round trip: a reply written in the layout the generation prompt asks for
  // ---------------------------------------------------------------------------

  function MarkerText(n: nat): string {
    "Q" + Decimal(n) + ":"
  }

  function AnswerLine(r: QuestionRecord, n: nat): string {
    AnswerTag(n) + " " + r.sampleAnswer
  }

  function KeyPointsLine(r: QuestionRecord): string {
    KeyPointsTag + " " + r.keyPoints
  }

  /** The three lines of question `n` in the requested layout. */
  function RecordLines(r: QuestionRecord, n: nat): seq<string> {
    [r.question, AnswerLine(r, n), KeyPointsLine(r)]
  }

  /** The lines of question `n` after its marker and a space. */
  function BlockBody(r: QuestionRecord, n: nat): string {
    " " + Join(RecordLines(r, n), '\n')
  }

  /** The block of question `n`: its three lines and the line break that ends the last one. */
  function BlockText(r: QuestionRecord, n: nat): string {
    BlockBody(r, n) + "\n"
  }

  function RenderFrom(rs: seq<QuestionRecord>, n: nat): string {
    if rs == [] then [] else MarkerText(n) + (BlockText(rs[0], n) + RenderFrom(rs[1..], n + 1))
  }

  /** A reply listing `rs` as `Q1:`/`A1:`/`Key Points:` lines, numbered from 1. */
  function Render(rs: seq<QuestionRecord>): string {
    RenderFrom(rs, 1)
  }

  function RenderedSections(rs: seq<QuestionRecord>, n: nat): seq<Section> {
    if rs == [] then [] else [Section(MarkerText(n), BlockText(rs[0], n))] + RenderedSections(rs[1..], n + 1)
  }

  /**
   * A record that survives being written out as question `n`: its fields are
   * clean, the question and key points are not empty, no field holds a
   * marker, and neither tag occurs in the field it is removed from. Empty key
   * points would also read back, but their line loses its trailing space when
   * the block is stripped, so the block would not split into the written
   * lines; they are left out to keep one shape of block.
   */
  predicate WellFormed(r: QuestionRecord, n: nat) {
    && CleanRecord(r) && r.question != [] && r.keyPoints != []
    && MarkerFree(r.question) && MarkerFree(r.sampleAnswer) && MarkerFree(r.keyPoints)
    && !Occurs(AnswerTag(n), r.sampleAnswer) && !Occurs(KeyPointsTag, r.keyPoints)
  }

  /** A line break shields what follows it: no marker starts in `a` or at the break. */
  lemma NewlineShields(a: string, u: string)
    requires MarkerFree(a)
    ensures forall k :: 0 <= k <= |a| ==> MarkerLength((a + "\n" + u)[k..]) == 0
  {
    forall k | 0 <= k <= |a| ensures MarkerLength((a + "\n" + u)[k..]) == 0 {
      var s := (a + "\n" + u)[k..];
      var m := MarkerLength(s);
      assert s[|a| - k] == '\n';
      if m > 0 {
        MarkerHasNoNewline(s[..m]);
        assert m <= |a| - k;
        assert a[k..][..m] == s[..m];
        MarkerLengthExact(a[k..], m);
      }
    }
  }

  lemma MarkerFreeLines(a: string, b: string)
    requires MarkerFree(a) && MarkerFree(b)
    ensures MarkerFree(a + "\n" + b)
  {
    NewlineShields(a, b);
    var s := a + "\n" + b;
    forall k | |a| < k < |s| ensures MarkerLength(s[k..]) == 0 {
      assert s[k..] == b[k - |a| - 1..];
    }
  }

  lemma MarkerFreeAfterPlain(x: string, y: string)
    requires 'Q' !in x && MarkerFree(y)
    ensures MarkerFree(x + y)
  {
    var s := x + y;
    forall k | 0 <= k < |s| ensures MarkerLength(s[k..]) == 0 {
      if k < |x| {
        assert s[k..][0] == x[k];
      } else {
        assert s[k..] == y[k - |x|..];
      }
    }
  }

  /** A rendered reply starts with the marker of its first question. */
  lemma MarkerTextStarts(n: nat, t: string)
    ensures MarkerLength(MarkerText(n) + t) == |MarkerText(n)|
  {
    var marker := MarkerText(n);
    var s := marker + t;
    assert s[..|marker|] == marker;
    assert marker[1..|marker| - 1] == Decimal(n);
    MarkerLengthExact(s, |marker|);
  }

  /** The three lines, joined, are the first, a line break, the second, a line break, the third. */
  lemma JoinRecordLines(r: QuestionRecord, n: nat)
    ensures Join(RecordLines(r, n), '\n') == r.question + "\n" + (AnswerLine(r, n) + "\n" + KeyPointsLine(r))
  {
    var lines := RecordLines(r, n);
    assert lines[1..] == [AnswerLine(r, n), KeyPointsLine(r)];
    assert lines[1..][1..] == [KeyPointsLine(r)];
    assert Join(lines[1..], '\n') == AnswerLine(r, n) + "\n" + KeyPointsLine(r);
  }

  /** No marker starts inside the lines of a well-formed record. */
  lemma BlockBodyMarkerFree(r: QuestionRecord, n: nat)
    requires WellFormed(r, n)
    ensures MarkerFree(BlockBody(r, n))
  {
    assert 'Q' !in AnswerTag(n) + " " by {
      assert forall i :: 0 < i < |Decimal(n)| + 1 ==> AnswerTag(n)[i] == Decimal(n)[i - 1];
    }
    MarkerFreeAfterPlain(AnswerTag(n) + " ", r.sampleAnswer);
    assert 'Q' !in KeyPointsTag + " ";
    MarkerFreeAfterPlain(KeyPointsTag + " ", r.keyPoints);
    MarkerFreeLines(AnswerLine(r, n), KeyPointsLine(r));
    MarkerFreeLines(r.question, AnswerLine(r, n) + "\n" + KeyPointsLine(r));
    JoinRecordLines(r, n);
    MarkerFreeAfterPlain(" ", Join(RecordLines(r, n), '\n'));
  }

  /** The whole block of a well-formed record is carried into the text before the next marker. */
  lemma SplitAfterBlock(r: QuestionRecord, n: nat, rest: string)
    requires WellFormed(r, n)
    ensures SplitOnMarkers(BlockText(r, n) + rest)
         == Pieces(BlockText(r, n) + SplitOnMarkers(rest).preamble, SplitOnMarkers(rest).sections)
  {
    var body := BlockBody(r, n);
    BlockBodyMarkerFree(r, n);
    NewlineShields(body, rest);
    assert BlockText(r, n) + rest == body + "\n" + rest;
    SplitSkip(BlockText(r, n), rest);
  }

  /** The markers of a rendered reply are `Q1:`, `Q2:`, ... and the blocks are the rendered blocks. */
  lemma {:induction false} SplitRender(rs: seq<QuestionRecord>, n: nat)
    requires forall k :: 0 <= k < |rs| ==> WellFormed(rs[k], n + k)
    ensures SplitOnMarkers(RenderFrom(rs, n)) == Pieces([], RenderedSections(rs, n))
  {
    if rs != [] {
      var tail, m := rs[1..], n + 1;
      assert forall k :: 0 <= k < |tail| ==> tail[k] == rs[k + 1];
      SplitRender(tail, m);
      assert WellFormed(rs[0], n + 0);
      SplitRenderStep(rs, n, tail, m);
    }
  }

  /** One step of `SplitRender`: the first block in front of the rest. */
  lemma SplitRenderStep(rs: seq<QuestionRecord>, n: nat, tail: seq<QuestionRecord>, m: nat)
    requires rs != [] && tail == rs[1..] && m == n + 1 && WellFormed(rs[0], n)
    requires SplitOnMarkers(RenderFrom(tail, m)) == Pieces([], RenderedSections(tail, m))
    ensures SplitOnMarkers(RenderFrom(rs, n)) == Pieces([], RenderedSections(rs, n))
  {
    var marker := MarkerText(n);
    var block := BlockText(rs[0], n);
    var rest := RenderFrom(tail, m);
    SplitAfterBlock(rs[0], n, rest);
    MarkerTextStarts(n, block + rest);
    SplitAtMarker(marker, block + rest);
    assert RenderFrom(rs, n) == marker + (block + rest);
    SectionsAfterMarker(SplitOnMarkers(marker + (block + rest)), SplitOnMarkers(block + rest),
      SplitOnMarkers(rest), marker, block);
  }

  lemma SectionsAfterMarker(p: Pieces, q: Pieces, r: Pieces, marker: string, block: string)
    requires p == Pieces([], [Section(marker, q.preamble)] + q.sections)
    requires q == Pieces(block + r.preamble, r.sections) && r.preamble == []
    ensures p == Pieces([], [Section(marker, block)] + r.sections)
  {
    assert block + [] == block;
  }

  lemma {:induction false} RenderedSectionsAt(rs: seq<QuestionRecord>, n: nat, k: nat)
    requires k < |rs|
    ensures |RenderedSections(rs, n)| == |rs|
    ensures RenderedSections(rs, n)[k] == Section(MarkerText(n + k), BlockText(rs[k], n + k))
  {
    if k > 0 {
      RenderedSectionsAt(rs[1..], n + 1, k - 1);
    } else if |rs| > 1 {
      RenderedSectionsAt(rs[1..], n + 1, 0);
    }
  }

  /** The joined lines of a well-formed record start with its question and end with its key points. */
  lemma RecordLinesStripped(r: QuestionRecord, n: nat)
    requires WellFormed(r, n)
    ensures IsStripped(Join(RecordLines(r, n), '\n'))
  {
    var core := Join(RecordLines(r, n), '\n');
    var last := KeyPointsLine(r);
    var tail := AnswerLine(r, n) + "\n" + last;
    JoinRecordLines(r, n);
    assert core[0] == r.question[0];
    assert last[|last| - 1] == r.keyPoints[|r.keyPoints| - 1];
    assert core[|core| - 1] == tail[|tail| - 1] == last[|last| - 1];
  }

  /** None of the three lines holds a line break. */
  lemma RecordLinesOneLine(r: QuestionRecord, n: nat)
    requires WellFormed(r, n)
    ensures forall k :: 0 <= k < |RecordLines(r, n)| ==> '\n' !in RecordLines(r, n)[k]
  {
    assert '\n' !in AnswerTag(n) by {
      assert forall i :: 0 < i < |Decimal(n)| + 1 ==> AnswerTag(n)[i] == Decimal(n)[i - 1];
    }
    assert '\n' !in AnswerLine(r, n) && '\n' !in KeyPointsLine(r);
  }

  /** The block of a well-formed record strips and splits into its three lines. */
  lemma BlockLinesOf(r: QuestionRecord, n: nat)
    requires WellFormed(r, n)
    ensures BlockLines(BlockText(r, n)) == RecordLines(r, n)
  {
    RecordLinesStripped(r, n);
    StripPadding(" ", Join(RecordLines(r, n), '\n'), "\n");
    RecordLinesOneLine(r, n);
    SplitJoin(RecordLines(r, n), '\n');
  }

  /** Removing the answer tag from a written answer line and stripping gives the answer back. */
  lemma AnswerLineBack(r: QuestionRecord, n: nat)
    requires WellFormed(r, n)
    ensures Strip(RemoveAll(AnswerLine(r, n), AnswerTag(n))) == r.sampleAnswer
  {
    RemoveLabelBeforeChar(AnswerTag(n), ' ', r.sampleAnswer);
    StripPadding(" ", r.sampleAnswer, []);
    assert " " + r.sampleAnswer + [] == [' '] + r.sampleAnswer;
  }

  /** Removing `Key Points:` from a written key-points line and stripping gives the key points back. */
  lemma KeyPointsLineBack(r: QuestionRecord)
    requires Clean(r.keyPoints) && !Occurs(KeyPointsTag, r.keyPoints)
    ensures Strip(RemoveAll(KeyPointsLine(r), KeyPointsTag)) == r.keyPoints
  {
    RemoveLabelBeforeChar(KeyPointsTag, ' ', r.keyPoints);
    StripPadding(" ", r.keyPoints, []);
    assert " " + r.keyPoints + [] == [' '] + r.keyPoints;
  }

  /** A well-formed record written out as question `n` is read back as itself. */
  lemma RecordOfBlockText(r: QuestionRecord, n: nat)
    requires n >= 1 && WellFormed(r, n)
    ensures Accepts(BlockText(r, n)) && RecordOf(BlockText(r, n), n - 1) == r
  {
    BlockLinesOf(r, n);
    StripPadding([], r.question, []);
    assert [] + r.question + [] == r.question;
    AnswerLineBack(r, n);
    KeyPointsLineBack(r);
    assert (n - 1) + 1 == n;
  }

  /** Block `k` of a rendered reply is the block written for record `k`. */
  lemma BlockOfRender(rs: seq<QuestionRecord>, k: nat)
    requires forall j :: 0 <= j < |rs| ==> WellFormed(rs[j], j + 1)
    ensures |Blocks(Render(rs))| == |rs|
    ensures k < |rs| ==> Blocks(Render(rs))[k] == BlockText(rs[k], k + 1)
  {
    assert forall j :: 0 <= j < |rs| ==> WellFormed(rs[j], 1 + j);
    SplitRender(rs, 1);
    if k < |rs| {
      RenderedSectionsAt(rs, 1, k);
      assert 1 + k == k + 1;
    } else if rs != [] {
      RenderedSectionsAt(rs, 1, 0);
    }
  }

  /** Each block of a rendered reply is accepted and gives back its record. */
  lemma CandidateOfRender(rs: seq<QuestionRecord>, k: nat)
    requires forall j :: 0 <= j < |rs| ==> WellFormed(rs[j], j + 1)
    requires k < |rs|
    ensures |Candidates(Blocks(Render(rs)))| == |rs|
    ensures Candidates(Blocks(Render(rs)))[k] == Some(rs[k])
  {
    BlockOfRender(rs, k);
    RecordOfBlockText(rs[k], k + 1);
    assert (k + 1) - 1 == k;
  }

  /**
   * A reply in exactly the layout the generation prompt asks for parses back
   * to the records it lists, in order.
   */
  lemma ParseRender(rs: seq<QuestionRecord>)
    requires forall k :: 0 <= k < |rs| ==> WellFormed(rs[k], k + 1)
    ensures Parse(Render(rs)) == rs
  {
    var cs := Candidates(Blocks(Render(rs)));
    BlockOfRender(rs, 0);
    forall k | 0 <= k < |rs| ensures cs[k] == Some(rs[k]) {
      CandidateOfRender(rs, k);
    }
    PresentOfValues(cs, rs);
  }

  lemma PresentOfValues<T>(cs: seq<Option<T>>, vs: seq<T>)
    requires |cs| == |vs| && forall k :: 0 <= k < |cs| ==> cs[k] == Some(vs[k])
    ensures Present(cs) == vs
  {
    PresentAll(cs);
  }
}
