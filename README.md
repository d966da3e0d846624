# Interview bot: parsing, prompts and session record

This project models the logic of `chatbot.py`, a Streamlit interview-practice
bot. The bot sends a CV and a job description to a language model, reads
interview questions out of the reply, takes one answer per question, and has
the model grade the transcript. Three pieces of that file are modelled:

- **The question parser** `parse_questions` (module `QuestionParser`). The
  reply is cut at every `Q<digits>:` marker and the text before the first
  marker is dropped. Each block is stripped and split on line breaks. A block
  with three or more lines becomes a record of its first three lines: the
  question, the sample answer without `A<i+1>:`, and the key points without
  `Key Points:`, each stripped.
- **The two prompts and the evaluation reply** (modules `Prompts` and
  `Evaluation`). The generation prompt is plain concatenation. The evaluation
  prompt is built by a `+=` loop over `zip(questions, responses)`. The feedback
  and the score are read from the stripped reply with two regular-expression
  searches, which are written out here as the explicit scans the regular
  expression engine performs.
- **The session record** (module `Session`). It is a class whose fields are the
  session dictionary's entries. `Start` replaces the record, `Submit` appends an
  answer, and `Evaluate` stores the feedback. `Valid()` keeps the answer count
  equal to the question index.

`Strings` models the Python string operations these rely on over `seq<char>`:
`strip`, `split`, `replace(pat, "")`, `str(n)`, `int(digits)` and substring
search. It also defines `Join`, which the bot never calls: it is there only as
the inverse of `Split` in the round-trip lemmas. `Options` holds the `Option`
type.

In several places the bot's code behaves differently from what its prompt
texts, its messages and the reply format it asks for suggest. The model
follows the code:

- The `len(lines) >= 3` test counts blank lines inside a block.
- The number in `A<i+1>:` is the block's position among **all** blocks after
  the split, including blocks that were dropped. It is not the position among
  the accepted blocks.
- The feedback pattern needs `\nScore:`, a line break right before `Score:`.
  A `Score:` that does not start a line does not end the feedback. If the
  reply has no `\nScore:` at all, the feedback is the default, even when a
  `Feedback:` line exists.
- The score comes from the first `Score:` whose following whitespace run is
  followed by a digit. A `Score:` without digits is skipped in favour of a later one.
- The greedy `\s*` in the feedback pattern has one more effect. Take a blank
  feedback whose `\nScore:` line break is the last whitespace character after
  `Feedback:`. That line break has been consumed, so the group runs on to the
  next `\nScore:` when there is one (`BlankFeedbackRunsOn`). When there is
  none, `\s*` gives the line break back and the feedback is empty
  (`BlankFeedbackEmpty`).
- The job description is refused only when it is the empty string.
  Whitespace-only text passes.
- When the evaluation call fails, nothing is stored. No default feedback is
  written, and the session stays in the evaluation phase.
- "Start Interview" is available at every phase. A successful start replaces
  the record even in the middle of an interview or after the evaluation.

## Model

| member | source | states |
|---|---|---|
| Strings.IsSpace | chatbot.py:94 | The whitespace set of `str.isspace()`, which is what `strip()` removes and what `\s` matches in a `str` pattern. |
| Strings.IsDigit | chatbot.py:206 | An ASCII decimal digit, which is what `\d` is taken to match. |
| Strings.Strip | chatbot.py:94 | `strip()` leaves no whitespace at either end. The result is empty exactly when the text is all whitespace, and it holds only characters of the text. |
| Strings.StripPadding | chatbot.py:94 | `strip()` removes exactly the whitespace around an already stripped text. In particular it leaves a stripped text unchanged. |
| Strings.StripAfterSpaces | chatbot.py:208 | Whitespace in front of a text does not change what `strip()` returns. |
| Strings.LeadingSpaces | chatbot.py:205-206 | The longest run of whitespace that starts the text, which is what a greedy `\s*` takes. |
| Strings.Split | chatbot.py:94 | `split("\n")` gives at least one part, and no part contains the separator. |
| Strings.JoinSplit | chatbot.py:94 | Joining the parts of a split with the separator gives the text back. |
| Strings.SplitJoin | chatbot.py:94 | Splitting a join of separator-free parts gives the parts back. |
| Strings.Find | chatbot.py:205-206 | Returns the first position at or after the start where the pattern occurs, or none if it occurs nowhere there. |
| Strings.RemoveAll | chatbot.py:97-98 | `replace(pat, "")` never lengthens the text and only keeps characters of it. |
| Strings.RemoveAllAbsent | chatbot.py:97-98 | Removing a pattern that does not occur changes nothing. |
| Strings.RemoveAllFirst | chatbot.py:97-98 | `replace(pat, "")` keeps the text before the leftmost occurrence, drops that occurrence, and goes on with the text after it. |
| Strings.RemoveLabel | chatbot.py:97-98 | A tag followed by text that does not contain it loses exactly the tag. |
| Strings.Decimal | chatbot.py:97 | `str(n)` is a non-empty run of digits, one digit exactly for `n < 10`, starting with `0` only for `n == 0`. |
| Strings.DecimalDigitsValue | chatbot.py:97 | A digit run without a leading zero is `str` of its value, so `str(n)` is the only such run for `n`. |
| Strings.DigitsValueDecimal | chatbot.py:97 | `int(str(n)) == n`. |
| Strings.DigitsValue | chatbot.py:209 | `int()` of a digit run: the base-ten value of the digits, most significant first. |
| Strings.LeadingDigits | chatbot.py:206 | The longest run of digits that starts the text, which is what a greedy `\d+` takes. |
| QuestionParser.IsMarker | chatbot.py:92 | One match of `Q\d+:`: `Q`, one or more digits, then `:`. |
| QuestionParser.MarkerLength | chatbot.py:92 | Either no `Q\d+:` match starts the text, or the result is the length of a `Q<digits>:` prefix. |
| QuestionParser.MarkerLengthExact | chatbot.py:92 | A `Q<digits>:` prefix is the only match at its position, so the cut is unambiguous. |
| QuestionParser.SplitOnMarkers | chatbot.py:92 | `re.split(r'Q\d+:', ...)`: every cut is at a `Q<digits>:` marker. |
| QuestionParser.RejoinSplit | chatbot.py:92 | Nothing is lost in the split. The preamble, then each marker and its block, put back together, is the reply. |
| QuestionParser.SplitPiecesMarkerFree | chatbot.py:92 | The split cuts at every marker: none starts inside the dropped preamble or inside any block. |
| QuestionParser.Blocks | chatbot.py:92 | `[1:]` keeps one block per marker. |
| QuestionParser.BlocksIffMarker | chatbot.py:92 | The reply has blocks exactly when a marker occurs in it. |
| QuestionParser.BlockLines | chatbot.py:94 | `block.strip().split("\n")`. |
| QuestionParser.Accepts | chatbot.py:95 | The `len(lines) >= 3` test on those lines; blank lines count. |
| QuestionParser.AnswerTag | chatbot.py:97 | The tag `"A" + str(n) + ":"`. |
| QuestionParser.Candidate | chatbot.py:93-103 | For the block at position `i`, the record the loop appends, or nothing when the block fails the line test. |
| QuestionParser.Parse | chatbot.py:89-104 | The questions a reply yields: the records built from the blocks after the first marker, for the blocks that have three or more lines, in order. |
| QuestionParser.ParseWithoutMarkers | chatbot.py:89-104 | A reply without a `Q<digits>:` marker yields no questions. |
| QuestionParser.RecordOf | chatbot.py:96-98 | Every field of a record is stripped and holds no line break. |
| QuestionParser.RecordOfFirstThreeLines | chatbot.py:94-98 | Lines after the third never affect a record. |
| QuestionParser.ParseQuestions | chatbot.py:89-104 | The loop returns what `Parse` specifies: the records of the accepted blocks, in order. |
| QuestionParser.PresentIndices | chatbot.py:93-103 | The positions of the built records are exactly the positions that hold one, in increasing order. |
| QuestionParser.PresentFollowsIndices | chatbot.py:93-103 | The appended records are, in order, the values at those positions. |
| QuestionParser.AcceptedIndices | chatbot.py:93-95 | The positions of the kept blocks are exactly the blocks whose stripped text splits into three or more lines, in increasing order. |
| QuestionParser.ParseFollowsMarkers | chatbot.py:92-103 | There is one record per kept block, in marker order, and never more records than markers. Each record is built from its own block, with the tag number taken from the block's position among all blocks. |
| QuestionParser.ParseClean | chatbot.py:94-98 | No field of a parsed record has whitespace at either end or contains a line break. |
| QuestionParser.SplitRender | chatbot.py:92 | A reply written as `Q1:`/`A1:`/`Key Points:` lines splits at exactly its `Q<n>:` markers. |
| QuestionParser.BlockLinesOf | chatbot.py:94 | A written block strips and splits into its three lines. |
| QuestionParser.RecordOfBlockText | chatbot.py:94-98 | A well-formed record written out as question `n` is kept and read back as itself. |
| QuestionParser.ParseRender | chatbot.py:89-104 | A reply in exactly the layout the generation prompt asks for parses back to the records it lists, in order. |
| Prompts.GenerationPromptParts | chatbot.py:73 | The prompt is the template, then the CV verbatim, then the job description verbatim, each readable from its own place. |
| Prompts.GenerationPromptInjective | chatbot.py:73 | For a given template and CV length, the prompt determines the CV and the job description. |
| Prompts.GenerationPrompt | chatbot.py:73 | The generation prompt: the template, `\n\nCV:\n`, the CV, `\n\nJob Description:\n`, then the job description. |
| Prompts.BuildEvaluationPrompt | chatbot.py:181-192 | The `+=` loop yields the header followed by one `Q<n>:`/`A<n>:` entry per pair, stopping at the shorter list. |
| Prompts.TranscriptPrefix | chatbot.py:191-192 | Entries are only ever appended, so an earlier transcript is a prefix of a later one. |
| Prompts.EntryInTranscript | chatbot.py:191-192 | The entry for pair `i` stands right after the entries for the pairs before it. |
| Prompts.EvaluationPromptZip | chatbot.py:191 | Questions or answers past the length of the other list leave the prompt unchanged. |
| Prompts.Entry | chatbot.py:192 | The entry for pair `i`: `Q<i+1>: <question>`, a line break, `A<i+1>: <answer>` and two line breaks. |
| Prompts.Transcript | chatbot.py:191-192 | The entries for the first `n` pairs, in pair order. |
| Prompts.EvaluationPrompt | chatbot.py:181-192 | The evaluation prompt: the header, then one entry per pair of `zip(questions, responses)`. |
| Evaluation.LazyGroup | chatbot.py:205 | `(.*?)\nScore:` from a position: the group stops at the first `\nScore:`, and there is no match without one. |
| Evaluation.BacktrackSpaces | chatbot.py:205 | `\s*(.*?)\nScore:` after a `Feedback:`: the greedy `\s*` takes all the whitespace and gives it back one character at a time until a `\nScore:` follows. The group then ends at the first `\nScore:`. |
| Evaluation.FeedbackMatchAt | chatbot.py:205 | The feedback group of a match starting at a position: `Feedback:` must be there, then the backtracking above. |
| Evaluation.FeedbackSearch | chatbot.py:205 | `re.search`: the group of the match at the leftmost start position that has one. |
| Evaluation.FeedbackOf | chatbot.py:205-208 | The stripped group of the feedback search, or "No feedback provided." when it finds nothing. |
| Evaluation.BacktrackSpacesFinds | chatbot.py:205 | Once `\s*` has given back its characters, the pattern matches after a label exactly when a `\nScore:` follows it somewhere. |
| Evaluation.BacktrackSpacesGroup | chatbot.py:205 | When the first `\nScore:` lies past the whitespace, the group is the text from the end of the whitespace to that `\nScore:`. |
| Evaluation.FeedbackMatchAtFinds | chatbot.py:205 | A match starts at a position exactly when `Feedback:` is there and a `\nScore:` follows it. |
| Evaluation.FeedbackSearchFirstLabel | chatbot.py:205 | The leftmost search is decided at the first `Feedback:`: the match is there or nowhere. |
| Evaluation.FeedbackBetweenLabels | chatbot.py:205-208 | A non-blank feedback is the stripped text between the first `Feedback:` and the first `\nScore:` after it. |
| Evaluation.FeedbackMissing | chatbot.py:205-208 | The default feedback is used exactly when there is no `Feedback:`, or no `\nScore:` after the first one. |
| Evaluation.BlankFeedbackRunsOn | chatbot.py:205-208 | A blank feedback whose score line break ends the whitespace after the label runs on to the next `\nScore:`. |
| Evaluation.BlankFeedbackEmpty | chatbot.py:205-208 | A blank feedback whose `\nScore:` is the last one in the reply is the empty string: `\s*` gives the line break back and the group is empty. |
| Evaluation.ScoreMatchAt | chatbot.py:206 | The `\d+` group of a match starting at a position: `Score:` must be there, then the whitespace, given back one character at a time until a digit run follows. |
| Evaluation.ScoreOf | chatbot.py:206-209 | The value of the digits the leftmost score match finds, or 0 when it finds none. |
| Evaluation.BacktrackDigits | chatbot.py:206 | A `\d+` group is a non-empty run of digits. |
| Evaluation.BacktrackDigitsLongest | chatbot.py:206 | Giving whitespace back never lets `\d+` match, so only the longest whitespace run counts. |
| Evaluation.ScoreMatchAtDigits | chatbot.py:206 | A score match starts exactly at a `Score:` whose whitespace run is followed by a digit. Its group is the whole digit run there. |
| Evaluation.ScoreSearch | chatbot.py:206 | A found score group is a non-empty run of digits, so `int()` applies. |
| Evaluation.ScoreSearchFirst | chatbot.py:206 | The search returns the digits of the first `Score:` whose whitespace run is followed by a digit. |
| Evaluation.ScoreSearchNone | chatbot.py:206 | Without such a `Score:`, the search finds nothing. |
| Evaluation.ScoreFromFirstMatch | chatbot.py:206-209 | The score is the value of the digits after the first `Score:` whose whitespace run is followed by a digit. |
| Evaluation.ScoreDefault | chatbot.py:209 | When no `Score:` has its whitespace run followed by a digit, the score is 0. |
| Evaluation.ParseEvaluation | chatbot.py:204-209 | The reply is stripped, then the feedback and the score are read from the stripped text. |
| Evaluation.FormattedScoreLine | chatbot.py:205 | In a reply in the requested format, the feedback ends at its own score line. |
| Evaluation.FormattedScore | chatbot.py:206-209 | A reply in the requested format gives back its score `n`. |
| Evaluation.FormattedFeedback | chatbot.py:205-208 | A reply in the requested format gives back its feedback paragraph, an empty one included. |
| Evaluation.ParseFormatted | chatbot.py:204-209 | `Feedback: <fb>` followed by `Score: <n>%` on the next line is read back as `(fb, n)`, provided `fb` is stripped and does not contain `Score:`. |
| Evaluation.GoodEffortExample | chatbot.py:204-209 | `Feedback: Good effort overall.` followed by `Score: 75%` gives that feedback and 75. |
| Session.Readable | chatbot.py:135 | An extracted CV text the start accepts: not empty and not "Unsupported file type.". |
| Session.InterviewState.Valid | chatbot.py:120-172 | The record's invariant: one stored answer per answered question, questions only once started, a new session's record until then, feedback only after the last answer, and every stored answer stripped and not empty. |
| Session.InterviewState.Asking | chatbot.py:153 | A question is on screen: the session is started and the index is below the number of questions. |
| Session.InterviewState.Evaluating | chatbot.py:172 | The evaluation runs: the session is started, every question is answered and no feedback is stored. |
| Session.InterviewState.constructor | chatbot.py:120-127 | A new session has no questions, index 0, no answers, no feedback and is not started. |
| Session.InterviewState.Start | chatbot.py:129-150 | Refuses, leaving the record unchanged, when the file is missing, the job description is empty, the CV text is empty or "Unsupported file type.", or the reply parses to no questions. Otherwise it installs the parsed questions with index 0, no answers and no feedback. |
| Session.InterviewState.Submit | chatbot.py:163-169 | A blank answer changes nothing. Any other answer appends exactly its stripped text and advances the index by one, keeping answers and index in step. |
| Session.InterviewState.Evaluate | chatbot.py:172-211 | Sends the prompt listing every question with its answer. A reply is stored as its parsed feedback and score, which ends the evaluation phase so feedback is written at most once. A failed call stores nothing. |

## Left out

- `extract_text` (chatbot.py:51-69) calls PDF, DOCX and OCR libraries whose behaviour is not visible. The start takes the extracted text as a parameter instead, or no text when no file is uploaded.
- The calls to the language model (chatbot.py:75-86, 196-203) are network I/O. They are function parameters. A failed generation call returns `""`, which such a function can return. A failed evaluation call is a reply of `None`.
- The exception handlers in `parse_questions` and around the evaluation (chatbot.py:105-107, 217-218) are not modelled as such. The string operations modelled here do not raise, with two exceptions. First, a generation reply whose content is `None` makes `re.split` raise, and the handler returns `[]`; that is the same outcome as an empty reply, which the reply parameter can return. Second, `int()` can raise on a very long digit run (next line).
- Evaluation.ScoreOf reads a digit run of any length. Python 3.11 and later, and the 3.10.7 and 3.9.14 security releases, limit `int()` on a string to 4300 digits by default and raise ValueError beyond that. The handler at chatbot.py:217-218 then stores nothing, whereas the model's `Evaluate` stores a verdict.
- Streamlit rendering is UI only: the page setup, widgets, spinners, error messages, `st.rerun`, the question heading and the list of answers shown at the end (chatbot.py:110-118, 157-161, 173-179, 213-214). Errors appear as returned outcomes and unchanged records.
- The displayed score `round(score / 10, 1)` (chatbot.py:215) is floating-point display arithmetic and is not modelled.
- The texts of the generation template and the evaluation header (chatbot.py:13-48, 181-190) are parameters.
- `\d` is taken to be the ASCII digits. Python's `re` also accepts other Unicode decimal digits in a `str` pattern, and `int()` reads them.
- Session.InterviewState.Submit requires the asking phase, because the answer form exists only while a question is on screen (chatbot.py:153-161).
- Session.InterviewState.Evaluate requires the evaluation phase, because that branch runs only then (chatbot.py:172).
