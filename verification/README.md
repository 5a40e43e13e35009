# Language-learning chatbot: a Dafny model of its core

The chatbot is a single Streamlit app (`main.py`). A learner sets up a target language, a
native language and a level. They pick a practice scene and chat. Every message is
answered by a language model and also checked by it. Mistakes go into an SQLite table,
and typing "exit" shows a review of everything logged.

This project models the deterministic core under the UI, model and database plumbing:

- **`clean_response`** (module `ThinkTags`): the regular-expression cut of `<think>…</think>`
  blocks, then Python's `str.strip()` (module `Trim`, with Python's exact `isspace` set).
- **`correct_input`** (module `Correction`): the mistake decision on the raw reply, the
  extraction of the corrected form, its sentinel, the row that is logged, and the cleaned
  feedback. Python's `in`, `find` and `split`, which it relies on, are in module `Strings`.
- **The `mistakes` table** (module `MistakeStore`): a sequence of rows with
  AUTOINCREMENT ids. Inserts append; the select reads every row back in insertion order.
- **`review_mistakes`** (module `Review`): the numbered review text. The numbers are
  rendered in decimal (module `Decimal`).
- **The scene catalog `SCENES`** and its lookup with a Beginner fallback (module `Scenes`).
- **The four-stage session of `main`** (module `Session`): setup, scene selection, chat,
  review and start-over. Each one is a pure transition `Step` on the session and the table,
  and `Run` iterates it.

The model's replies, the insertion timestamp and the form contents are parameters. The
model calls, the clock and the widgets are not part of this model.

Some behaviours of the code are easy to misread. The model follows the code:

- Cleaning is not idempotent. Removing a block can join the two halves of a tag that was
  split around it. The example is `CleanNotIdempotent`.
- The mistake decision looks at the raw reply, so a "Correct!" hidden inside a reasoning
  block still suppresses logging. The example is `HiddenApprovalSuppressesLogging`.
- The scene lookup is an exact dictionary lookup. It is case-sensitive, and every
  unknown key falls back to the Beginner scenes.
- The chat box is only checked for emptiness, so input made only of whitespace is a full
  turn.

## Model

| member | source | states |
|---|---|---|
| Strings.Contains | main.py:84 | Python's `in` on strings: the pattern occurs at some position; it has no contract of its own, and `Strings.IndexOfNone` relates it to the search `split` performs |
| Strings.IndexOfNone | main.py:86 | the leftmost-occurrence search behind `split` fails exactly when the separator is not contained |
| Strings.Split | main.py:86 | `split` always yields at least one part (its other facts are in `Strings.SplitFacts`, `Strings.JoinSplit` and `Strings.SplitJoin`) |
| Strings.SplitFacts | main.py:86 | `split` yields more than one part exactly when the separator occurs, and no part contains the separator |
| Strings.JoinSplit | main.py:86 | joining the parts of `split` with the separator gives back the input |
| Strings.SplitJoin | main.py:86 | parts free of a separator whose first character does not recur in it split back out of their join unchanged |
| Trim.Strip | main.py:78 | `strip()` leaves neither end on whitespace, cuts a contiguous piece starting after the leading run, is empty exactly for all-whitespace input, and keeps already-trimmed text |
| Trim.StripUnique | main.py:78 | any cut into whitespace, a trimmed middle and whitespace has exactly `strip()`'s result as its middle |
| ThinkTags.StripThink | main.py:78 | the substitution never lengthens the text and leaves text without `<think>` unchanged |
| ThinkTags.FirstBlockRemoved | main.py:78 | the leftmost `<think>` through the nearest following `</think>` is removed and the rest is processed on its own |
| ThinkTags.UnclosedBlockKept | main.py:78 | when the first `<think>` is never closed nothing matches and the text is kept whole |
| ThinkTags.CleanResponse | main.py:76-78 | the cleaned reply has no surrounding whitespace, is never longer than the reply, and is the stripped reply when there is no `<think>` |
| ThinkTags.CleanNotIdempotent | main.py:76-78 | cleaning `<thi<think>x</think>nk>y</think>` gives `<think>y</think>`, and cleaning that gives the empty string |
| ThinkTags.CleanIdempotentWithoutTags | main.py:76-78 | cleaning twice is cleaning once when the cleaned reply has no `<think>` left |
| Correction.ExtractCorrection | main.py:85-88 | without "Corrected to:" the correction is the parsing-error sentinel; with it, the correction is trimmed and contains neither a period nor the marker |
| Correction.CorrectionIsFirstSentence | main.py:86 | the correction is the stripped text between the first marker and the next period, the next marker, or the end |
| Correction.MarkerExample | main.py:86 | "Mistake found. Corrected to: Hola, ¿cómo estás?. Explanation..." yields "Hola, ¿cómo estás?" |
| Correction.CorrectInput | main.py:80-96 | the feedback is the cleaned reply; with "Correct!" anywhere in the raw reply the table is unchanged, otherwise exactly one row is appended with the input as both utterance and mistake, the extracted correction and the timestamp, and earlier rows are kept |
| Correction.HiddenApprovalSuppressesLogging | main.py:84-96 | a "Correct!" inside a reasoning block suppresses logging while the feedback shows only the text after the block |
| MistakeStore.MaxId | main.py:26 | the largest id bounds every id and belongs to some row, 0 for an empty table |
| MistakeStore.Insert | main.py:90-93 | an insert appends one row carrying the given columns, with an id above every existing id, and keeps the ids 1, 2, 3, … |
| MistakeStore.SelectAll | main.py:103-105 | the select returns one entry per row, in row order, with the three selected columns |
| MistakeStore.SelectAfterInsert | main.py:90-105 | reading after an insert gives the earlier entries followed by the new record's columns |
| MistakeStore.InsertAllAppends | main.py:90-93 | successive inserts keep the old rows in front and add one row per record |
| MistakeStore.InsertAllRow | main.py:90-93 | the k-th inserted record lands in the k-th new row with its columns verbatim |
| MistakeStore.InsertAllSequential | main.py:26 | successive inserts keep the ids 1, 2, 3, … |
| MistakeStore.InsertAllThenSelect | main.py:90-105 | inserting records and reading back gives the old entries and then exactly the records' columns, in order |
| Decimal.Show | main.py:112 | the entry number is rendered as canonical decimal digits |
| Decimal.ReadShow | main.py:112 | reading the rendered number back gives the number |
| Decimal.ShowRead | main.py:112 | every canonical digit string is the rendering of its value |
| Decimal.ShowInjective | main.py:112 | distinct numbers render differently |
| Review.EntryText | main.py:112 | an entry opens with its number in decimal followed by a period; `Review.EntryNumberReadsBack` reads the number back |
| Review.ReviewMistakes | main.py:102-115 | has no contract of its own; its behaviour is stated by `Review.NoMistakesIffEmpty`, `Review.FocusIffMoreThanTwo`, `Review.RowRenderedInPlace` and `Review.ReviewAfterInsert` |
| Review.Numbered | main.py:111-112 | the i-th entry text renders the i-th row under number first + i |
| Review.NoMistakesIffEmpty | main.py:107-110 | the review is the no-mistakes message exactly when the table is empty, and otherwise opens with the heading |
| Review.FocusIffMoreThanTwo | main.py:114-115 | the review ends with the verb-conjugation advice exactly when more than two rows were logged |
| Review.RowRenderedInPlace | main.py:111-112 | row i appears as entry number i + 1 right after the entries of the rows before it |
| Review.ReviewAfterInsert | main.py:102-115 | logging one more mistake appends one entry numbered one past the old count and re-chooses the advice for the new count |
| Review.EntryNumberReadsBack | main.py:112 | the text before an entry's first period is all digits and reads back as the entry's number |
| Scenes.ScenesFor | main.py:152 | the lookup returns three scenes: the catalog entry for a key, the Beginner scenes for anything else |
| Scenes.CatalogKeys | main.py:37-53 | the catalog's keys are exactly the three level names |
| Scenes.ListsDiffer | main.py:37-53 | the three levels offer different scene lists |
| Scenes.ScenesOfLevel | main.py:152 | the key of each level the setup form offers selects exactly that level's scene list |
| Scenes.LookupIff | main.py:152 | the Advanced and Intermediate scenes are returned exactly for their exact keys, the Beginner scenes for every other string |
| Scenes.LookupIsCaseSensitive | main.py:152 | "advanced" and "intermediate" fall back to the Beginner scenes |
| Session.Lower | main.py:169 | lower-casing keeps the length and maps each character on its own |
| Session.ExitIff | main.py:169 | the input ends the chat exactly when it is "exit" in any mix of cases |
| Session.IsExit | main.py:169 | only four-character input can be the exit word; `Session.ExitIff` gives the exact condition |
| Session.SceneLine | main.py:156 | the banner ends with the scene text verbatim |
| Session.YouLine | main.py:176 | the user's line ends with the input verbatim |
| Session.BotLine | main.py:177 | the bot's line ends with the cleaned reply verbatim |
| Session.FeedbackLine | main.py:178 | the feedback line ends with the feedback verbatim |
| Session.LinesTellApart | main.py:156-178 | lines of different kinds never coincide, and a line of one kind determines its text, so the transcript records who said what |
| Session.Step | main.py:134-187 | one press changes the table by at most one appended row, never touches earlier rows, and keeps the ids sequential |
| Session.SetupAdvancesIff | main.py:136-147 | setup advances to scene selection exactly when both languages are filled in; either way the entered languages and the level name are stored, and the transcript, the scene and the table stay as they were |
| Session.StartChattingAddsBanner | main.py:149-157 | starting the chat moves to the chat stage, sets the scene to the picked one of the chosen level's scenes, appends exactly one banner naming it, and changes nothing else in the session or the table |
| Session.EmptyInputIgnored | main.py:166-168 | an empty chat box changes nothing |
| Session.ExitGoesToReview | main.py:168-171 | the exit word moves to the review stage and changes nothing else: transcript, languages, level, scene and table all stay as they were |
| Session.TurnAppendsThreeLines | main.py:172-180 | any other non-empty input appends the three turn lines, changes nothing else in the session, and logs a row exactly when the raw correction reply lacks "Correct!" |
| Session.WhitespaceInputIsATurn | main.py:166-179 | input made only of whitespace is a full turn of three lines |
| Session.StartOverResets | main.py:182-187 | starting over gives the initial session and keeps the table |
| Session.InitialInv | main.py:124-132 | the initial session satisfies the session invariant |
| Session.StepPreservesInv | main.py:124-187 | every press keeps the invariant: sequential ids, both languages and a catalog level past setup, and in chat and review a transcript of the scene banner followed by whole turns |
| Session.RunPreservesInv | main.py:124-187 | every sequence of presses keeps the invariant and only ever appends to the table |
| Session.ChatTranscriptShape | main.py:156-179 | in the chat, the transcript of any run from a fresh start has 1 + 3k lines |

## Left out

- Streamlit rendering, headers, `st.error`, `st.success` and `st.rerun` are UI. The model keeps only the stage and session changes they lead to.
- The setup and scene forms write their widget values into the session on every render. The model writes them when the form's button is pressed, which is the only point where they affect a transition.
- The `ChatGroq` and `LLMChain` calls and the prompt templates (main.py:14-19, 55-73, 98-100) call an external service. Each model reply is a parameter of the `Send` action, and `generate_response` is `CleanResponse` of that reply.
- Opening, committing and closing the SQLite connection, and the `CREATE TABLE`, are I/O. The table is a sequence of rows whose AUTOINCREMENT ids are position + 1, which holds because no row is ever deleted.
- `datetime.now().strftime(…)` reads the clock. The timestamp is a parameter.
- `load_dotenv` and the API-key configuration are environment setup.
- Session.Lower: lower-cases only ASCII letters, not all of Unicode. For the comparison with "exit" this is exact: no other character lower-cases to a single ASCII letter of that word, and the one character whose lower case is two characters long makes the text too long to match.
- Exceptions raised by the model call or by the database are not modelled. `AttributeError` in the extraction cannot arise, because the reply is always a string.
