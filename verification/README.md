# Medical chat evaluation pipeline — Dafny model

This project models the sequential core of `scripts/evalulate.js`, the script
that runs a medical question-answering chat API over two benchmark dataset
families and records its answers next to the ground truth:

- **Tabular (USMLE) loader** — the `'data'` row handler of
  `fetchQuestionsFromCSV`. It keeps a row only when its `Question` cell is
  present, non-empty and contains `"(A)"`, and only the first such row for
  each trimmed question. A set of seen trimmed questions does the
  de-duplication. Kept records hold the untrimmed question
  (`csv_loader.dfy`; the closure state becomes the class
  `QuestionCollector`).
- **Line-delimited (MedQA) loader** — `fetchQuestionsFromJson`. It splits the
  content on `'\n'` and parses every line on its own, skipping lines that do
  not parse. `JSON.parse` is the parameter `parse: string -> Option<R>`
  (`json_loader.dfy`).
- **Question formatter** — the MedQA prompt template: the stem, `"\nOptions:\n"`,
  one `"(key): value"` line per choice joined by `"\n"`, and a final `"\n"`
  (`formatter.dfy`).
- **Answer client and enrichment loops** — each question is sent once, in
  order, awaiting each answer before the next request. The answer is added
  to the record. A transport fault ends the loop
  (`answer_client.dfy`, `enrichment.dfy`). The HTTP endpoint is an oracle
  `respond(n, message)`: `None` stands for a rejected `fetch`.
- **Output projections** — the `questions.map(...)` objects handed to the CSV
  writer, one row per result with a fixed column list per family
  (`result_writer.dfy`).

`text.dfy` holds the JavaScript string built-ins the core relies on:
`includes`, `trim`, `split` and `join`. `wrappers.dfy` holds `Option`.

Each operation is paired with an independent definition or an inverse:
- The loader's seen-set fold (`Load`) is proved equal to a declarative
  "first passing row per trimmed question" selection (`FirstIndices`).
- `Split` is proved inverse to `Join`.
- Each loop method is proved against a specification function (`Load`,
  `ParseAll`, `AnswerAll`), and the properties the script promises are
  proved about that function.

## Model

| member | source | states |
|---|---|---|
| `Text.Contains` | scripts/evalulate.js:19 | `includes` is true exactly when the pattern occurs at some index of the string |
| `Text.TrimStartSpec` | scripts/evalulate.js:19 | leading trim drops exactly a whitespace-only prefix and stops at the first non-whitespace character |
| `Text.TrimEndSpec` | scripts/evalulate.js:19 | trailing trim drops exactly a whitespace-only suffix and stops at the last non-whitespace character |
| `Text.TrimIsCore` | scripts/evalulate.js:19 | `trim()` yields a slice of the input with only whitespace outside it, and the slice neither starts nor ends with whitespace |
| `Text.Split` | scripts/evalulate.js:40 | `split('\n')` yields one more piece than there are newlines |
| `Text.SplitSpec` | scripts/evalulate.js:40 | no piece of `split('\n')` contains a newline, and joining the pieces with `"\n"` gives back the content |
| `Text.SplitCons` | scripts/evalulate.js:40 | helper: `Split` unfolded once at a leading character (a newline splits off an empty first piece, any other character extends the first piece); not an independent property |
| `Text.SplitJoin` | scripts/evalulate.js:40 | splitting the join of newline-free pieces gives back exactly those pieces |
| `Text.JoinAppend` | scripts/evalulate.js:161 | joining two non-empty lists puts exactly one separator between their joins |
| `CsvLoader.Load` | scripts/evalulate.js:14-27 | the loader never yields more records than rows |
| `CsvLoader.LoadWellFormed` | scripts/evalulate.js:19-26 | every loaded record has a non-empty question containing "(A)", and no two loaded records have equal trimmed questions |
| `CsvLoader.TrimmedQuestionsAppend` | scripts/evalulate.js:25-26 | helper: `TrimmedQuestions` unfolded once, so pushing a record adds exactly its trimmed question to the seen-set; not an independent property |
| `CsvLoader.TrimmedQuestionsMembers` | scripts/evalulate.js:25-26 | the seen-set holds the trimmed question of every emitted record and nothing else |
| `CsvLoader.LoadSeen` | scripts/evalulate.js:19-26 | after loading, a trimmed question is in the seen-set iff some row with it passes the filter (kept or dropped as a duplicate) |
| `CsvLoader.FirstIndicesSpec` | scripts/evalulate.js:14-27 | the selected row indices are strictly increasing; an index is selected iff its row passes the filter and no earlier passing row has the same trimmed question |
| `CsvLoader.RecordsAtExtend` | scripts/evalulate.js:25 | rows delivered later leave the records already pushed unchanged |
| `CsvLoader.RecordsAtKeep` | scripts/evalulate.js:20-25 | pushing a kept row appends its record after the earlier ones |
| `CsvLoader.LoadIsFirstOccurrences` | scripts/evalulate.js:14-27 | the loader emits exactly the first passing row of each trimmed question, in input order, with the untrimmed Question, Correct response and ChatGPT Output unchanged |
| `CsvLoader.EmptyQuestionDropped` | scripts/evalulate.js:19 | a multiple-choice row followed by an empty-question row loads as that one record |
| `CsvLoader.DuplicateDropped` | scripts/evalulate.js:19 | of two rows whose questions trim to the same text, the first passing one is the only record loaded |
| `CsvLoader.QuestionCollector.constructor` | scripts/evalulate.js:10-11 | the handler starts with no rows and an empty seen-set |
| `CsvLoader.QuestionCollector.OnData` | scripts/evalulate.js:14-27 | a row passing the filter with an unseen trimmed question is appended and its trimmed question added; any other row changes nothing; the seen-set stays equal to the trimmed questions of the kept rows |
| `CsvLoader.FetchQuestionsFromCsv` | scripts/evalulate.js:8-35 | feeding every row to the handler in order resolves with `Load` of the rows |
| `JsonLoader.ParseAll` | scripts/evalulate.js:42-49 | the parsed values are at most as many as the lines |
| `JsonLoader.FetchQuestionsFromJson` | scripts/evalulate.js:38-51 | the result is the parsed values of `content.split('\n')` in line order, at most one more than the number of newlines |
| `JsonLoader.ParseAllAppend` | scripts/evalulate.js:42-49 | parsing line by line distributes over concatenation, so output order is line order |
| `JsonLoader.SkipsUnparsable` | scripts/evalulate.js:43-48 | a line that fails to parse is dropped and the lines before and after it are still loaded |
| `JsonLoader.MalformedLineBetween` | scripts/evalulate.js:39-50 | two valid lines around a malformed one load as exactly the two records, in file order |
| `Formatter.FormatQuestionEnds` | scripts/evalulate.js:161 | the prompt starts with the stem and ends with a newline |
| `Formatter.FormatQuestionJoin` | scripts/evalulate.js:161 | the prompt is the stem, "Options:", the option lines (one empty line when there are no choices) and an empty last piece, joined by newlines |
| `Formatter.FormatQuestionLines` | scripts/evalulate.js:161 | with newline-free inputs, splitting the prompt on newlines gives back the stem, "Options:", each "(key): value" in order, then "" |
| `Formatter.FormatExample` | scripts/evalulate.js:161 | stem "Which?" with A: foo and B: bar formats as "Which?\nOptions:\n(A): foo\n(B): bar\n" |
| `AnswerClient.Client.GetMedicalAnswer` | scripts/evalulate.js:53-76 | one call sends exactly one message, appended to the log, and returns the endpoint's raw answer for that request or a fault |
| `Enrichment.AnswerAll` | scripts/evalulate.js:142-143 | a complete run has one answer per message; a fault names a request that was actually made |
| `Enrichment.AnswerAllSpec` | scripts/evalulate.js:142-143 | in a complete run answer i is the endpoint's reply to request i; a faulted run stops at the first failing request, all earlier ones having succeeded |
| `Enrichment.AnswerAllFaultAt` | scripts/evalulate.js:142-143 | a failure at request i aborts the run at i whatever questions follow |
| `Enrichment.AnswerUsmle` | scripts/evalulate.js:141-148 | each question is sent exactly once, in order; result i is record i with the i-th answer added; on a fault, exactly the questions up to the failing one were sent and no results are returned |
| `Enrichment.AnswerMedQA` | scripts/evalulate.js:159-173 | each formatted prompt is sent exactly once, in order; result i is prompt i, item i's answer label and the i-th answer; on a fault, exactly the prompts up to the failing one were sent |
| `ResultWriter.UsmleRowReadBack` | scripts/evalulate.js:82-87 | a USMLE row has the columns Question, Correct response, Medical Chat Output, ChatGPT Output, in that order; reading each column back gives the matching field |
| `ResultWriter.MedQARowReadBack` | scripts/evalulate.js:105-109 | a MedQA row has the columns Question, Correct response, Medical Chat Output, in that order, each holding its field, and no ChatGPT Output column |
| `ResultWriter.UsmleRows` | scripts/evalulate.js:82-87 | one row per result, in order, each with exactly the four USMLE columns holding that result's fields |
| `ResultWriter.MedQARows` | scripts/evalulate.js:105-109 | one row per result, in order, each with exactly the first three USMLE columns holding that result's fields |
| `Text.TrimStart` | scripts/evalulate.js:19 | the leading trim is never longer than its input and, when non-empty, does not start with whitespace |
| `Text.TrimEnd` | scripts/evalulate.js:19 | the trailing trim is never longer than its input and, when non-empty, does not end with whitespace |
| `Text.Trim` | scripts/evalulate.js:19 | `trim()` is never longer than its input and, when non-empty, neither starts nor ends with whitespace (`TrimIsCore` adds that only whitespace is removed) |
| `Text.Join` | scripts/evalulate.js:161 | `join(sep)`: empty for no parts, the part itself for one, parts separated by `sep` otherwise; no contract of its own, its properties are `JoinAppend`, `SplitSpec` and `SplitJoin` |
| `CsvLoader.Passes` | scripts/evalulate.js:19 | the content filter: `Question` is present, non-empty and contains "(A)"; no contract of its own, `LoadWellFormed` and `FirstIndicesSpec` state what it selects |
| `CsvLoader.Admits` | scripts/evalulate.js:19 | the whole condition of line 19: the filter holds and the trimmed question is not yet in the seen-set; no contract of its own, `AdmitsIffFirstPassing` relates it to first occurrence |
| `CsvLoader.ToRecord` | scripts/evalulate.js:20-24 | the pushed object: the untrimmed question, `Correct response` and `ChatGPT Output`; no contract of its own, `LoadIsFirstOccurrences` states that the records are these objects |
| `CsvLoader.AdmitsIffFirstPassing` | scripts/evalulate.js:19 | the handler admits a row exactly when it is the first passing row with its trimmed question |
| `Formatter.OptionLine` | scripts/evalulate.js:161 | the `(${key}): ${value}` line of one choice; no contract of its own, see `OptionLineParts` |
| `Formatter.OptionLineParts` | scripts/evalulate.js:161 | an option line is "(", the key, "): " and the value, so key and value can be read back at fixed offsets |
| `Formatter.OptionLines` | scripts/evalulate.js:161 | the `map` over `Object.entries(options)`: one option line per choice, in order; no contract of its own, see `OptionLinesSingleLine` and `FormatQuestionLines` |
| `Formatter.OptionLinesSingleLine` | scripts/evalulate.js:161 | no option line contains a newline when no key or value does |
| `Formatter.FormatQuestion` | scripts/evalulate.js:161 | the prompt template; no contract of its own, its properties are `FormatQuestionEnds`, `FormatQuestionJoin` and `FormatQuestionLines` |
| `Enrichment.UsmleResults` | scripts/evalulate.js:144-147 | `{...question, medicalChatOutput: result}` for each record and its answer, in order; no contract of its own, `AnswerUsmle` states that the loop builds it |
| `Enrichment.MedQAResults` | scripts/evalulate.js:168-172 | `{question: completeQuestion, correctResponse: question.answer, medicalChatOutput: result}` per item, in order; no contract of its own, `AnswerMedQA` states that the loop builds it |
| `ResultWriter.UsmleRow` | scripts/evalulate.js:82-87 | the USMLE output object of one result; no contract of its own, see `UsmleRowReadBack` |
| `ResultWriter.MedQARow` | scripts/evalulate.js:105-109 | the MedQA output object of one result; no contract of its own, see `MedQARowReadBack` |
| `ResultWriter.MedQAColumnsArePrefix` | scripts/evalulate.js:105-109 | the MedQA columns are the USMLE columns without the trailing ChatGPT Output |
| `AnswerClient.Client.constructor` | scripts/evalulate.js:6 | a client talks to one fixed endpoint (the oracle) and has sent nothing yet |
| `Formatter.CompleteQuestion` | scripts/evalulate.js:161 | `completeQuestion` built from `question.question` and `question.options`, the prompt `AnswerMedQA` sends; no contract of its own, it is `FormatQuestion` of the item, see `FormatQuestionEnds` and `FormatQuestionLines` |
| `Text.IsWhitespace` | scripts/evalulate.js:19 | the code points `trim()` removes: tab, line feed, vertical tab, form feed, carriage return, space, U+00A0, U+1680, U+2000-U+200A, U+2028, U+2029, U+202F, U+205F, U+3000 and U+FEFF (ECMAScript WhiteSpace and LineTerminator); a predicate, no contract |
| `CsvLoader.TrimmedQuestions` | scripts/evalulate.js:11-26 | the contents of `uniqueQuestions`: the trimmed questions of the kept records (tied to the handler's set by `QuestionCollector.Valid`); no contract of its own, see `TrimmedQuestionsMembers` |
| `Enrichment.UsmleMessages` | scripts/evalulate.js:143 | the message sent for each USMLE record, its untrimmed `question`; no contract of its own, `AnswerUsmle` states that exactly these are sent, in order |
| `Enrichment.MedQAMessages` | scripts/evalulate.js:161-162 | the message sent for each MedQA item, its `completeQuestion`; no contract of its own, `AnswerMedQA` states that exactly these are sent, in order |
| `ResultWriter.UsmleColumns` | scripts/evalulate.js:83-86 | the keys of the USMLE output object in order: Question, Correct response, Medical Chat Output, ChatGPT Output; a fixed list with no contract of its own, see `UsmleRowReadBack` |
| `ResultWriter.MedQAColumns` | scripts/evalulate.js:106-108 | the keys of the MedQA output object in order: Question, Correct response, Medical Chat Output; a fixed list with no contract of its own, see `MedQARowReadBack` and `MedQAColumnsArePrefix` |

## Left out

- The request `getMedicalAnswer` builds (scripts/evalulate.js:53-76) is left out: endpoint URL, bearer token and chatbot id from the environment, JSON body with `stream`, `temperature`, `messages` and `markdown`. The model keeps only the message sent and the oracle's reply, since the rest is network I/O.
- CSV parsing by `csv-parser` is not modelled. The parsed rows are the input. Cells are strings, and only `Question` may be absent.
- CSV serialisation by `fast-csv` is not modelled: header row, quoting, the file stream. The model stops at the row objects handed to it.
- `JSON.parse` is the parameter `parse`. The MedQA loop takes items already shaped as stem, choices and answer label. When `question` is missing or not a string, the template at scripts/evalulate.js:161 stringifies it (for example as `undefined`). `answer` is copied into `correctResponse` whatever its type (scripts/evalulate.js:165, 170), and fast-csv writes it. The model takes both as strings.
- AnswerMedQA: takes every item as having usable `options`. A parsed line without them, such as `{"question":"q","answer":"A"}`, `null` or `5`, makes the template at scripts/evalulate.js:161 throw a TypeError. The `Object.entries(undefined)` call throws, and so does `null.question`. The throw happens before request i is sent and ends the MedQA run with nothing saved. The model has no such items, so it does not capture this abort.
- `Object.entries` order is taken as the given order of the choices. JavaScript puts integer-like keys first; that reordering is not modelled.
- Strings are sequences of Unicode scalar values, not UTF-16 code units. `includes("(A)")`, `trim()` and `split('\n')` treat the characters involved the same either way.
- Not modelled: stream read errors (the loader's promise rejects), `fs.readFileSync`, console logging of unparsable lines and of each MedQA result, and `dotenv`. All of these are I/O.
- The top-level driver (scripts/evalulate.js:123-180) is not modelled: hard-coded file lists, the single catch, and the save calls that are not awaited. They are about scheduling and I/O. A transport fault appears as the `Fault` outcome of the enrichment methods.
- `fetchQuestionsFromJson` parses every line, including empty ones (scripts/evalulate.js:42-44). An empty line goes to `parse` like any other, and `JSON.parse` throws on it, so it is skipped.
- Both families are saved only after their loop ends (scripts/evalulate.js:149, 174), so a fault returns no results for either family.
