# Citation-aware `say` command

This project models `say_command` in `src/custom_say_command.py`, the response
formatter of a Teams chat agent. The language model answers either with plain
text or with a JSON object whose `results` list carries answer fragments, some
of them with a cited source document. The command does the following:

- it sends nothing when there is no response content;
- it sends the raw text, marked as AI-generated and with no citations, when the
  content is not JSON;
- otherwise it walks the results in order. Each result with a non-empty
  `citationTitle` becomes a numbered citation, and its answer is written as
  `answer[n]<br>`. Every other result is written as `answer<br>`;
- it falls back to the raw content when there are no results;
- on Teams it replaces newlines with `<br>`;
- it attaches the citations that the text references, or `[]`;
- on Teams it also sets the `feedbackLoopEnabled` channel data.

The model is functional. The JSON value, the entries, the citations and the
message are immutable datatypes. The results loop is a method with invariants
against two declarative reference definitions:

- `Citations.Render` defines the content as a right fold of per-entry pieces.
- `Citations.CitationsFrom` defines the citations as the cited entries, numbered
  consecutively.

The four library functions the command calls are `json.loads`,
`snippet(…, 400)`, `format_citations_response` and `get_used_citations`. Their
bodies are not part of this model. They enter as arbitrary total functions in
`SayCommand.Helpers`. Nothing is assumed about the values they return, but they are
assumed to return rather than raise.
`context.send_activity` is represented by the message in the returned
`Outcome`. Whether the channel is Teams is a boolean parameter.

Modules:

- `Wrappers` defines `Option`.
- `Decimal` models Python's `str(n)` for the position in `[n]`.
- `Text` holds `str.replace("\n", "<br>")` and substring occurrence.
- `Citations` holds entries, citations and the reference definitions of the loop's
  output.
- `SayCommand` holds the payload, the JSON abstraction, the message and the command.

Behaviour of the code worth knowing:

- The Teams newline substitution (lines 81-82) runs after the if/else. So it also
  rewrites content built from the results, not only the raw-content fallback. Its
  effect there is only on newlines inside answers: `Citations.ReplaceNewlinesRender`
  shows that markers and `<br>` separators are untouched.
- The `Document #n` title fallback (line 63) is modelled, but it cannot be reached.
  The loop's guard (line 58) already demands a non-empty title.
- A JSON value that is truthy but not an object, such as `42`, `true`, `"text"` or
  `[1]`, has no `.get`. The command raises before sending anything, and the model
  returns `Raised`.
- A missing `answer` is written as `None`, as the f-string does.

## Model

| member | source | states |
|---|---|---|
| SayCommand.Say | src/custom_say_command.py:9-105 | No content means nothing is sent and the reply is `""`. Non-JSON content sends exactly one message: the raw text verbatim, citation `None`, type `AIGeneratedContent`, channel data only on Teams. A truthy non-object JSON value raises, and only then. Otherwise exactly one message is sent, with a citation list that is never `None`. Its text is the rendered results, or the raw content when there are none. On Teams that text has every newline replaced. With no citations the text goes through `format_citations_response` and the list is `[]`. Otherwise the text is the content itself, it contains every built citation's `[n]` marker and, on Teams, no newline, and the list is what `get_used_citations` returns, or `[]` when that is empty or `None`. |
| SayCommand.CollectCitations | src/custom_say_command.py:51-75 | The loop's content equals the reference rendering of the results from position 1. Its citations equal the reference list. There is one citation per result with a non-empty title, the i-th at position i+1, each named after its entry's title. |
| SayCommand.ListOrEmpty | src/custom_say_command.py:94 | The attached list is exactly what `get_used_citations` returned when that is a non-empty list, and `[]` for `None` or an empty list. |
| Citations.MakeCitation | src/custom_say_command.py:60-68 | A citation built at position p has position p, the entry's URL and the 400-limit snippet of its content. For a cited entry, its name is the entry's title, so the `Document #n` fallback never applies. |
| Citations.CitedEntries | src/custom_say_command.py:58 | There are as many cited entries as `CitedCount`, and each has a non-empty title. |
| Citations.CitedEntriesMembers | src/custom_say_command.py:57-58 | An entry is among the cited entries exactly when it is one of the results and has a non-empty title. |
| Citations.CitedEntriesAppend | src/custom_say_command.py:57-58 | Processing one more result appends it to the cited entries exactly when its title is non-empty, so the cited entries keep the order of the results. |
| Citations.CitedCount | src/custom_say_command.py:58 | The number of results that pass the guard is at most the number of results. |
| Citations.CitedCountAppend | src/custom_say_command.py:58-75 | A result without a non-empty title does not advance the position. One with a title advances it by exactly one. |
| Citations.RenderAppend | src/custom_say_command.py:57-75 | Processing one more result appends exactly its piece, `answer[n]<br>` or `answer<br>`, where n is 1 plus the number of cited results before it. |
| Citations.RenderConcat | src/custom_say_command.py:57-75 | The content of two runs of results is the first's content followed by the second's, numbered on from where the first stopped. |
| Citations.RenderAround | src/custom_say_command.py:57-75 | A result between two runs of results is rendered between their renderings, at position 1 plus the number of cited results before it. |
| Citations.RenderSplit | src/custom_say_command.py:57-75 | The content is the in-order concatenation of every result's piece. Result k carries position 1 plus the number of cited results before it. |
| Citations.CitationsAppend | src/custom_say_command.py:58-72 | Processing one more result appends one citation, at the next position, exactly when it has a non-empty title. |
| Citations.CitationsAreCitedEntries | src/custom_say_command.py:52-72 | There are as many citations as cited results. The i-th citation is the one built for the i-th cited result, at position `first + i`. |
| Citations.CitationsNumbering | src/custom_say_command.py:52-72 | There is one citation per cited result, in order. The i-th has position `first + i`, and its name is that result's `citationTitle`. `Citations.CitationsAreCitedEntries` fixes the URL and preview too. |
| Citations.MarkerOccurs | src/custom_say_command.py:70 | For every built citation position p, the marker `[p]` occurs in the content. |
| Citations.MarkerInPiece | src/custom_say_command.py:70 | The text a cited result appends holds that result's own marker. |
| Citations.ReplaceNewlinesRender | src/custom_say_command.py:70-82 | Replacing newlines in the built content equals rendering the results with newlines replaced in their answers. Markers, positions and `<br>` separators are unchanged. |
| Citations.AllWithoutNewlines | src/custom_say_command.py:81-82 | Replacing newlines in the answers keeps every result's cited status, so the number of citations is unchanged. |
| Citations.Marker | src/custom_say_command.py:70 | A marker starts with `[`, ends with `]` and contains no newline. |
| Citations.MarkerInjective | src/custom_say_command.py:70-71 | Distinct positions get distinct markers. |
| Text.ReplaceNewlines | src/custom_say_command.py:81-82 | The result contains no newline. A string without newlines is unchanged. Each newline adds three characters. |
| Text.ReplaceNewlinesAt | src/custom_say_command.py:81-82 | A newline between two strings becomes exactly `<br>`, with newlines on either side replaced independently. |
| Text.ReplaceNewlinesAppend | src/custom_say_command.py:81-82 | Replacing newlines in a concatenation is replacing them in each part. |
| Decimal.DecimalString | src/custom_say_command.py:70 | A position is written as a non-empty string of decimal digits with no leading zero. |
| Decimal.ParseDecimalString | src/custom_say_command.py:70 | Reading the written position back as a decimal number gives the position. |
| Decimal.DecimalStringInjective | src/custom_say_command.py:70-71 | Distinct positions are written differently, so distinct citations get distinct markers. |

Definitions without contracts of their own, and definitional proof steps. Their properties are stated by the lemmas above:

- `Citations.Piece` is one iteration's text (lines 70 and 75).
- `Citations.Render` is the loop's content (lines 57-75).
- `Citations.CitationsFrom` is the loop's citation list (lines 58-72).
- `Citations.DisplayName` is the `citationTitle or "Document #n"` name (line 63).
- `SayCommand.HasContent` is the early-exit test (line 23).
- `SayCommand.RawContent` is `data.response.content`, used at lines 33, 37 and 78.
- `SayCommand.ResultsOf` is the `results` list that the test at line 56 looks at.
- `SayCommand.TeamsChannelData` is the Teams-only `feedbackLoopEnabled` channel data (lines 46-47 and 100-101).
- `Citations.IsCited` is the loop guard (line 58).
- `Citations.AnswerText` is `f"{answer}"`, with `None` for a missing answer (lines 70 and 75).
- `Citations.RenderCons` unfolds `Render` once: one iteration of lines 57-75.
- `Citations.MarkerDigits` unfolds `Marker`: the body of `[{position}]` is `DecimalString(position)` (line 70).

## Left out

- `src/indexers/setup.py` and `src/indexers/get_data.py` are not modelled. They are the offline index loader: search-index creation, argument parsing, environment loading, a fixed sleep, calls to the embedding service and 1536-float vectors. All of that is I/O and service plumbing.
- `src/bot.py` is not modelled. It wires up the framework, model, planner and storage, and holds the top-level error handler and the feedback logging. It has no local decisions. The `Raised` outcome is where its error handler would take over.
- `json.loads`, `snippet`, `format_citations_response` and `get_used_citations` are arbitrary function parameters, because their bodies are not available. Neither the 400-character truncation nor the `[n]` substring filter is claimed as proven behaviour.
- The `print` of the decode error and `await context.send_activity` are output. The message that would be sent is returned in `Outcome` instead.
- SayCommand.Say: JSON is abstracted to three shapes. A `results` value that is truthy but not a list of objects, such as a string, a number or a list of non-objects, makes Python raise on `len` or `.get`. The model admits only lists of entries there.
- SayCommand.Say: a non-string `answer` or `citationTitle`, such as a number, is outside the model. Answers are strings or missing, and so are titles.
- SayCommand.Say: `json.loads`, `snippet`, `format_citations_response` and `get_used_citations` are assumed to return rather than raise, since their bodies are not available. For `json.loads`, that means it either returns or raises `JSONDecodeError`. Two examples it excludes:
  - `json.loads` raising `RecursionError` on very deeply nested input, which the `except` at line 34 does not catch;
  - `snippet` given a missing `citationContent` (line 66).

  The promise that the command raises only for a truthy non-object JSON value holds under that assumption.
- SayCommand.Say: the channel test `channel_id == Channels.ms_teams` is a boolean parameter, because the constant's value is defined outside this repository.
