# Resume analyzer: string-handling core in Dafny

`resumep.py` is a Streamlit page. A user uploads PDF resumes and the page
extracts each file's text. It then asks the Gemini model for a Markdown table
that summarises the candidates and splits the model's answer into a header and
rows for display. This project models the logic in that script that is not
user interface or a foreign library:

- **Python string built-ins** (module `PyStr`, `pystr.dfy`):
  - `str.strip()` with CPython's whitespace set (`Py_UNICODE_ISSPACE`);
  - `str.strip('|')`, which removes only pipes that are literally at the ends;
  - `str.split(c)`, which always yields at least one piece;
  - `sep.join(xs)`.
- **Table splitter** (module `MarkdownTable`, `table.dfy`), lines 139-144.
  - The whole answer is stripped and cut at newlines.
  - Line 0 is the header. Line 1 is skipped unread. Every later line becomes one row.
  - A line becomes cells by `strip('|')`, `split('|')` and then `strip()` on each piece.
  - The row loop is the method `ParseRows`. `Parse` is the whole splitter.
- **Prompt assembly** (module `ResumePrompt`, `prompt.dfy`), the function
  `generate_table_from_resumes`.
  - An empty list gives a fixed message.
  - Otherwise the texts are joined with `"\n\n--- NEW RESUME ---\n\n"` and put into the fixed f-string template.
  - The model is then called once. Its answer, or the message built from its exception, is the result.
- **Upload handler** (module `ResumeAnalyzer`, `analyzer.dfy`).
  - The loop (the method `CollectTexts`) keeps the extraction results that Python's `if text:` accepts, in upload order.
  - The model is asked only when at least one text was kept.
  - Its answer is then split into a table.

The splitter is modelled as the code behaves. It does not locate a table. It
does not check that the second line is a delimiter row. It does not honour
`\|`, and it neither pads nor truncates rows to the header's width.

The model's replies and the PDF extraction results are parameters:

- The language model is a function `llm: string -> Reply` from the prompt to
  either an answer text or the text of the raised exception.
- Each uploaded file's extraction result is an `Option<string>`. `None` stands
  for a PDF that could not be read.

## Model

| member | source | states |
|---|---|---|
| PyStr.StripBy | resumep.py:139-143 | the stripped text is never longer than the input; what it keeps is stated by the lemmas below |
| PyStr.LStripSplits | resumep.py:139-143 | the left strip removes a prefix made only of removable characters, and what remains is empty or starts with a kept character |
| PyStr.RStripSplits | resumep.py:139-143 | the right strip removes a suffix made only of removable characters, and what remains is empty or ends with a kept character |
| PyStr.StripByDecomposes | resumep.py:139-143 | every text is a removable prefix, then its strip, then a removable suffix; the strip neither starts nor ends with a removable character |
| PyStr.StripByInside | resumep.py:140-143 | the strip has no removable character at either end and contains only characters of the original |
| PyStr.StripByUnique | resumep.py:139-143 | the strip is exactly the trimmed middle of any text of the form removable prefix, middle, removable suffix |
| PyStr.LStripDroppedPrefix | resumep.py:139-143 | putting removable characters in front of a text does not change its left strip |
| PyStr.RStripDroppedSuffix | resumep.py:139-143 | appending removable characters to a text does not change its right strip |
| PyStr.StripByWrapped | resumep.py:139 | adding removable characters around a text does not change its strip |
| PyStr.StripByIdempotent | resumep.py:139-143 | stripping twice is the same as stripping once |
| PyStr.StripByAllDropped | resumep.py:143 | a text made only of removable characters strips to the empty string |
| PyStr.Split | resumep.py:139-143 | `split` always yields at least one piece, so `lines[0]` exists |
| PyStr.SplitCount | resumep.py:140 | there is one piece more than there are separators in the text |
| PyStr.SplitPiecesNoSep | resumep.py:140-143 | no piece contains the separator |
| PyStr.JoinSplit | resumep.py:140 | joining the pieces of a split with the separator gives back the text |
| PyStr.SplitNoSep | resumep.py:140-143 | a text without the separator splits into itself alone |
| PyStr.SplitAfterPiece | resumep.py:140-143 | a separator-free piece followed by the separator becomes the first piece, followed by the pieces of the rest |
| PyStr.SplitJoin | resumep.py:140-143 | splitting a join of separator-free pieces (at least one) gives back the pieces |
| PyStr.JoinLength | resumep.py:80 | a join is as long as its pieces plus one separator between each two neighbours |
| PyStr.JoinAt | resumep.py:80 | each piece appears unchanged in the join, right after the earlier pieces and their separators |
| MarkdownTable.Lines | resumep.py:139 | the stripped answer always has at least one line |
| MarkdownTable.StripEach | resumep.py:140-143 | one cell per piece, each cell the stripped piece, in order |
| MarkdownTable.DropTwo | resumep.py:142 | `lines[2:]` has `max(0, len(lines) - 2)` lines, line `i` being `lines[i + 2]` |
| MarkdownTable.ParseRows | resumep.py:141-144 | the loop produces one row per line, in order, each row being that line's cells |
| MarkdownTable.Parse | resumep.py:139-144 | the splitter never fails; the header is the cells of line 0; there are `max(0, len(lines) - 2)` rows; row `i` is the cells of line `i + 2` |
| MarkdownTable.CellsClean | resumep.py:140-143 | every cell of a line is pipe-free and has no whitespace at either end |
| MarkdownTable.ParsedCellsClean | resumep.py:139-144 | every header cell and every data cell of a parsed answer is pipe-free and has no whitespace at either end |
| MarkdownTable.CellCount | resumep.py:140 | the number of cells is one more than the number of pipes left after `strip('\|')`; re-joining the unstripped pieces with `'\|'` gives back the pipe-stripped line |
| MarkdownTable.TwoCells | resumep.py:140-143 | a line whose pipe-stripped form is `x + "\|" + y`, with no pipe in `x` or `y`, has exactly the cells `strip(x)` and `strip(y)` |
| MarkdownTable.OuterPipesRemoved | resumep.py:143 | `"\|" + x + "\|" + y + "\|"` with non-empty pipe-free `x`, `y` gives the cells `[strip(x), strip(y)]`, so `"\|a\|b\|"` gives `["a", "b"]` |
| MarkdownTable.IndentedRowKeepsEmptyCell | resumep.py:143 | whitespace followed by `"\|" + x + "\|"` gives `["", strip(x)]`: an indented row keeps a leading empty cell |
| MarkdownTable.BlankLineCells | resumep.py:142-144 | a line of whitespace only (such as an empty interior line) gives the row `[""]` |
| MarkdownTable.NoPipeLine | resumep.py:143 | a line of whitespace only contains no pipe and `strip('\|')` leaves it unchanged |
| MarkdownTable.SecondLineIgnored | resumep.py:142 | two answers that differ only in their second line split into the same table |
| MarkdownTable.OuterWhitespaceIgnored | resumep.py:139 | whitespace (blank lines included) before or after the answer changes none of its lines |
| MarkdownTable.OuterLinesTrimmed | resumep.py:139 | the first line does not start with whitespace and the last line does not end with it; with two or more lines the last one is non-empty, so no trailing blank line becomes a row |
| MarkdownTable.TrimmedTextLines | resumep.py:139 | the same three facts for any text that is already stripped |
| ResumePrompt.CombinedTextLength | resumep.py:80 | a single text is passed on unchanged; the combined text is as long as all the texts plus one separator between each two of them |
| ResumePrompt.GenerateTable | resumep.py:76-95 | an empty list gives exactly "No resume text provided."; otherwise the result is the model's answer to the prompt built from all the texts, or the error prefix followed by the exception text |
| ResumePrompt.EmptyNeverAsksModel | resumep.py:76-77 | for an empty list the result does not depend on the model at all |
| ResumePrompt.PromptHoldsText | resumep.py:80-89 | text `i` appears unchanged in the prompt, after the template head, the earlier texts and their separators |
| ResumePrompt.TextBetween | resumep.py:80-89 | the same for any head and tail put around the combined text |
| ResumeAnalyzer.CollectTexts | resumep.py:116-125 | the loop collects exactly the usable extraction results, in upload order |
| ResumeAnalyzer.UsableTextsConcat | resumep.py:116-125 | collecting from two batches is collecting from each and concatenating, in order |
| ResumeAnalyzer.SkippedFileDropsOut | resumep.py:121-125 | a file whose extraction is `None` or empty is skipped and the files around it are collected as if it were absent |
| ResumeAnalyzer.UsableTextsMembers | resumep.py:116-125 | a text is collected if and only if some file's extraction produced it and it is non-empty |
| ResumeAnalyzer.UsableTextsBounds | resumep.py:116-128 | every collected text is non-empty; there are no more texts than files; none at all exactly when no file gave a usable text |
| ResumeAnalyzer.Analyze | resumep.py:116-144 | the model is asked exactly when some text was collected; the answer is the result for all collected texts, and the table is split from it as `Parse` states |

## Left out

- The Streamlit user interface (resumep.py:98-157): page set-up, uploader, button, spinner, messages and rendering. The model of the handler starts from the list of extraction results.
- The API-key set-up (resumep.py:10-24) and the model's configuration, generation settings and safety settings (resumep.py:28-46). These are configuration only; the float temperature has no counterpart.
- The call `model.generate_content` (resumep.py:92) is a network call. It is the parameter `llm`. How the exception becomes text in the f-string at line 95 is part of that parameter.
- PyPDF2 text extraction (resumep.py:50-66) is a foreign library. Each file's result is an arbitrary `Option<string>`.
- `pd.DataFrame(data, columns=header)` and its display (resumep.py:146-150) are a foreign library. What it does with rows whose width differs from the header's is not modelled. The splitter neither pads, truncates nor rejects such rows, and the model claims none of these.
- The `try`/`except` around the splitter (resumep.py:137-150): the splitter itself is total (`Parse` has no precondition), so only the left-out DataFrame step could raise.
- `str.strip()` is modelled with CPython's fixed whitespace table (`PyStr.IsSpace`); how that table is derived from the Unicode database is not modelled.
