# Tender notice extractor — a Dafny model

This project models the core of `TenderPDFProcessor`: the part that pulls
structured fields out of the text of a public-procurement tender notice.
It also proves properties of that model.

The processor reads the document text once. It then runs independent
extraction rules against that text:

- **tender ID**: a fallback chain over the labels "Document No:",
  "Reference number:" and "Tender ID:".
- **publication date** and **submission deadline**: one search each, for
  `dd/dd/dddd` after the label.
- **contract value**: a fallback chain over "Value excluding VAT:",
  "Estimated value:" and "Contract value:". The value is the rest of the
  line, whitespace-stripped.
- **CPV codes**: every `CPV…: dddddddd[-d]*` occurrence, in order.
- **extractive summary**: leading period-separated fragments of the text,
  kept while they fit a character budget.

The document text is the input of every operation. Loading it from a PDF is
outside the model.

The model has seven modules:

- `Chars` (`chars.dfy`): the character classes the patterns use (`\s`,
  `\d`, `[0-9-]`, `[-\d]`, `[^:]`, `[^\n]`). It also holds the greedy
  longest-run scan that every repetition reduces to.
- `Options` (`options.dfy`): Python's `Optional`.
- `Regex` (`regex.dfy`): the pattern datatype, the matcher and its
  semantics.
  - A pattern is a label, then `\s*`, then one capture group.
  - The label is made of literal words, `\s+` gaps and `[^:]*:` runs.
  - `Occurs` is the regular-expression language of a pattern.
  - `PythonMatchAt` is the match Python's backtracking engine reports at a
    position: greedy `\s*` is tried longest first, then the greedy group.
  - `Leftmost` is `re.search`'s choice.
  - `FindAllSpec` is `re.findall`'s walk.
  - The executable matcher `MatchAt` / `SearchFrom` / `FindAllFrom` is
    proved equal to these definitions. This includes the backtracking of
    `\s*` into the group, which makes "Value excluding VAT: \n" capture a
    single blank.
- `PyStr` (`pystr.dfy`): `str.strip()`, `str.split(sep)` and
  `sep.join(parts)`, with their round trips.
- `TenderExtractor` (`extractor.dfy`): the nine patterns of the source as
  data, `_find_pattern`, the fallback chains, the four extractors (five fields) and
  `extract_all_information`.
- `Summary` (`summary.dfy`): `get_text_summary`, as a loop checked against
  a declarative stopping rule.
- `Examples` (`examples.dfy`): worked texts that pin down individual
  behaviours.

Two behaviours of the code worth knowing:

- **A contract value can come from a later line.** The `\s*` after a label
  also matches line breaks, so a label that ends its line takes its value
  from a later line. The group starts where the whitespace after the label
  ends (`Examples.ValueFromNextLine`). When only whitespace follows the
  label up to the end of the text, `\s*` gives characters back and the
  group is the last whitespace character that is not a newline
  (`Examples.BlankValueGroup`); with no such character there is no match.
- **A page without text raises.** A page whose `extract_text()` returns
  `None` makes the `'\n'.join` at src/pdf_processor.py:23 raise. Loading is
  not modelled (see Left out).

## Model

`Regex.Search` (`re.search`, line 27) and `PyStr.Join` (`'. '.join`, line
103) carry no contract of their own. `Regex.SearchFrom` and
`Regex.SearchCorrect` state what the search returns. `PyStr.JoinSplit`,
`PyStr.SplitJoin` and `PyStr.JoinNoTrailingPeriod` state what the join
returns.

| member | source | states |
|---|---|---|
| Regex.SearchFrom | src/pdf_processor.py:27 | the search tries positions in order: a result is the first position where an attempt succeeds, and no earlier attempt succeeds; with no result, no attempt from `pos` on succeeds |
| Regex.MatchAtCorrect | src/pdf_processor.py:27 | one attempt returns exactly the match Python's backtracking engine reports at that position (greedy `\s*` longest first, then the longest group), and nothing iff no match of the pattern starts there |
| Regex.SearchCorrect | src/pdf_processor.py:27 | `re.search` returns the engine's match at the leftmost position where the pattern occurs, and None iff the pattern occurs nowhere at or after the start |
| Regex.MatchLabelCorrect | src/pdf_processor.py:33-35 | the label matcher, which takes the longest `\s+` and `[^:]*` runs, finds a label span iff one exists, and that span is the only one |
| Regex.LabelSpansUnique | src/pdf_processor.py:48 | a label (including `Time limit[^:]*:`) spans the text after its start in at most one way |
| Regex.CaptureAt | src/pdf_processor.py:33-35 | the group at a position is the longest text in the group's language starting there, or None when no such text exists |
| Regex.Backtrack | src/pdf_processor.py:59-61 | the group starts at the latest position in the `\s*` run where it matches, and no later position matches; None iff none matches |
| Regex.GroupIsMaximal | src/pdf_processor.py:33-35 | the reported group of `[0-9-]+`, `[^\n]+` or `\d{8}[-\d]*` cannot be extended by one more character of its class |
| Regex.MatchAtInShape | src/pdf_processor.py:27-28 | a successful attempt's group lies in the language of the pattern's group |
| Regex.FindAllFrom | src/pdf_processor.py:73 | the matches collected by `re.findall` are non-empty, within the text, in order and non-overlapping |
| Regex.FindAllCorrect | src/pdf_processor.py:73 | the collected matches are `re.findall`'s walk: each is the leftmost match from the end of the previous one, and after the last the pattern occurs no more |
| Regex.FindAllSpecUnique | src/pdf_processor.py:73 | that walk is determined by the text: two match sequences that both satisfy it are equal |
| Regex.FindAllInShape | src/pdf_processor.py:72-73 | every match `re.findall` collects has a group in the group's language |
| Regex.FindAll | src/pdf_processor.py:72-73 | every string `re.findall` returns is in the language of the pattern's group |
| PyStr.Strip | src/pdf_processor.py:67 | `strip()` returns text that neither begins nor ends with whitespace, obtained by removing whitespace only from the two ends |
| PyStr.StripUnique | src/pdf_processor.py:67 | `strip()`'s result is the only trimmed string obtained by cutting whitespace off the ends |
| PyStr.StripTrimmed | src/pdf_processor.py:67 | a string without surrounding whitespace strips to itself |
| PyStr.StripIdempotent | src/pdf_processor.py:67 | stripping twice equals stripping once |
| PyStr.StripChars | src/pdf_processor.py:67 | stripping introduces no character that was not in the input |
| PyStr.Split | src/pdf_processor.py:93 | `split('.')` returns at least one piece, and no piece contains the separator |
| PyStr.JoinSplit | src/pdf_processor.py:93 | joining the pieces of `split(sep)` with `sep` gives back the text |
| PyStr.SplitJoin | src/pdf_processor.py:93 | splitting a join of separator-free parts gives back the parts |
| PyStr.JoinNoTrailingPeriod | src/pdf_processor.py:103 | a `'. '`-join of period-free parts is empty or does not end with a period |
| TenderExtractor.FindPattern | src/pdf_processor.py:25-28 | `_find_pattern` returns None or a non-empty group, because every group needs at least one character |
| TenderExtractor.FindPatternCorrect | src/pdf_processor.py:25-28 | `_find_pattern` is None iff the pattern occurs nowhere; otherwise it is group 1 of the leftmost match Python reports |
| TenderExtractor.FirstTruthy | src/pdf_processor.py:38-42 | the chain is None iff no pattern's result is truthy; otherwise it is the result of the first truthy pattern in list order |
| TenderExtractor.FirstTruthyOfThree | src/pdf_processor.py:64-68 | a three-pattern chain is the first present result among the three, in list order |
| TenderExtractor.ChainPriority | src/pdf_processor.py:38-42 | the first pattern that occurs anywhere decides, whatever the positions of the others; later patterns count only when all earlier ones are absent; None iff all three are absent |
| TenderExtractor.TenderIdPriority | src/pdf_processor.py:30-42 | "Document No" decides the tender ID wherever the other labels occur; "Reference number" decides only if "Document No" is absent; "Tender ID" only if both are absent; None iff all three labels are absent |
| TenderExtractor.IdCapture | src/pdf_processor.py:33-35 | a group of an ID pattern is a non-empty run of digits and hyphens |
| TenderExtractor.ExtractTenderId | src/pdf_processor.py:30-42 | a returned tender ID is a non-empty run of ASCII digits and hyphens, whichever label supplied it |
| TenderExtractor.IdTokenIsMaximalRun | src/pdf_processor.py:33-35 | a found ID is the group of the leftmost match, and the character after it is not a digit or hyphen |
| TenderExtractor.TenderIdIsMaximalRun | src/pdf_processor.py:30-42 | a returned tender ID is the leftmost match's group of one of the three labels, and the longest run of digits and hyphens there |
| TenderExtractor.DateCapture | src/pdf_processor.py:47-48 | a found date is exactly `dd/dd/dddd` |
| TenderExtractor.ExtractDates | src/pdf_processor.py:44-54 | both date fields are None or exactly `dd/dd/dddd` |
| TenderExtractor.DatesFound | src/pdf_processor.py:44-54 | each date is its own pattern's leftmost group, and None iff that pattern occurs nowhere; neither depends on the other's pattern |
| TenderExtractor.LineCapture | src/pdf_processor.py:59-61 | a value pattern's group holds no newline |
| TenderExtractor.ValueCaptureHasNoNewline | src/pdf_processor.py:59-61 | none of the three contract-value groups contains a newline |
| TenderExtractor.ExtractContractValue | src/pdf_processor.py:56-68 | a returned contract value is stripped and contains no newline |
| TenderExtractor.ContractValuePriority | src/pdf_processor.py:56-68 | the contract value is the stripped group of the first label that occurs, in priority order; None iff none of the three labels occurs |
| TenderExtractor.FirstValueLabelDecides | src/pdf_processor.py:64-67 | whenever "Value excluding VAT" finds a group, the value is that group stripped, even when this is "" — the truthiness test comes before the strip |
| TenderExtractor.ExtractCpvCodes | src/pdf_processor.py:70-73 | every CPV code is eight digits followed only by digits and hyphens |
| TenderExtractor.CpvCodesFound | src/pdf_processor.py:70-73 | the codes are the groups of `re.findall`'s walk, one per non-overlapping match in document order, with duplicates kept |
| TenderExtractor.CpvCodesEmpty | src/pdf_processor.py:70-73 | there are no codes iff the CPV pattern occurs nowhere |
| TenderExtractor.ExtractAllInformation | src/pdf_processor.py:75-85 | each field of the record is its own extractor's result, with no cross-field check, and carries that extractor's shape guarantee |
| Summary.GetTextSummary | src/pdf_processor.py:87-103 | empty text gives ""; otherwise the result is the stripped fragments of a prefix of `split('.')` joined by ". " plus one final period; the prefix ends exactly where the stopping rule says; with a non-negative budget the kept raw lengths fit; the result ends with a single period |
| Summary.KeepWhileFits | src/pdf_processor.py:94-101 | the loop keeps exactly the fragments before the stopping point, each stripped and in order: every kept prefix fits the budget and the next fragment (if any) does not |
| Summary.GetDefaultTextSummary | src/pdf_processor.py:87 | with the default budget of 500, the result is the summary at the stopping point, and a text of at most 500 characters keeps every fragment |
| Summary.KeepNext | src/pdf_processor.py:100-101 | keeping a fragment appends its stripped form and adds its raw length |
| Summary.SummaryPartsPeriodFree | src/pdf_processor.py:93-100 | stripped fragments of a split on '.' contain no period |
| Summary.SummaryOfKept | src/pdf_processor.py:97-103 | for the stopping point, the result ends with exactly one period, and a non-negative budget bounds the kept raw length |
| Summary.StopsAtUnique | src/pdf_processor.py:97-99 | the stopping point is determined by the fragments and the budget |
| Summary.TotalSplit | src/pdf_processor.py:93 | the fragments' lengths plus one per separator add up to the text length |
| Summary.ShortTextKeepsAll | src/pdf_processor.py:97-101 | a text no longer than the budget keeps every fragment |
| Summary.OverflowPersists | src/pdf_processor.py:98-99 | once the running length overflows the budget, every longer prefix overflows too, so no later fragment could be kept |
| Examples.BlankValueGroup | src/pdf_processor.py:59 | on "Value excluding VAT: \n", `\s*` gives back the blank and the group is " " |
| Examples.BlankValueAtEndOfText | src/pdf_processor.py:64-67 | that whitespace-only group is truthy, so it ends the chain, and the contract value is "" |
| Examples.ValueLineAtStart | src/pdf_processor.py:59 | "Value excluding VAT: v" on its own line gives exactly `v`: the group stops at the line break |
| Examples.NoticeContractValue | src/pdf_processor.py:56-68 | "Value excluding VAT: 1 200 000 EUR" followed by a deadline line gives the contract value "1 200 000 EUR" |
| Examples.ValueFromNextLine | src/pdf_processor.py:61 | "Contract value:\n5" captures "5" from the next line |
| Examples.DocumentNoAfter | src/pdf_processor.py:33 | "Document No: id" at the end of a text finds `id`, after any prefix at none of whose positions an attempt of the pattern succeeds |
| Examples.DocumentNoAfterGreeting | src/pdf_processor.py:33 | after "Dear sir\n", whose capital D starts a failed attempt, "Document No: 5" still gives "5" |
| Examples.LaterDocumentNoWins | src/pdf_processor.py:32-41 | the tender ID comes from "Document No" even when "Reference number" occurs earlier in the text |
| Examples.EmptyTextFindsNothing | src/pdf_processor.py:75-85 | an empty text gives no tender ID, no dates, no contract value and no CPV codes |

## Left out

- Loading the PDF (`__init__`, `_load_pdf`, src/pdf_processor.py:12-23): it goes through pdfplumber. The text is the model's input. A page whose text is `None` makes the join raise; this is not modelled.
- The NLTK download and tokenizer import (src/pdf_processor.py:5-9): nothing in the core uses them.
- `self.text` being `None`: the model takes a string. An unloaded processor is not modelled.
- Chars.IsDecimal: `\d` on a Python `str` matches every Unicode decimal digit. The model restricts it to ASCII `0-9`, so texts with non-ASCII digits are outside the model.
- Regex: only the pattern outline the extractor uses is modelled (a label, then `\s*`, then one final group). General regular expressions are not.
- Regex.FindAllFrom: its contract states only bounds and ordering. Its relation to the walk is stated by `Regex.FindAllCorrect`.
- src/app.py and src/example.py: the web front end and the command-line demo. They call the core and are not part of this model.
- No concrete example fixes the position of a date or of a CPV code. Their general behaviour is stated by `TenderExtractor.DatesFound` and `TenderExtractor.CpvCodesFound`.
