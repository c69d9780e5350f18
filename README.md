# ixbr-auto-tagging, modelled in Dafny

The modelled system annotates an SEC filing (an HTML document) with inline
XBRL tags. Three sections of the filing are processed:

- the **cover page**, tagged with `dei:` labels;
- the **financial statement tables**, tagged with raw us-gaap labels;
- the **notes**, tagged with `us-gaap:` labels.

For each section, text is harvested and handed to a machine-learning tagger.
The tagger's word labels are turned into `{text: label}` pairs, and each pair
is written back into the page as a
`<font data-autotag="true" id=xdx_90…>text</font>` wrapper.

This project models the deterministic machinery around the taggers. The
taggers themselves are left as inputs. The model covers:

- **The tag injector.** This is `modify_coverpage`, `modify_statement_tabels`
  and `modify_notespages`, both as free functions and as the methods of
  `OverwriteHtml`. The model has:
  - its tag-bounded replacement;
  - its placeholder fallback and second resolution pass;
  - table de-duplication;
  - the notes exclusion list.
- **The page split.** The cover page is what lies before the first page
  marker; the rest follows it. It is modelled over an abstract sequence of
  sibling nodes.
- **The value helpers:**
  - `add_commas` and `extract_number_from_text`;
  - `post_process`, which realigns sub-tokens to words;
  - `process_table_results` and `process_notes_results`.
- **Statement-table reconstruction:**
  - caption matching and the table-selection rule;
  - grid clean-up after parsing, header merging and empty-column removal;
  - row and tag extraction;
  - the context heuristic that builds the table tagger's input lines.
- **Cover-page harvesting:**
  - the branch dispatch of `collect_tokens`;
  - the page and div selection rule;
  - trimming of predicted rows;
  - grouping of tagged values under their rows.
- **Notes token cleaning:** `process_text`, the `<p>`-or-`<span>` choice and
  `clean_notes_outputs`.
- **The composition in `auto_tagging`:**
  - cleaning of the results;
  - exclusion of table keys from the notes;
  - the cover half joined to the injected remainder.

Where the source loops and appends, the model has a `method` with a loop.
Each such method is proved equal to a prefix-recursive function, and the
properties are proved about that function. Where the source is a
comprehension or a straight-line chain of calls, the model is a function.

The following become explicit parameters:

- random draws: `random.choice` letters, `random.randint` placeholders and
  `uuid1`;
- the iteration order of Python sets;
- nltk's sentence splitter, `clean_text` and `convert_float_to_int`.

Module layout:

| file | module | source |
|---|---|---|
| wrappers.dfy | Wrappers | Option, Result, and the two Python errors a caller can see |
| strings.dfy | Strings | the `str` methods the source uses (`replace`, `split`, `strip`, `join`, `upper`, `lower`) |
| utils.dfy | Utils | auto_tagging/utils.py value helpers |
| page_split.dfy | PageSplit | auto_tagging/utils.py sibling walks and `split_input_html` |
| tokens.dfy | Tokens | placeholder bookkeeping for the injector proofs |
| injection.dfy | Injection | auto_tagging/utils.py `modify_*` |
| overwrite.dfy | Overwrite | auto_tagging/overwrite.py |
| table_utils.dfy | TableUtils | auto_tagging/table_utils.py |
| dei_utils.dfy | DeiUtils | auto_tagging/dei_utils.py |
| notes_utils.dfy | NotesUtils | auto_tagging/notes_utils.py |
| tagging.dfy | Tagging | auto_tagging/tagging.py:94-134 |

## Model

| member | source | states |
|---|---|---|
| Strings.ReplaceChangesIff | auto_tagging/utils.py:251-253 | with a replacement longer than the pattern, `replace` changes the buffer exactly when the pattern occurs: this is the injector's branch test |
| Strings.ReplaceRemovesChar | auto_tagging/utils.py:247 | `replace("\n", " ")` leaves no newline |
| Strings.ReplaceAbsent | auto_tagging/utils.py:340-341 | replacing an absent pattern leaves the buffer unchanged |
| Strings.SplitOn | auto_tagging/notes_utils.py:44 | `split(" ")` yields at least one piece and no piece holds the separator |
| Strings.StripEmptyIffAllSpace | auto_tagging/table_utils.py:216 | `strip()` is empty exactly when every character is whitespace |
| Utils.AddCommas | auto_tagging/utils.py:171-187 | the reverse, comma-every-third and reverse-back loop computes left-to-right thousands grouping |
| Utils.GroupedUncommas | auto_tagging/utils.py:171-187 | deleting every comma from `add_commas`' output gives the comma-free input back |
| Utils.GroupedLength | auto_tagging/utils.py:171-187 | non-empty input of length n gives n + (n-1)/3 characters |
| Utils.GroupedCommaPositions | auto_tagging/utils.py:178-183 | counted from the right, a comma stands exactly at positions k with k % 4 == 3, so never at either end |
| Utils.FirstStandalone | auto_tagging/utils.py:192 | the leftmost position where `\b\d+\b` matches, or none when it matches nowhere, with `\d` and `\w` read over ASCII |
| Utils.ExtractNumberFromText | auto_tagging/utils.py:190-199 | the value of the first standalone ASCII digit run exactly when one exists; otherwise the text unchanged |
| Utils.NatToStringRoundTrip | auto_tagging/utils.py:209 | `int(str(n)) == n` |
| Utils.LeadingZerosLost | auto_tagging/utils.py:196 | "id 007" yields 7: `int()` drops leading zeros |
| Utils.PostProcess | auto_tagging/utils.py:103-119 | the zip loop rebuilds the sentence and keeps one label per word-opening sub-token, ignoring pairs past the shorter list |
| Utils.OneSpacePerLabel | auto_tagging/utils.py:109-118 | with space-free sub-tokens the sentence holds exactly one space per kept label; `<pad>` and continuation pieces add none |
| Utils.SplitOnCount | auto_tagging/dei_utils.py:244 | `split(" ")` yields one more piece than there are spaces; with Utils.OneSpacePerLabel, a reconstructed sentence splits into one piece per label plus the empty piece before its leading space |
| Utils.ProcessTableResults | auto_tagging/utils.py:202-212 | one pair per zipped 4-tuple; the key is the table key of the row and the label is passed through |
| Utils.TableKeyReadsBack | auto_tagging/utils.py:207-209 | a key built from a standalone integer reads back as that integer once its commas are deleted |
| Utils.ProcessNotesResults | auto_tagging/utils.py:215-222 | no emitted pair is labelled "O" |
| Utils.ProcessNotesResultsIsFilter | auto_tagging/utils.py:215-222 | the output is exactly the zipped (word, label) pairs whose label is not "O", in order |
| Utils.LabelledWordsIsFilter | auto_tagging/utils.py:219-221 | the inner loop is the "not O" filter of one row's zip |
| PageSplit.PrevElement | auto_tagging/utils.py:75 | `find_previous_sibling()` returns the nearest earlier element and passes over text and comment nodes |
| PageSplit.ExtractContentUntilComment | auto_tagging/utils.py:72-81 | the backward walk's loop computes the content specification |
| PageSplit.UntilCommentInDocumentOrder | auto_tagging/utils.py:72-81 | without an element named "comment", the backward walk returns every earlier element's markup in document order |
| PageSplit.ExtractContentBetweenComments | auto_tagging/utils.py:84-91 | the forward walk's loop computes the content specification |
| PageSplit.FirstStop | auto_tagging/utils.py:88 | the first sibling at or after i that is falsy or equals the end marker |
| PageSplit.WalkForwardIsSlice | auto_tagging/utils.py:84-91 | the forward walk serialises the siblings strictly after the start, up to but not including the first one that stops it |
| PageSplit.FirstPageComment | auto_tagging/utils.py:137-139 | the first `Field: Page;` comment, or none |
| PageSplit.FirstPageBreak | auto_tagging/utils.py:151-152 | the first tag whose name starts with `hr`, or none |
| PageSplit.CountPageBreaksFound | auto_tagging/utils.py:151-154 | some `hr` exists exactly when a first one is found |
| PageSplit.SplitInputHtmlCases | auto_tagging/utils.py:122-168 | the cut is at the first comment marker, else at the first of at least two `hr`; no marker gives (None, None); a single `hr` leaves both results unbound |
| PageSplit.SplitPartitions | auto_tagging/utils.py:147-148 | when every node before the marker is an element other than `comment` and every node after it is truthy, cover page + marker + remainder is the whole document |
| PageSplit.CoverIsElementsBefore | auto_tagging/utils.py:147 | when everything before the marker is an element, the cover page is all of it |
| PageSplit.RestIsAllAfter | auto_tagging/utils.py:148 | with no empty string sibling after the marker, the remainder is everything after it |
| Injection.Letter | auto_tagging/utils.py:240 | `random.choice(string.ascii_letters)` yields an ASCII letter |
| Injection.RunId | auto_tagging/utils.py:234-235 | the run id holds no `-` |
| Injection.WrapperContent | auto_tagging/utils.py:240 | the element's content is the matched text verbatim |
| Injection.WrapperLonger | auto_tagging/utils.py:240 | a wrapper is longer than its text, so a bounded match always changes the buffer |
| Injection.TagRows | auto_tagging/utils.py:233-243 | one row per pair, with the prefixed label and a wrapper that shares the run id |
| Injection.Pending.Put | auto_tagging/utils.py:261 | `placeholders[k] = v`: the value of `k` becomes `v`, a new key goes last, an existing key keeps its place, and a well-formed dict (each key once in the order, order and keys the same set) stays well formed |
| Injection.PassesValid | auto_tagging/utils.py:248-261 | the first loop leaves a well-formed dict: every key appears once in insertion order |
| Injection.Inject | auto_tagging/utils.py:247-264 | the two loops compute the two-pass specification |
| Injection.StepPrefersBounded | auto_tagging/utils.py:250-261 | the bounded replacement is taken exactly when `>text<` occurs; only otherwise is a placeholder registered for every plain occurrence |
| Injection.InjectedNoNewline | auto_tagging/utils.py:247 | when no wrapper or placeholder holds a newline, the output holds none |
| Injection.NoPlaceholderSurvives | auto_tagging/utils.py:263-264 | with fresh, marked, equal-length placeholders, every registered placeholder is resolved and none remains |
| Injection.ResolvedRetires | auto_tagging/utils.py:263-264 | each turn of the resolution loop retires one placeholder |
| Injection.PassesOk | auto_tagging/utils.py:250-261 | the first loop keeps the buffer tokenized by the registered placeholders |
| Injection.ModifyCoverpage | auto_tagging/utils.py:225-266 | `modify_coverpage` computes the two-pass injection of the distinct cover tuples labelled `dei:` |
| Injection.CoverRowsAreDistinctTuples | auto_tagging/utils.py:230-233 | the injected (text, `dei:`label) rows are exactly the distinct tuples of the cover result, each once |
| Injection.CoverpageNoNewline | auto_tagging/utils.py:247 | the cover output has no newline when no text, label or uuid holds one |
| Injection.FirstIndex | auto_tagging/utils.py:281-284 | the first pair carrying a text |
| Injection.FirstPerTextDistinct | auto_tagging/utils.py:279-284 | the kept table texts are pairwise distinct |
| Injection.FirstPerTextCovers | auto_tagging/utils.py:279-284 | every input text is kept |
| Injection.FirstPerTextKeepsFirst | auto_tagging/utils.py:279-284 | the pair kept for a text is the first pair with that text |
| Injection.ModifyStatementTables | auto_tagging/utils.py:269-318 | the de-duplication loop and the two passes compute the table specification |
| Injection.TableTextsInjectedOnce | auto_tagging/utils.py:274-295 | each distinct table text is injected by exactly one row, carrying a label it had in the input |
| Injection.StatementTablesNoNewline | auto_tagging/utils.py:297 | the table output has no newline when no text, label or uuid holds one |
| Injection.Unexcluded | auto_tagging/utils.py:336-337 | a notes pair is kept exactly when its text is not excluded |
| Injection.ApplyBounded | auto_tagging/utils.py:340-341 | the notes loop computes bounded replacement of every kept row |
| Injection.ModifyNotespages | auto_tagging/utils.py:321-342 | `modify_notespages` computes the notes specification |
| Injection.NotesSkipExcluded | auto_tagging/utils.py:326-338 | notes rows are exactly the notes pairs whose text is not excluded, labelled `us-gaap:` |
| Injection.NotesUnchangedWithoutMatch | auto_tagging/utils.py:340-342 | a notes pass with no `>text<` occurrence leaves the buffer unchanged, since there is no placeholder fallback |
| Injection.CoverTextLost | auto_tagging/utils.py:259-264 | as written, a later fallback text of two characters can rewrite an earlier placeholder, and a cover text disappears from the page |
| Injection.MarkedPlaceholdersResolved | auto_tagging/utils.py:259-264 | with distinct placeholders that start with a private marker, every fallback is resolved, no placeholder survives, and each registered placeholder maps to the wrapper of the row that drew it |
| Injection.PassesOwnMarkup | auto_tagging/utils.py:250-261 | with one distinct placeholder per row, the first loop maps each registered placeholder to the markup of the row that drew it, and registers none for a later row |
| Overwrite.OverwriteHtml.ModifyCoverpage | auto_tagging/overwrite.py:13-54 | the method returns what `utils.modify_coverpage` returns for the same random sources |
| Overwrite.OverwriteHtml.ModifyStatementTables | auto_tagging/overwrite.py:57-106 | the method returns what `utils.modify_statement_tabels` returns for the same random sources |
| Overwrite.OverwriteHtml.ModifyNotespages | auto_tagging/overwrite.py:109-130 | the method returns what `utils.modify_notespages` returns for the same random sources |
| TableUtils.CleanResults | auto_tagging/table_utils.py:45-51 | a pair is kept exactly when its key is longer than one character |
| TableUtils.CleanResultsAppend | auto_tagging/table_utils.py:45-51 | the filter distributes over concatenation, so input order is kept |
| TableUtils.CleanResultsIdempotent | auto_tagging/table_utils.py:45-51 | cleaning twice is cleaning once |
| TableUtils.FirstKey | auto_tagging/table_utils.py:67-76 | the first caption keyword, in dictionary order, that occurs |
| TableUtils.ParseText | auto_tagging/table_utils.py:53-76 | a statement name exactly when some keyword occurs in the normalised caption, namely that of the first such keyword; None otherwise |
| TableUtils.CaptionTextClean | auto_tagging/table_utils.py:60-64 | the normalised caption holds no newline or tab |
| TableUtils.UsedPages | auto_tagging/table_utils.py:391-403 | a 10-K uses every page interval, any other filing at most the first 14 |
| TableUtils.PageTablesCount | auto_tagging/table_utils.py:416-490 | a qualifying shareholders'-equity page gives all its tables, another named page only its first, any other page none |
| TableUtils.PageTablesFromPage | auto_tagging/table_utils.py:416-490 | every chosen table comes from its page, under that page's statement name |
| TableUtils.ChosenFromQualifyingPages | auto_tagging/table_utils.py:416-490 | every chosen table comes from a page whose caption length is strictly between 10 and 500 and names a statement |
| TableUtils.PageStep | auto_tagging/table_utils.py:416-490 | one interval's choice extends the chosen list by that page's tables |
| TableUtils.SelectStatementTables | auto_tagging/table_utils.py:388-490 | the interval loop computes the selection specification |
| TableUtils.OnlyFirstPagesOutsideTenK | auto_tagging/table_utils.py:394-396 | outside 10-K filings no page past the 14th contributes |
| TableUtils.Indices | auto_tagging/table_utils.py:86-93 | the positions where a mask holds, complete and increasing |
| TableUtils.Scrub | auto_tagging/table_utils.py:86-87 | every `$`, `,` and `)` is removed and `(` becomes `-` |
| TableUtils.GetTable | auto_tagging/table_utils.py:79-96 | IndexError exactly when nothing was parsed; otherwise the cleaned first table |
| TableUtils.GetTableScrubbed | auto_tagging/table_utils.py:86-87 | no cell of the result holds `$`, `,`, `)` or `(` |
| TableUtils.GetTableColumnsFilled | auto_tagging/table_utils.py:88-93 | every remaining column is filled in some row after the first |
| TableUtils.GetTableRowsFilled | auto_tagging/table_utils.py:89 | no all-blank row was kept |
| TableUtils.GetTableOneRowNoColumns | auto_tagging/table_utils.py:90-93 | a one-row table ends with no columns |
| TableUtils.TargetRow | auto_tagging/table_utils.py:103-110 | one past the first filled cell of the first column; 1 when that column is blank or there is none |
| TableUtils.HeaderBand | auto_tagging/table_utils.py:112-126 | the rows above the target are joined per column with `" ".join`; the merged row survives exactly when some column's join is non-empty, and an empty join becomes NaN |
| TableUtils.GetColumnDf | auto_tagging/table_utils.py:99-128 | the scan loop finds the target row and returns its header band |
| TableUtils.HeaderKeptWhenLabelled | auto_tagging/table_utils.py:123-126 | a header row with a label in some column is kept |
| TableUtils.MergeDf | auto_tagging/table_utils.py:131-138 | the header row is put above the body rows |
| TableUtils.KeptColumnIndices | auto_tagging/table_utils.py:145-149 | a column is dropped exactly when one or two of its cells print longer than one character (a missing cell prints as `nan` and counts); the kept positions keep their order |
| TableUtils.KeptColumns | auto_tagging/table_utils.py:141-153 | every row is kept, and column k of the result is the k-th kept column of the input |
| TableUtils.DropEmptyCols | auto_tagging/table_utils.py:141-153 | the drop loop computes the kept columns |
| TableUtils.DropEmptyColsIdempotent | auto_tagging/table_utils.py:141-153 | dropping twice is dropping once |
| TableUtils.Undash | auto_tagging/table_utils.py:160-161 | a cleaned cell holds no `-` and is never `—` |
| TableUtils.CreateHeader | auto_tagging/table_utils.py:156-163 | IndexError exactly when there are no rows; the first row names the columns and the body is the rest, undashed |
| TableUtils.GetExcelStatementsTables | auto_tagging/table_utils.py:190-208 | IndexError when nothing was parsed; otherwise the first table with its header band merged on top and its sparse columns dropped, headed by its first row, or headerless when no row remains |
| TableUtils.ExcelHeaderlessIffEmpty | auto_tagging/table_utils.py:200-207 | the table is headerless exactly when the merged frame has no rows |
| TableUtils.RowsInTable | auto_tagging/table_utils.py:211-241 | every row kept is non-empty and holds no cell equal to `$` |
| TableUtils.GetRowsInTable | auto_tagging/table_utils.py:211-241 | the row loop computes the rows specification |
| TableUtils.BlankRowsSkipped | auto_tagging/table_utils.py:216 | a whitespace-only row adds nothing |
| TableUtils.LongCellsMembers | auto_tagging/table_utils.py:247 | a cell is kept exactly when it is longer than one character |
| TableUtils.TagOf | auto_tagging/table_utils.py:257 | a tag's key holds only digits and `.` |
| TableUtils.TagOfLabel | auto_tagging/table_utils.py:252-256 | a cell of exactly two tokens yields its second token as the label, any other cell yields "Others" |
| TableUtils.RowEntry | auto_tagging/table_utils.py:246-263 | a row yields an entry exactly when more than one long cell remains, with one tag per long cell after the first |
| TableUtils.RowContext | auto_tagging/table_utils.py:249-260 | the context starts with the first cell |
| TableUtils.ContextHoldsValues | auto_tagging/table_utils.py:249-260 | the context contains `" " + value` for every tag of the row |
| TableUtils.CleanRowsAndTags | auto_tagging/table_utils.py:244-264 | the loop computes the cleaned rows specification |
| TableUtils.ContextAt | auto_tagging/table_utils.py:334-340 | the running context is `" "` while every earlier cell is a key, else the last non-key cell |
| TableUtils.RowLines | auto_tagging/table_utils.py:335-354 | every line built for a row ends with `==Others` |
| TableUtils.RowColumns | auto_tagging/table_utils.py:335-354 | every recorded column is a column name |
| TableUtils.RowLinesColumns | auto_tagging/table_utils.py:352-354 | a row yields as many lines as columns |
| TableUtils.AlignedLengths | auto_tagging/table_utils.py:287-363 | the two returned lists have equal length |
| TableUtils.AlignContextAndColumnsToData | auto_tagging/table_utils.py:287-363 | the nested loops compute the lowered statement name prefixed to every line, and the columns; the lists are of equal length |
| DeiUtils.CleanTokens | auto_tagging/dei_utils.py:56-57 | every token kept is non-empty, and no token is added |
| DeiUtils.TextTokens | auto_tagging/dei_utils.py:50-58 | one token list per sentence, in order |
| DeiUtils.EmptyRowSkipped | auto_tagging/dei_utils.py:71 | a row without a non-empty cell adds nothing |
| DeiUtils.RowsStep | auto_tagging/dei_utils.py:66-85 | the row loop computes the token lists of the rows: non-empty cells joined by a space, rows with none skipped |
| DeiUtils.DivStep | auto_tagging/dei_utils.py:37-156 | one div's token lists are the span-only, span-and-table, `<p>` and final branches in that order |
| DeiUtils.CollectTokens | auto_tagging/dei_utils.py:37-156 | the div loop computes the concatenation of each div's token lists |
| DeiUtils.SpanOnlyTwice | auto_tagging/dei_utils.py:45-60 | a span-only div with no table or `<p>` emits its sentences twice in a row |
| DeiUtils.SpanAndTable | auto_tagging/dei_utils.py:62-85 | a div with span and table yields its first table's rows, then its `<p>` texts, then its full text |
| DeiUtils.NoSpan | auto_tagging/dei_utils.py:104-140 | a div without span yields its `<p>` texts, then its full text when it has no `<tr>` row, otherwise every row |
| DeiUtils.CollectedAppend | auto_tagging/dei_utils.py:37-156 | harvesting two runs of divs is harvesting each in turn |
| DeiUtils.CollectedNonEmpty | auto_tagging/dei_utils.py:52-58 | every emitted token list holds only non-empty tokens |
| DeiUtils.ProcessPTagsIgnoresFirst | auto_tagging/dei_utils.py:158-167 | the first `<p>` never contributes |
| DeiUtils.SplitPageAndExtractText | auto_tagging/dei_utils.py:169-236 | fails exactly with one `hr` and no comment marker; no marker gives `[]` |
| DeiUtils.CommentPageSelection | auto_tagging/dei_utils.py:192-207 | more than ten divs after the first are harvested directly, falling back to the `<p>`s and tables when that is empty; any other count, ten included, uses the `<p>`s and tables |
| DeiUtils.Inner | auto_tagging/dei_utils.py:244-245 | `xs[1:-1]`: two fewer elements, shifted by one |
| DeiUtils.KeptRows | auto_tagging/dei_utils.py:239-253 | the kept words and labels are equally many |
| DeiUtils.KeepStep | auto_tagging/dei_utils.py:244-251 | a row is appended exactly when its inner word and label counts are equal and above one |
| DeiUtils.RemoveUnpredictedRows | auto_tagging/dei_utils.py:239-253 | the loop computes the kept rows, and the outputs have equal length |
| DeiUtils.ShortRowsDropped | auto_tagging/dei_utils.py:247-248 | a row of at most three labels is always dropped |
| DeiUtils.KeyIndex | auto_tagging/dei_utils.py:289 | the position of a dictionary key, or none when absent |
| DeiUtils.AddItemOk | auto_tagging/dei_utils.py:287-292 | adding a placed item keeps keys distinct and every item placed |
| DeiUtils.GroupRow | auto_tagging/dei_utils.py:286-292 | the inner item loop computes the specification |
| DeiUtils.FormatProcessedResult | auto_tagging/dei_utils.py:276-298 | the grouping and deletion loops compute the specification |
| DeiUtils.GroupingHas | auto_tagging/dei_utils.py:285-292 | every placed item of every row read is listed under that row |
| DeiUtils.WithoutFilersMembers | auto_tagging/dei_utils.py:294-296 | exactly the entries whose row does not mention "filer" in any case are kept |
| DeiUtils.FormatProcessedResultCorrect | auto_tagging/dei_utils.py:276-298 | keys are distinct input rows with no "filer"; every item occurs in its row and is longer than one character; every such item of every non-filer row is listed |
| NotesUtils.CleanToken | auto_tagging/notes_utils.py:45-47 | a cleaned token holds no `$` and does not end with `.` |
| NotesUtils.CleanTokenPlain | auto_tagging/notes_utils.py:45-47 | a token without `$` that does not end with `.` is unchanged |
| NotesUtils.VariedIff | auto_tagging/notes_utils.py:50 | `len(set(tokens)) > 1` exactly when two tokens differ |
| NotesUtils.ProcessTextTokens | auto_tagging/notes_utils.py:33-53 | no output token holds `$` or ends with `.` |
| NotesUtils.SentenceVerdict | auto_tagging/notes_utils.py:50-51 | a sentence whose tokens are all equal adds nothing; any other adds all its tokens, in order |
| NotesUtils.SentenceTokens | auto_tagging/notes_utils.py:42-48 | the token loop computes the cleaned tokens of a sentence |
| NotesUtils.ProcessText | auto_tagging/notes_utils.py:33-53 | the sentence loop computes the specification |
| NotesUtils.ElementRow | auto_tagging/notes_utils.py:70-74 | an element that yields a row yields a non-empty one |
| NotesUtils.NerRows | auto_tagging/notes_utils.py:67-74 | at most one row per element |
| NotesUtils.SpansIgnoredWithParagraphs | auto_tagging/notes_utils.py:66-84 | with any `<p>` present the spans are ignored |
| NotesUtils.GetNerData | auto_tagging/notes_utils.py:66-86 | the element loop computes the rows of the `<p>`s, or of the spans when there is no `<p>` |
| NotesUtils.FirstLabel | auto_tagging/notes_utils.py:95-96 | the first element of the label set is one of the labels |
| NotesUtils.KeptNotes | auto_tagging/notes_utils.py:88-99 | on success the kept inputs and outputs are equally many; a failure is IndexError |
| NotesUtils.KeptNotesFailsIff | auto_tagging/notes_utils.py:94-96 | the cleaning fails exactly when some input row lacks a non-empty label row |
| NotesUtils.NotesRowVerdict | auto_tagging/notes_utils.py:95-98 | whatever the set order, an all-"O" row is dropped and a row without "O" is kept |
| NotesUtils.KeptNotesAligned | auto_tagging/notes_utils.py:94-98 | each kept input travels with its own label row |
| NotesUtils.CleanNotesOutputs | auto_tagging/notes_utils.py:88-99 | the index loop computes the specification |
| Tagging.TableOutputValues | auto_tagging/tagging.py:116 | a string is excluded exactly when it is the key of some cleaned table pair |
| Tagging.HalvesIndependent | auto_tagging/tagging.py:126-134 | the cover half depends only on the cover page; the remainder half does not depend on the cover choices |
| Tagging.TableRowsLong | auto_tagging/tagging.py:98-99 | every injected table key is longer than one character |
| Tagging.NotesOutputsClean | auto_tagging/tagging.py:115-118 | notes pairs are longer than one character and never labelled "O" |
| Tagging.NotesRowsCleanAndExcluded | auto_tagging/tagging.py:116-131 | every injected notes row has a long key, a label other than `us-gaap:O`, and a text no table pair used |
| Tagging.TableKeyNotReinjected | auto_tagging/tagging.py:116-131 | a table key is never injected again by the notes pass |

## Left out

- I/O is not modelled: file reads and writes, the Flask app, the database, S3 and `shutil`.
- HTML parsing and the final reparse are not modelled. Pages are sequences of sibling nodes, and containers are records of what BeautifulSoup would report.
- `pd.read_html`'s number conversion is not modelled. Cells are the strings it would produce.
- The taggers (`modelling.py`, `table_modelling.py`) are left out. Their predictions are inputs.
- nltk's `sent_tokenize` and `clean_text` are uninterpreted function parameters. So is `convert_float_to_int`, which parses floats.
- `random.choice`, `random.randint` and `uuid1` are parameters, given as draws per row.
- Python set iteration order is a parameter. It is an enumeration of the set, or a `pick` choice for `list(set(labels))[0]`.
- Overlapping placeholders from the 1000-9999 range are not excluded. `Injection.NoPlaceholderSurvives` assumes fresh placeholders, and the finding below shows how that fails.
- Injection.NoPlaceholderSurvives: holds only under its freshness assumption. Every placeholder must start with a marker that occurs nowhere else, share one length, hold no `>`, and no text may begin inside one. Without these, `Injection.CoverTextLost` shows a placeholder surviving.
- `clean_duplicate_columns` (auto_tagging/table_utils.py:166-187) is not modelled. It depends on pandas `drop_duplicates`, `max` over object columns and exception-driven fallbacks.
- The rename of the first column to "index" (auto_tagging/table_utils.py:203-205) is not modelled.
- `df_row_text` in `align_context_and_columns_to_data` (auto_tagging/table_utils.py:319-328) is not modelled. It is only logged.
- The hr-marker branch of `save_html_statements_tables` (auto_tagging/table_utils.py:493-596) is not modelled. It passes `get_text_outside_table`'s pair without unpacking it.
- `post_process_tags` (auto_tagging/dei_utils.py:256-274) is not modelled. It calls nltk's `pos_tag` and `conlltags2tree`.
- `HtmlContent`, `FileManager`, `ProcessText` and `get_text_outside_table` are not part of this model. The sibling walks stand in for the first of these.
- Utils.FirstStandalone: reads `\d` as the ASCII digits 0-9 and `\w` (so also `\b`) as ASCII letters, digits and underscore. Python's `re` on `str` counts every Unicode decimal digit and alphanumeric, so "é5" has no standalone run in Python but one here, and an Arabic-Indic digit is one in Python but not here. The Unicode character database is not modelled.
- Utils.ExtractNumberFromText: inherits the ASCII reading of `\b\d+\b` and reads only ASCII digits, where Python's `int()` also accepts other Unicode decimal digits.
- Utils.ProcessTableResults: builds its table keys through Utils.ExtractNumberFromText, so the same ASCII reading applies. So does Utils.TableKeyReadsBack.
- Strings.Upper: uses ASCII case mapping only, because Python's full Unicode mapping is not modelled. The same holds for Strings.Lower.
- TableUtils.CleanResults: models each result dict as a single pair, because every dict the pipeline builds holds one key.
- DeiUtils.FormatProcessedResultCorrect: does not state the order of items within a row. An input row that occurs twice lists its items once per occurrence.
- Tagging.HalvesIndependent: relates the halves by construction and does not re-prove the injection properties. Those are stated by the Injection lemmas it composes.

## Findings

| source | as written | input that shows it | evidently intended | confidence | as-written member | corrected member |
|---|---|---|---|---|---|---|
| auto_tagging/utils.py:259-264 | a fallback text is replaced everywhere, including inside earlier placeholders `__placeholder_NNNN__` | page "QQ10" with cover pairs ("QQ", X) then ("10", X) and draws giving `__placeholder_1045__` then `__placeholder_2222__`: "10" rewrites the first placeholder, which is never resolved, and "QQ" disappears from the page | every placeholder is resolved, each into the wrapper of its own row | not executed | Injection.CoverTextLost | Injection.MarkedPlaceholdersResolved |
