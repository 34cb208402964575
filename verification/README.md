# md-tag: a Dafny model of the tagging and lint-fixing text routines

md-tag adds hashtag keywords to the YAML frontmatter of Markdown notes, and it
repairs notes that markdownlint-cli2 complains about. Both tools are glue around
LLM calls. Between those calls sit small, deterministic string and sequence
routines. This project models those routines as pure Dafny functions and proves
what they promise.

| module | file | what it models |
|---|---|---|
| `Strings` | strings.dfy | Python's `str.strip`, `lstrip`, `split`, `find`, `join`, `lower`, digit runs and integer printing, on `seq<char>` |
| `Chunker` | chunker.dfy | `MarkdownTagger.split_into_chunks`: greedy line packing under a token budget, with a sentence fallback |
| `TagParse` | tag_parse.dfy | the end of `generate_tags_for_chunk`: find the hashtag section of a reply and filter its lines into tags |
| `Dedup` | dedup.dfy | case-insensitive, first-occurrence-wins de-duplication (the loop in `update_frontmatter_with_tags`) |
| `TagMerge` | tag_merge.dfy | `merge_and_deduplicate_tags`: count, stable sort by count, recover original spellings |
| `Frontmatter` | frontmatter.dfy | the two `---` splitters (`parse_markdown_file`, `parse_markdown_with_frontmatter`) and `update_frontmatter_with_tags` |
| `LintParse` | lint_parse.dfy | the line parser in `MarkdownLinter.lint_file` and its file filter |
| `LintReport` | lint_report.dfy | `MarkdownFixer._format_lint_results`: group by rule number, show at most three examples |
| `OllamaCleanup` | ollama_cleanup.dfy | the reply clean-up in `MarkdownFixer.fix_markdown` |
| `FixerOutput` | fixer_output.dfy | the output filter of `run_markdownlint`, and the reply normalisation in `main` of markdown_fixer.py |

Calls that reach outside the program become parameters:
- the tokenizer is `count: string -> nat`, with nothing assumed about it;
- `yaml.safe_load` is `load: string -> Loaded`;
- a failed file read is `None`.

Frontmatter is an ordered sequence of key/value fields. Each value is a string,
a list of strings, a string-keyed mapping, or anything else.

Two regular expressions in the source are non-trivial to reproduce. Both are
modelled exactly, except that `\d` and `\w` are ASCII (see "## Left out"):
- `^(.+?):(\d+)(?::(\d+))? (MD\d+(?:/[\w-]+)?) (.+)$` (mdfm_ollama.py:42).
  Its lazy first group makes the file name the shortest prefix, ending before a
  `:`, whose remainder matches the rest of the pattern. `LintParse.MatchLine`
  states exactly that.
- `^[^:]+\.md:(\d+(?::\d+)?)` with `re.MULTILINE` (markdown_fixer.py:58).
  Here `[^:]` also matches a newline, so a match can start on an earlier line;
  see "## Findings".

Where the code and its comments or stated intent disagree, the model follows
the code:
- `merge_and_deduplicate_tags` says it keeps "the top 10" (md_tagger.py:226), but
  it truncates nothing.
- It says it restores the first-seen spelling (md_tagger.py:230). It looks only
  in the first non-empty chunk list (see "## Findings").
- The heading branch of `split_into_chunks` (md_tagger.py:63-68) does the same
  thing on both sides. The model keeps both branches, and they are equal.

## Model

| member | source | states |
|---|---|---|
| Strings.Strip | md_tagger.py:189 | the result has no whitespace at either end, is no longer than the input, and is empty exactly when the input is blank |
| Strings.StripIdempotent | md_tagger.py:191 | stripping twice gives the same as stripping once |
| Strings.Split | md_tagger.py:48 | `split` gives at least one piece, and joining the pieces with the separator gives back the text |
| Strings.SplitPiecesFree | md_tagger.py:48 | no piece of a split contains the separator |
| Strings.Lower | md_tagger.py:220 | lower-casing keeps the length and maps every character on its own |
| Strings.LStripChar | markdown_fixer.py:74 | `lstrip(c)` removes exactly the leading run of `c`, and the result is a suffix of the input |
| Chunker.SplitIntoChunks | md_tagger.py:38-88 | `None` gives no chunks; every chunk is non-empty and equal to its own strip; the chunks are the flushed non-blank buffers, stripped, in order |
| Chunker.NonBlank | md_tagger.py:58-59 | the buffers kept by `if current_chunk.strip()` are a subsequence: exactly the non-blank ones |
| Chunker.FlushedWithinBudget | md_tagger.py:50-86 | every flushed buffer fits the budget, or is one sentence of the fallback split plus ". " that alone exceeded it |
| Chunker.PackLinesAdmissible | md_tagger.py:50-82 | the line loop keeps every buffer blank, within budget, or one overlong sentence |
| Chunker.PackSentencesAdmissible | md_tagger.py:73-82 | the sentence loop keeps every buffer blank, within budget, or one overlong sentence |
| Chunker.LineStepAdmissible | md_tagger.py:51-82 | one line step keeps every buffer blank, within budget, or one overlong sentence |
| Chunker.LineStepConcat | md_tagger.py:51-68 | a line that fits on its own is added whole, to the open buffer or to a fresh one |
| Chunker.PackLinesConcat | md_tagger.py:50-68 | when each line with its "\n" fits, the closed buffers plus the open one grow by exactly the lines, each with "\n" |
| Chunker.BuffersReconstructText | md_tagger.py:48-86 | when each line with its "\n" fits, the buffers in order, blank ones included, concatenate to text + "\n" |
| Chunker.EmptyTextHasNoChunks | md_tagger.py:48-88 | the empty text gives no chunk when a bare "\n" fits |
| TagParse.TagSection | md_tagger.py:179-186 | with `**해시태그:**` the section lies between its first and second occurrence; otherwise the same holds for `해시태그:`; otherwise it is the whole text |
| TagParse.AfterFirstIsBetween | md_tagger.py:181-183 | `text.split(marker)[1]` is the text between the first occurrence and the next |
| TagParse.AfterFirstSecondMarker | md_tagger.py:181-183 | with a second occurrence, the section ends right before it |
| TagParse.AfterFirstNoSecondMarker | md_tagger.py:181-183 | without a second occurrence, the section runs to the end of the text |
| TagParse.CleanLine | md_tagger.py:191-196 | a cleaned line holds no '_' and no ' ' |
| TagParse.TagsOfLinesMembers | md_tagger.py:190-199 | t is a tag exactly when some line cleans to t and t is longer than one character with a Hangul syllable |
| TagParse.TagsOfLinesCount | md_tagger.py:190-199 | each acceptable cleaned line is a tag as often as it occurs, and nothing else is |
| TagParse.ExtractTags | md_tagger.py:178-201 | the tags are the acceptable cleaned lines of the stripped section: a subsequence of the cleaned lines, each with its multiplicity, none holding '_' or ' ' |
| TagParse.UnlabelledResponseReadWhole | md_tagger.py:184-189 | a reply without a label is read whole |
| Dedup.FirstWithKey | md_tagger.py:262-267 | the first entry with a given lower-cased key, none exactly when no entry has it |
| Dedup.FirstKeyIndex | md_tagger.py:262-267 | the position of the first entry with a key: every earlier entry has another key, and the position is in range exactly when the key occurs |
| Dedup.Dedup | md_tagger.py:258-267 | the result is a subsequence of the input; no two entries share a lower-cased key; every key of the input is kept; each entry is its key's first spelling; entries follow their keys' first occurrences |
| Dedup.DedupFirstOccurrence | md_tagger.py:262-267 | every entry kept is the first spelling of its key in the input |
| Dedup.DedupFromAppend | md_tagger.py:262-267 | de-duplicating a + b gives a de-duplicated, then b de-duplicated against the keys already seen |
| Dedup.DedupFromDistinct | md_tagger.py:262-267 | a list with distinct keys, none seen before, is kept whole |
| Dedup.DedupIdempotent | md_tagger.py:258-267 | de-duplicating twice gives the same as once |
| Dedup.DedupAbsorbs | md_tagger.py:258-267 | appending tags whose keys are all present changes nothing |
| TagMerge.CountTags | md_tagger.py:215-224 | the tally has one entry per key, with that key's count, in first-seen order |
| TagMerge.SortByCountRanked | md_tagger.py:227 | the stable descending sort is a permutation, ordered by count with ties in first-seen order |
| TagMerge.InsertPerm | md_tagger.py:227 | inserting an entry adds exactly that entry |
| TagMerge.InsertRanked | md_tagger.py:227 | inserting an entry into a ranked list keeps it ranked |
| TagMerge.RankedKeys | md_tagger.py:215-227 | the sorted keys are exactly the keys counted, ranked by count and then by first occurrence |
| TagMerge.RecoverRanked | md_tagger.py:231-238 | recovering spellings keeps the ranking of the keys |
| TagMerge.MergeAndDeduplicate | md_tagger.py:207-243 | empty input gives []; no two entries share a key; entries are ranked by total count, ties by first occurrence; each entry is its key's first spelling in the first non-empty chunk list, and exactly that list's keys appear |
| TagMerge.FirstListCounted | md_tagger.py:216-241 | every key of the first non-empty chunk list is counted |
| TagMerge.FirstListIsPrefix | md_tagger.py:234-241 | the first non-empty chunk list's tags open the flattened tag list |
| TagMerge.MergeFirstSeen | md_tagger.py:230-243 | the corrected merge: the same ranking, every counted key kept, each entry its key's first spelling across all chunks |
| TagMerge.AgreeWhenFirstListComplete | md_tagger.py:232-241 | when the first non-empty chunk list holds every key, the merge as written equals the corrected one |
| TagMerge.AsWrittenDropsLaterKeys | md_tagger.py:240-241 | a key missing from the first list is dropped as written, and kept by the corrected merge |
| Frontmatter.FenceSplit | md_tagger.py:103-105 | a fence exists exactly when the text starts with `---` and holds another `---` after it; the text is `---` + inner + `---` + rest, with no `---` inside |
| Frontmatter.FenceSplitIsPythonSplit | md_tagger.py:104-107 | the fence agrees with `content.split('---', 2)`: it exists when there are three parts, and inner and rest are parts 1 and 2 |
| Frontmatter.InnerHasNoDashes | markdown_fixer.py:71-73 | the text between the markers holds no `---` |
| Frontmatter.Lookup | md_tagger.py:253 | `get` finds none exactly when the key is absent, else a field of the mapping |
| Frontmatter.Put | md_tagger.py:269 | writing a key keeps an existing key's place and adds a new key last |
| Frontmatter.PutWellFormed | md_tagger.py:269 | writing a key keeps every key unique |
| Frontmatter.PutLookup | md_tagger.py:269 | after writing, the key holds the new value and every other key its old one |
| Frontmatter.PutSame | md_tagger.py:269 | writing the value a key already holds changes nothing |
| Frontmatter.ParseMarkdownFile | md_tagger.py:98-126 | a failed read gives (None, ""); an unfenced file gives no fields and its text; a fenced one gives the loaded mapping (an empty one when the YAML is null or invalid) and the stripped rest |
| Frontmatter.SavedFileParses | md_tagger.py:305-309 | a file as save_markdown_file writes it reads back as the loaded YAML text and the stripped body |
| Frontmatter.ParseWithFrontmatter | markdown_fixer.py:66-78 | no fence gives (None, content); a fence gives the stripped inner text, free of `---`, and the rest without its leading newlines |
| Frontmatter.FenceParts | markdown_fixer.py:73-75 | the body is the rest with only leading newlines removed, and does not start with one |
| Frontmatter.FixerBodyIsSuffix | markdown_fixer.py:74 | the body is a suffix of the document |
| Frontmatter.FixerReadsFence | markdown_fixer.py:69-75 | `---` + yaml + `---` + body reads back as the stripped yaml and the body without leading newlines |
| Frontmatter.ExistingTags | md_tagger.py:253-258 | a missing key gives no tags; a string becomes a one-item list; a list gives its items; a mapping gives its keys; anything else raises |
| Frontmatter.UpdateFrontmatterWithTags | md_tagger.py:245-271 | it raises exactly when the existing value is unusable; otherwise `tags` holds the de-duplicated existing + new tags, every other key is unchanged, and the keys keep their order with `tags` last when new |
| Frontmatter.UpdateIdempotent | md_tagger.py:249-269 | adding the same tags a second time changes nothing |
| LintParse.ParseRuleAndDescription | mdfm_ollama.py:42 | `(MD\d+(?:/[\w-]+)?) (.+)$` splits into a rule and a non-empty description that print back to the input |
| LintParse.ParseColumn | mdfm_ollama.py:42 | the optional `:col` is digits, and the parts print back to the input |
| LintParse.ParseTail | mdfm_ollama.py:42 | everything after `path:` parses exactly when it matches the pattern, and the parts print back to it |
| LintParse.ParseTailComplete | mdfm_ollama.py:42 | every well-formed tail parses back to itself |
| LintParse.MatchLine | mdfm_ollama.py:42-43 | a match splits the line into file, `:` and tail; no shorter file prefix gives a match; no match means no prefix does |
| LintParse.ParseLine | mdfm_ollama.py:45-50 | a record exists exactly when the line matches; line is group 2 as a number, column is group 3 or 0 |
| LintParse.ParseRendered | mdfm_ollama.py:42-59 | printing an issue as the linter does and parsing it back gives the same issue |
| LintParse.PreFilterRedundant | mdfm_ollama.py:34-45 | every line the parser accepts is non-blank and holds ':', so the pre-filter drops nothing it would keep |
| LintParse.Basename | mdfm_ollama.py:53 | the base name is the path's suffix after its last '/' |
| LintParse.LineIssue | mdfm_ollama.py:43-60 | a line yields an issue exactly when it parses and its file is the path or ends with the path's base name |
| LintParse.ReaderReads | mdfm_ollama.py:43-60 | the per-line reader returns an issue exactly when the line parses to it and the file filter keeps it |
| LintParse.OutputLines | mdfm_ollama.py:32 | the lines of the stripped stderr, none holding a newline |
| LintParse.LintLinesAppend | mdfm_ollama.py:33-60 | issues follow stderr line order: the issues of a + b are those of a, then those of b |
| LintParse.LintFile | mdfm_ollama.py:30-66 | empty stderr gives no issues; an issue is returned exactly when some stderr line parses to it and the file filter keeps it |
| LintParse.LintFileOneLine | mdfm_ollama.py:30-60 | a stderr holding one printed issue gives that issue |
| LintReport.RuleKey | mdfm_ollama.py:186 | the group key is the rule's text before its first '/' |
| LintReport.AddKeepsOrder | mdfm_ollama.py:187-189 | adding an issue keeps groups ordered by where their rule number first occurs |
| LintReport.GroupsCorrect | mdfm_ollama.py:184-189 | each group holds exactly the issues with its rule number, in order; every rule number has one group; groups follow first occurrence |
| LintReport.GroupSizesSum | mdfm_ollama.py:184-193 | the group sizes sum to the number of issues |
| LintReport.GroupLines | mdfm_ollama.py:193-199 | one header, at most three examples, and a "... 그 외 k개 더" line with k = size − 3 exactly when the size exceeds three |
| LintReport.GroupedLines | mdfm_ollama.py:191-199 | the report holds one "... 그 외 k개 더" line for each rule group with more than three issues, and no other |
| LintReport.GroupedHeaders | mdfm_ollama.py:191-193 | the header lines of the report are the groups' headers, in group order |
| LintReport.ReportLines | mdfm_ollama.py:184-199 | the report's header lines are one per rule number, in first-seen order; the report opens with a header; its "more" lines are one per group with more than three issues |
| LintReport.FormatLintResults | mdfm_ollama.py:178-201 | the fixed no-issues message comes back exactly for no issues; otherwise the grouped lines joined by "\n", starting with "\n" |
| OllamaCleanup.RemoveThink | mdfm_ollama.py:149 | removing `<think>` blocks never lengthens the text and leaves text without `<think>` unchanged |
| OllamaCleanup.ThinkBlockRemoved | mdfm_ollama.py:149 | a `<think>...</think>` block is removed with its content, and the text around it is kept |
| OllamaCleanup.Unfence | mdfm_ollama.py:152-155 | a reply that opens and closes with ``` and has more than two lines loses exactly its first and last lines; any other reply is kept |
| OllamaCleanup.UnfenceDropsFenceLines | mdfm_ollama.py:152-155 | for fence lines a and b around a body, the unwrapped reply is the body |
| OllamaCleanup.CollapseRun | mdfm_ollama.py:158 | a whitespace run stays whitespace and is empty only when it was |
| OllamaCleanup.CollapseKeepsVisible | mdfm_ollama.py:158 | collapsing blank lines keeps every non-whitespace character, in order |
| OllamaCleanup.CollapseKeepsBlank | mdfm_ollama.py:158 | the collapsed text is blank exactly when the text was |
| OllamaCleanup.CollapseKeepsLast | mdfm_ollama.py:158 | a text ending in a visible character still ends in it |
| OllamaCleanup.CollapseTrimmed | mdfm_ollama.py:158-159 | a text with visible ends collapses to a non-empty text with the same visible ends |
| OllamaCleanup.Cleanup | mdfm_ollama.py:146-161 | the result is the original document, or non-empty with no whitespace at either end; a reply that is blank after the clean-up gives the original |
| OllamaCleanup.CleanupPlainReply | mdfm_ollama.py:146-161 | a reply without `<think>` or a fence gives its collapsed strip, or the original when blank |
| OllamaCleanup.CleanupThinkOnly | mdfm_ollama.py:146-161 | a reply that is only a `<think>` block gives the original document |
| OllamaCleanup.CleanupFencedReply | mdfm_ollama.py:146-161 | a reply fenced by ``` lines gives the stripped, collapsed body, or the original when the body is blank |
| FixerOutput.Kept | markdown_fixer.py:29-36 | the kept lines are a subsequence: exactly the lines without `MD013/line-length` |
| FixerOutput.Marked | markdown_fixer.py:30-35 | the dropped count and the kept lines add up to all lines |
| FixerOutput.KeptAppend | markdown_fixer.py:32-36 | filtering a + b filters a and b separately and adds the counts |
| FixerOutput.SummaryStart | markdown_fixer.py:44 | a summary match is `Summary: ` + digits + ` error(s)` at the start of the text |
| FixerOutput.ReplaceSummaryText | markdown_fixer.py:49-53 | a summary followed by text in which no other summary starts is replaced, and the text after it is kept |
| FixerOutput.RewriteWithCount | markdown_fixer.py:42-53 | with a summary present, every summary is rewritten with the first one's count minus the lines dropped |
| FixerOutput.SummaryRewritten | markdown_fixer.py:42-53 | a report with one summary match, none starting before or after it, gets that count lowered by the lines dropped, and nothing else changes |
| FixerOutput.PlainTextNoSummary | markdown_fixer.py:44-45 | no summary match can start inside text that holds no 'S', whatever follows that text |
| FixerOutput.PathAt | markdown_fixer.py:58 | a match is a colon-free path ending in `.md`, a ':', and a group starting with a digit |
| FixerOutput.StripLinePath | markdown_fixer.py:58 | a line without a match is kept; a matching line loses exactly its path and colon |
| FixerOutput.StripLinePathOf | markdown_fixer.py:58 | `p.md:digits...` becomes `digits...` |
| FixerOutput.StripPathsAsWritten | markdown_fixer.py:58 | the substitution never lengthens the text |
| FixerOutput.SubPathsLines | markdown_fixer.py:58 | when every line but the last holds a ':', the substitution works line by line |
| FixerOutput.AsWrittenAgrees | markdown_fixer.py:58 | in that case the substitution as written equals the corrected, line-by-line one |
| FixerOutput.AsWrittenSwallowsLine | markdown_fixer.py:58 | as written, a colon-free line before `y.md:n` is removed along with the path |
| FixerOutput.CorrectedKeepsLine | markdown_fixer.py:58 | the corrected substitution keeps that line and strips only the path |
| FixerOutput.FilteredReportsAgree | markdown_fixer.py:26-60 | on reports whose lines all hold a ':' except the last, the filter as written and the corrected one agree |
| FixerOutput.FilteredReportOnlyStripsPaths | markdown_fixer.py:26-58 | without MD013 lines or a summary, the filter only removes paths |
| FixerOutput.FilteredReportSwallowsLine | markdown_fixer.py:26-60 | as written, the report "x\ny.md:n" comes back as "n"; the corrected filter gives "x\nn" |
| FixerOutput.Normalise | markdown_fixer.py:239-249 | the saved text ends with one "\n", and no whitespace sits at its start or before that "\n", unless it is just "\n" |
| FixerOutput.NormaliseIsStrip | markdown_fixer.py:239-249 | the result is the fence-free reply, stripped, plus "\n" |
| FixerOutput.NormaliseFenced | markdown_fixer.py:239-246 | a reply fenced by ```` ```markdown ```` and ``` gives its stripped body plus "\n" |
| FixerOutput.NormalisePlain | markdown_fixer.py:239-249 | a reply without fences gives its strip plus "\n" |
| FixerOutput.NormaliseFixed | markdown_fixer.py:246-249 | an already normalised text is kept |
| FixerOutput.NormaliseIdempotent | markdown_fixer.py:239-249 | normalising twice gives the same as once |
| FixerOutput.SavedFixedFile | markdown_fixer.py:234-253 | a reply starting with "Error:" saves nothing; any other saves a text ending with "\n" |

## Left out

- The LLM calls are not modelled: `ollama.generate`, `requests.post` and the OpenAI client. The model starts from the reply text.
- The markdownlint-cli2 subprocess is not modelled: stdout and stderr are inputs.
- File reads and writes, directory discovery, argparse, exit codes and every `print` are I/O.
- `main.py` is not part of this model.
- `yaml.safe_load` and `yaml.dump` are opaque library calls: `load` is a parameter, and the saved YAML text is an input.
- tiktoken is a foreign library: the token counter is the parameter `count`, with no property assumed.
- The meta-tag removal at md_tagger.py:172-176 is not modelled. It is four regular-expression substitutions before the section search, so `TagParse` starts from the text they leave.
- Strings.Lower: lower-cases ASCII letters only, because Python's Unicode case mapping is a large table. Non-ASCII letters, Hangul included, are left as they are.
- LintParse.ParseTail: `\d` and `\w` are ASCII digits and ASCII word characters. Python's `re` also accepts other Unicode digits and letters in a `str` pattern.
- FixerOutput.SummaryStart: `\d` is ASCII digits only, as above.
- FixerOutput.PathAt: `\d` in `^[^:]+\.md:(\d+(?::\d+)?)` (markdown_fixer.py:58) is ASCII digits only, as above. A report line such as `a.md:` followed by an Arabic-Indic digit loses its path in Python but is kept whole by the model.
- Frontmatter.ExistingTags: sees a mapping only through its string keys. A mapping with a non-string key falls under "anything else" and raises. In Python, `list()` of such a mapping succeeds, and the update then raises AttributeError at `tag.lower()` (md_tagger.py:264). A YAML `!!set` is also "anything else", though Python would list it in hash order.
- Frontmatter.ParseMarkdownFile: `Loaded` cannot hold a YAML document whose top level is a list or a scalar. Python returns such a value as the frontmatter. A non-empty one then makes `frontmatter.get` raise AttributeError in the update. An empty one is replaced by `{}` (md_tagger.py:249-250).
- Frontmatter.UpdateFrontmatterWithTags: gives `Raised` for every exception without telling TypeError from AttributeError. It also returns new fields rather than mutating the caller's dict.
- The `ValueError`/`IndexError` handler at mdfm_ollama.py:62-64 has no counterpart: it cannot fire on a matched line. The handlers at mdfm_ollama.py:68-73 catch subprocess failures, which are not modelled.
- The HTTP status check and the exception handlers in `fix_markdown` (mdfm_ollama.py:144, 162-176) only return the original document. The clean-up takes the reply as given.
- Printing of rule counts in `process_file` is console output only.

## Findings

| source | as written | input that shows it | evidently intended | confidence | as-written member | corrected member |
|---|---|---|---|---|---|---|
| md_tagger.py:240 | `if len(final_tags) > len(sorted_tags[:len(final_tags)]) - 1: break` holds after every chunk list visited, so a spelling is searched for only in the first non-empty chunk list. A key that first appears in a later list is dropped | `[["a", "b", "a"], ["b", "c"]]` counts a:2, b:2, c:1 but returns `["a", "b"]` | each counted key is returned once, with its first spelling across all chunk lists (md_tagger.py:230) | not executed | TagMerge.MergeAndDeduplicate, TagMerge.AsWrittenDropsLaterKeys | TagMerge.MergeFirstSeen, TagMerge.AgreeWhenFirstListComplete |
| markdown_fixer.py:58 | `^[^:]+\.md:(\d+(?::\d+)?)` with `re.MULTILINE`: `[^:]` also matches a newline, so a match that starts on a colon-free line runs on into the next line and removes both | the report `"x\ny.md:1"` becomes `"1"` | each line loses only its own `path.md:` prefix, giving `"x\n1"` | not executed | FixerOutput.StripPathsAsWritten, FixerOutput.AsWrittenSwallowsLine, FixerOutput.FilteredReportSwallowsLine | FixerOutput.StripPaths, FixerOutput.CorrectedKeepsLine, FixerOutput.FilteredReportPerLine |
