# Gene tagger core in Dafny

This project models the `Tagger` class of `01_Gene_Tagger/tagger.py`. It is a
count-based, emission-only tagger for gene-name recognition:

- **Training.** It reads a counts file line by line. A `WORDTAG` record adds its count to
  three tables: the tag total, the word total, and the tag's emission row.
  A `GRAM` record adds its count to an n-gram table.
- **Rare-word folding.** `flag_rare_words` copies the counts of every word seen fewer than
  five times into the pseudo-word `_RARE_`.
- **Tagging.** Each input line gets the tag with the highest emission probability for its word,
  or for `_RARE_` in place of a rare or unseen word. Ties go to the first tag in iteration order.

Layout, one module per file:

- `Wrappers.dfy`: the `Option` type.
- `Text.dfy`: the Python string operations the tagger uses. These are `split(' ')`, `strip()`,
  `' '.join`, the `'GRAM' in s` test and `int()` on a count field.
- `Sums.dfy`: count dictionaries, and the sum of their values.
- `CountModel.dfy`: the four tables as a value (`Tables`), what one record does to them, the
  line dispatch of `read_tag_count_file`, and `get_emission_prob`.
- `RareWords.dfy`: `get_rare_keyword`, the word resolution of `get_tag`, and the folding of
  `flag_rare_words` as functions, with their lemmas.
- `Tagging.dfy`: the tag choice of `get_tag`, and the per-line output of `tag_file`.
- `Tagger.dfy`: `class Tagger`. Its four dictionaries (and the iteration order of the emission
  rows) are fields updated in place. Each method is proved against the functions above.

The Python class keeps its dictionaries as class attributes. The model makes them fields of one
instance, initially empty.

Python exceptions are modelled as results: a raising line is reported by the index at which the
loop stops.

- A row that `process_wordtag` or `process_ngram` rejects leaves the tables unchanged. Python
  raises before it changes anything.
- A line that crashes `tag_file` writes nothing from that line on. There are two causes:
  - the division in `get_emission_prob` meets a zero tag total;
  - no tag is chosen, and `' '.join([word, None])` fails.

The dictionaries iterate in an order that Python 2 leaves unspecified. The field `tagOrder`
fixes one order: the emission rows, oldest first. This makes the first-maximum tie-break
well defined.

Two properties of folding are stated as the code behaves. In both the model follows the code:

- **Folding copies counts.** The docstring of `flag_rare_words` (`tagger.py:52-53`) speaks of
  replacing a rare word with a `_RARE_` keyword in the emissions data. Lines 66-71 only add to
  `_RARE_` and leave the rare word's own entry in place, so emission sums grow
  (`FoldIntoSum`, `FoldRareSums`).
- **Folding is not idempotent.** The rare words keep their counts below 5. A second call
  therefore adds their counts to `_RARE_` again (`FoldRareNotIdempotent`).

`tagger.py` has no decoder, never reads the n-gram table it fills, and has the single word
category `_RARE_`. None of these is part of this model.

## Model

| member | source | states |
|---|---|---|
| Text.Split | 01_Gene_Tagger/tagger.py:82 | `line.split(' ')` gives at least one field, no field holds a space, and joining the fields with spaces gives the line back |
| Text.SplitJoin | 01_Gene_Tagger/tagger.py:82 | space-free fields joined with spaces split back into the same fields |
| Text.Strip | 01_Gene_Tagger/tagger.py:136 | `strip()` leaves no whitespace at either end and keeps only characters of its input; it is empty exactly when the input is all whitespace |
| Text.StripIsSlice | 01_Gene_Tagger/tagger.py:136 | `strip()` is the slice of its input that remains when only whitespace is removed before and after it |
| Text.ParseCount | 01_Gene_Tagger/tagger.py:91 | `int()` of a stripped count field as Python 2 reads it: an optional sign, any whitespace after the sign, then decimal digits; plain digits give their decimal value; a `-` is accepted only for a zero value, since counts are non-negative here |
| Text.ParseCountSigned | 01_Gene_Tagger/tagger.py:91 | a `+`, any whitespace, then digits gives the digits' value (`+\t5` gives 5); a `-` gives 0 for zero digits (`-0`) and is refused for a non-zero value |
| Text.ParseShowNat | 01_Gene_Tagger/tagger.py:91 | every count survives being written in decimal and read back with `int()` |
| Text.Join | 01_Gene_Tagger/tagger.py:110 | `' '.join(parts)`: the parts with one separator between neighbours, and the empty string for no parts; `Text.SplitJoin` is its inverse on space-free parts |
| Text.Contains | 01_Gene_Tagger/tagger.py:85 | `sub in s`: `sub` occurs as a contiguous slice of `s`, tried at each start position in turn |
| CountModel.AddWordTag | 01_Gene_Tagger/tagger.py:88-104 | one parsed `WORDTAG` record: the count is added to the tag total, the word total and the tag's emission entry, each starting at 0 when absent, and a new tag gets an empty row at the end of the tag order; `AddWordTagEffect` states this entry by entry |
| CountModel.AddWordTagEffect | 01_Gene_Tagger/tagger.py:88-104 | a record adds its count to the tag total, the emission count and the word total, each starting at 0; a new tag gets an empty row; every other entry, the n-grams and the earlier tag order are unchanged |
| CountModel.AddWordTagWellFormed | 01_Gene_Tagger/tagger.py:94-96 | after a record the emission rows and the tag totals still have the same keys, and the tag order still lists each row once |
| CountModel.AddWordTagConsistent | 01_Gene_Tagger/tagger.py:94-100 | a record keeps every tag total equal to the sum of that tag's emission row |
| CountModel.AddNgram | 01_Gene_Tagger/tagger.py:106-113 | an n-gram record adds its count under its key, starting at 0; no other key and no other table changes |
| CountModel.ParseWordTag | 01_Gene_Tagger/tagger.py:91-93 | the fields `process_wordtag` reads: the count from field 0, the tag from field 2 and the word from field 3, each stripped; no result when there are fewer than four fields or `int` rejects the count; `ParseWordTagText` is its round trip |
| CountModel.ParseNgram | 01_Gene_Tagger/tagger.py:109-110 | the fields `process_ngram` reads: the count from field 0, and as key the fields from 2 on joined with spaces and stripped; no result when `int` rejects the count; `ParseNgramText` is its round trip |
| CountModel.ParseCountLine | 01_Gene_Tagger/tagger.py:82-86 | one line of the counts file, split at spaces and dispatched; `ParseCountLineShape` states the dispatch case by case |
| CountModel.DispatchRow | 01_Gene_Tagger/tagger.py:82-86 | the dispatch on field 1 of a split line; for space-free fields, a word-tag record has a space-free tag and word |
| CountModel.ApplyLine | 01_Gene_Tagger/tagger.py:84-86 | a line that does not raise: a word-tag record is `AddWordTag`, an n-gram record is `AddNgram`, any other kind leaves the tables as they are |
| CountModel.ParseCountLineShape | 01_Gene_Tagger/tagger.py:81-86 | after splitting at spaces: kind `WORDTAG` goes to the word-tag reader; otherwise a kind containing `GRAM` goes to the n-gram reader; any other kind is ignored; a line raises exactly when it has fewer than two fields or its reader rejects it |
| CountModel.ParseWordTagText | 01_Gene_Tagger/tagger.py:88-93 | a record `count WORDTAG tag word` written to the counts file reads back as that count, tag and word |
| CountModel.ParseNgramText | 01_Gene_Tagger/tagger.py:106-110 | a record `count n-GRAM t1 .. tn` reads back as that count and the tags joined by spaces |
| CountModel.LoadRecords | 01_Gene_Tagger/tagger.py:81-86 | the line loop of `read_tag_count_file` on dispatched lines: each line updates the tables in order until the first line that raises, which stops the loop and is reported by its index; every tag with a total keeps an emission row |
| CountModel.LoadRecordsSpec | 01_Gene_Tagger/tagger.py:81-86 | loading stops at a line exactly when it is the first malformed line, and runs to the end exactly when no line is malformed |
| CountModel.LoadLines | 01_Gene_Tagger/tagger.py:81-86 | `read_tag_count_file` on the lines of a counts file: each line is parsed by `ParseCountLine` and loaded by `LoadRecords` |
| CountModel.LoadLinesFailure | 01_Gene_Tagger/tagger.py:81-86 | the same, stated on the raw lines of the counts file |
| CountModel.LoadRecordsAfterFailure | 01_Gene_Tagger/tagger.py:81-86 | once a line has raised, later lines change nothing |
| CountModel.LoadRecordsWellFormed | 01_Gene_Tagger/tagger.py:81-104 | loading keeps the emission rows and tag totals on the same keys, with each row listed once in the tag order |
| CountModel.LoadRecordsConsistent | 01_Gene_Tagger/tagger.py:81-104 | loading keeps every tag total equal to the sum of its emission row |
| CountModel.LoadRecordsSpaceFree | 01_Gene_Tagger/tagger.py:81-104 | loading records whose tags have no space keeps every tag key free of spaces |
| CountModel.LoadLinesInvariants | 01_Gene_Tagger/tagger.py:81-104 | a whole counts file keeps the tables well formed and count consistent, and keeps tag keys free of spaces |
| CountModel.Scorable | 01_Gene_Tagger/tagger.py:43-49 | `get_emission_prob(word, tag)` does not raise: a tag with a total has an emission row, and when the word has an entry in it the tag total is positive, so the division is defined |
| CountModel.EmissionProb | 01_Gene_Tagger/tagger.py:39-49 | the probability is 0 when the tag has no total or the word no entry in its row; otherwise it is entry divided by total; it is positive exactly when the entry is positive |
| CountModel.EmissionProbAtMostOne | 01_Gene_Tagger/tagger.py:39-49 | in count-consistent tables every emission probability is at most 1 |
| RareWords.RareKeyword | 01_Gene_Tagger/tagger.py:17-21 | the keyword is always the first (and only) category keyword `_RARE_` |
| RareWords.Resolve | 01_Gene_Tagger/tagger.py:27-29 | a word is replaced by `_RARE_` exactly when it is absent from the word table or counted fewer than 5 times |
| RareWords.ResolveIdempotent | 01_Gene_Tagger/tagger.py:27-29 | resolving an already resolved word changes nothing |
| RareWords.FoldInto | 01_Gene_Tagger/tagger.py:55-71 | folding a set of rare words into `_RARE_` keeps every other entry and adds the sum of the rare counts to `_RARE_` |
| RareWords.FoldRare | 01_Gene_Tagger/tagger.py:51-71 | folding changes only the word table and the emission rows, each folded over the words that were rare beforehand; tag totals, n-grams and tag order are unchanged |
| RareWords.FoldRareEffect | 01_Gene_Tagger/tagger.py:51-71 | after folding every non-`_RARE_` word keeps its count in the word table and in every row; `_RARE_` gains, table by table, the sum of the rare words' counts |
| RareWords.FoldWord | 01_Gene_Tagger/tagger.py:66-71 | one step on one table: a table holding the word adds its count to the keyword's; a table without it is unchanged |
| RareWords.FoldIntoStep | 01_Gene_Tagger/tagger.py:55-71 | folding one more rare word is one `FoldWord` step on the already folded table |
| RareWords.FoldRowsStep | 01_Gene_Tagger/tagger.py:66-71 | the same step applied to every emission row |
| RareWords.FoldIntoSum | 01_Gene_Tagger/tagger.py:66-71 | folding copies counts and does not move them: a table's sum grows by its rare words' counts |
| RareWords.FoldIntoBounded | 01_Gene_Tagger/tagger.py:66-71 | after folding no entry exceeds the table's sum before folding |
| RareWords.FoldIntoTwice | 01_Gene_Tagger/tagger.py:59-63 | folding a table again adds the rare counts to the keyword a second time |
| RareWords.FoldRareNotIdempotent | 01_Gene_Tagger/tagger.py:51-71 | if rare words carry a positive count and `_RARE_` is frequent after the first call, a second call is allowed and adds the rare counts to `_RARE_` again, so the tables change |
| RareWords.FoldRareEmissionAtMostOne | 01_Gene_Tagger/tagger.py:66-71 | after folding count-consistent tables every emission probability, `_RARE_`'s included, is still at most 1 |
| RareWords.FoldRareWellFormed | 01_Gene_Tagger/tagger.py:66-71 | folding keeps the tables well formed |
| RareWords.FoldRareSums | 01_Gene_Tagger/tagger.py:66-71 | after folding a tag's emission sum is its total plus the counts of that tag's rare words |
| Tagging.Best | 01_Gene_Tagger/tagger.py:30-37 | the loop of `get_tag` over the tags in order: it starts with no tag and probability 0 and takes a tag only when its probability is strictly greater than the best so far; `BestIsFirstMaximum` states what this finds |
| Tagging.BestIsFirstMaximum | 01_Gene_Tagger/tagger.py:30-37 | the strict-`>` scan returns the maximum probability; a returned tag is at its first position reaching it, which is positive; no tag with probability 0 exactly when every tag scores 0 |
| Tagging.CanScore | 01_Gene_Tagger/tagger.py:43-49 | `get_tag(word)` does not raise: every tag can score the resolved word without dividing by zero |
| Tagging.GetTagSpec | 01_Gene_Tagger/tagger.py:23-37 | `get_tag`: the word is resolved to `_RARE_` when rare or unseen, then the tags are scanned in iteration order by `Best`; `GetTagSpecMaximum` states what this returns |
| Tagging.GetTagSpecMaximum | 01_Gene_Tagger/tagger.py:23-37 | `get_tag`: no tag scores the resolved word higher than the result; a returned tag is a trained tag scoring exactly the result, positively, first in iteration order; `(None, 0)` exactly when no tag emits the resolved word |
| Tagging.OutputLine | 01_Gene_Tagger/tagger.py:136-141 | a blank line is written as a bare newline; otherwise output exists exactly when a tag was chosen; every output line ends in a newline |
| Tagging.OutputLineReadBack | 01_Gene_Tagger/tagger.py:141 | an output line, without its newline and split at spaces, gives the tag as last field and the word from the fields before it |
| Tagging.LineOutput | 01_Gene_Tagger/tagger.py:136-141 | a blank line gives a newline; a non-blank line gives `word tag` with the tag from `get_tag`, and raises exactly when the word cannot be scored or gets no tag |
| Tagging.Written | 01_Gene_Tagger/tagger.py:132-141 | the writing loop over per-line results: outputs are appended in order until the first line that raises, whose index is reported; later lines are skipped; never more lines are written than were read |
| Tagging.WrittenSpec | 01_Gene_Tagger/tagger.py:132-141 | the lines' outputs are written in order up to the first line that raised; every output is written when none raised |
| Tagging.WrittenAfterFailure | 01_Gene_Tagger/tagger.py:132-141 | once a line has raised, later lines write nothing |
| Tagging.TagOutput | 01_Gene_Tagger/tagger.py:132-141 | `tag_file` on the given lines: each line's `LineOutput`, written by `Written`; `TagOutputLines` states what is written |
| Tagging.TagOutputLines | 01_Gene_Tagger/tagger.py:132-141 | the i-th written line is the output of the i-th input line; one output line per input line when nothing raised; the line that raised is non-blank and its word cannot be scored or gets no tag |
| Tagging.TagOutputKeepsBlankLines | 01_Gene_Tagger/tagger.py:136-138 | an output line is blank exactly when its input line is blank |
| GeneTagger.Increment | 01_Gene_Tagger/tagger.py:97-100 | the add-with-default idiom: the key's count becomes its old count (0 when absent) plus the amount; every other entry is unchanged |
| GeneTagger.FoldEmissions | 01_Gene_Tagger/tagger.py:66-71 | the tag loop for one rare word: every row becomes its `FoldWord` step, and no row is added or removed |
| GeneTagger.FoldRareWord | 01_Gene_Tagger/tagger.py:58-71 | one iteration of the word loop for a rare word carries the word table and the rows from folding the words so far to folding one word more |
| GeneTagger.FoldTables | 01_Gene_Tagger/tagger.py:55-71 | the word loop over a snapshot of the words leaves the word table and every row folded over exactly the words that were rare beforehand |
| GeneTagger.Tagger.constructor | 01_Gene_Tagger/tagger.py:8-11 | a new tagger has four empty tables, which are well formed and count consistent |
| GeneTagger.Tagger.ProcessWordTag | 01_Gene_Tagger/tagger.py:88-104 | a well-formed row updates the tables as `AddWordTag` says; a rejected row changes nothing; well-formedness and count consistency are preserved |
| GeneTagger.Tagger.AddRecord | 01_Gene_Tagger/tagger.py:94-104 | the field updates for a parsed record give exactly `AddWordTag` of the old tables |
| GeneTagger.Tagger.ProcessNgram | 01_Gene_Tagger/tagger.py:106-113 | a well-formed row updates the tables as `AddNgram` says; a rejected row changes nothing |
| GeneTagger.Tagger.ProcessLine | 01_Gene_Tagger/tagger.py:82-86 | one line is applied as its dispatched record says, and reports failure exactly when it is malformed, in which case nothing changes |
| GeneTagger.Tagger.ReadTagCountLines | 01_Gene_Tagger/tagger.py:81-86 | the line loop leaves the tables and the failing index as `LoadLines` specifies |
| GeneTagger.Tagger.FlagRareWords | 01_Gene_Tagger/tagger.py:51-71 | `flag_rare_words` leaves exactly the tables `FoldRare` specifies and keeps them well formed |
| GeneTagger.Tagger.FoldAllRare | 01_Gene_Tagger/tagger.py:55-71 | the word loop, run on the fields, leaves exactly `FoldRare` of the old tables |
| GeneTagger.Tagger.GetTag | 01_Gene_Tagger/tagger.py:23-37 | the resolve-then-scan loop returns the tag and probability that `GetTagSpec` specifies |
| GeneTagger.Tagger.TagLine | 01_Gene_Tagger/tagger.py:136-141 | one line of `tag_file` gives exactly `LineOutput` |
| GeneTagger.Tagger.TagLines | 01_Gene_Tagger/tagger.py:132-141 | the line loop of `tag_file` writes exactly `TagOutput` of the lines and reports the line that raised |

## Left out

- File handling is not modelled: opening, reading, writing and closing files, and the exceptions
  raised when a file cannot be opened (`tagger.py:76-79`, `122-130`, `142-143`). The lines of a
  file are a `seq<string>` argument and the written lines a `seq<string>` result.
- The progress message printed every 500 lines (`tagger.py:133-134`) is console output only.
- `main.py` and the `count_freqs` module are not part of this model. `main.py` only calls
  `read_tag_count_file`, `flag_rare_words` and `tag_file` in turn; `count_freqs` is imported
  but unused.
- EmissionProb: the probability is an exact ratio, not the rounded result of
  `float(emit_cnt)/tag_cnt`. Two ratios that differ by less than float precision may compare
  differently in Python.
- ParseCount: a negative count (`int('-3')`, or `int('- 3')` with whitespace after the sign) is
  treated as malformed, a line that raises, because counts are natural numbers here. Python
  would add the negative count. A sign followed by whitespace (`int('+\t5')` gives 5) and a
  negative zero (`int('-0')` gives 0) are read as Python reads them.
- Python's exception types and messages are not modelled, only which line raised. Output
  that Python had already buffered before the raise is counted as written.
- The Python dictionaries iterate in a hash order. `tagOrder` stands for it as insertion order,
  so which of several equally probable tags wins depends on that choice.
- The dictionaries are class attributes in Python, shared by every `Tagger` object. The model
  has one tagger whose tables start empty.
- GetTag: requires every tag to be able to score the resolved word (`CanScore`). Python raises
  `ZeroDivisionError` when an emission entry exists for a tag whose total is 0. `TagLine` and
  `TagLines` cover that case as a line that raises.
- FlagRareWords: requires `_RARE_` not to be a rare word itself. Line 56 reads the live count of
  each word, so a rare `_RARE_` would fold its own growing count.
- FoldAllRare: the word loop works on copies of the word table and the emission rows, which are
  stored back when the loop ends. Nothing else reads the tables meanwhile, so the final state is
  the same. Aliasing between emission rows is not modelled; each row is a separate dictionary
  created at line 96.
