# EasyMathDataset record store, in Dafny

A Dafny model of the core of EasyMathDataset. The model has three parts.

- `MathProofDatasetManager` keeps a dataset of mathematical proof problems: a dictionary from a topic to its list of `{id, statement, proof}` records. The repository has two copies of it.
  - The copy in `dataset_manager.py` is modelled by `DatasetManager.ProofDatasetManager`. It can generate records, add one by hand after asking for its proof, and remove records with renumbering.
  - The copy in `main.py` is modelled by `MainManager.ProofDatasetManager`. It formats LaTeX before storing text, adds by hand with an optional custom id, and has no removal.
- `_latex_formatter` (main.py) turns every pair of backslashes into one.
- The parser inside `data_gen` (proof_problems_gpt.py) cuts the generator's reply into problem statements.

Both managers are classes. The dictionary is a `map` field, and its insertion order is a separate `topics` field, because `summary_dataset` lists topics in that order. The invariant `Valid()` says the order lists every key exactly once.

Each mutating method states its whole new state. That is the new `topics`, the new `dataset` (every other topic unchanged), and the ghost snapshot `saved`, which stands for the JSON file written by `_save_dataset`.

The loops of the source are methods proved against specification functions:
- `DataGen` against `Parse`;
- `NumberProblems` against `Numbered`;
- `RenumberIds` against `Renumber`.

The promised properties are lemmas about those functions.

Modules:
- `Text`: Python's `str.isspace`, `strip`, `replace`, `count`, `split` and `join` on `seq<char>`;
- `Seqs`: list comprehensions;
- `Ids`: `str(int)` and `int(str)`, including whitespace, signs, leading zeros and underscores;
- `Latex`, `ProblemParser`;
- `Records`: the list computations both managers share;
- `DatasetManager`, `MainManager`.

The remote calls are parameters:
- `response: Option<string>` is what `generate_problems_gpt` returned, or `None` when it raised.
- `prove(topic, statement): Option<string>` is what `output_gen_parse` returned, or `None` when it raised.

Behaviour of the code that the model keeps:
- New ids are numbered from the largest existing id. Ids numbered 1..n stay contiguous when records are generated (`ContiguousExtend`). Generation does not repair ids that were already out of sequence; only `remove_proof` renumbers (`RemovedSpec`). A custom id in main.py can break contiguity (`ManualContiguous`).
- `add_proof_manually` in dataset_manager.py creates the topic key before asking for a proof. When the topic was new and the proof is declined, or the proof request raises, an empty topic is left behind in memory only: the dataset is not saved in those cases (`saved` is unchanged).
- A failing proof request in `add_proof_manually` raises out of the method.
- No variant removes duplicate statements.
- `_load_dataset` raises on a malformed file rather than returning an empty dataset.
- Only main.py formats LaTeX.

## Model

| member | source | states |
|---|---|---|
| Text.Strip | src/easymathdataset/proof_problems_gpt.py:76 | `strip()` leaves no whitespace (Python's full `isspace` set) at either end and never lengthens the string |
| Text.StripSlice | src/easymathdataset/proof_problems_gpt.py:76 | `strip()` only cuts: the result is a slice `s[i..j]` with nothing but whitespace before `i` and after `j` |
| Text.StripEmpty | src/easymathdataset/proof_problems_gpt.py:76-77 | the stripped piece is empty (dropped by `if clean_problem`) exactly when the piece is all whitespace |
| Text.Split | src/easymathdataset/proof_problems_gpt.py:72 | `split("<p>")` yields one piece more than there are occurrences, and joining the pieces with the separator gives the response back |
| Text.SplitPiecesFree | src/easymathdataset/proof_problems_gpt.py:72 | no piece of the split contains the separator |
| Text.PieceIsPrefix | src/easymathdataset/proof_problems_gpt.py:72 | the first piece is a prefix of the response |
| Text.SplitAbsent | src/easymathdataset/proof_problems_gpt.py:72 | a response without the separator splits into itself alone |
| Text.SplitAppend | src/easymathdataset/proof_problems_gpt.py:72 | splitting on a borderless separator cuts right after a separator-free prefix |
| Text.CountZero | src/easymathdataset/main.py:61 | the scan counts zero occurrences exactly when the pattern does not occur |
| Text.ReplaceAbsent | src/easymathdataset/proof_problems_gpt.py:76 | `replace` of a pattern that does not occur returns the text unchanged |
| Text.ReplaceAppend | src/easymathdataset/proof_problems_gpt.py:76 | `replace` of a borderless pattern leaves a pattern-free prefix alone and replaces the first occurrence after it |
| Text.ReplaceLength | src/easymathdataset/main.py:61 | the length changes by `len(rep) - len(pat)` per replaced non-overlapping occurrence |
| Seqs.FilterIndices | src/easymathdataset/dataset_manager.py:166 | a comprehension with a condition keeps the accepted elements at strictly increasing positions, and exactly those |
| Seqs.FilterMembers | src/easymathdataset/dataset_manager.py:166 | every kept element is an element of the input that the condition accepts |
| Seqs.FilterAppend | src/easymathdataset/proof_problems_gpt.py:75-78 | filtering distributes over concatenation |
| Ids.ShowNat | src/easymathdataset/dataset_manager.py:78 | `str(n)` of a natural number is non-empty decimal digits with no leading zero |
| Ids.IntSpaceIsSpace | src/easymathdataset/dataset_manager.py:70 | the whitespace `int()` skips is exactly `isspace` without the ASCII separators `\x1c`..`\x1f` |
| Ids.IntStrip | src/easymathdataset/dataset_manager.py:70 | the text `int()` reads after skipping surrounding whitespace starts and ends with a character it does not skip |
| Ids.ParseIntStrip | src/easymathdataset/dataset_manager.py:70 | `int()` reads its argument with the surrounding whitespace cut, where that whitespace is `isspace` minus the ASCII separators `\x1c`..`\x1f` |
| Ids.IntStripSlice | src/easymathdataset/dataset_manager.py:70 | only such whitespace is cut: `int()` reads a slice `s[i..j]` with nothing else before `i` or after `j` |
| Ids.ParseSeparator | src/easymathdataset/dataset_manager.py:70 | `strip()` cuts `\x1c` but `int()` does not skip it: `int("\x1c7")` raises although the stripped text is `7` |
| Ids.ShowNatDigits | src/easymathdataset/dataset_manager.py:78 | the digits of `str(n)` are a valid digit group spelling `n` |
| Ids.ParseShow | src/easymathdataset/dataset_manager.py:70 | `int(str(i)) == i` for every integer: ids written by the manager read back as the same number |
| Ids.ShowIntInjective | src/easymathdataset/dataset_manager.py:78 | distinct numbers give distinct ids |
| Ids.ParseLenient | src/easymathdataset/dataset_manager.py:70 | `int(" 7\n") == 7` and `int("007") == 7` |
| Ids.ParseSigned | src/easymathdataset/dataset_manager.py:166 | `int("-1_0") == -10` |
| Ids.ParseRejects | src/easymathdataset/dataset_manager.py:166 | `int` raises on `"1__0"`, `"x1"` and `""` |
| Latex.FormatEscape | src/easymathdataset/main.py:56-61 | the formatter undoes the generator's doubling of every backslash |
| Latex.FormatShorter | src/easymathdataset/main.py:61 | the result is never longer, and as long only when there is no pair of backslashes |
| Latex.FormatFixedPoint | src/easymathdataset/main.py:61 | text is returned unchanged exactly when it holds no pair of adjacent backslashes |
| Latex.FormatKeepsText | src/easymathdataset/main.py:61 | every non-backslash character survives, in order |
| Latex.AlphaExample | src/easymathdataset/main.py:61 | `\\alpha` (two backslashes) becomes `\alpha` |
| Latex.NotIdempotent | src/easymathdataset/main.py:61 | four backslashes become two, and formatting again gives one |
| ProblemParser.Problems | src/easymathdataset/proof_problems_gpt.py:75-78 | the kept pieces are non-empty and trimmed, and there are no more of them than pieces |
| ProblemParser.ProblemsFilter | src/easymathdataset/proof_problems_gpt.py:75-78 | the loop's result is the comprehension "clean each piece, keep the non-empty ones" |
| ProblemParser.Parse | src/easymathdataset/proof_problems_gpt.py:72-80 | no returned statement is empty or has surrounding whitespace, and there are at most `count("<p>") + 1` of them |
| ProblemParser.DataGen | src/easymathdataset/proof_problems_gpt.py:72-80 | the loop returns `Parse(response)` |
| ProblemParser.ParseOrder | src/easymathdataset/proof_problems_gpt.py:72-79 | the statements are the cleaned pieces at strictly increasing positions, exactly those that do not clean to empty |
| ProblemParser.ParseWithoutOpen | src/easymathdataset/proof_problems_gpt.py:72-78 | a response without `<p>` yields at most one statement, the whole response cleaned |
| ProblemParser.ParsePlaceholder | src/easymathdataset/proof_problems_gpt.py:60-61 | the placeholder `No response from <model>` comes back as the single statement |
| ProblemParser.CleanClosed | src/easymathdataset/proof_problems_gpt.py:76 | cleaning a trimmed statement followed by `</p>` gives the statement back |
| ProblemParser.SplitWrap | src/easymathdataset/proof_problems_gpt.py:72 | a wrapped response splits into an empty piece and each statement followed by `</p>` |
| ProblemParser.ParseWrap | src/easymathdataset/proof_problems_gpt.py:72-79 | `<p>s1</p><p>s2</p>...` with trimmed, non-empty, tag-free statements parses to exactly `[s1, s2, ...]` |
| Records.KeysInOrderSet | src/easymathdataset/dataset_manager.py:101-102 | setting a key keeps the order valid, and a new key goes last |
| Records.IdValuesSpec | src/easymathdataset/dataset_manager.py:70 | the ids are read as integers exactly when `int()` accepts every one of them, and then each value is that id's `int` |
| Records.MaxSpec | src/easymathdataset/dataset_manager.py:70 | `max` is an upper bound of the values and is attained |
| Records.LastIdSpec | src/easymathdataset/dataset_manager.py:69-72 | the last id is defined exactly when every id is an integer; it is then the largest id value, or 0 for an empty topic |
| Records.ContiguousLast | src/easymathdataset/dataset_manager.py:69-72 | for a topic numbered 1..n the largest id is n |
| Records.NumberProblems | src/easymathdataset/dataset_manager.py:74-86 | the loop returns the numbered records, or fails when a proof request raises |
| Records.NumberedSnoc | src/easymathdataset/dataset_manager.py:74-86 | one more statement fails the numbering if its proof request fails, and otherwise appends its record |
| Records.NumberedSpec | src/easymathdataset/dataset_manager.py:74-86 | numbering succeeds exactly when every proof request does; then the k-th record has id `last + k + 1`, the k-th statement and its proof |
| Records.NumberedFails | src/easymathdataset/dataset_manager.py:74-90 | a raised proof request fails the whole batch, whatever follows it |
| Records.GeneratedRecords | src/easymathdataset/dataset_manager.py:56-90 | a non-empty result has one record per statement, numbered from the largest id plus one, with the statement and its proof |
| Records.GeneratedEmpty | src/easymathdataset/dataset_manager.py:66-90 | the result is `[]` exactly when `data_gen` raises, an id is not an integer, there are no statements, or a proof request raises |
| Records.ContiguousExtend | src/easymathdataset/dataset_manager.py:101-108 | a topic numbered 1..n is numbered 1..n+k after the generated records are appended |
| Records.ContiguousAppend | src/easymathdataset/dataset_manager.py:126-145 | the manual id `len + 1` keeps a topic numbered 1..n numbered 1..n+1 |
| Records.RenumberIds | src/easymathdataset/dataset_manager.py:169-170 | the loop writes `str(i)` into the i-th record |
| Records.RenumberSpec | src/easymathdataset/dataset_manager.py:169-170 | renumbering numbers 1..n, keeps statements and proofs, and leaves a numbered list alone |
| Records.RemovedSpec | src/easymathdataset/dataset_manager.py:166-170 | after a removal the topic holds, numbered 1..n, exactly the old records whose id is not listed, in their old order |
| Records.RemovedFails | src/easymathdataset/dataset_manager.py:164-176 | the removal fails exactly when some id of the topic is not an integer |
| Records.RemoveExample | src/easymathdataset/dataset_manager.py:166-170 | ids 1,2,3,4 with 2 removed: the former 1, 3 and 4 become 1, 2 and 3 |
| DatasetManager.ProofDatasetManager.constructor | src/easymathdataset/dataset_manager.py:36-54 | the loaded dataset, or an empty one when there is no file |
| DatasetManager.ProofDatasetManager.GetTopicProofs | src/easymathdataset/dataset_manager.py:186-193 | the topic's records, `[]` for an unknown topic |
| DatasetManager.ProofDatasetManager.SummaryDataset | src/easymathdataset/dataset_manager.py:195-201 | one line per topic in insertion order, each giving that topic's number of records |
| DatasetManager.SummaryLineCount | src/easymathdataset/dataset_manager.py:201 | a summary line determines its count |
| DatasetManager.ProofDatasetManager.GenerateProofs | src/easymathdataset/dataset_manager.py:56-90 | returns the generated records for the topic's current records (see GeneratedRecords, GeneratedEmpty) and changes nothing |
| DatasetManager.ProofDatasetManager.EnsureTopic | src/easymathdataset/dataset_manager.py:101-102 | an unknown topic gets an empty list, added last in key order; nothing else changes |
| DatasetManager.ProofDatasetManager.AddTopicProofs | src/easymathdataset/dataset_manager.py:92-111 | the topic exists afterwards and holds its old records followed by the generated ones; other topics are unchanged; the result is saved |
| DatasetManager.ProofDatasetManager.AddProofManually | src/easymathdataset/dataset_manager.py:113-151 | a raised proof request, a declined proof, or one record appended with id `len + 1` and saved; the topic key exists in every case |
| DatasetManager.ProofDatasetManager.RemoveProof | src/easymathdataset/dataset_manager.py:153-176 | an unknown topic or a non-integer id changes nothing; otherwise only this topic changes, to `Removed`, and it is saved |
| MainManager.ProofDatasetManager.constructor | src/easymathdataset/main.py:36-54 | the loaded dataset, or an empty one when there is no file |
| MainManager.ProofDatasetManager.GetTopicProofs | src/easymathdataset/main.py:152-159 | the topic's records, `[]` for an unknown topic |
| MainManager.ProofDatasetManager.SummaryDataset | src/easymathdataset/main.py:161-167 | every key of the dataset exactly once, in insertion order |
| MainManager.ProofDatasetManager.GenerateProofs | src/easymathdataset/main.py:63-97 | as in dataset_manager.py, with statement and proof passed through the LaTeX formatter |
| MainManager.ProofDatasetManager.EnsureTopic | src/easymathdataset/main.py:108-109 | an unknown topic gets an empty list, added last in key order; nothing else changes |
| MainManager.ProofDatasetManager.AddTopicProofs | src/easymathdataset/main.py:99-118 | the topic exists afterwards and holds its old records followed by the generated ones; other topics are unchanged; the result is saved |
| MainManager.ProofDatasetManager.AddProofManually | src/easymathdataset/main.py:120-143 | exactly one record is appended, with the custom id or `len + 1` and the formatted statement and proof; other topics are unchanged; the result is saved |
| MainManager.ManualContiguous | src/easymathdataset/main.py:133-134 | a manual add keeps a topic numbered 1..n numbered 1..n+1 exactly when no custom id is given or it equals `len + 1` |
| MainManager.CustomIdExample | src/easymathdataset/main.py:133-140 | a custom id `"7"` on an empty topic breaks the numbering |

## Left out

- The remote calls are not modelled. `generate_problems_gpt` and `output_gen_parse` are parameters, as are the `num_problems` and `model` arguments they receive.
- File I/O and JSON are not modelled. `_load_dataset` is the constructor's `stored` argument, and `_save_dataset` is an assignment to the ghost `saved`. An I/O error while saving is not modelled.
- The JSON file's own key order is taken to be the insertion order. Records whose `id` is not a string, or that lack a key, cannot be expressed: `Record` always has three string fields.
- `print`, `logging` and `input` are not modelled. The user's answer in `add_proof_manually` is the boolean `accepted`, which is true when the answer was `y` or `Y`.
- `int()` is modelled for ASCII digits only. Python also accepts other Unicode decimal digits.
- `RemoveProof` takes `proof_ids` as a list of integers. A list holding strings would never match an id, and that case is not modelled.
- Aliasing is not modelled. The source renumbers the record dictionaries in place, and a caller holding a reference to one of them from `get_topic_proofs` would see the change. The model replaces records by value.
- `main()`, `MATH_TOPICS` and `NO_OF_PROBLEMS` are a driver and configuration, and are not modelled.
- The code has no per-topic duplicate suppression and no lookup of a record by id.
- `prove` is a function of topic and statement. The model therefore gives a repeated statement the same proof, or the same failure, within one batch (`Records.Numbered`) and across calls. The remote service may answer a repeated request differently.
- Python's limit on the digits `int()` and `str()` convert (4300 by default in CPython 3.11 and later) is not modelled. In the source a longer id makes `int()` raise, so `generate_proofs` returns `[]`, while `LastId` accepts it.
