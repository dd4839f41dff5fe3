# Building ColBERT training triples from CodeSearchNet shards

This project models the dataset-construction core of `build_triples.py`, the
script that turns CodeSearchNet JSON-lines shards into three TSV tables:
training triples (docstring, code, negative code), a passage collection
(index, code), and an evaluation table (index, original string, url,
language, function name). It covers five parts:

- **Shards** (`shards.dfy`): `collect_data` keeps the directory entries that
  end in `.jsonl.gz`, fails when none is left, and concatenates the records
  of each shard in listing order.
- **FuncNames** (`func_names.dfy`): `clean_func_name` keeps the last
  `.`-separated segment and strips leading and trailing underscores. Split,
  join, last segment and strip are modelled after Python's `str` methods.
- **Sanitize** (`sanitize.dfy`): the `code` and `docstring` rewrites turn
  tab, newline and carriage return into a space.
- **Permutations** and **NegativeSampler** (`permutations.dfy`,
  `negative_sampler.dfy`): `add_negative_examples` shuffles the `code`
  column to get candidate negatives. Every row whose candidate equals its own
  code then redraws random rows through `get_negative_example`.
- **DataSet** (`dataset.dfy`): the main block. It builds a data frame, a
  class whose column fields are rewritten in place. It cleans names, adds the
  row index, sanitises, adds negatives and projects the three tables. When
  the shards hold no record at all, `from_records` gives a frame without
  columns and the `drop` of line 66 raises `KeyError`; the model returns
  `MissingColumns` there.

Randomness is an input:

- The shuffle of line 47 is a permutation `perm` of the row positions, so
  that `negative[i] == code[perm[i]]`. A permutation is a sequence with the
  same multiset as `0..n-1`.
- The `sample(1)` draws of line 58 are one stream `draws` of row positions.
  The colliding rows consume it in order.
- When the stream runs out before a colliding row finds a different code, the
  outcome is `DrawsExhausted(row)`. With an endless stream this is the
  script's endless loop. `SamplerCompletesIffNotDegenerate` shows that some
  stream completes the sampler exactly when the `code` column is not made of
  one repeated string.

The docstring of `clean_func_name` says the name is made lower-case. The
code does not lower-case it, and the model follows the code:
`CleanKeepsCaseExample` keeps `Get_Id`.

## Model

| member | source | states |
|---|---|---|
| `Shards.EndsWith` | build_triples.py:26 | `endswith`: true exactly when the name is some string followed by the suffix |
| `Shards.ShardFileNames` | build_triples.py:26 | every kept name ends in `.jsonl.gz` and comes from the listing; no more names than the listing |
| `Shards.ShardFileNamesComplete` | build_triples.py:26 | every name of the listing that ends in `.jsonl.gz` is kept |
| `Shards.ShardFileNamesConcat` | build_triples.py:26 | filtering keeps listing order: filtering `a + b` is filtering `a` then `b` |
| `Shards.ShardFileNamesEmpty` | build_triples.py:26-28 | nothing is kept exactly when no name ends in `.jsonl.gz` |
| `Shards.Concat` | build_triples.py:29-32 | the records of the shards one after the other: every collected record comes from one of the shards |
| `Shards.ConcatMembership` | build_triples.py:29-32 | a record is collected exactly when some shard file holds it |
| `Shards.CollectData` | build_triples.py:23-34 | fails with the directory name exactly when no shard file is listed; otherwise returns the records of the shards one after another |
| `FuncNames.Split` | build_triples.py:39 | `split(".")`: at least one segment, no segment holds the separator, joining the segments gives the string back |
| `FuncNames.SplitJoin` | build_triples.py:39 | the converse round trip: splitting the join of separator-free segments gives the segments |
| `FuncNames.SplitNoSeparator` | build_triples.py:39 | a string with no `.` is a single segment |
| `FuncNames.LastSegment` | build_triples.py:39 | `[-1]`: a `.`-free suffix of the name, preceded by `.` when it is not the whole name |
| `FuncNames.Strip` | build_triples.py:40 | `strip("_")`: no longer than its input, and neither starts nor ends with `_` |
| `FuncNames.StripSpec` | build_triples.py:40 | the stripped string is a slice with only `_` before and after it |
| `FuncNames.StripCharacterised` | build_triples.py:40 | any slice with only `_` around it that neither starts nor ends with `_` is the result of stripping |
| `FuncNames.StripStripped` | build_triples.py:40 | a string without `_` at either end is left alone |
| `FuncNames.CleanFuncName` | build_triples.py:37-41 | the cleaned name holds no `.` and neither starts nor ends with `_` |
| `FuncNames.CleanFuncNameIsSlice` | build_triples.py:37-41 | the cleaned name is a slice of the last segment with only `_` around it, so interior `_` and letter case are kept |
| `FuncNames.CleanFuncNameIdempotent` | build_triples.py:39-40 | cleaning a cleaned name changes nothing |
| `FuncNames.CleanQualifiedExample` | build_triples.py:39-40 | `foo.Bar.baz_` cleans to `baz` |
| `FuncNames.CleanUnderscoredExample` | build_triples.py:40 | `_x_` cleans to `x` |
| `FuncNames.CleanKeepsCaseExample` | build_triples.py:38-40 | `Io.Get_Id_` cleans to `Get_Id`: no lower-casing |
| `Sanitize.ReplaceChar` | build_triples.py:75 | one `replace`: the length is kept, and each character is replaced when it is the target and kept otherwise |
| `Sanitize.SanitizeText` | build_triples.py:75-76 | the three chained `replace` calls: the length is kept and no tab, newline or carriage return is left |
| `Sanitize.SanitizeTextSpec` | build_triples.py:75-76 | the length is kept, each tab, newline or carriage return becomes a space, every other character stays where it was, and no delimiter is left |
| `Sanitize.SanitizeTextClean` | build_triples.py:75-76 | a string with no delimiter is left unchanged |
| `Sanitize.SanitizeTextIdempotent` | build_triples.py:75-76 | sanitising twice is sanitising once |
| `Permutations.GatherAt` | build_triples.py:47 | gathering by positions puts `s[p[i]]` at position `i` |
| `Permutations.GatherMultiset` | build_triples.py:47 | gathering by two position lists with equal multisets gives equal multisets of values |
| `NegativeSampler.Shuffle` | build_triples.py:47 | one candidate negative per row |
| `NegativeSampler.ShuffleIsPermutation` | build_triples.py:47 | the candidate column is a permutation of the `code` column: the same length and multiset, and each candidate is a code string |
| `NegativeSampler.ShuffledColumn` | build_triples.py:47 | the array it fills holds the shuffled column |
| `NegativeSampler.Redraw` | build_triples.py:55-59 | a returned negative differs from the row's code, is the candidate or a code string, and uses the draws up to `next` |
| `NegativeSampler.RedrawExhausted` | build_triples.py:57-58 | redrawing fails exactly when the candidate and every remaining draw give back the row's own code |
| `NegativeSampler.GetNegativeExample` | build_triples.py:55-59 | the `while` loop returns what `Redraw` specifies, or reports that the draws ran out |
| `NegativeSampler.RepairRows` | build_triples.py:49-51 | one negative per remaining row, or a failing row among them |
| `NegativeSampler.RepairRowsSpec` | build_triples.py:49-51 | every repaired row satisfies `RowRepaired`; a failing row had a colliding candidate |
| `NegativeSampler.RepairRowsStep` | build_triples.py:49-51 | the negative a row settles on joins the negatives of the rows before it |
| `NegativeSampler.SampleNegatives` | build_triples.py:44-52 | `add_negative_examples` as a function of the shuffle and the draws: one negative per row, or a row where the draws ran out |
| `NegativeSampler.SampleNegativesSpec` | build_triples.py:44-59 | on success there is one negative per row, none equals its row's code, each is a code string, and a candidate that already differed is kept; on failure the failing row's candidate was its own code |
| `NegativeSampler.NoCollisionKeepsShuffle` | build_triples.py:49-51 | with no collision the shuffled column is the result, whatever the draws |
| `NegativeSampler.DegenerateExhausts` | build_triples.py:57-58 | when every code string is the same, no stream of draws ever completes: the first row never finds a different code |
| `NegativeSampler.RepairPlanSucceeds` | build_triples.py:49-59 | with two different code strings, draws following the plan repair every row |
| `NegativeSampler.SamplerCompletesIffNotDegenerate` | build_triples.py:55-59 | some stream of draws completes the sampler exactly when the `code` column is not one repeated string |
| `NegativeSampler.AddNegativeExamples` | build_triples.py:44-52 | the imperative fill-and-repair over an array of codes returns `SampleNegatives`; on success no negative equals its row's code |
| `DataSet.Frame.FromRecords` | build_triples.py:33 | one row per record in record order, with the fields the drop of line 66 keeps; no index or negative column yet; a frame without columns exactly when there are no records |
| `DataSet.Frame.DropUnusedColumns` | build_triples.py:66 | the drop raises `KeyError` exactly when the frame has no columns |
| `DataSet.Frame.CleanFuncNames` | build_triples.py:69 | every name becomes its cleaned form, which holds no `.`; the other columns are untouched |
| `DataSet.Frame.AssignIndex` | build_triples.py:72 | the index of row `i` is `i` |
| `DataSet.Frame.SanitizeColumns` | build_triples.py:75-76 | every code and docstring becomes its sanitised form; the other columns are untouched |
| `DataSet.Frame.AddNegatives` | build_triples.py:82 | the negative column is what the sampler returns: each negative differs from its row's code and is a code string; when the draws run out the column is unchanged |
| `DataSet.Frame.Triples` | build_triples.py:84 | one triple per row, holding the row's docstring, code and negative |
| `DataSet.Frame.Collection` | build_triples.py:87 | one collection row per frame row, holding the row's index and code |
| `DataSet.Frame.Evaluation` | build_triples.py:91 | one evaluation row per frame row, holding the row's index, original string, url, language and function name |
| `DataSet.SanitizedCode` | build_triples.py:75 | the `code` column once sanitised, one entry per record |
| `DataSet.TablesAreTsvSafe` | build_triples.py:74-76 | no docstring, code or negative in the triples and no code in the collection holds a tab, newline or carriage return |
| `DataSet.PrepareFrame` | build_triples.py:64-76 | no frame exactly when there are no records (the drop raises); otherwise the frame of the records after the drop, the name cleaning, the index and the sanitising, column by column |
| `DataSet.ProjectTables` | build_triples.py:84-91 | the three tables satisfy `TablesOf`: one row per record in record order, with the columns each projection selects; the negatives are the frame's negative column |
| `DataSet.BuildTables` | build_triples.py:62-91 | `MissingColumns` exactly when there are no records; otherwise the tables are written exactly when the sampler completes on the sanitised code column. They then satisfy `TablesOf`: sanitised docstring and code, a negative that differs from its code and is some row's code, index `i` for row `i`, the cleaned name. The negatives are exactly those `SampleNegatives` returns |

## Left out

- Reading the shards: listing the directory, opening gzip files and decoding JSON lines (build_triples.py:29-33) are I/O through `os` and `json_lines`. The listing is a sequence of names and `read` is a function parameter.
- `Shards.CollectData` is generic in the record type and does not model the `DataFrame.from_records` conversion. `DataSet.Frame.FromRecords` models it separately.
- The `code_tokens` and `docstring_tokens` columns of CodeSearchNet records stay in the frame, but no output table uses them. `DataSet.Record` leaves them out. The four dropped columns (`repo`, `path`, `sha`, `partition`) are fields of `Record` that the frame does not keep.
- Writing the TSV files (`to_csv` with its separators, headers and `escapechar`, build_triples.py:85-93) is pandas formatting. The model ends with the three tables as sequences of rows.
- The pseudo-random generator (`random_state=42` for the shuffle, the unseeded `sample(1)` draws) is not reproduced. The shuffle and the draws are inputs: any permutation and any stream of row positions.
- `NegativeSampler.Shuffle`: its own contract states only the length. That position `i` holds `code[perm[i]]` is `GatherAt`, and that the column is a permutation of `code` is `ShuffleIsPermutation`; in the function's contract these facts would burden every proof that uses the shuffle.
- `DataSet.BuildTables`: does not loop forever when every code string is the same. With a finite stream of draws it returns `SamplerStuck`, and `DegenerateExhausts` shows that no stream helps.
- Printing progress, argument parsing (docopt) and the commented-out docstring prefix at line 79 are not modelled.
- `indexing.py`, `retrieve_results.py` and `convert_query_file.py` are not part of this model: they wrap the ColBERT indexer and searcher or reformat query files.
- Strings are sequences of characters. There is no Unicode normalisation, and Python's `str` methods are modelled only for the one-character separators the script uses.
