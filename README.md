# Grammar-based text-to-SQL dataset reader, modelled in Dafny

This project models the deterministic core of the `grmr_based_spans` dataset reader
(`GrammarBasedSpansText2SqlDatasetReader`). For each (question, SQL) example the reader does
four things:

- It makes the half-open token spans inclusive and adds every unit span.
- It asks an external grammar engine for the gold production-rule sequence and the catalog of
  legal rules.
- It builds one catalog entry per rule. Each entry holds the rule text, its nonterminal (the text
  before `" ->"`) and the engine's "global" flag.
- It translates the gold sequence into catalog positions. An empty sequence becomes the sentinel
  `[-1]`, and underivable examples are kept or dropped according to `keep_if_unparsable`.

`_read` drives this over the records of a set of files. It counts the instances it yields so it
can stop at `loading_limit`, and it numbers the records of each file for the cache file names. Any negative `loading_limit` means no limit, not only the default `-1`,
because `cnt` never becomes negative.

Modules (one file each):

- `wrappers.dfy`: `Option`, `Result`, and `ReaderError`, which has one constructor per exception
  the reader raises.
- `text.dfy`: Python's `in`, `str.find`, `str.split`, `str.join`, and the nonterminal of a rule.
- `spans.dfy`: `_fix_spans_coverage`.
- `actions.dfy`: the catalog, the action map and the index list of `text_to_instance`.
- `reader.dfy`: the constructor check, `text_to_instance` as a whole, file selection, and the
  counting loop of `_read`.

Python exceptions become `Failure` values. A `None` return from `text_to_instance` (the example
is dropped) is `Success(None)`. The grammar engine is represented by its outputs:
`get_action_sequence_and_all_actions` becomes a `Derivation` value, and `is_global_rule` becomes a
function parameter `isGlobalRule: string -> bool`. The tokenizer is represented by its output
token list. Each loop of the source is a method, and each method is proved equal to a
specification function. The properties are proved as lemmas about those functions.

## Model

| member | source | states |
|---|---|---|
| `Text.Split` | text2sql/data/dataset_readers/grammar_based_spans.py:219 | `str.split` gives at least one piece, and no piece contains the separator |
| `Text.JoinSplit` | text2sql/data/dataset_readers/grammar_based_spans.py:220 | `' '.join(rule.split(' '))` gives back the rule text unchanged |
| `Text.SplitLast` | text2sql/data/dataset_readers/grammar_based_spans.py:142 | the last piece of a split ends the string, and is either the whole string or follows an occurrence of the separator |
| `Text.Nonterminal` | text2sql/data/dataset_readers/grammar_based_spans.py:219 | on success, the nonterminal is the prefix of the rule up to the arrow, and neither it nor the rest after the arrow contains another `" ->"`; otherwise the error is the unpacking ValueError for that rule |
| `Text.NonterminalDefinedIff` | text2sql/data/dataset_readers/grammar_based_spans.py:219 | unpacking succeeds if and only if the rule contains `" ->"` exactly once |
| `Text.NonterminalOfRule` | text2sql/data/dataset_readers/grammar_based_spans.py:219 | for a rule `lhs -> rhs` where neither side has an arrow, the nonterminal is `lhs` |
| `Spans.FixSpansCoverage` | text2sql/data/dataset_readers/grammar_based_spans.py:270-283 | the two loops return exactly the inclusive input spans together with the unit spans `(i, i)` for `0 <= i < source_length` |
| `Spans.CoverageMembers` | text2sql/data/dataset_readers/grammar_based_spans.py:276-283 | `(s, e)` is in the result if and only if some input span is `(s, e + 1)`, or `s == e` is a token index; nothing else is added |
| `Spans.CoverageWithoutTokens` | text2sql/data/dataset_readers/grammar_based_spans.py:281-282 | with `source_length = 0` only the shifted input spans remain |
| `Spans.DegenerateSpanKept` | text2sql/data/dataset_readers/grammar_based_spans.py:277-278 | an input span with `e <= s` is not rejected; it appears as `(s, e - 1)` with its end before its start |
| `Spans.CoverageExample` | text2sql/data/dataset_readers/grammar_based_spans.py:270-283 | three tokens and span `(0, 2)` give `{(0,0), (0,1), (1,1), (2,2)}` |
| `Spans.FixSpansCoverageAsWritten` | text2sql/data/dataset_readers/grammar_based_spans.py:277 | iterating the span argument fails with TypeError when it is None and otherwise gives the coverage set |
| `Spans.MissingSpansRaise` | text2sql/data/dataset_readers/grammar_based_spans.py:198 | a missing span list always raises TypeError |
| `Spans.SpansOrUnits` | text2sql/data/dataset_readers/grammar_based_spans.py:198 | corrected: with spans given this is the coverage set; without spans it is exactly the unit spans |
| `Actions.CatalogEntry` | text2sql/data/dataset_readers/grammar_based_spans.py:218-223 | an entry exists if and only if the rule unpacks; it keeps the rule text, its nonterminal, and `is_global_rule` of that nonterminal |
| `Actions.EntriesUntilFailure` | text2sql/data/dataset_readers/grammar_based_spans.py:218-224 | building succeeds if and only if every rule's entry does; the entries are then in rule order, one per rule |
| `Actions.FirstEntryFailure` | text2sql/data/dataset_readers/grammar_based_spans.py:218-224 | the loop stops with the error of the first rule whose entry fails |
| `Actions.CatalogSpec` | text2sql/data/dataset_readers/grammar_based_spans.py:218-226 | the catalog exists if and only if every rule has exactly one arrow; its rule texts are then `all_actions` in order, each with its nonterminal and global flag |
| `Actions.CatalogFailure` | text2sql/data/dataset_readers/grammar_based_spans.py:219 | otherwise it fails with the ValueError of the first rule without exactly one arrow |
| `Actions.BuildValidActions` | text2sql/data/dataset_readers/grammar_based_spans.py:215-227 | the appending loop computes the catalog, or stops at the same error |
| `Actions.ActionMap` | text2sql/data/dataset_readers/grammar_based_spans.py:229-230 | the keys are exactly the catalog rules; each maps to a position holding that rule, and no later position holds it (last occurrence wins) |
| `Actions.DistinctActionMap` | text2sql/data/dataset_readers/grammar_based_spans.py:229-230 | with distinct rules each rule maps to its own position, and the values are exactly `0 .. N-1` |
| `Actions.LookupAll` | text2sql/data/dataset_readers/grammar_based_spans.py:232-233 | the lookup succeeds if and only if every gold rule is a key; it then gives one mapped position per gold rule, and otherwise the KeyError of the first missing rule |
| `Actions.GoldIndices` | text2sql/data/dataset_readers/grammar_based_spans.py:232-235 | an empty gold sequence gives exactly `[-1]`; a non-empty one gives one position per rule, or fails if and only if a rule is missing |
| `Actions.IndexActionSequence` | text2sql/data/dataset_readers/grammar_based_spans.py:232-235 | the appending loop with its sentinel step computes the index list |
| `Actions.IndexRoundTrip` | text2sql/data/dataset_readers/grammar_based_spans.py:229-233 | for a non-empty gold sequence drawn from the catalog, there is one index per gold rule, and decoding the indices gives the gold sequence back, even with duplicate catalog rules |
| `Actions.IndexUnique` | text2sql/data/dataset_readers/grammar_based_spans.py:229-233 | with distinct catalog rules, the index of a gold rule is the only position that holds it |
| `Actions.MissingKey` | text2sql/data/dataset_readers/grammar_based_spans.py:233 | a gold rule missing from the map is a KeyError, raised for the first missing rule |
| `Actions.MissingGoldRule` | text2sql/data/dataset_readers/grammar_based_spans.py:233 | a gold rule missing from the catalog makes indexing fail with the KeyError of the first gold rule that is not in the catalog, which is that rule or an earlier one |
| `Actions.IndexExample` | text2sql/data/dataset_readers/grammar_based_spans.py:229-235 | catalog `["A -> B", "A -> C", "B -> d"]` and gold `["A -> B", "B -> d"]` give `[0, 2]` |
| `Reader.Configure` | text2sql/data/dataset_readers/grammar_based_spans.py:91-93 | the reader is built if and only if entity pre-linking is on; otherwise the result is ConfigurationError |
| `Reader.DefaultsAccepted` | text2sql/data/dataset_readers/grammar_based_spans.py:63-93 | the constructor's defaults (pre-linking on, `keep_if_unparsable` off, `loading_limit` -1) pass the check, drop underivable examples and impose no limit |
| `Reader.InstanceOfAsWritten` | text2sql/data/dataset_readers/grammar_based_spans.py:190-198 | with spans given, `text_to_instance` as written behaves like the corrected model |
| `Reader.MissingSpansAlwaysFail` | text2sql/data/dataset_readers/grammar_based_spans.py:263-267 | called without spans, as `read_json_dict` calls it, `text_to_instance` fails with TypeError for every example |
| `Reader.TextToInstance` | text2sql/data/dataset_readers/grammar_based_spans.py:184-241 | the method computes the instance, the drop, or the error given by the specification function `InstanceOf` |
| `Reader.DropUnparsable` | text2sql/data/dataset_readers/grammar_based_spans.py:209-213 | with `keep_if_unparsable` off, an underivable example gives None and not an exception, whatever its catalog |
| `Reader.EmptyGoldSentinel` | text2sql/data/dataset_readers/grammar_based_spans.py:209-235 | an empty gold sequence, or an underivable example that is kept, gives an instance with index list `[-1]`, the full catalog of `all_actions`, the tokens and the fixed spans |
| `Reader.InstanceRoundTrip` | text2sql/data/dataset_readers/grammar_based_spans.py:204-240 | a derivable example over a well-formed catalog gives an instance with one index per gold rule, and those indices decode to the gold sequence |
| `Reader.BadRuleFails` | text2sql/data/dataset_readers/grammar_based_spans.py:218-219 | a catalog rule without exactly one arrow fails every example that is not dropped, with the ValueError of the first such rule |
| `Reader.MissingGoldFails` | text2sql/data/dataset_readers/grammar_based_spans.py:232-233 | a gold rule missing from the catalog fails the example with the KeyError of the first gold rule that is not in the catalog |
| `Reader.Basename` | text2sql/data/dataset_readers/grammar_based_spans.py:142 | the base name is the final component of the path: it ends the path, contains no "/", and is the whole path or follows a "/" |
| `Reader.SelectFiles` | text2sql/data/dataset_readers/grammar_based_spans.py:141-142 | a path is kept if and only if it is a glob result whose base name does not contain the excluded split text |
| `Reader.SelectFilesAppend` | text2sql/data/dataset_readers/grammar_based_spans.py:141-142 | selection of a concatenation is the concatenation of the selections, so glob order and repeated paths are kept |
| `Reader.SelectFilesSingle` | text2sql/data/dataset_readers/grammar_based_spans.py:141-142 | a single path is kept exactly when its base name lacks the excluded text |
| `Reader.Loaded` | text2sql/data/dataset_readers/grammar_based_spans.py:143-181 | the yielded instances are a prefix of the non-None results in file order; with a limit `L >= 0` there are `min(L, available)` of them, and with a negative limit there are all of them |
| `Reader.LoadedFromRecords` | text2sql/data/dataset_readers/grammar_based_spans.py:147-157 | each yielded instance carries the `total_cnt` of its record: its position in its own file, where the record holds that instance |
| `Reader.LoadedComplete` | text2sql/data/dataset_readers/grammar_based_spans.py:143-181 | with no limit, every non-None record is yielded with its position |
| `Reader.NoneNeverLoaded` | text2sql/data/dataset_readers/grammar_based_spans.py:161-181 | None results are never yielded or counted: files of None results yield nothing |
| `Reader.ReadInstances` | text2sql/data/dataset_readers/grammar_based_spans.py:143-181 | the nested counting loop, with its break at `cnt == loading_limit`, yields exactly `Loaded` |

## Left out

- The `sql is None` branch of `text_to_instance`: it leaves `all_actions` unbound and fails with a NameError. The model always has a derivation.
- The grammar engine (`Text2SqlWorld`), the SQL pre-processor (`process_sql_data`), the schema reader and the SQLite connection. These are external code. Their results are inputs here.
- The tokenizer. The model takes the token list it produces as input.
- AllenNLP's field and instance classes are plain values here. Any checks they make in their own constructors are not part of this model. For example, `SpanField` may reject a span whose end is before its start.
- `_fix_spans_coverage` returns a Python set, so the order in which spans reach the span list is not fixed. The model keeps the set.
- File I/O: reading JSON, `cached_path`, `os.makedirs`, and loading and dumping cache files with `dill`.
- The cache branch of `_read` is abstracted. A record loaded from its cache file counts like an instance built by `text_to_instance`. A failed load counts like a None result. Resetting `_load_cache` when the cache directory is missing only chooses between those two branches, so the model does not include it.
- `ReadInstances` returns the yielded instances as one list instead of a lazy generator. The order is the same.
- An exception raised by `text_to_instance` inside `_read` ends the whole read. The loop model takes each record's outcome as an Option, so it does not include this.
- The glob pattern match itself is not modelled. `SelectFiles` receives the glob results. The excluded text comes from `str(cross_validation_split_to_exclude)` and is given as a string; with the default None it is the text `"None"`.
- Cache file names. Each record is named `instance-<n>.pt` by its position within its own file, inside one cache directory derived from the `file_path` argument (line 132). When the glob matches several files, record `n` of every file shares one cache file name, so saving overwrites earlier files' records and loading reads the same file for all of them. The model abstracts the cache branch and does not capture this collision.
- A directory given as `file_path`, which the docstring allows: `glob.glob` returns the directory itself, and opening it fails (line 145). File I/O is not modelled.
- `keep_if_unparsable`: the docstring gives its default as True, but the constructor's default is False (line 73). The model follows the code in `DEFAULT_SETTINGS`.
- The `read_json_dict` JSON and quote rewriting, the `__main__` driver, `print("Parse error")` and logging.

## Findings

| source | as written | input that shows it | evidently intended | confidence | as-written member | corrected member |
|---|---|---|---|---|---|---|
| text2sql/data/dataset_readers/grammar_based_spans.py:198 | `text_to_instance` declares `spans = None` but always passes `spans` to `_fix_spans_coverage`, which iterates it | any record given to `read_json_dict`, which calls `text_to_instance` without spans (lines 263-267): iterating None raises TypeError | a missing span list is treated as empty, so the instance gets only the unit spans | high; not executed | `Reader.InstanceOfAsWritten` | `Spans.SpansOrUnits` |

The reader's design intends spans to be normalised only when they are supplied. The code
normalises them unconditionally. The model follows the code as written in
`Reader.InstanceOfAsWritten` and `Spans.FixSpansCoverageAsWritten`, and the rest of the model
uses the corrected `Spans.SpansOrUnits`.
