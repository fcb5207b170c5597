# nosetests-json-extended: the report sink, in Dafny

This project models the report aggregator of nosetests-json-extended. That is class `Sink` in
`nosetests_json_extended/sink.py`, together with the record classes it builds on.

While the tests run, the sink gathers two append-only lists:
- one test outcome per finished test (`add`);
- one formatted syntax error per module that failed to import (`add_syntaxerror`).

`generate` builds the report from them:
- it groups the outcomes by module, keeping arrival order inside each module;
- it converts each module to a dict with success/failed/error counters;
- it sorts the modules by name;
- it converts the syntax errors in arrival order.

A syntax error's message is the exception's class name and text, then the stripped source line, then a line with a caret under the offending column.

Files, one Dafny module each:
- `options.dfy` (`Options`): the `Option` type, used for values that may be `None`.
- `pystr.dfy` (`PyStr`): the Python `str` operations the sink relies on: `strip`, `lstrip`, `rstrip`, `' ' * n` and `<`.
- `records.dfy` (`Records`): classes `TestCase` and `Module`, their `to_dict`, and the tally that stands in for `Counter`.
- `syntax.dfy` (`SyntaxErrors`): class `Syntax`, the message layout and the caret arithmetic.
- `grouping.dfy` (`Grouping`): what grouping and sorting produce, stated as the predicate `Grouped`, and its consequences.
- `sink.dfy` (`Aggregator`): class `Sink`, with fields `records`, `syntaxerrors` and `outputFile`, and its methods.

A Python dict of fixed shape is modelled as a datatype with one field per key. A key that may be absent, such as the `error` key of a testcase dict, is an `Option` field: `None` means the key is absent. The `column` of a `Syntax` and of its traceback frame is different: it is also an `Option`, but there `None` is a `null` value stored under a key that is always present (sink.py:53, 67-69).

`Generate` has no `modifies` clause, so Dafny checks that it changes neither stored list. Its postcondition fixes the syntax-error list and pins down the module list through `Grouped`. `GroupedUnique` shows that `Grouped` allows only one module list. Two calls on the same sink therefore give the same `modules` and `syntaxerrors`; only the injected metadata can differ.

Two details of the message code shape the model:
- The source line shown in the message is `text.strip()`, which strips both ends (sink.py:58). The caret arithmetic instead counts the leading whitespace of `text.rstrip()` (sink.py:61-62).
- The caret padding `nr = offset - nr_white_space - 1` can be negative. Python's `' ' * nr` is then the empty string, so the padding is in effect `max(0, nr)` and the caret line is just `^` (sink.py:63-64).

## Model

| member | source | states |
|---|---|---|
| Records.TestCaseToDict | nosetests_json_extended/sink.py:19-26 | name and result are copied; the `error` entry is present exactly when an error payload was recorded, and then carries its message and traceback |
| Records.ModuleToDict | nosetests_json_extended/sink.py:34-46 | the name is kept; there is one testcase dict per stored testcase, in the same order; each counter is the number of stored testcases with that outcome; the three counters add up to the number of testcases |
| Records.TallyIsMultiplicity | nosetests_json_extended/sink.py:37 | the tally of an outcome is its multiplicity in the multiset of results, that is, the `Counter` bucket |
| Records.TallySum | nosetests_json_extended/sink.py:37-45 | the success, failed and error buckets together count every result exactly once |
| Records.Tally | nosetests_json_extended/sink.py:37 | one bucket of `Counter(results)`: at most the number of results; TallyIsMultiplicity pins it to the multiplicity of the outcome |
| PyStr.LStrip | nosetests_json_extended/sink.py:62 | the result is a suffix of the input; everything removed is whitespace; the result does not start with whitespace |
| PyStr.RStrip | nosetests_json_extended/sink.py:61 | the result is a prefix of the input; everything removed is whitespace; the result does not end with whitespace |
| PyStr.LeadingSpaces | nosetests_json_extended/sink.py:62 | `len(text) - len(text.lstrip())` is the length of the longest all-whitespace prefix |
| PyStr.Strip | nosetests_json_extended/sink.py:58 | the right-stripped text with its leading whitespace removed; the result neither starts nor ends with whitespace |
| PyStr.Spaces | nosetests_json_extended/sink.py:64 | `' ' * n` has `max(0, n)` characters, all of them spaces |
| PyStr.Less | nosetests_json_extended/sink.py:108 | Python's `<` on `str`, which `sort(key=itemgetter('name'))` compares names with; LessIsLexicographic proves it is the lexicographic order by code point, and the lemmas below that it is a strict total order |
| PyStr.LessIsLexicographic | nosetests_json_extended/sink.py:108 | `Less(a, b)` holds exactly when `a` and `b` share a prefix after which `a` ends while `b` goes on, or `a`'s next character has the smaller code point |
| PyStr.LessIrreflexive | nosetests_json_extended/sink.py:108 | no name sorts before itself |
| PyStr.LessTransitive | nosetests_json_extended/sink.py:108 | string order is transitive |
| PyStr.LessTotal | nosetests_json_extended/sink.py:108 | any two different names are ordered one way or the other |
| PyStr.LessAsymmetric | nosetests_json_extended/sink.py:108 | two names are never each before the other |
| PyStr.NotLessTransitive | nosetests_json_extended/sink.py:108 | "not smaller" is transitive, which is the order a stable sort leaves behind |
| SyntaxErrors.CaretLine | nosetests_json_extended/sink.py:63-64 | `' ' * nr + '^'` has `max(0, nr)` spaces followed by one caret |
| SyntaxErrors.Header | nosetests_json_extended/sink.py:55 | `error.__class__.__name__ + ': ' + str(error)`: the class name, then `: ` and the error text |
| SyntaxErrors.CaretPadding | nosetests_json_extended/sink.py:61-63 | `nr` is negative exactly when the offset lies within the leading whitespace of the right-stripped line |
| SyntaxErrors.CaretBlock | nosetests_json_extended/sink.py:60-64 | the caret block is empty exactly when there is no non-zero offset; otherwise it starts with a newline and ends with `^` |
| SyntaxErrors.SyntaxMessage | nosetests_json_extended/sink.py:55-64 | the message begins with `kind: str`, and is exactly that header when the source line is absent or empty |
| SyntaxErrors.MessageShowsSourceLine | nosetests_json_extended/sink.py:57-58 | with a source line, a blank line and the stripped source line follow the header; with no non-zero offset, the message ends there |
| SyntaxErrors.MessageCaretLayout | nosetests_json_extended/sink.py:60-64 | with a non-zero offset, the message ends with a newline, `max(0, offset - leading_ws - 1)` spaces and `^`, where `leading_ws` is counted on the right-stripped text |
| SyntaxErrors.CaretPointsAtOffendingCharacter | nosetests_json_extended/sink.py:60-64 | when the offset lies within the non-blank part of the line, the caret's column is the position, in the displayed stripped line, of character `offset` of the original text |
| SyntaxErrors.CaretClampedAtLineStart | nosetests_json_extended/sink.py:63-64 | when the offset lies within the indentation, the padding is negative and the caret line is `^` alone |
| SyntaxErrors.NewSyntax | nosetests_json_extended/sink.py:50-55 | `Syntax.__init__` copies filename, line number and column; the message starts with the header |
| SyntaxErrors.SyntaxToDict | nosetests_json_extended/sink.py:66-72 | `name` is the filename; the message is kept; the traceback is one frame holding exactly filename, line number and column |
| SyntaxErrors.SyntaxDictOfError | nosetests_json_extended/sink.py:50-72 | the dict emitted for a syntax error carries its file, line, column and formatted message |
| Aggregator.Sink.constructor | nosetests_json_extended/sink.py:76-79 | both lists start empty; the output file is `nosetests.json` |
| Aggregator.Sink.Add | nosetests_json_extended/sink.py:86-87 | appends exactly one record, built from the arguments; the syntax errors are unchanged |
| Aggregator.Sink.AddSyntaxError | nosetests_json_extended/sink.py:89-90 | appends exactly one formatted syntax error; the records are unchanged |
| Aggregator.Sink.GroupByModule | nosetests_json_extended/sink.py:94-104 | the scan yields, for each module name that occurs, a module holding its records in arrival order, and no other modules; the insertion order lists each module exactly once |
| Aggregator.Sink.Generate | nosetests_json_extended/sink.py:92-115 | the metadata is passed through; the syntax errors are converted one for one, in arrival order; the module list is `Grouped`: one dict per distinct module name, strictly ascending by name, each the dict of that module's records in arrival order |
| Aggregator.ModuleDicts | nosetests_json_extended/sink.py:107 | on the scanned dict, the converted modules are named in the dict's insertion order, and each is the dict of that module's records in arrival order |
| Aggregator.SortedModulesAreGrouped | nosetests_json_extended/sink.py:94-108 | converting the scanned modules and sorting them by name yields exactly the `Grouped` module list |
| Grouping.ModuleNamesOccur | nosetests_json_extended/sink.py:96-100 | a module is created exactly for the names some record carries |
| Grouping.GroupEmptyIffAbsent | nosetests_json_extended/sink.py:99-104 | a module's testcase list is empty exactly when no record names it, so no module is ever empty |
| Grouping.ScanOneMore | nosetests_json_extended/sink.py:97-104 | one loop step creates the record's module if it is new and appends the record to it; every other module is unchanged |
| Grouping.GroupOfSelectsInOrder | nosetests_json_extended/sink.py:96-104 | a module's testcases are the records at exactly the positions naming that module, in increasing position order |
| Grouping.InsertByName | nosetests_json_extended/sink.py:108 | one insertion step of the sort adds exactly the new element |
| Grouping.InsertKeepsSorted | nosetests_json_extended/sink.py:108 | inserting keeps the list ordered by name |
| Grouping.InsertKeepsAscending | nosetests_json_extended/sink.py:108 | inserting a new name keeps the names strictly ascending |
| Grouping.AscendingCons | nosetests_json_extended/sink.py:108 | a head whose name is below every name of a strictly ascending list keeps the list strictly ascending |
| Grouping.SortByName | nosetests_json_extended/sink.py:108 | `sort(key=itemgetter('name'))` returns a permutation of its input, ordered by name, and strictly ascending when the names are distinct |
| Grouping.SortStep | nosetests_json_extended/sink.py:108 | inserting the head into the sorted tail keeps all three properties of the sort |
| Grouping.DistinctStep | nosetests_json_extended/sink.py:108 | with distinct names, inserting the head into the strictly ascending tail keeps it strictly ascending |
| Grouping.HeadNotInRest | nosetests_json_extended/sink.py:108 | with distinct names, the head's name appears in no permutation of the tail |
| Grouping.AscendingIsDistinct | nosetests_json_extended/sink.py:108 | strictly ascending names never repeat |
| Grouping.AscendingUnique | nosetests_json_extended/sink.py:108 | two strictly ascending name lists with the same names are equal |
| Grouping.GroupedUnique | nosetests_json_extended/sink.py:92-115 | the records determine the module list: two module lists that are both `Grouped` are equal, so regenerating gives the same modules |
| Grouping.RecordInExactlyOneModule | nosetests_json_extended/sink.py:96-104 | every record lands in a module named by its own `testcase.module`, and in only one; that module lists the record's dict |
| Grouping.ModuleTestcasesInArrivalOrder | nosetests_json_extended/sink.py:96-107 | each module lists, in arrival order, the dicts of exactly the records naming it, and lists at least one |
| Grouping.SumGroupSizesSnoc | nosetests_json_extended/sink.py:104 | one more record adds one to the group sizes of a duplicate-free name list containing its name, and nothing otherwise |
| Grouping.SumGroupSizesAll | nosetests_json_extended/sink.py:96-104 | the groups of a duplicate-free list covering every module name add up to all records |
| Grouping.SumGroupSizesEmpty | nosetests_json_extended/sink.py:94 | with no records, every group is empty |
| Grouping.SumTestcasesByGroup | nosetests_json_extended/sink.py:37-46 | the testcases listed in the module dicts number the group sizes, and so do the counters |
| Grouping.TotalTestcases | nosetests_json_extended/sink.py:92-115 | across all modules, the testcases listed, and likewise the counters, add up to the number of records added |

## Left out

- `Sink.write` (sink.py:81-84) is not modelled. It opens a file and calls `json.dump`, which are I/O and serialisation; the constructor still records the default `output_file`.
- `Sink.metadata` (sink.py:117-120) is not modelled. It reads `sys.argv`, the working directory and the float wall clock. `Generate` takes the resulting `Metadata` value as a parameter and copies it into the report unchanged.
- Python's `SyntaxError` object is replaced by the record `SyntaxErrorInfo`. `error.__class__.__name__` becomes its `kind` field and `str(error)` becomes its `str` field, because reflection and exception formatting are not part of this code.
- Outcomes are the enumeration `{Success, Failed, Error}`. Result strings outside those three, which `Counter` would count in no bucket, are not representable.
- `PyStr.IsSpace`: whitespace is the ASCII set space, tab, newline, carriage return, vertical tab and form feed. The other Unicode whitespace characters that Python's argument-less `strip` also removes are not modelled.
- `PyStr.Less`: orders strings by code point, as Python does. Dafny's `char` is a Unicode scalar value, so lone surrogates (U+D800 to U+DFFF), which a Python `str` may hold, are not modelled.
- `SyntaxErrors.SyntaxMessage`: `if error.offset:` is modelled as "present and non-zero". `if error.text:` is modelled as "present and non-empty".
- `Aggregator.Sink.GroupByModule`: in `generate`, each `Module` object's testcase list is appended to in place, while it is stored in the dict. The model keeps the modules as values in a `map` and replaces the entry instead. No other code can see the `Module` objects, so no aliasing is lost.
- `Grouping.SortByName` models `list.sort` as a functional stable insertion sort, not an in-place sort. Module names are distinct, so the sorted list is unique whatever the algorithm (`GroupedUnique`).
