# Dictionary reshaping and array shuffle, modelled in Dafny

This project models two small pieces of the repository's logic.

- **The dictionary transformer** (`preprocessing/transform_dictionary.py`).
  For every input entry it derives two things:
  - a *word key*: the non-null `base_forms` joined by `", "`, or `"Unknown"` when no form remains;
  - a *definition*: the entry's `definition` when the field is present, otherwise `"No definition available"`.

  It then writes `key -> definition` into the result dictionary, so the last entry with a given key wins.
  Module `TransformDictionary` in `transform_dictionary.dfy` models this. Module `Wrappers` in `wrappers.dfy` holds the `Option` type used there.
- **The in-place Fisher–Yates `shuffle`** (`src/lib/utils.ts`). Its counter walks down from the array's length. Each iteration swaps the element at the decremented counter with an element at a drawn position at or below it.
  Module `Shuffle` in `shuffle.dfy` models this. The random draws are a parameter, `picks`, and `picks[k]` is the index drawn in iteration `k`.

How the entities are modelled:

- An entry is `Entry(baseForms, definition)`.
  - `baseForms: Option<seq<Option<string>>>`. `None` means the field is absent or null. A `None` element stands for a null element. Every other element is already in its string form.
  - `definition: DefField` is `Missing`, `Null` or `Str(s)`.
- The output dictionary is a `map<string, DefValue>`, where a `DefValue` is `NullValue` or `Text(s)`.
- `Forms` reads `base_forms` with its `or []` default (preprocessing/transform_dictionary.py:19), `Present` is the comprehension that drops null elements (line 20), `Join` is Python's `", ".join` (line 21), and `DeriveKey` puts them together with the `"Unknown"` fallback (lines 19-21). The `Key…` and `Present…` lemmas below are about these functions.
- `DeriveDefinition` is `entry.get("definition", "No definition available")` (line 23), and `Insert` is the single assignment `res[word_string] = definition` (line 25).
- `Transform` is the dictionary after a list of entries, a fold of `Insert` from the left starting at the empty dictionary (lines 16-25). `TransformKeys` and `TransformLastWriteWins` are about it.
- The dictionary loop is the method `TransformEntries`. It is a `while` loop that reassigns a local map, and it is proved equal to the left-to-right fold `Transform`.
- `Swap` is the destructuring swap `[array[i], array[randomIndex]] = [array[randomIndex], array[i]]` on a sequence (src/lib/utils.ts:9). `Steps(s, picks, i)` is what the remaining iterations do when the counter stands at `i` (lines 5-10), and `Shuffled` is a whole run, starting with the counter at the length (lines 3-10). The `Steps…` and `Shuffled…` lemmas below are about these functions.
- The shuffle is the method `ShuffleInPlace`. It works on an `array<T>` and is proved equal to the sequence function `Shuffled`. It returns the same array object it was given.

## Model

| member | source | states |
|---|---|---|
| `TransformDictionary.KeyJoinsForms` | preprocessing/transform_dictionary.py:19-21 | if at least one base form is non-null, the kept-forms list is non-empty and the key is those forms joined by ", " |
| `TransformDictionary.KeyJoinsAllForms` | preprocessing/transform_dictionary.py:19-21 | for a non-empty list of forms with no null element, the key is all the forms joined by ", " in their original order |
| `TransformDictionary.KeyUnknownWithoutForms` | preprocessing/transform_dictionary.py:19-21 | if base_forms is absent, null, empty or all null, the key is exactly "Unknown" |
| `TransformDictionary.PresentEmptyIff` | preprocessing/transform_dictionary.py:20-21 | the comprehension keeps nothing exactly when every element is null, in both directions |
| `TransformDictionary.PresentMembers` | preprocessing/transform_dictionary.py:20 | a string is kept exactly when it occurs as a non-null element |
| `TransformDictionary.PresentAllSome` | preprocessing/transform_dictionary.py:20 | with no null element every form is kept at its own position |
| `TransformDictionary.PresentAppend` | preprocessing/transform_dictionary.py:20 | filtering a concatenation gives the concatenation of the filtered parts |
| `TransformDictionary.PresentAt` | preprocessing/transform_dictionary.py:20 | a non-null form at position i is kept right after the forms kept from positions below i |
| `TransformDictionary.PresentKeepsOrder` | preprocessing/transform_dictionary.py:20 | two non-null forms at positions i < j are kept at positions p < q, so nulls are dropped and order is preserved |
| `TransformDictionary.SplitJoin` | preprocessing/transform_dictionary.py:21 | splitting a joined key at ", " gives back the parts, when no part holds a comma |
| `TransformDictionary.KeyRecoversForms` | preprocessing/transform_dictionary.py:19-21 | the key determines the kept forms when none of them holds a comma |
| `TransformDictionary.DeriveDefinition` | preprocessing/transform_dictionary.py:23 | the value is null exactly when the field is an explicit null; it is the default text exactly when the field is missing or already holds that text; a present string is kept unchanged |
| `TransformDictionary.Insert` | preprocessing/transform_dictionary.py:25 | one insertion adds the entry's key, maps it to the entry's definition, and leaves every other key and value unchanged |
| `TransformDictionary.TransformKeys` | preprocessing/transform_dictionary.py:16-25 | the result's key set is the set of keys derived from all entries, so the result has at most as many keys as there are entries |
| `TransformDictionary.TransformLastWriteWins` | preprocessing/transform_dictionary.py:18-25 | an entry whose key no later entry shares supplies that key's value in the result (last write wins) |
| `TransformDictionary.TransformEntries` | preprocessing/transform_dictionary.py:16-25 | the loop's result is the fold over the entries in input order; its keys are the derived keys, it is no larger than the input, and an empty input gives an empty map |
| `Shuffle.StepsPermutes` | src/lib/utils.ts:5-10 | the remaining iterations keep the length and the multiset of elements |
| `Shuffle.StepsKeepTail` | src/lib/utils.ts:5-10 | positions at or beyond the counter are not changed by any remaining iteration |
| `Shuffle.ShuffledPermutes` | src/lib/utils.ts:2-12 | a whole shuffle is a permutation of its input of the same length |
| `Shuffle.StepsSelfPicks` | src/lib/utils.ts:6-9 | when every drawn index equals the decremented counter, the array is left as it was |
| `Shuffle.ShuffleInPlace` | src/lib/utils.ts:2-12 | the array is rearranged in place into the shuffle the draws determine, and this is a permutation of the input; the array returned is the one passed in; its precondition bounds each draw by the decremented counter, so every swap index is in bounds |

## Left out

- Argument parsing, reading the input file with `json.load`, and writing the output with `json.dump` at an indent of 4 (preprocessing/transform_dictionary.py:6-14, 27-28). These are file I/O and library serialisation. Errors from bad JSON or missing files are not modelled for the same reason.
- Python's `str()` of numbers, booleans and other JSON scalars (preprocessing/transform_dictionary.py:20). Elements of `base_forms` are modelled as already-stringified strings.
- A truthy `base_forms` that is not a list, such as a JSON string, which Python would walk character by character. The same goes for entries that are not objects. The model assumes a list of optional strings.
- Definitions that are JSON values other than a string or null. Python would pass them through unchanged. The model covers the string and null cases.
- Key order in the output. A Python dict keeps first-insertion order, so an overwrite keeps the original position. A Dafny `map` has no order, so the model covers only the key set and the values.
- The list-shaped output variant (a list of `{word, definition}` records). It is not part of `preprocessing/transform_dictionary.py`, which builds only the dictionary.
- `Math.random` and `Math.floor` (src/lib/utils.ts:6). Their results are supplied in `picks`. `ValidPicks` requires one draw per iteration, and the draw in iteration `k` must be below the counter `n - k`, exactly as `Math.floor(Math.random() * i)` guarantees. Uniformity and probability are not modelled.
- The `any[]` element type (src/lib/utils.ts:1-2). It is a type parameter `T`.
- ShuffleInPlace: the count of iterations is a ghost counter checked inside the method, not part of its postcondition, because the source does not return it.
