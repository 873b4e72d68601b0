# Glossary store of Simple-Glossary, in Dafny

This project models the core of the Obsidian plugin Simple-Glossary. That core is the update
callback of `addToGlossary`. It receives the text of the glossary file and a
candidate `(term, definition)`, and inserts the pair only when the term is absent:

1. It splits the text into fragments at every `;\n`.
2. It destructures each fragment as `[term, definition] = fragment.split(':=')`.
3. It scans the fragments in order. At the first one whose term equals the new
   term exactly, it stops and hands back the text unchanged with the flag set.
   Otherwise it stores every fragment in a dictionary.
4. It stores the new pair. It then writes the dictionary back as
   `term:=value;\n` per key, in insertion order, and skips the empty key.

Files:

- `jsstring.dfy` (module `JsString`) covers `split` with a non-empty separator,
  the only string operation the callback calls (main.ts:27, 33): it cuts at
  every occurrence; `"".split(x)` is `[""]`; a trailing separator gives a
  trailing `""`. `IndexOf` is the separator search inside `split`, and `Join`
  is its inverse, used only to state `Split`'s contract; the callback calls
  neither.
- `glossary.dfy` (module `Glossary`) holds the record and dictionary model and
  the callback. `AddToGlossary` is the callback as a method: a `while` loop with
  an early `break` over the fragments, then the serialising loop in `Serialise`.
  The function `Insert` specifies it.
- `laws.dfy` (module `GlossaryLaws`) holds the lemmas: how duplicates collapse,
  the round trip, idempotence, the empty file, lossy parsing, and the example
  layouts.

The dictionary is an insertion-ordered association list of `Entry(term,
definition)`. `definition` is `None` where JavaScript has `undefined`. It is
written out as the text `undefined`, as JavaScript concatenation renders it.
Assigning to a key that is already present replaces its value and keeps its
position.

Behaviours of the code worth knowing:

- A term that appears twice in the file keeps the definition of its last
  occurrence (main.ts:40, `glossary[term] = definition` overwrites;
  `DictLastWins`).
- Text before the first record is not skipped as a heading: `# glossary\napple`
  becomes the first record's term. So after `banana` is added to
  `# glossary\napple:=a fruit;\n`, inserting `apple` still finds nothing
  (`HeadingHidesFirstTerm`), and `already_exists` stays false.
- Nothing is rejected. An empty new term, or a term or definition that contains
  `:=` or `;\n`, goes through the same path as any other input. An empty term is
  found in any file with a fragment whose term is empty (an empty fragment, or
  one starting with `:=`), and otherwise lands under the empty key, which is
  never written.
- A non-empty fragment without `:=` is not dropped. It is kept with no
  definition and, unless a later record carries the same term (main.ts:40),
  written back as `fragment:=undefined;\n` (`MalformedFragmentRewritten`).
  Empty fragments, such as the one after the final `;\n`, are stored under
  the empty key and never written.

## Model

| member | source | states |
|---|---|---|
| `JsString.IndexOf` | main.ts:27 | the result is -1 exactly when the separator occurs nowhere at or after `from`, and otherwise the least such position |
| `JsString.Split` | main.ts:27 | at least one piece; no piece contains the separator; joining the pieces with the separator gives back the input |
| `JsString.SplitFree` | main.ts:33 | a string without the separator splits into just itself |
| `JsString.SplitAt` | main.ts:27 | `(a + sep + b).split(sep)` is `[a]` followed by `b.split(sep)` when `a` has no `sep` (two distinct characters) |
| `JsString.SplitPiecesFree` | main.ts:33 | splitting never creates an occurrence: every piece is free of any string the input is free of |
| `Glossary.ParseEntry` | main.ts:33 | no contract; defined as `line.split(':=')` taking piece 0 as the term and piece 1, if any, as the definition; its meaning is stated by `ParseEntryShape` |
| `Glossary.Parse` | main.ts:27-33 | no contract; defined as `content.split(';\n')` with each fragment read by `ParseEntry`; its meaning is stated by `ParseAt`, `ParseEmpty`, `ParsedRecordsClean` and `ParseEncode` |
| `Glossary.ParseEntryShape` | main.ts:33 | the term is the prefix before the first `:=`; the definition is missing exactly when the fragment has no `:=`; otherwise it is the `:=`-free text after the first `:=`, followed by the end of the fragment or another `:=` |
| `Glossary.Lookup` | main.ts:52 | a key has a value exactly when it is among the dictionary's keys |
| `GlossaryLaws.LookupOwnEntry` | main.ts:40-52 | in a dictionary with distinct keys, `glossary[term]` for an entry's term is that entry's own definition, so reading each entry's definition directly, as `Serialise` does, agrees with `glossary[term]` |
| `Glossary.Put` | main.ts:40 | an existing key keeps its place and a new key is appended; a fresh key yields the old list plus the pair; no entry other than the pair is introduced |
| `Glossary.PutLookup` | main.ts:40 | after the assignment the key maps to the new value and every other key maps to what it did before |
| `Glossary.Dict` | main.ts:31-41 | no contract; defined as one `Put` per record, in order; its meaning is stated by `DictKeysAreTerms`, `DictKeyOrder`, `DictLastWins`, `DictEntriesFromRecords` and `DictOfDistinct` |
| `Glossary.Render` | main.ts:52 | no contract; a missing definition is written `undefined`, as JavaScript concatenation renders it; used by `Line` |
| `Glossary.Line` | main.ts:48-52 | no contract; `term:=value;\n` for one entry, nothing for the empty key; its meaning is stated by `ParseLine` and `MalformedFragmentRewritten` |
| `Glossary.Encode` | main.ts:47-53 | no contract; the lines of the entries in dictionary order; `Serialise` is proved equal to it and `ParseEncode`/`ReparseEncode` state what reading it back gives |
| `Glossary.Serialise` | main.ts:47-53 | the text built by the `for..in` loop is the encoding of the dictionary: `term:=value;\n` per non-empty key, in order, `undefined` for a missing value |
| `Glossary.Insert` | main.ts:25-57 | no contract; the callback's result as a function of the file text; `AddToGlossary` is proved equal to it and the `Insert*` lemmas state what it does |
| `Glossary.AddToGlossary` | main.ts:25-57 | the flag is set exactly when some fragment's term equals the new term; then the text is returned unchanged; otherwise the text is the encoding of the dictionary of all fragments with the new pair stored |
| `GlossaryLaws.DictKeysAreTerms` | main.ts:31-41 | the dictionary built from the fragments holds each term exactly once and holds no other key |
| `GlossaryLaws.OrderSnoc` | main.ts:40 | storing one more term keeps the dictionary's keys in the order of their first occurrence, a new term going last |
| `GlossaryLaws.DictKeyOrder` | main.ts:31-41 | the dictionary's keys are ordered by the first fragment carrying each term |
| `GlossaryLaws.DictLastWins` | main.ts:40 | the value stored under a term is the definition of its last fragment |
| `GlossaryLaws.DictEntriesFromRecords` | main.ts:40 | every dictionary entry is one of the parsed fragments |
| `GlossaryLaws.DictOfDistinct` | main.ts:31-41 | fragments with distinct terms are stored unchanged and in order |
| `GlossaryLaws.ParseEmpty` | main.ts:27 | the empty file is the single fragment with empty term and no definition |
| `GlossaryLaws.ParseAt` | main.ts:27 | a `;\n`-free record followed by `;\n` is parsed on its own, ahead of the rest |
| `GlossaryLaws.ParseEntryAt` | main.ts:33 | `term:=definition` with `:=`-free parts reads back as exactly that pair |
| `GlossaryLaws.ParsedRecordsClean` | main.ts:27-33 | every term and written-out definition parsed from any file is free of both `:=` and `;\n` |
| `GlossaryLaws.DictClean` | main.ts:40 | the same holds of every entry of the dictionary built from any file |
| `GlossaryLaws.NormalKeys` | main.ts:48-51 | the records written out never have the empty term, keep every non-empty key and keep keys distinct |
| `GlossaryLaws.ParseLine` | main.ts:27-33 | the line `term:=value;\n` of a clean entry, followed by any text, reads back as that entry and then the text's own records |
| `GlossaryLaws.ParseEncode` | main.ts:47-53 | re-splitting the text of a clean dictionary gives one record per non-empty key, in order, with its value as written, then one empty fragment |
| `GlossaryLaws.ReparseEncode` | main.ts:27-53 | round trip: storing those records again recovers the dictionary, minus the empty key, with `undefined` for missing values, plus the empty key from the final fragment |
| `GlossaryLaws.InsertAppendsLast` | main.ts:43-53 | when the term is absent it is a fresh key, and the new text is the old dictionary's text followed by `term:=definition;\n` (nothing for an empty term) |
| `GlossaryLaws.InsertReparsed` | main.ts:43-53 | re-reading a successful insert of a clean pair gives the dictionary's non-empty records, then the new pair, then the empty fragment |
| `GlossaryLaws.NormalDictKeys` | main.ts:40-51 | the keys written out from the file's dictionary are distinct and exclude the absent new term and the empty term |
| `GlossaryLaws.InsertRoundTrip` | main.ts:27-53 | after a successful insert of a clean pair, the pair appears exactly once and last, and storing the re-read records changes nothing |
| `GlossaryLaws.InsertIdempotent` | main.ts:27-56 | feeding that text back with the same term finds it and returns the text unchanged, whatever the definition; an empty term is found in the final empty fragment |
| `GlossaryLaws.InsertIntoWrittenFile` | main.ts:27-54 | inserting a new non-empty term into a file that a dictionary of clean, distinct, non-empty keys with definitions wrote out keeps that text byte for byte and appends exactly `term:=definition;\n` |
| `GlossaryLaws.InsertIntoEmpty` | main.ts:27-52 | the empty file with a non-empty term becomes exactly `term:=definition;\n`; an empty term is found in the empty file |
| `GlossaryLaws.InsertEmptyTerm` | main.ts:35-52 | an empty term is never written: the file is left unchanged, or re-serialised without adding a record |
| `GlossaryLaws.MalformedFragmentRewritten` | main.ts:33-52 | a non-empty fragment without `:=` has no definition and is written back as `fragment:=undefined;\n` |
| `GlossaryLaws.ExtraSeparatorsDropped` | main.ts:33 | with several `:=`, only the text between the first and the second is the definition |
| `GlossaryLaws.HeadingGluedToFirstTerm` | main.ts:27-35 | text in front of the first record becomes part of its term, so with a non-empty heading the bare term is found only when a later record carries it |
| `GlossaryLaws.CommentLayoutRecords` | main.ts:16-20 | the commented file layout parses with the heading glued to the first term and the space after `:=` kept in each definition |
| `GlossaryLaws.CommentLayoutMatching` | main.ts:35 | in that layout `term1` is not found by its bare name and `term2` is |
| `GlossaryLaws.HeadedFileInsert` | main.ts:43-54 | inserting `banana` into the headed file appends `banana:=a fruit too;\n` and keeps the rest of the text |
| `GlossaryLaws.HeadingHidesFirstTerm` | main.ts:35-45 | afterwards `apple` is still not found, so a second insert would add a duplicate record |

## Left out

- The plugin class `GlossaryPlugin` is not modelled: ribbon icon, context menu, commands, status bar, DOM events and interval timer (main.ts:65-258). It is host UI.
- `AddToGlossaryModal`, `SampleModal`, `SampleSettingTab` and settings load/save are not modelled (main.ts:251-257, 261-342). They are UI and persistence.
- File I/O and asynchrony are not modelled: `vault.process`, `getFileByPath`, the `Promise` wrapper, and `resolve` running before `process` finishes (main.ts:22-25, 58-63). The model takes the file text as a parameter and returns the text to be written.
- The caller's `.toLowerCase()` of the selected text is not modelled (main.ts:103, 159). It happens before the call; the store compares terms exactly.
- JavaScript object key order is simplified. A plain object lists integer-like keys first, in numeric order, and `"__proto__"` does not behave as a key. The model uses a plain insertion-ordered dictionary.
- Console logging is left out (main.ts:37).
- The early `break` is modelled in the loop of `AddToGlossary`. No contract states that fragments after the match are never examined; the proved fact is that the result then is the unchanged text.
- `GlossaryLaws.ReparseEncode` assumes that every entry of the dictionary is clean (neither its term nor its written value contains `:=` or `;\n`) and that the keys are distinct. A dictionary built from a file meets both (`DictClean`, `DictKeysAreTerms`); an unclean entry is not read back as itself.
- `GlossaryLaws.InsertReparsed` assumes the new term is absent and non-empty and that the new term and definition are clean. The code checks neither cleanliness condition, so a term or definition containing `:=` or `;\n` corrupts the file on the next read. An empty term is never written (`InsertEmptyTerm`), so the text it leaves is re-read by `ReparseEncode` instead.
- `GlossaryLaws.InsertRoundTrip` makes the same assumptions as `InsertReparsed`, for the same reasons.
- `GlossaryLaws.InsertIdempotent` assumes the new term is absent and that the new term and definition are clean; the empty term is covered.
