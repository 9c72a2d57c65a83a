# Citation generator model

A Dafny model of the citation generator script of the moharaji site
(`moharaji-site/scripts/generate-citations.mjs`). The script reads a BibTeX
bibliography, and for every parsed entry that has a citation key writes a
single-entry BibTeX file named after a sanitised form of the key; later
entries whose keys sanitise to the same name overwrite earlier ones.

The model has four modules:

- `Options` (`options.dfy`): `undefined`/`null` properties as `Option`, and
  JavaScript's `x || fallback` for strings.
- `Text` (`text.dfy`): the JavaScript string primitives the script uses: the
  `\s` class (the ECMAScript WhiteSpace and LineTerminator code points, which
  are also what `trim` removes), `trim`, `replace(/\s+/g, c)`, ASCII
  lower-casing and `join`, with lemmas about what they keep and remove.
- `Citations` (`citations.dfy`): `safeFilename` as `SafeFilename` and
  `entryToBib` as `EntryToBib`, with a parsed entry as a datatype whose tags
  are an ordered list of name/optional-value pairs.
- `Generator` (`generator.dfy`): the loop of `main` as the method
  `GenerateEntryFiles`, over an `OutputDir` object whose `files` map stands
  for the output directory; `Emitted` is the function the loop is proved
  against.

Sanitising is not idempotent on every key: a key made only of whitespace
sanitises to the empty string, and the empty string sanitises to `ref` (lines
14-15). Idempotence is proved for every key whose sanitised name is not empty,
and `SafeFilenameBlankKeyNotIdempotent` exhibits the exception.
Such a key is still written, to a file named `.bib` (`BlankKeyFileName`).

## Model

| member | source | states |
|---|---|---|
| `Options.OrElse` | moharaji-site/scripts/generate-citations.mjs:21-22 | JavaScript's logical-or fallback on a string: `undefined`, `null` and `""` give way to the default (also at line 14); `SafeFilenameDefault` and `BibHeaderDefaults` state its fallbacks |
| `Text.IsSpace` | moharaji-site/scripts/generate-citations.mjs:16 | the `\s` class, also the set `trim` removes (lines 15 and 28); `TrimIsSlice` and `WordsShape` state what it separates |
| `Citations.SafeChar` | moharaji-site/scripts/generate-citations.mjs:17 | the class `[a-zA-Z0-9._-]`; `SafeFilename` states that every character of a name is in it |
| `Citations.SafeFilename` | moharaji-site/scripts/generate-citations.mjs:13-18 | every character of a sanitised name is in `[A-Za-z0-9._-]` |
| `Citations.SafeFilenameDefault` | moharaji-site/scripts/generate-citations.mjs:14 | an absent, null or empty key is named `ref` |
| `Citations.SafeFilenameEmptyIff` | moharaji-site/scripts/generate-citations.mjs:14-15 | the name is empty exactly when the key is present, non-empty and all whitespace |
| `Citations.SafeFilenameFixedPoint` | moharaji-site/scripts/generate-citations.mjs:13-18 | a non-empty key of safe characters is returned unchanged |
| `Citations.SafeFilenameIdempotent` | moharaji-site/scripts/generate-citations.mjs:13-18 | sanitising a non-empty sanitised name gives the same name |
| `Citations.SafeFilenameBlankKeyNotIdempotent` | moharaji-site/scripts/generate-citations.mjs:14-15 | the key `" "` sanitises to `""`, which sanitises to `ref` |
| `Citations.SafeFilenameInPlace` | moharaji-site/scripts/generate-citations.mjs:15-17 | for a present, non-empty key with no inner whitespace, each character of the trimmed key stays in place if safe and becomes `_` otherwise |
| `Citations.SafeFilenameJoinsWords` | moharaji-site/scripts/generate-citations.mjs:14-17 | a present, non-empty key is named after its words joined by `_`, each unsafe character then replaced by `_` |
| `Citations.SafeFilenameLength` | moharaji-site/scripts/generate-citations.mjs:15-17 | for a present, non-empty key, the name is as long as the trimmed key with each whitespace run counted once, and no longer than the key |
| `Citations.SafeFilenameReplacesOne` | moharaji-site/scripts/generate-citations.mjs:17 | a key whose only unsafe character is one non-whitespace character has exactly that character replaced by `_` |
| `Citations.SafeFilenameExamples` | moharaji-site/scripts/generate-citations.mjs:13-18 | `smith2020` stays `smith2020`; `doe-2021:x` becomes `doe-2021_x` |
| `Citations.EntryToBib` | moharaji-site/scripts/generate-citations.mjs:20-33 | the text starts with `@type{key,` and a line feed and ends with a line feed, `}` and a line feed |
| `Citations.BibHeaderDefaults` | moharaji-site/scripts/generate-citations.mjs:21-22 | the type defaults to `article` and has no upper-case ASCII letter; the key defaults to `ref` and is otherwise kept |
| `Citations.BibType` | moharaji-site/scripts/generate-citations.mjs:21 | the entry type, defaulted to `article` and lower-cased; stated by `BibHeaderDefaults` |
| `Citations.BibKey` | moharaji-site/scripts/generate-citations.mjs:22 | the citation key, defaulted to `ref`; stated by `BibHeaderDefaults` |
| `Citations.Tags` | moharaji-site/scripts/generate-citations.mjs:23 | the tags, defaulted to none; `EntryToBibLines` states how they are laid out |
| `Citations.IsFilled` | moharaji-site/scripts/generate-citations.mjs:26 | the filter callback: the value is present and not blank; `FilledMembers` states the filter in both directions |
| `Citations.FieldLines` | moharaji-site/scripts/generate-citations.mjs:25-30 | the `lines` array; `FieldLinesAt` and `FieldLinesAppend` state which line is where |
| `Citations.ReplaceUnsafe` | moharaji-site/scripts/generate-citations.mjs:17 | keeps the length; `SafeFilename` states that the result is all safe characters and `SafeFilenameReplacesOne` what happens to an unsafe one |
| `Citations.Filled` | moharaji-site/scripts/generate-citations.mjs:26 | the filter of tags, no longer than its input; specified by `FilledMembers` and `FilledAppend` |
| `Citations.NormalizeValue` | moharaji-site/scripts/generate-citations.mjs:28 | the value normaliser; specified by `NormalizeValueJoinsWords`, `NormalizeValueShape` and `NormalizeValueIdempotent` |
| `Citations.FieldLine` | moharaji-site/scripts/generate-citations.mjs:28-29 | the `  k = {v}` line of one tag; its place in the output is stated by `FieldLinesAt` |
| `Citations.Render` | moharaji-site/scripts/generate-citations.mjs:27-29 | one line per tag, as many lines as tags; `FieldLinesAt` and `FieldLinesAppend` state which line is where |
| `Citations.FilledAppend` | moharaji-site/scripts/generate-citations.mjs:26 | filtering a concatenation of tag lists filters each in turn, keeping the order |
| `Citations.FilledMembers` | moharaji-site/scripts/generate-citations.mjs:25-26 | a tag is emitted exactly when it is in the input and its value is present and not blank |
| `Citations.FieldLinesAppend` | moharaji-site/scripts/generate-citations.mjs:25-30 | the field lines of a concatenation of tag lists are the concatenation of their field lines (input order is kept) |
| `Citations.FieldLinesAt` | moharaji-site/scripts/generate-citations.mjs:25-30 | there are as many field lines as filled tags, and the i-th line is the `  k = {v}` line of the i-th filled tag |
| `Citations.FieldLinesSingle` | moharaji-site/scripts/generate-citations.mjs:25-30 | one tag gives its `  k = {v}` line when filled and no line otherwise |
| `Citations.FieldLinesSkipBlank` | moharaji-site/scripts/generate-citations.mjs:25-26 | removing an absent, null or blank tag does not change the field lines |
| `Citations.EntryToBibSkipsBlank` | moharaji-site/scripts/generate-citations.mjs:25-26 | removing an absent, null or blank tag does not change the serialisation |
| `Citations.NormalizeValueShape` | moharaji-site/scripts/generate-citations.mjs:28 | an emitted value has no whitespace at either end, only single spaces inside, no line feed, the same non-whitespace characters in the same order as the input, and is empty exactly when the input is blank |
| `Citations.NormalizeValueJoinsWords` | moharaji-site/scripts/generate-citations.mjs:28 | an emitted value is the words of the input value (its maximal runs of non-whitespace) joined by single spaces |
| `Citations.NormalizeValueIdempotent` | moharaji-site/scripts/generate-citations.mjs:28 | normalising an emitted value again leaves it unchanged |
| `Citations.EntryToBibLines` | moharaji-site/scripts/generate-citations.mjs:32 | the serialisation is the header line, one line per filled field with a comma after all but the last (one empty line when none), and `}`, each ended by a line feed |
| `Text.Trim` | moharaji-site/scripts/generate-citations.mjs:15 | `trim`; characterised by `TrimIsSlice` and `TrimEmptyIff` |
| `Text.Collapse` | moharaji-site/scripts/generate-citations.mjs:16 | `replace(/\s+/g, c)`; characterised by `CollapseTrimmedIsJoin`, `WordsCollapse`, `CollapseSingleSpaced`, `CollapseLength` and `CollapseKeepsNonSpaces` |
| `Text.Join` | moharaji-site/scripts/generate-citations.mjs:32 | `join`; its line layout is stated by `LayoutIsLines` |
| `Text.Words` | moharaji-site/scripts/generate-citations.mjs:16 | the words of a text, its maximal runs of non-whitespace; `WordsShape` states that each is non-empty and free of whitespace |
| `Text.WordsShape` | moharaji-site/scripts/generate-citations.mjs:16 | every word is non-empty and contains no whitespace |
| `Text.WordsTrim` | moharaji-site/scripts/generate-citations.mjs:15 | trimming does not change the words of a text |
| `Text.WordsCollapse` | moharaji-site/scripts/generate-citations.mjs:28 | replacing whitespace runs by a whitespace character does not change the words |
| `Text.CollapseTrimmedIsJoin` | moharaji-site/scripts/generate-citations.mjs:15-16 | on a text with no whitespace at either end, replacing whitespace runs by `c` gives its words joined by `c` |
| `Text.SpacedIsJoinOfWords` | moharaji-site/scripts/generate-citations.mjs:28 | a text with no whitespace at either end whose only whitespace is single `c`s is its words joined by `c` |
| `Text.TrimIsSlice` | moharaji-site/scripts/generate-citations.mjs:15 | trimming returns the slice between leading and trailing whitespace, and that slice neither starts nor ends with whitespace |
| `Text.TrimEmptyIff` | moharaji-site/scripts/generate-citations.mjs:26 | a value trims to the empty string exactly when it is all whitespace |
| `Text.CollapseSingleSpaced` | moharaji-site/scripts/generate-citations.mjs:16 | after replacing whitespace runs by `c`, the only whitespace left is single occurrences of `c` |
| `Text.CollapseLength` | moharaji-site/scripts/generate-citations.mjs:16 | replacing whitespace runs removes all whitespace characters and adds one character per run |
| `Text.CollapseKeepsNonSpaces` | moharaji-site/scripts/generate-citations.mjs:28 | replacing whitespace runs by a space keeps the non-whitespace characters in order |
| `Text.ToLowerAscii` | moharaji-site/scripts/generate-citations.mjs:21 | lower-casing keeps the length, turns each letter `A`-`Z` into its lower-case letter (code point plus 32), leaves no upper-case ASCII letter and keeps every other character |
| `Text.LayoutIsLines` | moharaji-site/scripts/generate-citations.mjs:32 | a header, fields joined by `,` and a line feed, and a closing brace read as one line each |
| `Generator.OutputDir.constructor` | moharaji-site/scripts/generate-citations.mjs:44 | the output directory starts with the given files |
| `Generator.HasKey` | moharaji-site/scripts/generate-citations.mjs:49 | the `if (!key) continue;` test: a key that is present and not empty |
| `Generator.BibFileName` | moharaji-site/scripts/generate-citations.mjs:51 | the file name `${safeFilename(key)}.bib`; `BlankKeyFileName` and `CollisionExample` show its edge cases |
| `Generator.KeyedCount` | moharaji-site/scripts/generate-citations.mjs:46-54 | the `written` counter; `KeyedCountIsCardinality` states it is the number of keyed entries |
| `Generator.Emitted` | moharaji-site/scripts/generate-citations.mjs:47-54 | the directory after the loop; specified by `EmittedUntouched`, `EmittedLastWriterWins` and `EmittedNames` |
| `Generator.OutputDir.WriteFile` | moharaji-site/scripts/generate-citations.mjs:53 | writing a file sets that name's content and leaves every other file alone |
| `Generator.GenerateEntryFiles` | moharaji-site/scripts/generate-citations.mjs:46-55 | `written` is the number of entries with a key, and the directory is `Emitted` of the old one and the entries |
| `Generator.KeyedCountIsCardinality` | moharaji-site/scripts/generate-citations.mjs:46-54 | the count is the number of positions whose entry has a non-empty key |
| `Generator.EmittedUntouched` | moharaji-site/scripts/generate-citations.mjs:49-53 | a file no keyed entry is written to keeps its content or stays absent (entries without a key change nothing) |
| `Generator.EmittedLastWriterWins` | moharaji-site/scripts/generate-citations.mjs:51-53 | a file holds the serialisation of the last keyed entry whose name it is |
| `Generator.EmittedNames` | moharaji-site/scripts/generate-citations.mjs:51-53 | the files afterwards are the old files plus the names of the keyed entries |
| `Generator.NewFilesAtMostWritten` | moharaji-site/scripts/generate-citations.mjs:46-55 | the loop adds at most `written` new files |
| `Generator.CollidingKeysOverwrite` | moharaji-site/scripts/generate-citations.mjs:51-54 | two keyed entries with the same file name count twice and leave one file, holding the second |
| `Generator.CollisionExample` | moharaji-site/scripts/generate-citations.mjs:13-18 | the keys `a:b` and `a/b` both sanitise to `a_b` |
| `Generator.BlankKeyFileName` | moharaji-site/scripts/generate-citations.mjs:49-51 | an entry whose key is only whitespace is written to `.bib` |
| `Generator.EndToEndExample` | moharaji-site/scripts/generate-citations.mjs:46-55 | entries keyed `smith2020` and `doe-2021:x` give `smith2020.bib` and `doe-2021_x.bib` and a count of two |

## Left out

- File-system calls (`existsSync`, `readFileSync`, `mkdirSync`, `writeFileSync`, `copyFileSync`): only the effect of writing a file on the directory map is modelled; the missing-input exit, directory creation and the copy of the whole bibliography to the public folder are I/O.
- `process.exit`, `console.error` and `console.log`: process and terminal output.
- `bibtexParse.toJSON`: an external library; the parsed entries are the input of the loop, and no parse/serialise round trip is claimed.
- `path.join`, `process.cwd` and the fixed paths: file names are modelled without their directory.
- `String()` coercion: keys, types and tag values are modelled as optional strings; numbers, booleans and other falsy values such as `0` are not.
- Code points versus UTF-16: Dafny characters are Unicode scalar values, while JavaScript regular expressions without the `u` flag work on UTF-16 code units, so a character outside the Basic Multilingual Plane becomes two underscores in the script and one in the model.
- Text.ToLowerAscii: lower-cases ASCII letters only, where `toLowerCase` follows the full Unicode case mapping.
- `Object.entries` order: the tags are taken as the list the parser's object yields; JavaScript lists integer-like property names first, which the model does not reorder, and an object cannot hold a name twice, which the list does not enforce.
- Citations.SafeFilenameInPlace: position-by-position replacement is stated only for present, non-empty keys whose trimmed form has no inner whitespace (an empty key is covered by `SafeFilenameDefault`); present, non-empty keys with inner whitespace are covered by `SafeFilenameJoinsWords`, which places one `_` between consecutive words.
- Citations.SafeFilenameIdempotent: holds only when the sanitised name is not empty; a whitespace-only key is the exception shown by `SafeFilenameBlankKeyNotIdempotent`.
