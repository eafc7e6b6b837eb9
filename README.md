# Texture report parser — a Dafny model

This project models the text pipeline of the texture-report tool. The tool
reads an Unreal Engine `MemReport` dump and turns it into a list of texture
rows. The list is split by discipline, filtered and deduplicated. Two
TypeScript files hold that pipeline:

- `src/parseTextures/TexturesData.ts`: `isPowerOfTwo` and `parseTextures`.
  - `parseTextures` drops empty lines and finds the header line.
  - It builds one record per later line, keyed by header name.
  - It drops rows that are too short, whose group is not selected, that have
    no size, or whose shape the filter mode rejects.
  - It removes rows whose `|`-joined key was seen before.
  - It overwrites the module-level `headers`.
- `src/parseTextures/TexturesDisplay.tsx` contributes five pieces:
  - the section splitter `parseDisciplines`;
  - the discipline choices, `extractTextureGroups` and `textureGroups`, and
    the `toggleGroup` transition;
  - the text handed to `parseTextures` for one discipline or for `All`;
  - the derived `ShortName` and `isSameSize` fields, with `compareSizes`;
  - the `handleSort` cycle and the guard that decides whether rows are
    sorted.

Modules:

- `Wrappers` holds `Option`.
- `Text` models the JavaScript string built-ins the code calls:
  - `split` on one character, `join`, `trim`, `includes` and `startsWith`;
  - `replace` of the first occurrence, and `toLowerCase`;
  - the runs of `\d`, `\s` and `\w` that its regular expressions match.
- `TexturesData` models the row parser.
  - `ParseTextures` is a method that takes the module-level `headers` in as
    `previous` and hands it back.
  - The method calls `KeepRows`, whose loop keeps the `seen` key set.
  - `BuildTexture` fills each row field by field.
  - Both methods are proved equal to value-level definitions (`Parsed`,
    `RowsFrom`, `RowOf`), and the properties are lemmas about those.
- `Disciplines` models the section splitter.
  - The source stores the live `textures` array under the discipline name.
    A later `push` onto that array also changes the stored entry, until a
    `MemReport: Begin command` line replaces the array.
  - `ParseDisciplines` keeps that aliasing with `LineBuffer` objects.
  - `Feed` is the `forEach` callback for one line.
  - The value-level specification `ParsedDisciplines` records each stored
    entry as `Live` (still the current buffer) or `Frozen` (an older buffer,
    whose contents no longer change).
  - The method's result is proved equal to that specification.
- `TextureGroups` holds the `TEXTUREGROUP_\w+` token, the group extraction
  (a method with a loop) and `toggleGroup`.
- `TexturesDisplay` holds the parser input, `compareSizes`, the derived
  fields and the sort state.

The regular expressions are modelled as a leftmost search over an anchored
match. The size pattern `/(\d+)\s*x\s*(\d+)/i` and the comparison pattern
`/(\d+)x(\d+)/` never need backtracking. So each anchored match is "a maximal
digit run, then …".

`compareSizes` needs a lower-case `x` with no white space around it, unlike
the parser's size pattern. So a size written `256 x 256` passes the size
filter but never compares equal to anything (`SpacedSizeNeverSame`).

## Model

| member | source | states |
|---|---|---|
| `TexturesData.BitTrick` | src/parseTextures/TexturesData.ts:10 | for n ≥ 1, `n & (n - 1)` is zero exactly when n is a power of two |
| `TexturesData.IsPowerOfTwoExact` | src/parseTextures/TexturesData.ts:9-11 | below 2^32, `isPowerOfTwo` (with the 32-bit operands of `&`) holds exactly for 2^k; zero is rejected |
| `TexturesData.ShapeFilterPartition` | src/parseTextures/TexturesData.ts:84-93 | `all` admits every shape; `powerOfTwo`, `notPowerOfTwo` and `oneSidePowerOfTwo` admit both, neither and exactly one side a power of two; exactly one of these three admits any given shape |
| `TexturesData.SizeMatchFromFinds` | src/parseTextures/TexturesData.ts:78 | the size pattern's match is the anchored match at the leftmost position where one exists |
| `TexturesData.SizeMatchInsideRun` | src/parseTextures/TexturesData.ts:78 | inside a digit run the anchored pattern matches exactly where it matches one position earlier |
| `TexturesData.ParseSizeAtRunStart` | src/parseTextures/TexturesData.ts:78-82 | the width is a whole maximal digit run: the match starts where a run starts, and no earlier position matches |
| `TexturesData.DecimalString` | src/parseTextures/TexturesData.ts:81-82 | the decimal rendering of n is a non-empty digit string that `parseInt` reads back as n |
| `TexturesData.ParseSizeRoundTrip` | src/parseTextures/TexturesData.ts:78-82 | `W`, any white space, `x` or `X`, any white space, `H` parses back to (W, H) |
| `TexturesData.WrittenSizeMatches` | src/parseTextures/TexturesData.ts:78 | the anchored pattern reads the two digit runs of a written size around its `x` |
| `TexturesData.Lines` | src/parseTextures/TexturesData.ts:18-21 | every kept line is non-empty, and a string is kept exactly when it is a non-empty trimmed piece of the input |
| `TexturesData.LinesOrder` | src/parseTextures/TexturesData.ts:18-21 | the kept lines are the trimmed pieces of the split on `\n` that are not blank, each once, in input order, none left out |
| `TexturesData.HeaderIndex` | src/parseTextures/TexturesData.ts:23-25 | the header line is the first line holding both `Name` and `LODGroup` (case-sensitive); None exactly when no line does |
| `TexturesData.NoHeaderNoRows` | src/parseTextures/TexturesData.ts:27-30 | without a header line there are no rows and `headers` keeps its previous value |
| `TexturesData.EmptyInputNoRows` | src/parseTextures/TexturesData.ts:18-30 | the empty input yields no rows |
| `TexturesData.ParsedRowsFollowHeader` | src/parseTextures/TexturesData.ts:23-36 | every row is built, under the header line's names, from a line strictly after the first header line; rows follow the lines' order |
| `TexturesData.BuildTexture` | src/parseTextures/TexturesData.ts:45-57 | the field-by-field loop builds the row `RowOf` defines; `columns` is every trimmed field, in order, however many there are |
| `TexturesData.AssignKeys` | src/parseTextures/TexturesData.ts:46-55 | a row's keys are the header names, plus `Group` when some header is a LOD-group header |
| `TexturesData.AssignLastWriteWins` | src/parseTextures/TexturesData.ts:54 | the value under a key is the one written by the last header with that name; for `Group`, a later LOD-group header also writes it |
| `TexturesData.AssignGroup` | src/parseTextures/TexturesData.ts:50-54 | `Group` holds the value of the last LOD-group header, unless a header after it is itself named `Group` |
| `TexturesData.RowKeys` | src/parseTextures/TexturesData.ts:46-55 | a built row's keys are the trimmed header names, plus `Group` when a lower-cased name contains `lodgroup` |
| `TexturesData.RowFieldValue` | src/parseTextures/TexturesData.ts:47-54 | the value under header i is the trimmed field i, or "" when the line has no field i, provided no later header has the same name; for a header named `Group` also no later LOD-group header, which would overwrite it |
| `TexturesData.RowGroup` | src/parseTextures/TexturesData.ts:50-59 | the row's group is the field under its last LOD-group header, provided no header after that one is itself named `Group` (which would overwrite it) |
| `TexturesData.HeaderNamesAreKeys` | src/parseTextures/TexturesData.ts:32-95 | header names read from the header line are already trimmed, so each is a key of the built row and the deduplication key reads stored values |
| `TexturesData.CookedKey` | src/parseTextures/TexturesData.ts:69-73 | the size header found is the first header whose lower-cased form contains `maxallowedsize` or `cooked/ondisk`; None exactly when no header does |
| `TexturesData.ScreenMeans` | src/parseTextures/TexturesData.ts:59-93 | a kept row has a group that is selected (or nothing is selected, or `All Groups` is), a non-empty size under the size header that matches the pattern, and a shape the mode admits |
| `TexturesData.CandidateMeans` | src/parseTextures/TexturesData.ts:37-95 | a line is admitted only with at least `headers.length - 1` fields and a built row that passes every check; its key is the `|`-join of the row's values in header order |
| `TexturesData.ShortLineDropped` | src/parseTextures/TexturesData.ts:37-43 | a line with fewer than `headers.length - 1` fields produces no row |
| `TexturesData.FirstOccurrences` | src/parseTextures/TexturesData.ts:95-97 | the kept candidates have distinct keys and each is one of the candidates |
| `TexturesData.FirstOccurrencesStep` | src/parseTextures/TexturesData.ts:95-97 | one more line adds its candidate exactly when its key is not among the keys kept so far |
| `TexturesData.FirstOccurrencesComplete` | src/parseTextures/TexturesData.ts:95-97 | every admitted key is among the kept keys |
| `TexturesData.FirstOccurrencesOrigins` | src/parseTextures/TexturesData.ts:36-103 | the kept candidates come from strictly increasing positions, and each is the first candidate with its key |
| `TexturesData.KeepRows` | src/parseTextures/TexturesData.ts:33-103 | the loop with its `seen` set returns exactly the first-occurrence rows of the admitted lines |
| `TexturesData.ParseTextures` | src/parseTextures/TexturesData.ts:13-104 | the rows are those of the specification `Parsed`; `headers` becomes the header line's trimmed names, or keeps its previous value without a header line |
| `TexturesData.RowsFromOrigin` | src/parseTextures/TexturesData.ts:36-103 | every row comes from an admitted data line, in input order, and is the first one with its key; every admitted line's key is among the rows' keys |
| `TexturesData.RowsFromKeysDistinct` | src/parseTextures/TexturesData.ts:95-97 | no two rows share a deduplication key |
| `TexturesData.RowsFromPassFilters` | src/parseTextures/TexturesData.ts:59-93 | every row passes the group, size and shape checks |
| `Disciplines.LineBuffer.constructor` | src/parseTextures/TexturesDisplay.tsx:24 | a new `textures` array is empty |
| `Disciplines.LineBuffer.Push` | src/parseTextures/TexturesDisplay.tsx:42 | `push` appends one line to the shared array |
| `Disciplines.Freeze` | src/parseTextures/TexturesDisplay.tsx:35 | replacing the buffer leaves every stored section with the contents it had |
| `Disciplines.Commit` | src/parseTextures/TexturesDisplay.tsx:44-47 | storing under a name keeps names distinct; a known name keeps its position and a new one goes last; the named entry now is the current buffer and the others are unchanged |
| `Disciplines.Feed` | src/parseTextures/TexturesDisplay.tsx:30-52 | one callback step takes objects that hold a state to objects that hold the next state of the specification |
| `Disciplines.ParseDisciplines` | src/parseTextures/TexturesDisplay.tsx:21-55 | the record the aliased pass returns is the specification's record, with each stored array read in its final state |
| `Disciplines.StepWellFormed` | src/parseTextures/TexturesDisplay.tsx:30-52 | each line keeps the invariant: distinct non-empty names, non-empty stored sections, and no line break in a stored line |
| `Disciplines.RunWellFormed` | src/parseTextures/TexturesDisplay.tsx:28-52 | every state reached from the start over a report's lines satisfies the invariant |
| `Disciplines.DisciplinesWellFormed` | src/parseTextures/TexturesDisplay.tsx:21-55 | the record's keys are distinct non-empty names, each with at least one line and none with a line break |
| `Disciplines.FirstLineIsHeader` | src/parseTextures/TexturesDisplay.tsx:38-43 | an empty buffer gains its first line only through the header capture right after a `Listing` line, and that line is kept trimmed |
| `Disciplines.ListingCapturesNextLine` | src/parseTextures/TexturesDisplay.tsx:38-43 | the line right after a `Listing` line is always appended trimmed as the header, even when blank or a `Total size:` line, with both flags set and the stored sections untouched |
| `Disciplines.StepChangesRecord` | src/parseTextures/TexturesDisplay.tsx:30-52 | one line leaves every stored section as it was, or, while collecting, appends the trimmed line to the live one or (on `Total size:` with a name) stores the buffer |
| `Disciplines.IgnoredOutsideListing` | src/parseTextures/TexturesDisplay.tsx:41-51 | outside a listing, a line that is neither a begin nor a `Listing` line changes nothing |
| `Disciplines.RunKeepsKeys` | src/parseTextures/TexturesDisplay.tsx:44-47 | names once stored stay stored, in the same order |
| `Disciplines.StoredOnlyOnTotal` | src/parseTextures/TexturesDisplay.tsx:44-48 | a new name is stored only on a `Total size:` line while collecting after the header, with a non-empty discipline name |
| `Disciplines.BeginDropsBuffer` | src/parseTextures/TexturesDisplay.tsx:31-37 | any line starting `MemReport: Begin command` starts an empty buffer, clears both flags and leaves the record as it reads; with the marker's trailing space, the name is the rest of the line, trimmed |
| `Disciplines.ChoicesDistinct` | src/parseTextures/TexturesDisplay.tsx:60-63 | the choices offered (`All`, then the parsed disciplines in order) hold no duplicate when no discipline is itself named `All` |
| `Disciplines.SectionIndex` | src/parseTextures/TexturesDisplay.tsx:75 | a looked-up name is found at a position holding it, and is missing exactly when it is not a key |
| `TextureGroups.TokenFrom` | src/parseTextures/TexturesDisplay.tsx:81 | a found token is `TEXTUREGROUP_` followed by one or more word characters, and is the anchored match where there is one |
| `TextureGroups.TokenFromLeftmost` | src/parseTextures/TexturesDisplay.tsx:81 | the token found is the anchored match at the leftmost position that has one |
| `TextureGroups.GroupTokenInLine` | src/parseTextures/TexturesDisplay.tsx:81 | a line's token is text of the line, no earlier position starts one, and it is not followed by a word character |
| `TextureGroups.ExtractTextureGroups` | src/parseTextures/TexturesDisplay.tsx:65-88 | the loop over the selected lines returns the distinct groups in first-seen order |
| `TextureGroups.TextureGroupsOffered` | src/parseTextures/TexturesDisplay.tsx:89-92 | the offered list is `All Groups` followed by the extracted groups |
| `TextureGroups.GroupsOfDistinct` | src/parseTextures/TexturesDisplay.tsx:78-87 | the extracted groups are distinct |
| `TextureGroups.GroupsOfMembers` | src/parseTextures/TexturesDisplay.tsx:80-85 | a group is extracted exactly when it is the first token of some line |
| `TextureGroups.GroupsOfOrder` | src/parseTextures/TexturesDisplay.tsx:78-87 | groups appear in the order their first lines appear |
| `TextureGroups.UnknownDisciplineNoGroups` | src/parseTextures/TexturesDisplay.tsx:72-76 | a discipline that is not a key yields no groups |
| `TextureGroups.WithoutGroup` | src/parseTextures/TexturesDisplay.tsx:100 | the filter keeps exactly the entries other than the group and `All Groups`, and keeps them distinct |
| `TextureGroups.ToggleAllGroupsAlone` | src/parseTextures/TexturesDisplay.tsx:94-103 | when `All Groups` is in the new selection, it is the whole selection |
| `TextureGroups.ToggleFlips` | src/parseTextures/TexturesDisplay.tsx:99-101 | toggling a group removes it when present and adds it exactly once, at the end, when absent; other groups stay, and `All Groups` goes; a selection holding neither gains the group at its end and is otherwise unchanged |
| `TextureGroups.WithoutGroupOrder` | src/parseTextures/TexturesDisplay.tsx:100 | the filter keeps every entry other than the group and `All Groups`, each once, in their original order |
| `TextureGroups.ToggleKeepsDistinct` | src/parseTextures/TexturesDisplay.tsx:94-103 | a selection without repeats stays without repeats |
| `TextureGroups.WithoutAbsent` | src/parseTextures/TexturesDisplay.tsx:100 | filtering out a group that is not there changes nothing |
| `TextureGroups.ToggleTwice` | src/parseTextures/TexturesDisplay.tsx:94-103 | toggling an absent group twice restores the selection |
| `TexturesDisplay.FirstNonEmpty` | src/parseTextures/TexturesDisplay.tsx:151 | the section found is non-empty and every earlier one is empty; None exactly when all are empty |
| `TexturesDisplay.AllInputLines` | src/parseTextures/TexturesDisplay.tsx:142-159 | for `All`, the parser reads the first line of the first non-empty section, then every section's lines but its first |
| `TexturesDisplay.OneDisciplineInput` | src/parseTextures/TexturesDisplay.tsx:142-159 | for one discipline, the parser reads exactly that section's lines |
| `TexturesDisplay.NothingSelectedNoRows` | src/parseTextures/TexturesDisplay.tsx:142-161 | a selection without lines hands "" to the parser, which yields no rows |
| `TexturesDisplay.DisciplinesClean` | src/parseTextures/TexturesDisplay.tsx:28-52 | no line of a split record holds a line break, so joining and re-splitting the input is exact |
| `TexturesDisplay.CompareSizes` | src/parseTextures/TexturesDisplay.tsx:128-138 | equal only when both sides match `(\d+)x(\d+)` |
| `TexturesDisplay.StrictSizeAtRunStart` | src/parseTextures/TexturesDisplay.tsx:129-130 | the strict pattern's match starts where a digit run starts, no earlier position matches, and the numbers are those the anchored pattern reads there |
| `TexturesDisplay.CompareSizesSymmetric` | src/parseTextures/TexturesDisplay.tsx:128-138 | the comparison does not depend on argument order |
| `TexturesDisplay.StrictSizeWritten` | src/parseTextures/TexturesDisplay.tsx:129-134 | `WxH` with no spaces reads back as (W, H) |
| `TexturesDisplay.CompareWrittenSizes` | src/parseTextures/TexturesDisplay.tsx:128-138 | two sizes written `WxH` compare equal exactly when both numbers agree |
| `TexturesDisplay.NoStrictMatch` | src/parseTextures/TexturesDisplay.tsx:129-130 | without an `x` right after a digit the strict pattern does not match |
| `TexturesDisplay.SpacedSizeNeverSame` | src/parseTextures/TexturesDisplay.tsx:128-138 | `W x H` passes the parser's size pattern with its numbers, but compares unequal to every string, on either side |
| `TexturesDisplay.ShortNameParts` | src/parseTextures/TexturesDisplay.tsx:174-176 | the path is a prefix ending in `/`, then the short name, then a rest that starts with `.`; neither the short name nor the rest holds `/`, and the short name holds no `.` |
| `TexturesDisplay.ShortNameUnique` | src/parseTextures/TexturesDisplay.tsx:174-176 | any split of the path with those properties has the short name in the middle, so the short name is the text after the last `/` up to its first `.` |
| `TexturesDisplay.InMemKey` | src/parseTextures/TexturesDisplay.tsx:169 | the in-memory header found is the first header that contains `inmem` once lower-cased; None exactly when no header does |
| `TexturesDisplay.Display` | src/parseTextures/TexturesDisplay.tsx:174-183 | a displayed row keeps every field and the columns, and adds `ShortName` from `Name` |
| `TexturesDisplay.SameSizeMeans` | src/parseTextures/TexturesDisplay.tsx:164-182 | a same-size row has both a size header and an in-memory header, and both values match `WxH` with equal numbers |
| `TexturesDisplay.DisplayAll` | src/parseTextures/TexturesDisplay.tsx:163-184 | the rows display, one each and in order, exactly when every row has a `Name` field |
| `TexturesDisplay.FilteredTexturesRows` | src/parseTextures/TexturesDisplay.tsx:140-184 | without an upload nothing is shown; otherwise each parsed row of the selection's input is shown once, in order, with its columns and its `ShortName` |
| `TexturesDisplay.SortCycle` | src/parseTextures/TexturesDisplay.tsx:229-244 | on the sorted column the direction cycles asc → desc → none → asc; a different column starts at asc |
| `TexturesDisplay.SortAppliesAfterClick` | src/parseTextures/TexturesDisplay.tsx:186 | rows are reordered only with a non-empty key and a direction; the initial state never reorders |
| `Text.SplitJoin` | src/parseTextures/TexturesDisplay.tsx:158 | joining lines that hold no line break with `\n` and splitting again gives the lines back |
| `Text.JoinSplit` | src/parseTextures/TexturesData.ts:19 | joining the pieces of a split with the separator rebuilds the string |
| `Text.ReplaceFirst` | src/parseTextures/TexturesDisplay.tsx:32-34 | a string without the pattern is unchanged; in one that starts with the pattern, that prefix is replaced |

## Left out

- Rendering, hooks and `useMemo` plumbing, the `FileReader` upload, the clipboard export, `alert` and `console` logging are not modelled. The upload is the `uploadedData` parameter of `FilteredTextures`.
- The sort comparator (`TexturesDisplay.tsx:187-201`) is not modelled. It relies on `Number()` coercion, `localeCompare` collation and the engine's sort. Only the sort state and the guard that decides whether to sort are modelled.
- Pagination and `toggleColumn` are not modelled (user-interface state only).
- `TexturesData.IsPowerOfTwoExact`: the match with 2^k is proved only below 2^32. Above that, `IsPowerOfTwo` models the 32-bit truncation of `&` but is not compared with 2^k.
- Numbers beyond 2^53, where `parseInt` loses precision, are not modelled; widths and heights are unbounded naturals.
- `toLowerCase` is modelled on ASCII letters only. Strings are sequences of characters, not UTF-16 code units.
- Objects are maps with keys in insertion order. The engine's ordering of integer-like keys (`Object.keys`) is not modelled.
- Prototype properties of plain objects (`disciplinesData["constructor"]`, say) are not modelled.
- `TexturesDisplay.Display` requires a `Name` field: the source throws a `TypeError` without one. `DisplayAll` and `FilteredTextures` report that case as `None`.
- The model does not cover header names that clash with a row's own properties (`columns`, `ShortName`, `isSameSize`). Nor does it cover values that are not strings being read back as sizes.
- The second length check at `TexturesData.ts:43` can never fail after the filter at `:39`. The model has the check once.
- `if (!disciplinesData)` at `TexturesDisplay.tsx:69` never holds, because `parseDisciplines` always returns an object. It is not modelled.
- A discipline named `All` clashes with the `All` choice; the choices are proved distinct only without one (`Disciplines.ChoicesDistinct`).
- The deduplication key joins values with `|`. Two different rows whose values contain `|` can share a key, and the model keeps that behaviour.
