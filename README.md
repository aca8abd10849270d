# gulp-markdown-to-json, modelled in Dafny

This project models the core of the gulp plugin `gulp-markdown-to-json`. The plugin
turns Markdown documents with YAML front matter into JSON. The model covers two
revisions of the plugin.

- `lib/plugin.js`, the current revision:
  - `markdownToJSON` normalises its arguments into a configuration. Each write is
    one Vinyl file or a buffered list of files. The write sniffs which files are
    text, converts every text file with `toJSON`, reports `.json` inputs that do
    not parse, and pushes the converted files. For a list, it instead pushes one
    consolidated file.
  - `toJSON` passes `.json` files through. Any other file gets its front matter
    decoded and its Markdown rendered into `body`. If the front matter gives no
    truthy title, the title comes from the first `<h1>` of the markup, and that
    heading is optionally stripped from the body. The file is then stamped with
    `updatedAt`, goes through the optional user transform, and is renamed to `.json`.
  - `consolidateFiles` keys every output by its relative path, written as a dotted
    name. With `flattenIndex`, it folds `dir/index` and `dir/dir` into `dir`. It
    then expands the dotted names into a nested object written at `/content.json`
    or at the configured name.
- `index.js`, the older revision:
  - Each document is wrapped as `{ "a.b.c": record }`.
  - A batch is merged with util-extend, so the earlier file wins. It is then
    expanded and its top level sorted.
  - A single file is written as its bare record. This happens because the write
    sets the `flatten` flag on the configuration object. Only building another
    stream over the same configuration object clears the flag again.
  - `extractTitle` (index.js:83-95) is the same as in `lib/plugin.js`, and
    `Title.ExtractTitle` models both.

## Modules

- `wrappers.dfy`, `Wrappers`: `Option` and `Result`.
- `json.dfy`, `Json`: JSON values and JavaScript truthiness.
  - An object is an ordered list of members in insertion order. This is
    JavaScript's enumeration order for names that are not array indexes.
  - Assigning a property replaces the member in place or appends it. `Assign` is
    lodash.assign.
- `strings.dfy`, `Strings`: JavaScript `split`/`join` on one character, the order
  sort-object sorts names in (taken as code-point order), `trim`, Node's
  `path.basename` and `path.extname`, and Vinyl's extension replacement.
- `title.dfy`, `Title`: the regular expression `<h1[^>]*>([^<]*)</h1>`.
  - A declarative definition of a match, and a scanner proved to return the
    earliest one.
  - `String.prototype.replace` with a string pattern.
  - `extractTitle`.
- `consolidate.dfy`, `Consolidate`: path keys, and the flat object built by the
  consolidation loop (a method proved against its functional definition).
  - sort-object is a stable insertion sort on names; expand-hash nests the dotted
    names one by one with set-value, which merges an object set where an object
    already is and replaces anything else. On the way down it replaces what is
    not an object or an array by an empty object; an array it keeps, and the
    rest of the path then ends up as a named property of the array, which
    `JSON.stringify` drops.
  - The tree as the code builds it, and, separately, the corrected consolidation
    that sorts every level.
- `document.dfy`, `Document`: `toJSON`.
  - The foreign code is given as parameters in `Env`: content sniffing,
    front-matter, `JSON.parse`, the renderer and the user transform.
  - Function values are identified by a `Callable` token.
- `plugin.dfy`, `Plugin`:
  - argument normalisation;
  - what one write emits, as the function `Run`;
  - the heap-free partition loop;
  - the stream as a class whose `Write` appends what `Run` says.
- `legacy.dfy`, `Legacy`: `index.js`. The caller's configuration object is a class
  whose `flatten` field every stream built over it reads and writes.

Where the plugin's documentation and its code differ, the model follows the code:

- A document whose front matter, rendering or transform throws does not become a
  separately reported invalid item. It rejects the promise chain, so the whole
  write emits that one error and pushes nothing (`Plugin.RunRejected`).
- An empty or malformed path key is not reported. It is used as it is.
- The consolidated object is promised to be sorted at every level. The code sorts
  only the flat dotted names before expanding them. `Plugin.Consolidated` builds it
  that way. The corrected consolidation, sorted at every level, is
  `Consolidate.Tree`, and nothing else uses it (see Findings).

## Model

| member | source | states |
|---|---|---|
| Json.Set | lib/plugin.js:212 | after `data.k = v`, `k` reads `v` and every other property reads as before |
| Json.SetKeyOrder | lib/plugin.js:212 | assigning an existing property keeps the key order; a new one is appended last |
| Json.SetMembers | lib/plugin.js:200 | assignment adds only the new member and keeps property names unique |
| Json.Assign | lib/plugin.js:209 | `assign(target, source)`: properties absent from source keep target's value; with unique names, source's properties win |
| Strings.Split | lib/plugin.js:91 | `split` gives at least one part, no part contains the separator, and joining the parts gives back the string |
| Strings.SplitJoin | lib/plugin.js:91 | splitting a join of separator-free parts gives back the parts |
| Strings.LexLessTotal | lib/plugin.js:103 | the default sort order compares any two distinct names |
| Strings.LexLessTransitive | lib/plugin.js:103 | the default sort order is transitive |
| Strings.LexLessAsymmetric | lib/plugin.js:103 | the default sort order is asymmetric |
| Strings.PrefixLexLess | lib/plugin.js:103 | a proper prefix sorts before its extensions |
| Strings.Trim | lib/plugin.js:134 | `trim` returns a slice of the input that drops only whitespace at both ends and neither starts nor ends with whitespace |
| Strings.Basename | lib/plugin.js:62 | the basename is no longer than the path and holds no `/` |
| Strings.Extname | lib/plugin.js:180 | `extname` is a suffix of the basename; when not empty it starts with `.` and is shorter than the basename |
| Strings.BaseStartUnique | lib/plugin.js:62 | the basename starts just after the last `/` |
| Strings.LastDotUnique | lib/plugin.js:180 | the extension starts at the last `.` of the basename |
| Strings.ExtensionOf | lib/plugin.js:180 | `extname` is a suffix of the basename that starts with a `.`, holds no other `.`, and is never the whole basename |
| Strings.BasenameOfReplaced | lib/plugin.js:216 | setting the extension keeps the basename's stem and appends the new extension |
| Strings.ReplacedExtension | lib/plugin.js:216 | after setting the extension to `.json`, `extname` reads `.json` |
| Title.IndexFrom | lib/plugin.js:126 | `[^>]*` and `[^<]*` stop at the first `>` or `<`, or at the end |
| Title.MatchAt | lib/plugin.js:126 | a match found at a position is a match of the pattern starting there |
| Title.MatchAtComplete | lib/plugin.js:126 | the attempt at a position fails only when no match starts there |
| Title.MatchDeterministic | lib/plugin.js:126 | two matches with the same start are equal |
| Title.FirstMatch | lib/plugin.js:126 | `exec` returns the match with the earliest start, and returns null exactly when no position starts a match |
| Title.TitleHasNoTag | lib/plugin.js:131 | the captured title contains no `<` |
| Title.ReplaceFirst | lib/plugin.js:134 | with no occurrence of the pattern the string is unchanged; otherwise exactly the first occurrence is replaced |
| Title.RemoveMatch | lib/plugin.js:134 | replacing the matched text removes exactly the first match, even though the replacement looks for the text and not the match |
| Title.ExtractTitle | lib/plugin.js:125-137 | markup without a match comes back unchanged; otherwise the title has no `<` and a body is present exactly when stripping |
| Title.ExtractTitleFirstMatch | lib/plugin.js:125-137 | a found title is the capture of the first match, and the stripped body is the markup without that match, trimmed |
| Consolidate.PathSegments | lib/plugin.js:91 | the path before its first `.`, split on `/`: no segment contains `.` or `/`, and the segments join back to that path |
| Consolidate.PathKey | lib/plugin.js:93-98 | with `flattenIndex` and at least two segments, the last segment is dropped exactly when it equals its parent or is `index`; otherwise the segments are kept |
| Consolidate.DottedKeySplits | lib/plugin.js:100 | the dotted name splits back into the path key |
| Consolidate.Flat | lib/plugin.js:88-101 | the flat object has unique names |
| Consolidate.CollectFlat | lib/plugin.js:88-101 | the `forEach` loop builds exactly the flat object |
| Consolidate.LastWriteWins | lib/plugin.js:100 | a file's record is in the flat object unless a later file has the same dotted name |
| Consolidate.FlatKeys | lib/plugin.js:90-101 | the flat object's names are exactly the files' dotted names |
| Consolidate.InsertByKey | lib/plugin.js:103 | inserting into a sorted list keeps it sorted and adds exactly one member |
| Consolidate.SortByKey | lib/plugin.js:103 | `sort(data)` is sorted by name and a permutation of the members |
| Consolidate.SortGet | lib/plugin.js:103 | sorting changes no property's value |
| Consolidate.SortKeepsUnique | lib/plugin.js:103 | sorting keeps names unique |
| Consolidate.SortSortedIsIdentity | lib/plugin.js:103 | sorting a sorted object changes nothing |
| Consolidate.Layer | lib/plugin.js:105 | set-value's last step: a value that is not an object replaces; an object keeps the properties of an object already there except those it sets itself |
| Consolidate.SetPath | lib/plugin.js:105 | setting one dotted path yields an object |
| Json.SetSame | lib/plugin.js:105 | assigning a property the value it already has changes nothing |
| Consolidate.SetPathThroughArray | lib/plugin.js:105 | setting a path that passes through an array leaves the whole object unchanged in its JSON form |
| Consolidate.SetPathNoNewArray | lib/plugin.js:105 | setting a path puts no array at a path where its value does not hold one: an array found there afterwards was there before |
| Consolidate.Expand | lib/plugin.js:105 | expanding the flat object yields an object |
| Consolidate.LookupConcat | lib/plugin.js:105 | looking up a path equals looking up its tail in what its head finds |
| Consolidate.LookupSetPathBelow | lib/plugin.js:105 | after setting a dotted path, everything at or below it reads from the value set, layered over what the path held before |
| Consolidate.LookupSetPathAside | lib/plugin.js:105 | setting a dotted path leaves paths apart from it untouched |
| Consolidate.SetPathAbove | lib/plugin.js:105 | setting, above a path, an object without that path's next segment leaves what the path finds unchanged |
| Consolidate.ExpandLast | lib/plugin.js:105 | at and below the last name's path, the expansion reads from its value layered over what was there |
| Consolidate.ExpandLeaves | lib/plugin.js:105 | a last name that is apart from a path, or an object above it without its next segment, does not change what the path finds |
| Consolidate.ExpandClears | lib/plugin.js:105 | a last name that leaves a path, or puts above it a value that is neither an object nor an array, adds nothing there |
| Consolidate.ExpandNoArray | lib/plugin.js:105 | when no name puts an array at a path, the expansion holds no array there |
| Consolidate.ExpandNoArrayAbove | lib/plugin.js:105 | when no name puts an array on the way to a path, no array lies above it after expansion |
| Consolidate.ExpandNone | lib/plugin.js:105 | a path that every name clears holds nothing after expansion |
| Consolidate.ExpandFinds | lib/plugin.js:105 | in any order of names, a record is found at its path when every earlier name clears that path (so none leaves an array above it) and every later one leaves it (so none lies at or below it) |
| Consolidate.ExpandKeepsFields | lib/plugin.js:105 | in any order of names, a record's field survives when no earlier name puts an array on the way to the record and every later name leaves the field's path; what earlier names put there the record overlays |
| Consolidate.DeepSortSorts | lib/plugin.js:103-105 | deep sorting sorts every level of the object |
| Consolidate.DeepSortIdempotent | lib/plugin.js:103-105 | deep sorting twice equals deep sorting once |
| Consolidate.LookupDeepSort | lib/plugin.js:103-105 | deep sorting moves nothing: every path reads the deep-sorted form of what it read before |
| Consolidate.ExpandedSortedFlat | lib/plugin.js:103-105 | the tree as the code builds it (sorted flat names, then expanded) is an object |
| Consolidate.FlatValues | lib/plugin.js:88-101 | every value in the flat object is the record of a file stored under that file's dotted name |
| Consolidate.RecordInTree | lib/plugin.js:90-105 | in the tree as built, each record ends up at its path key unless a later file has the same key, a key below it, or a record above it is an array or an object with a field named after the next segment |
| Consolidate.FieldBesideChildren | lib/plugin.js:93-105 | in the tree as built, an index record folded into its directory keeps its fields next to the directory's children, unless a record above is an array or an object with a field named after the next segment |
| Consolidate.Tree | lib/plugin.js:103-105 | the corrected consolidation is sorted at every level |
| Consolidate.TreeKeepsPaths | lib/plugin.js:103-105 | the corrected consolidation holds at every path the deep-sorted form of what the tree as built holds there |
| Consolidate.ExpandedSortedFlatNotSorted | lib/plugin.js:103-105 | as written, files `a-b/x.md` and `a/y.md` give top-level keys `["a-b", "a"]`, which is not sorted |
| Consolidate.TreeSortsSiblings | lib/plugin.js:103-105 | the corrected tree gives the same files the keys `["a", "a-b"]` |
| Document.TitleFields | lib/plugin.js:130-134 | the extracted object holds `title`, and holds `body` exactly when stripping |
| Document.ResolveTitle | lib/plugin.js:207-210 | title resolution changes no property but `title` and `body`, and keeps the record whole when its title is truthy |
| Document.ResolveTitleFields | lib/plugin.js:207-210 | a truthy title keeps the record; otherwise an extracted title (and stripped body) is assigned and nothing else changes |
| Document.Record | lib/plugin.js:199-212 | the record's `updatedAt` is the modification time and its `body` is a string |
| Document.RecordFields | lib/plugin.js:199-212 | the record holds the attributes, the rendered `body`, the resolved `title` and `updatedAt`, and every other attribute unchanged |
| Document.TitleKeptVerbatim | lib/plugin.js:207 | a truthy front-matter title is kept, and the body keeps its `<h1>` |
| Document.Transformed | lib/plugin.js:214-217 | the written value is truthy, and only a transform can make this step fail |
| Document.Convert | lib/plugin.js:179-221 | a `.json` input never fails and keeps its path; an output flagged invalid comes only from a `.json` input |
| Document.ToJson | lib/plugin.js:179-221 | the step-by-step conversion yields the converted output or the first error |
| Document.JsonPassthrough | lib/plugin.js:180-183 | a `.json` file passes through unchanged, is invalid exactly when it does not parse, and is never rendered |
| Document.ConvertedDocument | lib/plugin.js:216-217 | a converted document is valid data with the `.json` extension |
| Document.TransformDecides | lib/plugin.js:214-217 | without a transform the output is the record; with one, it is the transform's result when truthy, else the record as the transform left it, and a throwing transform rejects |
| Document.ConvertFails | lib/plugin.js:187-220 | conversion fails exactly when front matter, rendering, the file's stat or the transform fails, and never for `.json` |
| Plugin.NormaliseConfig | lib/plugin.js:31-44 | a configuration object is used as given; a renderer function gets the string second argument as name, the function second argument as transform, and a function third argument overrides the transform |
| Plugin.NormalisedUnique | lib/plugin.js:31-44 | these rules determine the configuration completely |
| Plugin.TextFiles | lib/plugin.js:51-56 | sniffing never yields more text files than it was given |
| Plugin.TextFilesSpec | lib/plugin.js:51-56 | sniffing fails with the first failing file's error; otherwise exactly the text files survive, in order |
| Plugin.TextFilesCounts | lib/plugin.js:51-56 | each file occurs among the text files as often as among the inputs when it is text, and never otherwise |
| Plugin.MapAll | lib/plugin.js:57 | `Promise.all` gives one result per input |
| Plugin.MapAllSpec | lib/plugin.js:57 | `Promise.all` succeeds exactly when every conversion does, with results in input order; otherwise it fails with the first failing conversion's error |
| Plugin.ConvertAll | lib/plugin.js:57 | converting all files succeeds exactly when each file's conversion does, and then gives each file's output at its position |
| Plugin.Invalids | lib/plugin.js:59 | the invalid outputs are exactly the outputs flagged invalid |
| Plugin.Valids | lib/plugin.js:60 | the valid outputs are exactly the outputs not flagged invalid |
| Plugin.PartitionSizes | lib/plugin.js:59-60 | every output is either valid or invalid: the two lists together hold each output exactly as often as the input does |
| Plugin.ValidsInOrder | lib/plugin.js:60 | the valid outputs keep their input order |
| Plugin.InvalidsInOrder | lib/plugin.js:59-62 | the invalid outputs keep their input order, so the error messages follow the input |
| Plugin.InvalidMessages | lib/plugin.js:62 | there is one `<basename> is not valid JSON` message per invalid output, in order |
| Plugin.Partition | lib/plugin.js:59-66 | the loop emits exactly those messages and keeps exactly the valid outputs |
| Plugin.Consolidated | lib/plugin.js:85-115 | the consolidated output is valid object data at `/` + the name when it is a non-empty string, else at `/content.json` |
| Plugin.ConsolidatedHolds | lib/plugin.js:88-105 | the consolidated output holds each valid output's parsed contents at its path key, unless a later output has the same key, another output's key lies below it, or an output above it is an array or an object with a field named after the next segment |
| Plugin.Run | lib/plugin.js:46-72 | a write never pushes an invalid output, pushes at most one file for a list, and without a renderer emits only the renderer error |
| Plugin.RunWithoutRenderer | lib/plugin.js:47 | without a renderer function, a write emits only the renderer error |
| Plugin.RunOutcome | lib/plugin.js:55-71 | a write reports every invalid output and pushes only valid data: exactly the consolidated file for a list, at most one file for a single input |
| Plugin.SingleAtMostOne | lib/plugin.js:53 | a single input yields at most one text file |
| Plugin.InvalidOnlyJson | lib/plugin.js:180-181 | only `.json` inputs can be flagged invalid |
| Plugin.RunRejected | lib/plugin.js:72 | a sniffing or conversion failure ends the write with one error and nothing pushed |
| Plugin.PluginStream.constructor | lib/plugin.js:31-44 | the stream starts empty, with the configuration normalised from its arguments by every rule `NormaliseConfig` states |
| Plugin.PluginStream.Write | lib/plugin.js:46-72 | a write appends exactly the errors and files `Run` describes |
| Legacy.LegacyKey | index.js:110 | the key is as long as the relative path's part before its first `.` |
| Legacy.LegacyKeySpec | index.js:110 | the key is the relative path up to its first `.`, each `/` and `\` turned into `.` and every other character kept |
| Legacy.LegacyTransformed | index.js:123 | only a transform can fail, or leave the record undefined |
| Legacy.LegacyConvert | index.js:105-132 | the output is renamed to the `.json` extension; without `flatten` its contents are an object with at most one property |
| Legacy.LegacyConvertShape | index.js:113-129 | the transform's return replaces the record even when falsy; with `flatten` the bare record is written, else `{key: record}` |
| Legacy.Extend | index.js:50 | after `extend`, a name is present exactly when either object has it |
| Legacy.ExtendGet | index.js:50 | after `extend(origin, add)`, a property reads as in `add` where `add` has it, else as in `origin` |
| Legacy.MergeAllAbsent | index.js:48-51 | a name no file has is absent from the merge |
| Legacy.EarlierWins | index.js:48-51 | the merge holds the value of the earliest file that has the name |
| Legacy.Merge | index.js:46-51 | the batch loop fails with the first file's error, or yields the merge of all files' objects |
| Legacy.BatchEarlierWins | index.js:45-53 | without `flatten`, a record is at its key in the merge unless an earlier file has the same key |
| Legacy.OwnKeyOnly | index.js:113-114 | a document's object holds no name but its own key |
| Legacy.LegacyTree | index.js:53 | `sort(expand(data))` is an object whose top level is sorted and holds exactly the expanded object's members |
| Legacy.LookupSortedTop | index.js:53 | sorting the top level changes nothing any path finds |
| Legacy.LegacyTreeHolds | index.js:48-53 | in whatever order the merge lists the names, `sort(expand(data))` holds a record at its path when every other name is apart from that path or is an object above it without the next segment |
| Legacy.PrefixAfterExtension | index.js:48-53 | a batch naming `blog.x` before `blog` keeps `blog/x.md`'s record under `blog`, next to the fields of `blog.md`'s record |
| Legacy.LegacyRun | index.js:40-70 | a write emits exactly one error or one file, and no error exactly when there is a renderer and the conversion succeeds |
| Legacy.SingleIsBare | index.js:63-66 | a single file is pushed as its bare record with the `.json` extension |
| Legacy.BatchOutput | index.js:53-62 | a batch pushes one file at the configured name, with its top level sorted |
| Legacy.LegacyStream.constructor | index.js:27-38 | the stream starts empty over the configuration normalised by every rule `NormaliseConfig` states; a configuration object is used itself, a renderer function gets a fresh one; `flatten` on it is cleared |
| Legacy.LegacyStream.Write | index.js:40-70 | a single file sets `flatten` on the shared configuration object, and a write appends what `LegacyRun` describes for the flag before it |
| Legacy.SharedFlagReset | index.js:38-64 | building a second stream over the same configuration object clears the flag that a single file written to the first one set |

## Left out

- Stream plumbing (through2, callbacks, back-pressure) is not modelled. A stream is
  a class that accumulates the errors it emitted and the files it pushed.
- Plugin.MapAllSpec: the chain's rejection is read as the first failing conversion
  in input order. With asynchronous conversions, `Promise.all` rejects with the
  failure that settles first in time.
- Content sniffing (istextorbinary), front-matter and YAML, the Markdown renderer,
  `JSON.parse` and the user transform are foreign code, given as parameters.
  - The renderer's `this` context (`config.context`) is not modelled.
  - The renderer and the transform are checked only for being present.
    Non-function values count as absent.
- `file.stat.mtime.toISOString()` is given as the already-formatted string.
  A file without `stat` fails the conversion.
- Buffers and the `JSON.stringify`/`JSON.parse` round trip: contents are JSON
  values, and parsing what was stringified gives the value back. JSON numbers are
  integers, because floating point is not modelled.
- `Path.sep` is `/`. Vinyl's recomputation of `relative` after the extension
  change is the extension replacement applied to `relative`.
- Front-matter attributes are always an object. A non-object `attributes` value,
  which the source would decorate, is not modelled.
- The `isText` flag stored on Vinyl files, and the clone made by `toJSON`, are
  not modelled. Files are values.
- Legacy.LegacyStream.Write: the legacy guards `isNull`, `isStream` and
  `isBuffer` are not modelled, because every file is buffered here. An exception
  out of a legacy write becomes an emitted error; the source throws it out of
  the stream. Without a renderer, the legacy write emits the error but never
  calls back; the model only records the error.
- Json.SetKeyOrder, Consolidate.SortByKey, Consolidate.Expand: JavaScript
  enumerates names that are array indexes (`"1"`, `"10"`) before all others, in
  ascending numeric order. The model keeps insertion order for every name, so key
  order is exact only for names that are not array indexes.
- Consolidate.SortByKey: sort-object's default order compares names with
  `localeCompare`. The model compares names code point by code point instead.
  That matches UTF-16 code-unit order except between characters above U+FFFF
  and characters in U+E000–U+FFFF. Both differ from `localeCompare` for mixed
  case and for some punctuation. In both, `-` sorts before `.`,
  which the finding below relies on.
- Consolidate.SetPath: names are split on every `.`. set-value's escaped dots
  and brackets, and its refusal of the names `__proto__`, `constructor` and
  `prototype`, are not modelled. A path through an array changes nothing in the
  model; in set-value a segment that is an array index (`a.0`) would set that
  element instead.
- Consolidate.RecordInTree, Consolidate.FieldBesideChildren, Plugin.ConsolidatedHolds:
  every record above the path must be an object without the next segment, or
  neither an object nor an array. A record above that holds the next segment
  is excluded, although the record below is still found when that field holds
  no object along the rest of the path. An array above is excluded because the
  record below is then dropped from the output.
- Consolidate.ExpandKeepsFields, Consolidate.FieldBesideChildren: a JSON object
  has unique names, but the model's member lists do not enforce it. So these
  lemmas require unique names of the record whose field they read.
- Plugin.NormaliseConfig: a first argument that is neither a function nor an
  object (such as `undefined`) cannot be given. The source stores it as the
  configuration, and the first write then fails reading `renderer` from it.
- Legacy.SharedConfig: the configuration's properties other than `flatten` are
  fixed once a stream is built. Both revisions read them from the caller's object
  on every write, so a caller changing them later is not modelled.
- The legacy module-level `stream` variable, which every legacy stream shares,
  is not modelled.
- Legacy.FileData: in a batch written after `flatten` was set, a file whose bare
  record is not an object fails the batch with an error. In the source, `extend`
  returns that primitive and the merge goes on from it.
- Legacy.BatchOutput: states only the top-level sort that `sort(expand(data))`
  performs, because the legacy code does not sort deeper levels.

## Findings

| source | as written | input that shows it | evidently intended | confidence | as-written member | corrected member |
|---|---|---|---|---|---|---|
| lib/plugin.js:103-105 | `sort` orders the flat dotted names, then `expand` nests them, so siblings come out in the order of the first dotted name under each | files `a-b/x.md` and `a/y.md`: `"a-b.x"` sorts before `"a.y"` because `-` precedes `.`, so the top level is `["a-b", "a"]` | every level sorted by name, as the test "deeply sorts the directory structure alphabetically" (lib/plugin.test.js:470-480) expects: `["a", "a-b"]` | not executed | Consolidate.ExpandedSortedFlatNotSorted | Consolidate.TreeSortsSiblings |
