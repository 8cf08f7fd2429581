# petstore.dev example browser, modelled in Dafny

petstore.dev is a single Next.js page that lists the OpenAPI example
documents of the `@readme/oas-examples` package and shows one of them at a
time. This model covers two parts of `pages/index.js`:

- **The catalog loader** (`getStaticProps`, module `Loader`). For each spec
  version ("2.0", "3.0", "3.1", in the key order of the `versions` object) it
  does four things:
  - keeps the directory entries that contain ".json";
  - cuts the first ".json" out of each entry to get the stem;
  - builds a record with four fields: a display title, the stem, the
    re-serialised JSON and the YAML text;
  - sorts the version's records with the page's comparator.

  The title is the title-cased stem, with hyphens read as spaces, when the
  stem contains "petstore". Otherwise it is the document's `info.title`.
  `titleCase` is modelled as the loop it is: each word of the split string is
  overwritten in an array (`Loader.TitleCase`). The sort is an in-place
  insertion sort over an array, proved to give a permutation of its input.
- **The viewer** (`Home`, module `Viewer`). The class `ViewState` holds the
  three pieces of selection state (`version`, `file`, `format`) and the
  handlers that change them. Beside it are functions for the values the page
  derives from the state:
  - the version tabs;
  - `classNames`;
  - the raw-file link and the external "bin" link;
  - the copied text and the code block's text.

The string built-ins the page relies on are in module `Text`: `toLowerCase`,
`split(" ")`, `join(" ")`, the first match of a literal pattern and a global
single-character replacement. Module `Wrappers` holds `Option`. `None` stands
for a thrown error or an `undefined` result.

The file system is a value of type `Loader.Io`, made of four functions:

| field | stands for |
|---|---|
| `readDir` | the `<version>/json` directory listing |
| `readJson` | `require` of `<version>/json/<stem>.json`, giving the parsed document |
| `readYaml` | `fs.readFile` of `<version>/yaml/<stem>.yaml` |
| `stringify` | `JSON.stringify(oas, undefined, 2)` |

Each read returns `None` when it fails, and any failure makes the build
produce no catalog. `encodeURIComponent`
is passed to the viewer's bin-link functions as a parameter.

## Model

| member | source | states |
|---|---|---|
| Text.LowerChar | pages/index.js:439 | lower-casing one character: an upper-case ASCII letter becomes the lower-case letter at the same alphabet position, anything else is kept; the result is never upper case |
| Text.UpperChar | pages/index.js:441 | upper-casing one character: a lower-case ASCII letter becomes the upper-case letter at the same alphabet position, anything else is kept; the result is never lower case |
| Text.ToLower | pages/index.js:439 | `toLowerCase` keeps the length and lower-cases each character at its position |
| Text.Split | pages/index.js:439 | `split(" ")` always gives at least one word, and no word holds a space |
| Text.Join | pages/index.js:443 | joining with single spaces (no contract of its own): inverse of `Split` by `JoinSplit` and `SplitJoin` |
| Text.JoinSplit | pages/index.js:439-443 | joining the words of a split with single spaces gives back the string |
| Text.SplitJoin | pages/index.js:439-443 | splitting the join of one or more space-free words gives back exactly those words |
| Text.SplitLower | pages/index.js:439 | lower-casing then splitting gives the same number of words as splitting alone, each of them lower-cased |
| Text.IndexOf | pages/index.js:415 | a pattern match finds the first occurrence: the pattern occurs there and nowhere earlier, and no index is found exactly when it occurs nowhere |
| Text.Contains | pages/index.js:415 | a regular-expression test of a literal pattern (no contract of its own): true exactly when `IndexOf` finds an occurrence, which occurs nowhere otherwise |
| Text.RemoveFirst | pages/index.js:417 | removing the first match: without a match the string is kept; with one, the result is shorter by the pattern's length and re-inserting the pattern at the match gives back the string |
| Text.ReplaceAll | pages/index.js:433 | a global single-character replacement keeps the length and replaces exactly the matching characters |
| Text.ReplaceAllRemoves | pages/index.js:433 | after replacing every hyphen by a space, no hyphen is left |
| Loader.JsonNames | pages/index.js:415 | the filtered entries all contain ".json", and each entry that contains it is kept as many times as it occurs, all others dropped |
| Loader.JsonNamesAppend | pages/index.js:415 | the filter keeps entry order: filtering a concatenation gives the concatenation of the filtered parts |
| Loader.JsonNamesSingle | pages/index.js:415 | one entry is kept exactly when it contains ".json" (with `JsonNamesAppend`, this fixes the filter on every list) |
| Loader.Stem | pages/index.js:417 | the stem (no contract of its own): `StemRestores` and `StemOfJsonFile` state what it is |
| Loader.StemRestores | pages/index.js:417 | a kept entry's stem is 5 characters shorter, and putting ".json" back at the cut gives the entry |
| Loader.StemOfJsonFile | pages/index.js:417 | for an entry "x.json" where x holds no ".json", the entry passes the filter and its stem is x |
| Loader.Capitalize | pages/index.js:441 | one word capitalised: same length, first character upper-cased, rest unchanged |
| Loader.TitleCase | pages/index.js:438-444 | the in-place loop over the words' array returns the join of the capitalised, lower-cased words (`TitleCaseOf`) |
| Loader.TitleCaseWords | pages/index.js:438-444 | title case keeps the space-separated words: as many words, each with its first character upper-cased and the rest lower-cased |
| Loader.TitleCaseLength | pages/index.js:438-444 | title case keeps the string's length |
| Loader.TitleCaseExcludes | pages/index.js:438-444 | title case introduces no character that is neither a letter nor a space |
| Loader.Title | pages/index.js:431-436 | a stem containing "petstore" gets the title case of the stem with every hyphen turned into a space, a hyphen-free title of the stem's length; any other stem gets the document's `info.title`, and none when the document has no `info` |
| Loader.TitleWords | pages/index.js:431-444 | the title of a "petstore" stem has one word per hyphen- or space-separated part of the stem, each with its first character upper case and the rest lower case |
| Loader.PetstoreSimpleTitle | pages/index.js:431-436 | the stem "petstore-simple" gets the title "Petstore Simple" |
| Loader.LoadRecord | pages/index.js:416-451 | loading one entry (no contract of its own): stated by `LoadRecordFields` |
| Loader.LoadRecordFields | pages/index.js:416-451 | an entry yields a record exactly when its JSON and YAML read and its title exists; the record holds the stem, the serialised document, the YAML text and the title |
| Loader.LoadAll | pages/index.js:469 | `Promise.all` over the entries (no contract of its own): stated by `LoadAllRecords` |
| Loader.LoadAllRecords | pages/index.js:469 | `Promise.all` over the entries succeeds exactly when every entry loads, and then gives one record per entry, in entry order |
| Loader.VersionRecords | pages/index.js:404-469 | one version's unsorted records (no contract of its own): the listing fails, or the filtered entries are loaded as `LoadAllRecords` states |
| Loader.Score | pages/index.js:457 | a record's score is its stem's rank in `sortOrder` (between 1 and 5) for the five ranked stems, and its YAML length otherwise |
| Loader.Compare | pages/index.js:456-466 | the comparator as written returns only -1, 0 or 1 |
| Loader.CompareCases | pages/index.js:454-467 | as written: equal stems tie, two unranked records always tie, and two ranked records compare by rank, tying only on the same stem |
| Loader.CompareRankedFirst | pages/index.js:457-458 | when both YAML texts are longer than 5 characters, the comparator as written puts a ranked example before an unranked one, in both argument orders |
| Loader.RankedOrder | pages/index.js:455 | the five ranked stems compare in the fixed order petstore, petstore-simple, petstore-minimal, petstore-expanded, readme-extensions, as the intended comparator also decides |
| Loader.CompareIgnoresSecondLength | pages/index.js:458 | counterexample: two unranked records with YAML lengths 1 and 3 tie as written, though the intended comparator puts the shorter first |
| Loader.CompareNotAntisymmetric | pages/index.js:457-458 | counterexample: as written, "petstore" with an empty YAML text (shorter than its rank) and an unranked record each compare greater than the other |
| Loader.CompareIntended | pages/index.js:457-466 | the corrected comparator is negative or positive exactly when the first score (rank, or else YAML length) is below or above the second |
| Loader.IntendedIsPreorder | pages/index.js:456-466 | the corrected comparator is antisymmetric and transitive |
| Loader.Key | pages/index.js:454-467 | the key each comparator sorts by (no contract of its own): the score for the corrected comparator; for the one as written, the rank of a ranked stem and one shared key (6) for every unranked stem, behind all ranks. `ConsistentCompare`, `SortList` and `WrittenOrder` state what it orders |
| Loader.ConsistentCompare | pages/index.js:456-466 | where the comparator is consistent on a list (always for the corrected one; for the one as written when every stem is ranked or every YAML text is longer than 5 characters), it calls two of its records out of order exactly when their keys are |
| Loader.WrittenOrder | pages/index.js:454-467 | a list in the key order of the comparator as written has its ranked examples first, in rank order, and the unranked ones after them |
| Loader.SortList | pages/index.js:456 | sorting the array in place gives a permutation of it, and puts it in the comparator's key order whenever the comparator is consistent on it |
| Loader.LoadVersion | pages/index.js:469 | one version's records are produced exactly when every read succeeds, and they are a sorting of the loaded records |
| Loader.LoadKeys | pages/index.js:403-470 | the loop over the version keys yields a catalog exactly when every version loads; the catalog has those keys in order, one sorted record list per key, and nothing more |
| Loader.LoadCatalog | pages/index.js:400-477 | the page's props: a catalog keyed "2.0", "3.0", "3.1" exactly when all three versions load, each list a sorting of its records; as written, a version whose YAML texts are all longer than 5 characters is in key order (ranked first, by rank), and with the corrected comparator every version is in score order |
| Viewer.TabsOf | pages/index.js:46 | one tab per catalog key, in key order, named "v" followed by the key |
| Viewer.VersionTabs | pages/index.js:46 | the three versions give the tabs v2.0, v3.0 and v3.1 |
| Viewer.TabNamesDistinct | pages/index.js:191-201 | distinct keys give tabs with distinct names, which serve as the React keys of the tab lists |
| Viewer.OneActiveTab | pages/index.js:204 | exactly one tab is highlighted as matching the selected version |
| Viewer.FindTab | pages/index.js:188 | `tabs.find` gives the first tab with the wanted version, and nothing exactly when no tab has it |
| Viewer.FindOwnTab | pages/index.js:188 | for a catalog key, `tabs.find` returns that key's own tab |
| Viewer.ViewState.TabLabelOfVersion | pages/index.js:187-189 | the mobile select's default label is always "v" followed by the selected version |
| Viewer.ViewState.TabLabel | pages/index.js:187-189 | the mobile select's default label (no contract of its own): stated by `TabLabelOfVersion` |
| Viewer.Truthy | pages/index.js:40 | `filter(Boolean)` keeps every non-empty class as often as it occurs and drops every empty one |
| Viewer.ClassNames | pages/index.js:39-41 | `classNames` (no contract of its own): stated by `ClassNamesEmpty`, `ClassNamesSnoc` and `ClassNamesSplit` |
| Viewer.ClassNamesEmpty | pages/index.js:39-41 | `classNames` gives the empty string exactly when every class is falsy |
| Viewer.ClassNamesSnoc | pages/index.js:39-41 | adding a falsy class leaves `classNames` unchanged; adding a truthy one appends it after one space, or alone when nothing came before |
| Viewer.ClassNamesSplit | pages/index.js:39-41 | for classes without spaces, at least one of them truthy, splitting the result at spaces gives back the truthy classes |
| Viewer.RawUrl | pages/index.js:269 | the raw link starts with the oas-examples base URL, followed by version/format/file.format |
| Viewer.RawUrlInjective | pages/index.js:269 | distinct selections (a version without '/', a format, a file) give distinct raw links |
| Viewer.CopyText | pages/index.js:277 | the copied text (no contract of its own): stated by `CopyShowsSameFormat` |
| Viewer.CodeBlock | pages/index.js:384-388 | the code block's language class and text (no contract of its own): stated by `CopyShowsSameFormat` |
| Viewer.CopyShowsSameFormat | pages/index.js:384-388 | the copied text (line 277) is the displayed text: the JSON for "json", the YAML for "yaml"; the code block's language class and the raw link's extension are that format |
| Viewer.BinLink | pages/index.js:256-260 | the bin link is shown exactly for versions other than "2.0", and is the bin base URL followed by the encoded raw link |
| Viewer.ViewState.constructor | pages/index.js:46-50 | initial state: the second tab (version 3.0 for the real catalog), that version's first file, format "json" |
| Viewer.ViewState.UpdateVersion | pages/index.js:52-56 | selecting a tab sets the version to it and the file to that version's first file, whatever was selected before; the format is kept |
| Viewer.ViewState.SetFile | pages/index.js:228 | clicking a file changes only the file; a file of the current version keeps the selection consistent |
| Viewer.ViewState.SetFormat | pages/index.js:308-345 | the "JSON" (line 308) and "YAML" (line 345) buttons change only the format; choosing the current format changes nothing |
| Viewer.ViewState.Copied | pages/index.js:277 | the text the copy button copies is the text the code block shows |
| Viewer.ViewState.RawLink | pages/index.js:269 | the current raw link is the base URL followed by version/format/file.format of the current selection |
| Viewer.ViewState.Bin | pages/index.js:256-260 | the bin link is shown exactly when the selected version is not "2.0", and is the bin base URL followed by the encoded current raw link |
| Viewer.SwitchScenario | pages/index.js:46-56 | on the real catalog the page opens on version 3.0 in JSON with the bin link; after clicking v3.1, YAML and v2.0 it shows version 2.0's first file in YAML without the bin link |

## Left out

- File system reads, `require` and `JSON.stringify` are fields of `Loader.Io`, as described above. Their contents and the JSON text format are not modelled.
- `encodeURIComponent` is a parameter of `Viewer.BinLink`; percent-encoding is not modelled.
- `Promise.all` runs the reads concurrently. The model reads them in entry order, and one failure fails the version. The model keeps no error value, only that the build fails.
- Loader.SortList: the page uses the engine's `Array.prototype.sort`; the model uses an insertion sort. The comparator as written is consistent when every stem is ranked or every YAML text is longer than 5 characters, as for real example documents. Only when some stem is unranked and some YAML text has 5 characters or fewer does the contract promise no more than a permutation. There the comparator as written can be inconsistent: a ranked example whose YAML is shorter than its rank, or an unranked example whose YAML is shorter than a rank, placed beside the other kind.
- Loader.SortList: stability is not stated. Since ES2019 the sort is stable, so with the comparator as written the unranked examples, which all tie, keep their directory order; the model's sort keeps ties in order too, but no contract says so.
- Loader.Title: an `info.title` that is missing or not a string is not modelled. A document without `info` gives `None`, standing for the `TypeError`.
- `sortOrder` lookups that hit `Object.prototype` members (a stem such as "constructor") are not modelled. Every unranked stem falls back to the YAML length.
- Text.ToLower, Text.LowerChar and Text.UpperChar map ASCII letters only. Unicode case mapping, including length-changing mappings, is not modelled.
- YAML length: `yaml.length` counts UTF-16 code units. The model counts characters of the string.
- The `copied` flag, the clipboard write and the 800 ms reset timer are left out; they are side effects with no bearing on the selection state.
- `mobileFiltersOpen` and the dialog it drives are left out, as is the rest of the JSX layout. The mobile version `<select>` has no change handler, so it never changes the state; it is modelled only through its default label.
- Prism syntax highlighting and the `console.log` in `updateVersion` are left out.
- Viewer.ViewState.constructor and Viewer.ViewState.UpdateVersion require the version's file list to be non-empty. On the page an empty list makes `files[v][0]` undefined, and the render that follows throws.

## Findings

| source | as written | input that shows it | evidently intended | confidence | as-written member | corrected member |
|---|---|---|---|---|---|---|
| pages/index.js:458 | `bScore` falls back to `a.yaml.length` | two unranked records with YAML texts "x" and "xyz" compare equal, so unranked examples are never ordered by YAML length; in the degenerate case of "petstore" with an empty YAML text beside an unranked record with YAML "xyz", each compares greater than the other | `bScore` falls back to `b.yaml.length`, so the comparator orders by score and is a total preorder | not executed | Loader.CompareIgnoresSecondLength | Loader.IntendedIsPreorder |

The comparator as written is `Loader.Compare`, and `Loader.CompareIntended`
is the corrected one. The loader is parameterised by a `Loader.Comparator`:
`LoadCatalog(io, AsWritten)` is the page as it stands. On real data (every
YAML text longer than 5 characters) it lists the ranked examples first, in
rank order, and leaves the unranked ones tied, in directory order, rather than
ordered by YAML length. `LoadCatalog(io, Intended)` is the corrected page,
which puts every version's list in score order.
