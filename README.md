# Project-structure snapshot generator, modelled in Dafny

`generate_structure.py` is a Home Assistant / ESPHome / Zigbee2MQTT
configuration repository's helper. It walks the working tree and writes
`project_structure.json`, a map of the repository meant as context for an
assistant. The document holds:

- fixed fields (`project_name`, `repository`, the `generated` time stamp,
  `usage_rules`);
- `root`: each top-level entry whose name is not one of the excluded
  directory names, with its type and a heuristic description. Only the name
  is tested: a top-level file named `.git` or `venv` is dropped too, while a
  top-level file with an excluded suffix such as `x.log` stays;
- `files`: every file the walk keeps, sorted by path string, with type and
  description;
- `yaml_includes`: for each file whose lower-cased suffix ends in `yaml` (so
  `.yaml`, `.YAML`, but not `.yml`) and whose text holds `!include`
  directives, the sorted, distinct targets;
- `relations`: the same map passed through `make_relations`.

This project models that pipeline over an in-memory directory tree. A
`Tree.Node` is a file (name and decoded text, or no text when it cannot be
read) or a directory (name and entries). A `Tree.Path` is the list of segments
below the root, and `Tree.Str` gives its `str()` form, the segments joined by
`/`.

The model has one module per concern:

- `Text`: substring, `endswith` and lower-casing helpers.
- `Order`: Python's `str` ordering and `sorted(set(...))`.
- `Exclusion`: `EXCLUDE_DIRS`, `EXCLUDE_SUFFIXES`, `is_skip_dir` and `is_skip_file`.
- `Tree`: the tree itself, path strings, `PurePath.suffix`, and path resolution.
- `Walk`: `list_all`. It is an imperative walk over a stack of directories, proved
  against a depth-first reference listing and the declarative "reachable and
  not excluded" predicate `Listed`.
- `Descriptor`: `DESCR` in table order, and `describe`.
- `Includes`: `INCLUDE_RE` as a greedy scanner. It is proved equal to a
  declarative match predicate, and it carries `finditer`'s left-to-right,
  non-overlapping search. This module also holds `yaml_includes`.
- `Assembly`: `top_level`, `build_root_map`, `collect_includes`,
  `make_relations`, the `files` records, and the document `main` writes.

`Assembly.SnapshotSpec` states what `main` promises of the whole document. In
a real tree it is complete: `Assembly.SnapshotDetermined` shows that it fixes
every field but the time stamp, so two runs on an unchanged tree agree.
Scenario lemmas derive from it the documented examples: a `configuration.yaml`
with one include, a `notes.txt` without a description, an unreadable YAML
file, a repeated include line, and an excluded `.git` directory.

The loops of `list_all`, `build_root_map` and `collect_includes` are
methods with loop invariants. The loops of `build_root_map`,
`collect_includes` and one `os.walk` step (`Walk.VisitDir`) are proved
against a function that says what the dictionary or list holds after any
prefix of the input. The outer loop of `list_all` keeps a stack of
directories still to visit: its invariant says that the files found so far
plus the files below the pending directories make up the reference
listing, counted as a multiset.

## Model

| member | source | states |
|---|---|---|
| Exclusion.SkipDirMeaning | generate_structure.py:15 | a directory name is skipped exactly when it is one of `.git`, `.github`, `__pycache__`, `venv`, `.venv`, `.idea` |
| Exclusion.SkipFileMeaning | generate_structure.py:16 | a file name is skipped exactly when it ends with `.pyc`, `.log`, `.tmp` or `.bak` |
| Exclusion.SkipFileIsCaseSensitive | generate_structure.py:34 | `endswith` compares exact characters: `HOME-ASSISTANT.LOG` and `backup.bak.yaml` are kept, while `home-assistant.log` and `cache.pyc` are dropped |
| Order.LexLeMeaning | generate_structure.py:63 | the string order used for sorting: `a <= b` iff `a` is a prefix of `b` or has the smaller code point at the first difference |
| Order.LexLeTotal | generate_structure.py:63 | any two strings are comparable |
| Order.LexLeTransitive | generate_structure.py:63 | the order is transitive |
| Order.LexLeAntisymmetric | generate_structure.py:63 | strings each at most the other are equal |
| Order.StrictlySortedPairwise | generate_structure.py:41 | in a strictly ascending list every element is below every later one |
| Order.InsertUnique | generate_structure.py:41 | inserting into a sorted duplicate-free list keeps it so and adds exactly the new element |
| Order.SortedSet | generate_structure.py:41 | `sorted(set(xs))` is strictly ascending and holds exactly the elements of `xs` |
| Order.StrictlySortedUnique | generate_structure.py:88 | two strictly ascending lists with the same elements are equal |
| Order.SortedSetOfStrictlySorted | generate_structure.py:88 | `sorted(set(v))` of a strictly ascending `v` is `v` |
| Tree.LastDotIsLast | generate_structure.py:38 | no `.` lies after the one found by the `rfind` that suffix extraction uses |
| Tree.LastDotFinds | generate_structure.py:38 | the last `.` before the end is the one that is found |
| Tree.SuffixNonEmpty | generate_structure.py:38 | a name has a suffix iff its last `.` is neither its first nor its last character |
| Tree.SuffixShape | generate_structure.py:49 | a suffix is a proper tail of the name, at least two characters, starting with its only `.` |
| Tree.SuffixOfDotted | generate_structure.py:49 | the suffix of `stem.ext` (non-empty stem, dot-free extension) is `.ext` |
| Tree.SuffixExamples | generate_structure.py:49 | `configuration.yaml` → `.yaml`, `backup.tar.gz` → `.gz`; `.gitignore`, `Makefile` and `notes.` have none |
| Tree.Child | generate_structure.py:40 | a name lookup in a directory returns an entry of that name, and finds nothing only when no entry has it |
| Tree.FileAtResolves | generate_structure.py:101 | in a real (well-formed) tree, a path that leads to a file resolves to that file |
| Tree.ChildIsUnique | generate_structure.py:60 | with unique names, a lookup by an entry's name finds that entry |
| Tree.LongKeyNotInStr | generate_structure.py:48 | a `/`-free key longer than every segment does not occur in the path string |
| Tree.FileAtSlashFree | generate_structure.py:60 | in a real tree no segment of a path to a file holds `/` |
| Tree.StrBelow | generate_structure.py:60 | a path string that starts with `d/`, for a `/`-free `d`, belongs to a path of at least two segments whose first segment is `d` |
| Tree.StrInjective | generate_structure.py:63 | two non-empty paths whose segments hold no `/` have the same string only when they are equal |
| Walk.KeptInSound | generate_structure.py:57-62 | every path the walk lists leads to a file and passes the exclusion rules on every directory and on the file name |
| Walk.KeptInComplete | generate_structure.py:57-62 | every reachable file whose path passes the exclusion rules is listed |
| Walk.KeptFilesMeaning | generate_structure.py:55-63 | the walk lists a path iff it is a reachable file that no exclusion rule removes |
| Walk.KeptInAtMostOnce | generate_structure.py:57-62 | in a real (well-formed) tree, no path is listed twice |
| Walk.ListedExactlyOnce | generate_structure.py:55-63 | in a real (well-formed) tree, each listed file appears exactly once |
| Walk.ListedStrInjective | generate_structure.py:83 | in a real tree two listed files with the same path string are the same file |
| Walk.ListedIsFile | generate_structure.py:59-62 | in a real (well-formed) tree, a listed path resolves to a file, never to a directory |
| Walk.InsertByStr | generate_structure.py:63 | inserting by path string keeps the list sorted and adds exactly that path |
| Walk.SortByStr | generate_structure.py:63 | `sorted(files, key=str)` is a permutation ordered by path string |
| Walk.KeptInSnoc | generate_structure.py:57-62 | one more directory entry appends exactly what is listed below it |
| Walk.EntrySplit | generate_structure.py:58-62 | an entry's own file and the subdirectory left to visit make up what is listed for it |
| Walk.VisitSplit | generate_structure.py:57-62 | a directory's kept files plus everything below its kept subdirectories are exactly what is listed below it |
| Walk.VisitShrinks | generate_structure.py:58 | pruning leaves at most as many subdirectories as entries, and they are smaller |
| Walk.VisitDir | generate_structure.py:58-62 | one walk step returns the kept file paths and the non-excluded subdirectories, in listing order |
| Walk.WalkStep | generate_structure.py:57 | replacing a visited directory by its subdirectories keeps the files still to be found |
| Walk.WalkShrinks | generate_structure.py:57 | the walk terminates: each step shrinks the pending tree |
| Walk.ListAll | generate_structure.py:55-63 | the result is sorted by path string, is a permutation of the reference listing, and holds exactly the `Listed` files |
| Descriptor.FirstMatchMeaning | generate_structure.py:47-48 | the table lookup finds nothing iff no key occurs; otherwise it returns the value of an occurring key with no earlier key occurring |
| Descriptor.SuffixDescription | generate_structure.py:49-52 | `.yaml`/`.yml` → YAML text, `.json` → JSON text, `.py` → Python text, any other suffix → `''` |
| Descriptor.DescribeEmpty | generate_structure.py:46-52 | a path gets `''` iff no `DESCR` key occurs in its string and its suffix is none of the four known ones |
| Descriptor.DescribeFirstKeyWins | generate_structure.py:19-28 | the first `DESCR` key in table order that occurs decides, whatever later keys occur |
| Descriptor.DescribeBySuffix | generate_structure.py:49-52 | with no key in the path, the case-sensitive suffix alone decides |
| Descriptor.DescribeMainConfiguration | generate_structure.py:20 | `configuration.yaml` gets the main-configuration text |
| Descriptor.EsphomePathKeys | generate_structure.py:24 | in `esphome/includes/a.yaml` no earlier key occurs and `esphome` does |
| Descriptor.DescribeEsphomeBeforeIncludes | generate_structure.py:24-26 | `esphome/includes/a.yaml` gets the ESPHome text, not the includes text |
| Descriptor.ScriptsPathKeys | generate_structure.py:22 | in `includes/scripts.yaml` no earlier key occurs and `scripts.yaml` does |
| Descriptor.DescribeScriptsBeforeIncludes | generate_structure.py:22-26 | `includes/scripts.yaml` gets the scripts text, not the includes text |
| Descriptor.NotesPathKeys | generate_structure.py:19-28 | no `DESCR` key occurs in `notes.txt` |
| Descriptor.DescribeUnknownFile | generate_structure.py:52 | `notes.txt` gets no description |
| Descriptor.DescribeShortName | generate_structure.py:47-52 | a one-segment path shorter than every key is described by its suffix alone |
| Descriptor.DescribeYml | generate_structure.py:47-49 | every path with suffix `.yml` in which no `DESCR` key occurs is described as YAML |
| Includes.RunEndRun | generate_structure.py:30 | a greedy repetition passes only over characters of its class |
| Includes.RunEndUnique | generate_structure.py:30 | a run that cannot be extended is the one greedy repetition takes |
| Includes.RunEndLongest | generate_structure.py:30 | greedy repetition takes the longest run |
| Includes.IncludeWordStartsWithLetter | generate_structure.py:30 | `include` in any case starts with a non-blank character, so `\s*` stops before it |
| Includes.MatchAt | generate_structure.py:30 | a match found at `i` starts at `i` and has a non-empty group inside the text |
| Includes.MatchAtSound | generate_structure.py:30 | what the scanner finds matches `!\s*include[^\s]*\s+([^\s#]+)` (ignoring case), and its group cannot be extended |
| Includes.MatchAtComplete | generate_structure.py:30 | every match at a `!` has the group start the scanner reports, and a group no longer than the scanner's |
| Includes.MatchRuns | generate_structure.py:30 | every run in any match is the longest one, so it is the one greedy matching takes |
| Includes.MatchAtExact | generate_structure.py:30 | a match whose group cannot be extended is exactly the one the scanner finds |
| Includes.ScanOrdered | generate_structure.py:41 | `finditer` reports matches in order, without overlap, from its start position on |
| Includes.ScanFound | generate_structure.py:41 | each reported match is the match at its own `!` |
| Includes.ScanCovers | generate_structure.py:41 | a position where a match starts is reported or lies inside a reported match |
| Includes.ScanMatches | generate_structure.py:41 | each reported match is a real match, and no match is skipped except inside the previous one |
| Includes.OrderedMonotone | generate_structure.py:41 | in an ordered list of matches, later matches end later |
| Includes.ScanSkips | generate_structure.py:41 | the search passes over text without `!` |
| Includes.ScanNoBang | generate_structure.py:41 | no match starts at a character other than `!` |
| Includes.ScanStep | generate_structure.py:41 | after a match, the search resumes where it ended |
| Includes.CaptureIsTarget | generate_structure.py:30 | group 1 is non-empty and holds no whitespace and no `#` |
| Includes.Targets | generate_structure.py:41 | every captured target is non-empty and free of whitespace and `#` |
| Includes.IncludesIn | generate_structure.py:41 | the targets of a text, sorted, without duplicates, exactly the captured ones |
| Includes.YamlIncludes | generate_structure.py:37-43 | `yaml_includes` always returns a strictly ascending list |
| Includes.YamlIncludesMeaning | generate_structure.py:37-43 | empty unless the lower-cased suffix ends in `yaml` and the file is readable; otherwise exactly the targets of its text |
| Includes.YamlIncludesOfReadable | generate_structure.py:38-41 | a readable file that passes the suffix test contributes the sorted distinct targets of its text |
| Includes.DottedYamlName | generate_structure.py:38 | `stem.ext` passes the suffix test when `ext` is `yaml` in any case |
| Includes.YmlIsNotScanned | generate_structure.py:38 | every file with suffix `.yml`, in any tree and whatever it holds, yields no includes |
| Includes.UpperCaseYamlIsScanned | generate_structure.py:38 | `B.YAML` is scanned like a lower-case `.yaml` file |
| Includes.IncludeDirectiveAt | generate_structure.py:30 | `!include ` followed by a maximal run of target characters is a match with exactly that group |
| Includes.SingleDirective | generate_structure.py:41 | a line `<pre>!include <target>` with no `!` before the directive yields exactly its target |
| Includes.SortedSetSingle | generate_structure.py:41 | `sorted(set([x]))` is `[x]` |
| Includes.SensorLineTargets | generate_structure.py:41 | `sensor: !include includes/sensors.yaml` yields exactly `includes/sensors.yaml` |
| Includes.LineMatch | generate_structure.py:30 | a directive line inside a text is a match whose group runs to the newline |
| Includes.LineAt | generate_structure.py:41 | a directive line inside a text contributes one match, and the search goes on after the line |
| Includes.DirectiveScan | generate_structure.py:41 | from the `!` of a directive line, the search reports its match and goes on after the newline |
| Includes.RepeatedScan | generate_structure.py:41 | two identical directive lines give two matches, one per line |
| Includes.RepeatedTargets | generate_structure.py:41 | two identical directive lines yield the target twice |
| Includes.RepeatedDirective | generate_structure.py:41 | a target repeated on two lines is kept once |
| Includes.RepeatedDirectiveExample | generate_structure.py:41 | `a: !include x.yaml` on two lines gives `["x.yaml"]` |
| Assembly.TopLevel | generate_structure.py:66-67 | the top-level entries are those of the root whose name is not an excluded directory name |
| Assembly.TopLevelTestsNamesOnly | generate_structure.py:67 | only directory names are tested: a root `x.log` stays, `.git` goes |
| Assembly.RootInfo | generate_structure.py:73-75 | the root-map value: directory iff the entry is a directory, description present iff `describe` is non-empty, and then equal to it |
| Assembly.RootMapKeys | generate_structure.py:70-76 | the root map has one key per entry name and no other |
| Assembly.RootMapFromEntries | generate_structure.py:70-76 | each value is the value of some entry with that name |
| Assembly.RootMapLastWins | generate_structure.py:72-75 | when names repeat, the last entry of that name wins |
| Assembly.BuildRootMap | generate_structure.py:70-76 | the loop builds the map the entries specify, stored in order |
| Assembly.CollectSnoc | generate_structure.py:81-83 | one more file stores its list when it is non-empty and leaves the map alone otherwise |
| Assembly.CollectKeys | generate_structure.py:79-84 | the keys are those of the pairs with a non-empty list |
| Assembly.CollectLastWins | generate_structure.py:81-83 | a key holds the list of the last pair with that key and a non-empty list |
| Assembly.CollectFromPairs | generate_structure.py:79-84 | every value is the non-empty list of some pair with its key |
| Assembly.IncludePairsStep | generate_structure.py:81-82 | the pairs of one more file append its own pair |
| Assembly.CollectIncludes | generate_structure.py:79-84 | the loop builds the map the files specify |
| Assembly.IncludeMapKeys | generate_structure.py:79-84 | a key exists iff some file with that path string has a non-empty include list |
| Assembly.IncludeMapLastWins | generate_structure.py:81-83 | a file's list is stored unless a later file with the same path string has includes |
| Assembly.IncludeMapValues | generate_structure.py:79-84 | every value is the include list of a file with that path string: non-empty, sorted, distinct |
| Assembly.MakeRelations | generate_structure.py:87-88 | the same keys, each list strictly ascending with the same elements |
| Assembly.MakeRelationsOfNormalised | generate_structure.py:87-88 | a map of sorted duplicate-free lists is its own `make_relations` |
| Assembly.MakeRelationsIdempotent | generate_structure.py:87-88 | `make_relations` is idempotent |
| Assembly.FileRecord | generate_structure.py:101-102 | a `files` element: the path string, directory iff the path is a directory, description present iff non-empty and then equal to `describe` |
| Assembly.RecordsSorted | generate_structure.py:100-104 | records of paths sorted by string are sorted by `path` |
| Assembly.RecordsListed | generate_structure.py:100-104 | every record is the record (path string, type, description) of a listed file, and every listed file's record is present |
| Assembly.RecordsDistinct | generate_structure.py:100-104 | in a real tree no two records share a path: each listed file is recorded once |
| Assembly.RecordsAreFiles | generate_structure.py:101 | in a real (well-formed) tree, every record has type `file`; the `directory` branch is dead |
| Assembly.IncludeKeysListed | generate_structure.py:94 | every include-map entry is the include list of a listed file, under its path string |
| Assembly.IncludeKeysComplete | generate_structure.py:81-83 | every listed file with a non-empty include list has its path string as a key |
| Assembly.IncludeValuesExact | generate_structure.py:81-83 | in a real tree, the key of each listed file with includes holds exactly that file's include list |
| Assembly.RootSectionOfTopLevel | generate_structure.py:99 | `root` has a key for each top-level entry, file or directory, whose name is not an excluded directory name (an excluded suffix does not matter), holding that entry's value |
| Assembly.FilesSectionOfListing | generate_structure.py:100-104 | `files` is sorted by path; it holds the record (path, type, description) of every listed file and of nothing else; in a real tree each path appears once and every type is `file` |
| Assembly.IncludesSectionOfListing | generate_structure.py:105 | `yaml_includes` has a key for every listed file with includes and no other, each holding a listed file's non-empty, sorted, distinct list, in a real tree that file's own |
| Assembly.GenerateSnapshot | generate_structure.py:91-117 | the document has the fixed fields, the given time stamp, the `root`, `files` and `yaml_includes` sections as above, and `relations` equal to `yaml_includes` |
| Assembly.SingleFileListed | generate_structure.py:57-62 | a root holding one file lists exactly that file's name, unless the name is excluded |
| Assembly.ExcludedDirListsNothing | generate_structure.py:58 | in any tree, no path that runs through a directory with an excluded name, at any depth, is listed |
| Assembly.TopFileListed | generate_structure.py:59-62 | a file at the top of any tree is listed under its name unless the name is excluded |
| Assembly.TopFileRead | generate_structure.py:40 | in a real tree, reading a top-level file gives that file's text |
| Assembly.ConfigurationScenario | generate_structure.py:91-106 | for a root holding only `configuration.yaml` with `sensor: !include includes/sensors.yaml`, the document maps it to `["includes/sensors.yaml"]` and records it with the main-configuration description |
| Assembly.NotesScenario | generate_structure.py:100-104 | in any real tree, a top-level `notes.txt` is recorded with type `file` and no `description` field |
| Assembly.UnreadableYamlScenario | generate_structure.py:39-43 | for a root holding only an unreadable `a.yaml`: it is recorded, described as YAML, yet `yaml_includes` and `relations` are empty |
| Assembly.UnreadableFileHasNoKey | generate_structure.py:39-43 | in any real tree, a listed file that cannot be read has no key in `yaml_includes` or `relations` |
| Assembly.RepeatedIncludeScenario | generate_structure.py:41 | in any real tree, a top-level `a.yaml` holding the line `a: !include x.yaml` twice maps to the one-element list `["x.yaml"]` |
| Assembly.ExcludedDirScenario | generate_structure.py:57-58 | for a root holding only a `.git` directory, whatever it holds: `root`, `files`, `yaml_includes` and `relations` are empty |
| Assembly.ListedNotBelow | generate_structure.py:57-60 | in a real tree, no listed file's path string starts with `d/` for an excluded name `d` |
| Assembly.ExcludedDirLeavesNoTrace | generate_structure.py:57-67 | in any real tree, a top-level directory with an excluded name has no `root` key, and no record in `files` and no key in `yaml_includes` or `relations` lies inside it |
| Assembly.ExcludedSuffixLeavesNoTrace | generate_structure.py:59-106 | in any real tree, a file at any depth whose name ends with an excluded suffix has no record in `files` and no key in `yaml_includes` or `relations` |
| Assembly.ExcludedSuffixNotListedStr | generate_structure.py:61-63 | in a real tree, no listed file has the path string of a file with an excluded suffix |
| Assembly.TopLevelSkipFileStaysInRoot | generate_structure.py:66-99 | in any real tree, a top-level file with an excluded suffix whose name is no excluded directory name keeps its key and value in `root`, yet has no record in `files` |
| Assembly.TopLevelSkipDirNamedFile | generate_structure.py:58-104 | in any real tree, a top-level file named like an excluded directory (a `.git` file) has no key in `root`, yet `files` holds its record |
| Assembly.SnapshotDetermined | generate_structure.py:91-117 | in a real tree, two documents that meet `SnapshotSpec` with the same time stamp are equal: the document depends only on the tree and `generated` |
| Assembly.RootSectionDetermined | generate_structure.py:70-99 | in a real tree, the `root` map is fixed by what it must hold |
| Assembly.FilesSectionDetermined | generate_structure.py:100-104 | in a real tree, the `files` list is fixed by what it must hold, order included |
| Assembly.FilesSectionPathsSorted | generate_structure.py:100-104 | in a real tree, the paths of `files` are strictly ascending |
| Assembly.IncludesSectionDetermined | generate_structure.py:79-105 | in a real tree, the `yaml_includes` map is fixed by what it must hold |
| Assembly.IncludeKeyInOther | generate_structure.py:81-83 | in a real tree, a key of one include map meeting the section's rules is a key of any other, with the same list |
| Assembly.YmlDescribedButNotScanned | generate_structure.py:38-49 | every `.yml` file whose path holds no `DESCR` key is described as YAML, yet yields no includes |

## Left out

- Writing `project_structure.json`, `json.dumps` formatting and the final `print`: the model returns the document as a value.
- The clock. `datetime.now(timezone.utc).isoformat()` becomes the `generated` parameter of `GenerateSnapshot`.
- Reading files. UTF-8 decoding with `errors='ignore'` and any exception while reading are both modelled as a file whose text is given or absent (`Tree.ReadText`). An absent text yields `[]`, as the `except` branch does.
- `os.walk` error handling (`onerror`), symbolic links, and entries that are neither files nor directories. The tree has only files and directories.
- The order in which the operating system lists a directory (`os.walk`, `iterdir`). The model takes the entries' order as given. `list_all` sorts its result, so only the multiset of paths matters. Walk.ListAll visits directories from a stack, which is not the order `os.walk` uses; the sorted result is the same.
- Includes.IncludeWordAt: `re.IGNORECASE` is applied to the ASCII letters of `include` only. Unicode case-insensitive matches such as `İ` or `ı` for `i` are not modelled.
- Text.Lower: `str.lower()` on the suffix is reduced to the ASCII letters.
- Tree.Suffix follows the rule where a name ending in `.` has no suffix. Newer Python versions, which return `.` for such a name, are not modelled.
- Tree.Str joins segments with `/`. Tree.WellFormed requires names without `/`, as every real file system does. In a tree that breaks this, two paths could share a string; the "each path once" and "the key holds that file's own list" clauses of Assembly.FilesSection and Assembly.IncludesSection are claimed only for well-formed trees.
- Walk.ListedExactlyOnce, Walk.ListedIsFile, Walk.ListedStrInjective, Assembly.RecordsAreFiles, Assembly.RecordsDistinct, Assembly.IncludeValuesExact: these hold under `Tree.WellFormed` (unique names per directory, no `/` in a name), which every real file system satisfies. Without that assumption they are not claimed.
- Assembly.BuildRootMap stores each entry's value in one assignment. The source first stores the type and then adds the description; the resulting value is the same.
- The key order of `yaml_includes` and `relations`. In the source both dictionaries keep insertion order, which is the sorted path order of `files`, and `json.dumps` writes them in that order. A Dafny `map` has no order, so the model says which keys and values the maps hold, not the order in which they are written.
- The `main` guard and the `glob` import, which the module never uses.
