# EmuScan catalog generator — Dafny model

EmuScan turns a directory of ROM files, one sub-directory per console
("system"), into a static HTML catalog: one page per system, an index page
and a stylesheet. This project models the pure logic of `generateRomHtml.ts`
and proves its properties:

- **Catalog scan** (`Scanner`, `getGamesBySystem`). Every directory of the root
  except one named `__proto__` is a system. A system's games are the entries
  of its listing that are regular files and whose names do not start with `.`. Each name loses its
  last extension, and the names are sorted with the comparator. Directory
  listings are values (`Entry(name, isFile)`, `RootEntry(name, isDirectory,
  listing)`), and the catalog is an explicit value:
  `Catalog(systems, games: map<string, seq<string>>)`.
- **Sorting** (`Sorting`). The source sorts with `localeCompare`. The model
  takes a caller-supplied comparator `le` that is only assumed to be a total
  preorder, and sorts by insertion sort.
- **Slug** (`Slugs`, `system.toLowerCase().replace(/\s+/g, '-')`). This is the
  file name of a system page and the `href` the index uses for that page.
- **Letter grouping** (`Grouping`). This is the `forEach` loop that writes an
  `<h2>` whenever the upper-cased first character changes. Its output is a
  sequence of `Header(letter)` and `Game(name)` items instead of HTML text.
  `Group` defines the listing game by game. `GroupLoop` is the source's loop,
  with its `currentLetter` string starting at `""`, and is proved to compute
  `Group`.
- **Pages** (`Pages`). A system page is its file name, title, `data-system`
  value, count line, A–Z navigation bar and grouped listing. The index is one
  `IndexEntry(href, name, count)` per system.

Character classes and case mapping are restricted to ASCII (`Ascii`). `Seqs`
holds the sequence predicates and facts that several modules share
(`Distinct`, `AllNonEmpty`, associativity, splitting off the last elements).
`Wrappers.Result` carries the one error a page can hit. For an empty name
`game[0]` is `undefined`, so `game[0].toUpperCase()` (generateRomHtml.ts:175)
throws a TypeError and no page is written; `SystemPage` returns
`Failure(EmptyGameName(i))` for the first such name. `ScannedCatalogRenders`
shows that names produced by the scanner never trigger it.

Three behaviours of the code are worth spelling out:

- Names are ordered by `localeCompare`, so the comparator is a parameter.
- Headers are emitted once per maximal run of equal initials, not once per
  distinct initial. The two agree only when equal initials are contiguous
  (`HeaderCount`, `SortedHeadersIncrease`). `RepeatedHeaderWithoutContiguity`
  shows the difference: "Eagle", "Écho", "Egg" — an order a locale-aware
  comparator can give — get the headers E, É, E.
- The catalog is a plain object. A directory named `__proto__` reaches the
  inherited prototype setter instead of becoming a key, so it gets no page and
  no index line (`Scan`, `ProtoDirectoryDropped`). `Object.keys` also puts
  integer-like keys first (see Left out).

Two system names that differ only in case or in their whitespace runs have the
same slug (for example "Game Boy" and "game  boy"). Their pages are written to
one file, and both index links lead to it. The model does not exclude this.

## Model

| member | source | states |
|---|---|---|
| Ascii.ToUpper | generateRomHtml.ts:175 | `toUpperCase` on one character: a–z become A–Z (code minus 32); every other character is unchanged; the result is never a lower-case ASCII letter |
| Ascii.ToLower | generateRomHtml.ts:153 | `toLowerCase` on one character: A–Z become a–z; every other character is unchanged; whitespace stays whitespace and nothing else becomes whitespace |
| Slugs.RunLength | generateRomHtml.ts:153 | what one greedy `\s+` match starting at index 0 takes: at least one character, all whitespace, and the next character (if any) is not whitespace |
| Slugs.Slug | generateRomHtml.ts:153 | the slug has no whitespace and no ASCII capitals, is no longer than the name, and is empty only for the empty name |
| Slugs.FileName | generateRomHtml.ts:153 | the page file name is the slug followed by `.html` |
| Slugs.SlugOfRun | generateRomHtml.ts:153 | a maximal whitespace run (followed by a non-whitespace character or the end) becomes exactly one `-` |
| Slugs.SlugConcat | generateRomHtml.ts:153 | the slug of `a + b` is the slug of `a` followed by the slug of `b` whenever the cut does not split a whitespace run; so other characters are kept, lower-cased, in order |
| Slugs.SlugWithoutWhitespace | generateRomHtml.ts:153 | a name without whitespace slugs to its lower-cased self |
| Slugs.SlugIdempotent | generateRomHtml.ts:153 | slugging a slug gives the same slug |
| Sorting.Insert | generateRomHtml.ts:144 | inserting into a sorted list gives a sorted list with exactly one more occurrence of the element |
| Sorting.Sort | generateRomHtml.ts:144 | the result is sorted under the comparator and is a permutation of the input |
| Scanner.LastDot | generateRomHtml.ts:143 | the index of the last `.` of a name, or -1 when the name has no dot |
| Scanner.Stem | generateRomHtml.ts:143 | the display name is a prefix of the file name: either the whole name (no dot after position 0), or a non-empty prefix followed by a `.` after which no dot occurs |
| Scanner.StemWithoutDot | generateRomHtml.ts:143 | a name with no dot is kept whole |
| Scanner.StemStripsLastExtension | generateRomHtml.ts:143 | the stem of `base.ext` with dot-free `ext` and non-empty `base` is `base` |
| Scanner.Visible | generateRomHtml.ts:142 | every kept entry is a non-hidden regular file, and each listed entry is kept exactly as often as it occurs iff it is one |
| Scanner.VisibleConcat | generateRomHtml.ts:142 | the filter distributes over concatenation of listings, so the kept entries come in listing order |
| Scanner.VisibleSingle | generateRomHtml.ts:142 | a single entry is kept iff it is a non-hidden regular file |
| Scanner.GamesIn | generateRomHtml.ts:141-144 | a system's game names are sorted under the comparator and are a permutation of the stems of its kept entries |
| Scanner.GamesNonEmpty | generateRomHtml.ts:141-143 | for listings without empty names every game name has a first character |
| Scanner.GameNameIffListedFile | generateRomHtml.ts:141-143 | a name appears among a system's games iff some regular, non-hidden file of that directory has it as its stem; directories and hidden files contribute nothing |
| Scanner.GameCountIsFileCount | generateRomHtml.ts:141-144 | a system has exactly one game per regular, non-hidden file; a directory without such files has no games |
| Scanner.DirectoryNames | generateRomHtml.ts:133-135 | the root's directory names: no more names than entries, and a name occurs iff some directory entry has it |
| Scanner.DirectoryNamesConcat | generateRomHtml.ts:133-135 | the filter distributes over concatenation of listings and a single entry contributes its name iff it is a directory; so the names come in listing order, repeats kept |
| Scanner.OwnKeys | generateRomHtml.ts:146 | the names that become own properties of the result object: exactly the given names other than `__proto__` |
| Scanner.OwnKeysConcat | generateRomHtml.ts:146 | dropping `__proto__` distributes over concatenation and keeps any other single name, so the keys come in the order of the names |
| Scanner.Scan | generateRomHtml.ts:132-149 | the catalog's key list has no repeats, holds exactly its map's keys, and those keys are exactly the root's directory names other than `__proto__` |
| Scanner.ProtoDirectoryDropped | generateRomHtml.ts:146 | a root whose only directory is named `__proto__` lists that directory but yields a catalog with no systems |
| Scanner.ScanGames | generateRomHtml.ts:139-147 | each directory's name other than `__proto__` maps to that directory's game list (for a repeated name, the last one assigned) |
| Scanner.ScanWellFormed | generateRomHtml.ts:139-147 | every directory name other than `__proto__` has a game list in the catalog, sorted and, for real listings, without empty names |
| Scanner.ScanOrder | generateRomHtml.ts:133-147 | with distinct directory names the systems are the directory names in root-listing order, less `__proto__` |
| Grouping.CompressMembers | generateRomHtml.ts:173-178 | the run-opening letters are exactly the letters that occur |
| Grouping.CompressNoRepeat | generateRomHtml.ts:173-178 | no run-opening letter equals its successor |
| Grouping.GroupGames | generateRomHtml.ts:174-181 | grouping emits exactly one game entry per input name, in input order, so the page shows `games.length` entries |
| Grouping.GroupHeaders | generateRomHtml.ts:173-178 | the headers are the first letters of the maximal runs of equal upper-cased initials |
| Grouping.GroupLoop | generateRomHtml.ts:173-181 | the source's loop, with `currentLetter` starting as the empty string, produces exactly the game-by-game grouping |
| Grouping.CompressDistinct | generateRomHtml.ts:173-178 | when equal letters are contiguous, no letter opens two runs |
| Grouping.CompressIncreasing | generateRomHtml.ts:173-178 | non-decreasing letters give strictly increasing run-opening letters |
| Grouping.HeaderCount | generateRomHtml.ts:173-181 | with contiguous initials the headers are pairwise distinct, are exactly the initials that occur, and number as many as the distinct initials |
| Grouping.SortedHeadersIncrease | generateRomHtml.ts:173-181 | games sorted by a comparator that orders by initial first have contiguous initials and strictly increasing headers |
| Grouping.HeadersNoAdjacentRepeat | generateRomHtml.ts:173-178 | two consecutive headers never carry the same letter |
| Grouping.GroupAppend | generateRomHtml.ts:174-181 | one more game appends a header iff it is the first game or its initial differs from the previous game's, then the game |
| Grouping.GroupWellGrouped | generateRomHtml.ts:173-181 | the listing opens with a header, every header is followed by a game of its letter, a header after a game changes the letter, and two adjacent games share their letter |
| Grouping.GroupUnique | generateRomHtml.ts:173-181 | any listing of that shape is the grouping of its own games: headers can be placed in no other way |
| Grouping.RepeatedHeaderWithoutContiguity | generateRomHtml.ts:173-178 | "Eagle", "Écho", "Egg" in that order get the headers E, É, E |
| Pages.NavBar | generateRomHtml.ts:169 | the navigation bar is always 26 links, A through Z in order, and links exactly the ASCII capitals |
| Pages.FirstEmpty | generateRomHtml.ts:174-175 | the index of the first game name without a first character: there `game[0]` is `undefined` and calling `toUpperCase` on it throws |
| Pages.SystemPage | generateRomHtml.ts:152-190 | a page is produced iff every name has a first character; then its file is the slug plus `.html`, its count is `games.length`, its nav bar is A–Z, its entries are exactly the games in order, and its listing is well grouped; otherwise the error names the first empty game |
| Pages.HeaderReachableFromNav | generateRomHtml.ts:169-178 | a header is reachable from the nav bar iff its letter is an ASCII capital, i.e. iff the game under it starts with an ASCII letter |
| Pages.DigitGroupOffNav | generateRomHtml.ts:169-178 | "7th Guest" opens a group headed `7`, which the nav bar does not link to |
| Pages.IndexPage | generateRomHtml.ts:208-211 | one index entry per system in key order, with the system's name, its page file name and its game count |
| Pages.IndexLinksMatchPages | generateRomHtml.ts:209-210 | every index link equals the file name its system page is written under, and its count equals that page's count |
| Pages.ScannedCatalogRenders | generateRomHtml.ts:208-211 | for a scanned catalog every system page can be built and lists its games sorted, and the index has one entry per system that links to that page and shows its game count |

## Left out

- File-system calls (`existsSync`, `mkdirSync`, `readdirSync`, `statSync`, `writeFileSync`) are I/O. Listings are inputs, and the writes are dropped; a failing read or write (missing root, a broken link that `statSync` cannot follow) aborts the source and is not modelled.
- `generateCss` and the stylesheet text are a constant with no behaviour.
- Exact HTML bytes (template whitespace, `trim()`, the back link and the footer) are presentation; pages are modelled as structure.
- `localeCompare` depends on locale and ICU data; the comparator is a parameter.
- Sorting.Sort: does not state stability. `Array.prototype.sort` is stable, so names the comparator ties keep their listing order; the contract only states sortedness and permutation.
- Full Unicode `toUpperCase`/`toLowerCase` (including one character becoming several) and the non-ASCII members of `\s` are not modelled; only ASCII letters and ASCII whitespace are.
- Node's `path.parse` is modelled only for names that survive the hidden-file filter, as "strip from the last `.` unless it is the first character".
- Scanner.ScanOrder: `Object.keys` (generateRomHtml.ts:230) lists integer-like keys (such as a system named `2600`) first, in numeric order; the contract states first-insertion order for all keys.
- Grouping.GroupLoop: the loop keys each name by its first code point, where `game[0]` (generateRomHtml.ts:175) reads the first UTF-16 code unit. For a name starting outside the Basic Multilingual Plane the source's key is a lone high surrogate, so names starting with U+1F600 and U+1F60E (both encoded with the high surrogate U+D83D) share one header in the source and get two in the model. Strings here are sequences of code points.
- Grouping.Key: the same difference at its root: a name's key is its upper-cased first code point, not its upper-cased first UTF-16 code unit.
- Real listings never contain an empty name; that is a precondition of `Scanner.GamesNonEmpty`, `Scanner.ScanWellFormed` and `Pages.ScannedCatalogRenders`.
- The top-level main flow, the completion message and process exit are not modelled.
