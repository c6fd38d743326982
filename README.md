# IPTV playlist catalog — a Dafny model

This project models the core of a Qt IPTV player:

- `PlaylistModel` reads an M3U playlist line by line, builds the channel
  catalog (`m_allChannels`), and derives the sorted list of distinct
  categories (`m_categories`). It also fills the displayed list
  (`m_displayedChannels`) by filtering on a category and a
  case-insensitive search text.
- `PlaylistManager` keeps the user's list of named playlist sources. It
  appends, removes and edits entries with index checks, answers index
  lookups, and decides with a scheme heuristic whether a source is a
  network address.

Files (every module is imported by name; all files are verified together):

- `wrappers.dfy` — `Option`.
- `qttext.dfy` — module `QtText`. The QString behaviour the code relies on:
  `trimmed`, `indexOf`, `lastIndexOf`, case-insensitive `contains`, and
  `operator<`, with their properties.
- `playlistparser.dfy` — module `PlaylistParser`. The parser's state machine
  as pure functions (`Step` for one line, `Run` for a sequence of lines,
  `Parse`). Also category resolution for one entry in one expression
  (`ResolveCategory`: the last `#EXTGRP:` override, else the `group-title`
  value, else the default) and the lemmas connecting the two.
- `catalog.dfy` — module `Catalog`. The category listing (QSet `values`,
  `std::sort`), the filter specification `Filter`, and class
  `PlaylistModel`. Its methods `LoadPlaylist` and `FilterChannels` are loops
  verified against `Parse` and `Filter`.
- `registry.dfy` — module `Registry`. Records, the `isUrl` rule, the
  record → entry step of loading, and class `PlaylistManager`.

Some common assumptions about this player do not hold; the model follows the code:

- A failed load does not keep the previous catalog. `loadPlaylist` clears
  all three lists before it tries to open the file, so when the open fails
  everything is empty (`LoadPlaylist` with `None`).
- A category can be the empty string, from `group-title=""` or a bare
  `#EXTGRP:`. Nothing states that categories are non-empty.
- The code contains no network loading, so there is no remote source kind
  in the model.
- Channel names are non-empty only because a location line with an empty
  pending name is dropped. The placeholder "Unknown Channel" is used only
  when the `#EXTINF` line has no comma.

## Model

| member | source | states |
|---|---|---|
| QtText.TrimIsSlice | playlistmodel.cpp:77 | a trimmed line is the slice of the raw line between a white-space prefix and a white-space suffix |
| QtText.TrimIdempotent | playlistmodel.cpp:77 | trimming a trimmed line changes nothing (so channel locations are stored trimmed) |
| QtText.TrimBlank | playlistmodel.cpp:77-81 | a line is skipped as empty exactly when all of it is white space |
| QtText.TrimKeepsCharacters | playlistmodel.cpp:99 | trimming adds no character |
| QtText.IndexOf | playlistmodel.cpp:88-90 | the result is the first occurrence at or after the start position, or None when there is none |
| QtText.LastIndexOf | playlistmodel.cpp:97 | the result holds the character and no later index does, or None when the character is absent |
| QtText.Trim | playlistmodel.cpp:77 | QString::trimmed: the line without white space at either end; TrimIsSlice and TrimBlank below pin it down |
| QtText.ContainsIgnoringCase | playlistmodel.cpp:142 | defines the case-insensitive `contains` as a search for the folded query in the folded name, with the case folding as a parameter |
| QtText.ContainsIgnoringCaseMeans | playlistmodel.cpp:142 | the search text is found exactly when some slice of the name equals it after case folding |
| QtText.SliceIsFound | playlistmodel.cpp:142 | every piece of a channel name, the empty one included, is found in it whatever the folding |
| QtText.Less | playlistmodel.cpp:125 | defines the string order `std::sort` uses: ordinal by character, a proper prefix first |
| QtText.LessIrreflexive | playlistmodel.cpp:125 | the string order used by the sort is irreflexive |
| QtText.LessTransitive | playlistmodel.cpp:125 | the string order is transitive |
| QtText.LessTotal | playlistmodel.cpp:125 | any two strings are ordered one way, the other, or equal |
| PlaylistParser.Classify | playlistmodel.cpp:79-118 | defines how a trimmed line is treated, in the branch order of the loop: empty, `#EXTINF`, `#EXTGRP:`, location (no leading '#'), other comment |
| PlaylistParser.GroupTitle | playlistmodel.cpp:88-94 | defines the group-title value: the text between the first `group-title="` and the next quote, or none |
| PlaylistParser.ExtractName | playlistmodel.cpp:97-102 | defines the channel name: the trimmed text after the last comma, or "Unknown Channel" |
| PlaylistParser.Step | playlistmodel.cpp:77-118 | defines the effect of one line on the pending name, pending category and channel list |
| PlaylistParser.Run | playlistmodel.cpp:76-120 | defines the loop as the left fold of Step over the lines |
| PlaylistParser.Parse | playlistmodel.cpp:72-120 | defines the catalog of a file: Run from an empty name and the default category "Boshqa (Others)" |
| PlaylistParser.ResolveCategory | playlistmodel.cpp:86-105 | defines an entry's category in one expression: the last `#EXTGRP:` override, else the group-title value, else the default |
| PlaylistParser.LastGroupOverride | playlistmodel.cpp:103-105 | defines the override in effect after some lines: the value of the last `#EXTGRP:` line among them, if any |
| PlaylistParser.GroupTitleHasNoQuote | playlistmodel.cpp:88-94 | a group-title value stops at the first closing quote, so it contains none |
| PlaylistParser.GroupTitleMissing | playlistmodel.cpp:88-94 | no group-title value exactly when the key is absent, or its first occurrence has no closing quote after it |
| PlaylistParser.ExtractNameHasNoComma | playlistmodel.cpp:97-102 | the name is taken after the last comma (or is the placeholder), so it contains no comma |
| PlaylistParser.NoneAfterLast | playlistmodel.cpp:97-99 | the text after the last comma holds no comma |
| PlaylistParser.RunAppend | playlistmodel.cpp:76-120 | parsing is a left-to-right fold: feeding a then b equals feeding a + b |
| PlaylistParser.ChannelsOnlyGrow | playlistmodel.cpp:106-116 | lines only append channels, at most one per line |
| PlaylistParser.ParsePrefix | playlistmodel.cpp:113 | the channels of the first lines of a file come first, in the order of their lines |
| PlaylistParser.StepConsistent | playlistmodel.cpp:79-118 | one line keeps the pending name comma-free and all emitted channels well formed |
| PlaylistParser.EmitConsistent | playlistmodel.cpp:108-116 | emitting the pending entry for a location line appends a well-formed channel and clears the name |
| PlaylistParser.ParseWellFormed | playlistmodel.cpp:106-113 | every channel has a non-empty, comma-free name and a trimmed non-empty location not starting with '#' |
| PlaylistParser.NoExtinfNoChannels | playlistmodel.cpp:106-108 | with no pending name and no #EXTINF line, location lines are dropped and the name stays empty |
| PlaylistParser.NoExtinfEmptyCatalog | playlistmodel.cpp:106-108 | a file without any #EXTINF line (a lone location line, say) yields no channel |
| PlaylistParser.BetweenLines | playlistmodel.cpp:103-105 | blank, comment and #EXTGRP lines change only the pending category, to the last override |
| PlaylistParser.PendingEntry | playlistmodel.cpp:83-105 | after #EXTINF and in-between lines, the pending name is the extracted name and the category is ResolveCategory (default, then group-title, then last #EXTGRP) |
| PlaylistParser.EntryEmitsOneChannel | playlistmodel.cpp:83-116 | an entry emits exactly one channel with that name, the trimmed location and the resolved category (none if the name is empty) |
| PlaylistParser.EntryClearsName | playlistmodel.cpp:106-116 | after its location line an entry leaves no pending name, so a further location line is dropped |
| PlaylistParser.EntryThenOrphans | playlistmodel.cpp:106-116 | after an entry, further lines without #EXTINF (a second location line) add nothing |
| PlaylistParser.GroupOverrideWins | playlistmodel.cpp:86-105 | an #EXTGRP line after #EXTINF gives the channel the #EXTGRP category, not the group-title |
| Catalog.CategorySet | playlistmodel.cpp:114 | defines the set `uniqueCategories` collects: the categories of the catalog's channels |
| Catalog.CategorySetSnoc | playlistmodel.cpp:113-114 | appending a channel adds exactly its category to the set of categories |
| Catalog.DistinctPermutation | playlistmodel.cpp:124-125 | sorting a duplicate-free list keeps it duplicate-free |
| Catalog.StrictlySortedUnique | playlistmodel.cpp:124-125 | a strictly ascending list is determined by its set of elements |
| Catalog.Values | playlistmodel.cpp:124 | QSet::values lists each element of the set exactly once |
| Catalog.InsertSorted | playlistmodel.cpp:125 | inserting into a sorted list keeps it sorted and adds exactly that element |
| Catalog.Sort | playlistmodel.cpp:125 | std::sort yields an ascending permutation of its input |
| Catalog.SortedDistinct | playlistmodel.cpp:124-125 | a sorted list without duplicates is strictly ascending |
| Catalog.Matches | playlistmodel.cpp:141-142 | defines the inclusion test: the channel's category equals the selected one and the query is empty or found in the name |
| Catalog.Filter | playlistmodel.cpp:139-146 | defines the displayed list: the matching channels of the catalog, in catalog order |
| Catalog.FilterIsSubsequence | playlistmodel.cpp:136-148 | the displayed list is an order-preserving subsequence of the catalog |
| Catalog.FilterCount | playlistmodel.cpp:139-146 | each channel is displayed as often as it is in the catalog if it matches category and query, else never |
| Catalog.FilterMembership | playlistmodel.cpp:141-144 | a channel is displayed iff it is in the catalog and matches |
| Catalog.EmptyQueryKeepsCategory | playlistmodel.cpp:141-142 | with an empty query exactly the channels of the category are displayed |
| Catalog.FilterIdempotent | playlistmodel.cpp:136-148 | filtering the displayed list again with the same arguments gives the same list |
| Catalog.UnknownCategoryShowsNothing | playlistmodel.cpp:141 | a category no channel has (the empty one included) displays nothing |
| Catalog.PlaylistModel.Valid | playlistmodel.cpp:113-125 | defines the object invariant: well-formed channels, categories strictly ascending and exactly the catalog's categories, displayed list a subsequence of the catalog |
| Catalog.PlaylistModel.constructor | playlistmodel.cpp:6-9 | a new model is valid with three empty lists |
| Catalog.PlaylistModel.Categories | playlistmodel.cpp:46-49 | the category list is strictly ascending and holds exactly the catalog's categories |
| Catalog.PlaylistModel.LoadPlaylist | playlistmodel.cpp:51-134 | all lists are cleared; an unopenable file leaves them empty; otherwise the catalog is Parse(lines), the categories are its sorted distinct categories, and nothing is displayed |
| Catalog.PlaylistModel.ReadExtinf | playlistmodel.cpp:83-102 | an #EXTINF line yields the extracted name and its group-title, or the default category when it has none |
| Catalog.PlaylistModel.ReadLine | playlistmodel.cpp:77-118 | one loop iteration performs exactly one Step and keeps the category set in step with the catalog |
| Catalog.PlaylistModel.FilterChannels | playlistmodel.cpp:136-148 | the displayed list becomes Filter(catalog, category, query); catalog and categories are unchanged |
| Registry.IsUrlSchemeExamples | playlistmanager.cpp:55 | http, https, ftp and httpx count as network schemes; "", file, ftps, rtsp and udp do not |
| Registry.IsUrlScheme | playlistmanager.cpp:55 | defines the scheme heuristic: a scheme starting with "http" or equal to "ftp" |
| Registry.NewInfo | playlistmanager.cpp:48-55 | a new entry has the given name and source, and is a URL iff the scheme starts with "http" or equals "ftp" |
| Registry.ToRecord | playlistmanager.cpp:115-118 | defines the record savePlaylists writes for one entry: name, source and isUrl |
| Registry.FromRecord | playlistmanager.cpp:150-160 | a stored isUrl is kept as is; a missing one is inferred from the scheme |
| Registry.LegacyRecordAsAdded | playlistmanager.cpp:155-160 | a record without isUrl loads as the entry addPlaylist would have made |
| Registry.RecordRoundTrip | playlistmanager.cpp:115-118 | a saved entry loads back unchanged |
| Registry.FromRecords | playlistmanager.cpp:148-162 | loading yields one entry per record, in order |
| Registry.ListRoundTrip | playlistmanager.cpp:114-120 | a saved list loads back unchanged |
| Registry.RemoveAt | playlistmanager.cpp:68 | removing index i shortens the list by one, keeps the others in order, and drops exactly that element |
| Registry.PlaylistManager.constructor | playlistmanager.cpp:9-11 | the list starts as the loaded records, or empty when nothing could be read |
| Registry.PlaylistManager.LoadPlaylists | playlistmanager.cpp:132-164 | an unreadable or non-array file changes nothing; otherwise the list is rebuilt from the records |
| Registry.PlaylistManager.AddPlaylist | playlistmanager.cpp:45-61 | exactly one entry is appended at the end; earlier entries are unchanged |
| Registry.PlaylistManager.RemovePlaylist | playlistmanager.cpp:63-72 | an out-of-range index is a no-op; otherwise exactly that entry is removed |
| Registry.PlaylistManager.EditPlaylist | playlistmanager.cpp:74-88 | an out-of-range index is a no-op; otherwise only that entry changes, to the new name, source and flag; the length is kept |
| Registry.PlaylistManager.GetSource | playlistmanager.cpp:90-94 | the stored source, or "" for an out-of-range index |
| Registry.PlaylistManager.GetName | playlistmanager.cpp:96-100 | the stored name, or "" for an out-of-range index |

## Left out

- main.cpp is not part of this model: it only starts the application.
- Reading the file is left out: the `QUrl::toLocalFile` path resolution, `QFile::open`, and the line splitting of `QTextStream::readLine`. `LoadPlaylist` receives the lines, or `None` when the file cannot be opened.
- JSON persistence is left out: the file writing of `savePlaylists`, `getConfigPath`, the file reading, and `QJsonDocument` parsing in `loadPlaylists`. The per-entry steps are modelled: entry → record in `savePlaylists` (`ToRecord`) and record → entry in `loadPlaylists` (`FromRecord`). A record's `isUrl` is `Some` when the key is present. A present non-boolean value, which `toBool` reads as false, would be `Some(false)`.
- `QUrl::scheme()` is a parameter, `schemeOf`, of the registry operations. URLs are not parsed. A channel's location is kept as the trimmed line text rather than a `QUrl`.
- Qt model/view plumbing is left out: `rowCount`, `data`, `roleNames`, the begin/end reset and insert/remove calls, and the `categoriesChanged`, `layoutChanged` and `dataChanged` signals.
- QtText.ContainsIgnoringCase: the case folding Qt applies to each character is a parameter `fold`, passed down from `FilterChannels`; Qt's one-to-one Unicode folding tables are not modelled.
- QtText.Less: compares Unicode scalar values. QString compares UTF-16 code units, which differs only for characters outside the Basic Multilingual Plane.
- QtText.IsSpace: a fixed list of the characters `QChar::isSpace` accepts, not Qt's Unicode tables.
- The order QSet::values returns is unspecified in Qt; `Values` may return any order, and only the sorted result is specified.
