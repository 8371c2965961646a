# go-size-analyzer core, modelled in Dafny

go-size-analyzer charges every byte of a Go binary to a package. It collects ranges of addresses from several sources of evidence and reconciles them. The sources are the function table (pclntab), the symbol table, and disassembly. The tool also reads DWARF debug information for variables and their declaring files. A web view then browses the result as a tree of size entries. This project models three parts of that core and proves their contracts.

- `coverage.dfy` (module `Coverage`): address ranges. It models the merge of a bag of ranges into a sorted list of disjoint intervals, as `AddrSpace.GetCoverage` does. It also models the binary-search overlap query of `KnownAddr.SymbolCovHas`.
- `addr_space.dfy` (module `AddrSpaces`) covers the spaces:
  - An `AddrSpace` is a class whose map of records is updated in place, and on a collision the larger record wins.
  - A `KnownAddr` holds the pclntab space, the symbol space and the symbol coverage. It applies the precedence: pclntab first, then the symbol table, then disassembly.
- `dwarf.dfy` (module `Dwarf`) has three parts:
  - the shape dispatch of `SizeForDWARFVar`;
  - the entry filter `EntryShouldIgnore`;
  - the declaring-file lookup returned by `EntryFileReader`.
- `entries.dfy` (module `Entries`) covers the entry tree of `ui/src/tool/entry.ts`:
  - the getters;
  - the `PackageImpl` constructor, which lists files, sub-packages and symbols, then adds a Disasm leftover;
  - the `ResultImpl` constructor: a section container, then one container per package type, then an Unknown leftover.
- `wrappers.dfy` (module `Wrappers`): the `Option`, `Result` and `Outcome` values that stand in for Go's `(value, ok)`, its errors and its panics.

Each panic in the source becomes an error value: `GetCoverage`'s type conflict, `InsertDisasm`'s non-data symbol, and the nil file slot under Findings. Memory readers, type resolution and the line reader become parameters.

## Model

| member | source | states |
|---|---|---|
| Coverage.SortRanges | internal/addr.go:70-84 | The deduplicated, sorted ranges hold exactly the ranges of the bag, each once, ordered by address and then by size. |
| Coverage.SortedCoverageUnique | internal/addr.go:77-84 | A repeat-free list in (address, size) order that holds exactly the ranges of a coverage is that coverage. Sorting cannot reorder a coverage. |
| Coverage.CoverageHoldsOnce | internal/addr.go:86-106 | In a coverage, every input range lies inside exactly one output range, and that range has the input's type. |
| Coverage.MergedIsCoverage | internal/addr.go:86-106 | Merging an address-sorted list fails iff two inputs clash, and the error names the incoming range of a clashing pair. Otherwise the result is separated, holds every input in a range of its type, has only input bytes, and starts and ends its ranges at input ends. |
| Coverage.SeparatedMergesToItself | internal/addr.go:86-106 | A list that is already separated merges to itself. |
| Coverage.MergeRangesSpec | internal/addr.go:86-106 | The merge specification, with conflict, coverage and idempotence, holds for the merge of any address-sorted list. |
| Coverage.MergeRanges | internal/addr.go:86-108 | The merge loop, which extends the last merged range in place, computes the merge specification. So it fails exactly on a clash and otherwise returns the coverage of the inputs. |
| Coverage.CompareMonotone | internal/addr.go:171-179 | Over a separated list, the comparator given to the binary search never goes down from one range to the next. |
| Coverage.CoverageHas | internal/addr.go:170-181 | The binary search answers true only when some range meets [addr, addr+size). Over a separated list it answers true whenever one does. |
| AddrSpaces.Inserted | internal/addr.go:50-60 | A free address receives the record. A taken address is replaced only by a strictly larger record, so ties keep the stored one. The stored size is the larger of the two. Other addresses are untouched, and records stay keyed by their own address. |
| AddrSpaces.InsertAllLargestWins | internal/addr.go:50-66 | After any sequence of inserts, an address is stored iff it was stored before or was inserted. The stored record is one of those offered there and is at least as large as all of them, so its size is the maximum. |
| AddrSpaces.InsertOrderIrrelevantAt | internal/addr.go:54-55 | At one address, two insertion orders of the same records store a record in both or in neither, and of equal size. |
| AddrSpaces.InsertOrderIrrelevant | internal/addr.go:62-66 | Any two permutations of the same records give the same stored addresses, with the same size at each. |
| AddrSpaces.MergedMapsStep | internal/addr.go:62-66 | Folding one more record of the other space into a partial merge is one Insert. |
| AddrSpaces.InsertAllIsMerge | internal/addr.go:62-66 | Inserting the records of a space in any order that lists each address once gives the merged map. In it, each record of the other space wins where its address was free or where it is strictly larger. |
| AddrSpaces.AddrSpace.constructor | internal/addr.go:122-123 | A new space is empty. |
| AddrSpaces.AddrSpace.Get | internal/addr.go:45-48 | Returns the stored record iff the address is present, and that record lies at the address. |
| AddrSpaces.AddrSpace.Insert | internal/addr.go:50-60 | The map becomes `Inserted` of the old map: largest wins, ties keep the old record, and nothing else changes. |
| AddrSpaces.AddrSpace.Merge | internal/addr.go:62-66 | Inserting every record of the other space, in map iteration order, leaves the merged map, whatever that order. |
| AddrSpaces.AddrSpace.GetCoverage | internal/addr.go:69-109 | Fails iff the ranges of the records and the extra coverages hold a clashing pair, and the error names one. Otherwise returns their coverage. A separated coverage merged into an empty space comes back unchanged. |
| AddrSpaces.SingleCoverageUnchanged | internal/addr.go:69-109 | For an empty space and one extra coverage that is already separated, the sorted and merged ranges are that coverage. |
| AddrSpaces.KnownAddr.constructor | internal/addr.go:120-126 | Starts with two distinct, fresh, empty spaces and no coverage. |
| AddrSpaces.KnownAddr.InsertPclntab | internal/addr.go:128-142 | Inserts a text record owned by the function and its package into the pclntab space. The symbol space is unchanged. |
| AddrSpaces.KnownAddr.InsertSymbol | internal/addr.go:144-164 | A text symbol at an address the pclntab holds leaves the symbol space unchanged. Any other symbol is inserted there, with no function. The pclntab is unchanged. |
| AddrSpaces.KnownAddr.BuildSymbolCoverage | internal/addr.go:166-168 | Succeeds iff the symbol ranges hold no clash, and then stores their coverage. On a conflict the coverage is left as it was. |
| AddrSpaces.KnownAddr.SymbolCovHas | internal/addr.go:170-181 | True iff some range of the symbol coverage meets [addr, addr+size). |
| AddrSpaces.KnownAddr.InsertDisasm | internal/addr.go:183-212 | Four cases. A non-data symbol at the address fails with the address. A data symbol there changes nothing. A range of the symbol coverage meeting the query changes nothing. Otherwise a data record goes into the function's own space only. The pclntab and symbol spaces never change. |
| Dwarf.ToUint64 | internal/dwarf/dwarf.go:82 | `uint64(x)` of a signed size: a value below 2^64, equal to x when x is non-negative, and x + 2^64 when x is negative. |
| Dwarf.SizeForDWARFVar | internal/dwarf/dwarf.go:19-83 | Covers four outcomes:<ul><li>A missing type offset gives an error, size 0 and no contents, and a resolution error is passed on the same way.</li><li>A struct named `string` or `[]uint8`, or a typedef of a struct named `embed.FS`, calls its reader exactly once. It returns the single content read (or the parts read) only when the read succeeded and is non-empty, else no contents and the reader's error.</li><li>Any other shape calls no reader and returns no contents and no error.</li><li>The size is always the type's size as uint64.</li></ul> |
| Dwarf.EntryShouldIgnore | internal/dwarf/dwarf.go:85-110 | Ignored iff the declaration flag is true, or the inline flag is the boolean true, or an abstract origin is present, or a specification is present. |
| Dwarf.InlineRootNotIgnored | internal/dwarf/dwarf.go:94-100 | An abstract instance root, with DW_AT_inline equal to the integer DW_INL_inlined, is not ignored as written. |
| Dwarf.EntryShouldIgnoreIntended | internal/dwarf/dwarf.go:85-110 | Ignores every entry the source ignores, and every abstract instance root (DW_AT_inline any constant other than DW_INL_not_inlined), and nothing else. |
| Dwarf.FileTable | internal/dwarf/dwarf.go:113-120 | The file table is that of the line reader, or empty when there is none. |
| Dwarf.FileIndex | internal/dwarf/dwarf.go:125-134 | The decl-file attribute gives an index iff it is an int64 inside the table. |
| Dwarf.DeclFileAsWritten | internal/dwarf/dwarf.go:122-140 | Gives the placeholder for a trampoline or an unusable index. It fails exactly when the index names a nil slot, and otherwise gives the name of the file at the decl-file index. |
| Dwarf.NilSlotPanics | internal/dwarf/dwarf.go:136 | A table whose slot 0 is nil, with decl-file 0, makes the lookup as written fail. |
| Dwarf.DeclFile | internal/dwarf/dwarf.go:122-140 | The result is the placeholder iff there is a trampoline, an unusable index, a nil slot, or a file so named. For a usable index at a non-nil slot it is the name of the file at that index. |
| Dwarf.DeclFileRepairsOnlyNilSlots | internal/dwarf/dwarf.go:122-140 | The repaired lookup agrees with the one as written wherever that one does not fail. |
| Dwarf.EntryFileReader | internal/dwarf/dwarf.go:112-141 | The returned closure is the lookup as written over the file table, which is read once; it fails on a nil slot. |
| Dwarf.RepairedFileReader | internal/dwarf/dwarf.go:112-141 | The same reader with the repaired lookup, which gives the placeholder on a nil slot. |
| Dwarf.NoLineReaderGivesPlaceholder | internal/dwarf/dwarf.go:113-120 | Without a line reader every lookup gives the placeholder and never fails. |
| Entries.GetType | ui/src/tool/entry.ts:73-75 | Each entry class answers its own tag, and no two classes share one (likewise entry.ts:106-108, 162-164, 195-197, 226-228, 259-261, 292-294, 369-371). |
| Entries.GetSize | ui/src/tool/entry.ts:55-57 | A section's size is its file size minus its known size. A package's size is its recorded size. |
| Entries.GetChildren | ui/src/tool/entry.ts:46-48 | Sections, files, symbols, disasm and unknown entries have no children. Packages, containers and results return their children. |
| Entries.LastComponent | ui/src/tool/entry.ts:87-89 | The last `/`-separated component is a slash-free suffix of the path. It is preceded by a slash unless it is the whole path. |
| Entries.TrimPrefix | ui/src/tool/entry.ts:144 | The name without the parent's prefix when it starts with it, otherwise the name unchanged. |
| Entries.GetName | ui/src/tool/entry.ts:142-148 | A file is named by the last component of its path. A package under a parent is named by its name with the parent prefix trimmed. A package without a parent is named by its full name. |
| Entries.SumSizesAppend | ui/src/tool/entry.ts:129 | The size sum of a concatenation is the sum of the two sums. |
| Entries.SumSectionEntries | ui/src/tool/entry.ts:306-309 | Section entries sum to the sections' file sizes minus their known sizes. |
| Entries.SumSubPackageEntries | ui/src/tool/entry.ts:121-123 | The entries of the first n sub-packages sum to those sub-packages' recorded sizes, whatever the sub-packages hold. |
| Entries.OwnEntriesSum | ui/src/tool/entry.ts:118-129 | A package's file, sub-package and symbol entries sum to the recorded sizes of its files, sub-packages and symbols. |
| Entries.WithDisasmSum | ui/src/tool/entry.ts:129-133 | The Disasm entry, added only when the children fall short of the package size, raises their sum to that size. The total is the larger of the two. |
| Entries.PackageChildrenSum | ui/src/tool/entry.ts:114-133 | A package's children sum to the larger of its recorded size and what its files, sub-packages and symbols record. |
| Entries.NewFileEntries | ui/src/tool/entry.ts:118-120 | The file loop yields one file entry per file, in order. |
| Entries.NewSubPackageEntries | ui/src/tool/entry.ts:121-123 | The sub-package loop yields one package entry per sub-package, in order, each built under this package's name. |
| Entries.NewSymbolEntries | ui/src/tool/entry.ts:125-127 | The symbol loop yields one symbol entry per symbol, in order. |
| Entries.NewPackage | ui/src/tool/entry.ts:114-136 | The constructor builds `BuildPackage`. That is files, then sub-packages named under it, then symbols, then a Disasm entry exactly when the children's sum falls short of the package size, sized to the shortfall. |
| Entries.TypeOrderSpec | ui/src/tool/entry.ts:317-325 | The record keys list each package type present, once, and no other type. |
| Entries.FilterCounts | ui/src/tool/entry.ts:317-323 | A type's group holds each package of that type as often as the input holds it, and nothing of another type. |
| Entries.FilterAbsent | ui/src/tool/entry.ts:319-321 | A type that no package has groups nothing. |
| Entries.TopLevelEntriesSum | ui/src/tool/entry.ts:327-330 | Entries built from top-level packages sum to the packages' recorded sizes. |
| Entries.SumGroupedStep | ui/src/tool/entry.ts:317-323 | One more package adds its size to its own group and to no other. |
| Entries.GroupingKeepsSize | ui/src/tool/entry.ts:317-340 | The groups' sizes, taken over the record keys, add up to the total package size. |
| Entries.SumTypeContainers | ui/src/tool/entry.ts:325-338 | The type containers sum to the sizes of their groups. |
| Entries.SectionContainerFirstSum | ui/src/tool/entry.ts:305-316 | The section container adds the bytes its sections leave unexplained to the sum of the entries after it. |
| Entries.ResultBaseSum | ui/src/tool/entry.ts:305-340 | The section container and the type containers sum to the section sizes plus the package sizes. |
| Entries.WithUnknownSum | ui/src/tool/entry.ts:342-345 | The Unknown entry, added only when the children fall short of the result size, raises their sum to that size. The total is the larger of the two. |
| Entries.ResultChildrenSum | ui/src/tool/entry.ts:300-348 | A result's children sum to the larger of its recorded size and its sections plus packages. |
| Entries.GroupByType | ui/src/tool/entry.ts:317-323 | The grouping loop gives the record keys in first-appearance order, and each key maps to its group. |
| Entries.NewTypeContainer | ui/src/tool/entry.ts:325-338 | A type's container holds its packages' entries in order, built without a parent, and is as large as their sum. |
| Entries.NewTypeContainers | ui/src/tool/entry.ts:325-339 | The container loop yields one container per record key, in key order. |
| Entries.NewSectionContainer | ui/src/tool/entry.ts:305-315 | The section container holds one entry per section, in order, and is as large as their sum. |
| Entries.NewResult | ui/src/tool/entry.ts:300-348 | The constructor builds `BuildResult`. That is the section container, then one container per type in first-appearance order, then an Unknown entry exactly when the children's sum falls short of the result size, sized to the shortfall. |

## Left out

- Addresses and sizes are unbounded: the uint64 sums `Addr + Size` in `internal/addr.go` are taken not to wrap around.
- `lo.MapToSlice`, `lo.Flatten` and `lo.Uniq` are modelled by their result, a set of ranges.
  - `slices.SortFunc` is modelled by a selection loop that yields an (address, size) ordering.
  - Ranges equal in address and size but different in type may come in either order, as with the unstable library sort.
- `AddrSpaces.AddrSpace.Merge`: Go's random map iteration order is a nondeterministic choice of the next key, and the result is proved the same for every choice.
- The `*Package` and `*Function` pointers are ids: `Addr` records a package id and a function id. The `Function` class holds only its id, its package and its disassembly space. The rest of `Function` lives in code that is not part of this model.
- `Meta any` is an opaque tag per provenance.
- The `KnownInfo` back-pointer `k` of `KnownAddr` is never read by the modelled methods, so it is omitted.
- `AddrSpaces.KnownAddr.BuildSymbolCoverage`: the panic on a conflict becomes a `Fail` outcome that leaves the stored coverage as it was.
- `Addr.String`, `EntryPrettyPrinter`, `slog.Warn` logging, every `toString()`, `aligner` and `formatBytes` produce text only, and are omitted.
- `readString`, `readSlice`, `readEmbedFS`, `d.Type` and `d.LineReader` are library code.
  - They are parameters: type resolution is a function from offsets to types, and the readers are functions from types to what they read.
  - A typedef's size is its target's size.
- `title` and `trimPrefix` come from `ui/src/tool/utils.ts`, which is not part of this model. `title` is a parameter, and `trimPrefix` has its usual meaning.
- The `orderedID` identifiers of the entries are omitted.
- Record values of the analysis result (`subPackages`, `packages`) are sequences in the order the object yields them. `Entries.GroupByType` keeps its keys in insertion order. JavaScript would put integer-like type names first, and that is not modelled.
- JavaScript numbers are integers here; floating-point rounding of large sizes is not modelled.
- `internal/tui/view.go` (terminal rendering) and `internal/wrapper/static.go` (a symbol-name denylist consulted before `InsertSymbol`) are not part of this model.

## Findings

| source | as written | input that shows it | evidently intended | confidence | as-written member | corrected member |
|---|---|---|---|---|---|---|
| internal/dwarf/dwarf.go:136 | The lookup closure dereferences `files[fileIndex]` without checking for a nil slot. For DWARF 4 and earlier, the library's file table has a nil slot 0. | files `[nil, main.go]` with `DW_AT_decl_file` = 0 | A nil slot gives the placeholder, like every other unusable index. | low, not executed | Dwarf.DeclFileAsWritten, Dwarf.NilSlotPanics | Dwarf.DeclFile, Dwarf.RepairedFileReader |
| internal/dwarf/dwarf.go:94-100 | The inline attribute is asserted to be a `bool`. DW_AT_inline is of class constant (section 7.5.4 of DWARF Version 4), which the library decodes to an int64, so this branch never fires. | an entry with `DW_AT_inline` = 1 (DW_INL_inlined) | An abstract instance root (DW_AT_inline other than DW_INL_not_inlined, section 3.3.8.1 of DWARF Version 4) is ignored. | medium, not executed | Dwarf.EntryShouldIgnore, Dwarf.InlineRootNotIgnored | Dwarf.EntryShouldIgnoreIntended |
