/**
 * The size tree of ui/src/tool/entry.ts: the entries the web view browses, built from an
 * analysis result. A result holds a container of sections, one container of packages per
 * package type, and an "Unknown" entry for the bytes nothing else accounts for; a package
 * holds its files, its sub-packages, its symbols and a "Disasm" entry for the bytes they
 * leave over.
 *
 * Sizes are integers (JavaScript numbers holding byte counts). A record of the analysis
 * result is taken as the sequence of its values, in the order the object yields them.
 */
module Entries {
  import opened Wrappers

  /** The parts of the analysis result the tree reads. */
  datatype Section = Section(name: string, fileSize: int, knownSize: int)

  datatype File = File(filePath: string, size: int)

  datatype FileSymbol = FileSymbol(name: string, size: int)

  datatype Package = Package(name: string, typ: string, size: int, files: seq<File>,
                             subPackages: seq<Package>, symbols: seq<FileSymbol>)

  datatype Analysis = Analysis(name: string, size: int, sections: seq<Section>, packages: seq<Package>)

  /** EntryType. */
  datatype EntryType = SectionKind | FileKind | PackageKind | ResultKind | SymbolKind | DisasmKind | UnknownKind | ContainerKind

  /** An entry of the tree, one variant per entry class. */
  datatype Entry =
    | SectionEntry(section: Section)
    | FileEntry(file: File)
    | PackageEntry(pkg: Package, parent: Option<string>, children: seq<Entry>)
    | DisasmEntry(name: string, size: int)
    | SymbolEntry(symbol: FileSymbol)
    | ContainerEntry(name: string, size: int, children: seq<Entry>, explain: string)
    | UnknownEntry(size: int)
    | ResultEntry(result: Analysis, children: seq<Entry>)

  /** getType: each entry class answers its own tag, and no other class shares it. */
  function GetType(e: Entry): (r: EntryType)
    ensures r == SectionKind <==> e.SectionEntry?
    ensures r == FileKind <==> e.FileEntry?
    ensures r == PackageKind <==> e.PackageEntry?
    ensures r == DisasmKind <==> e.DisasmEntry?
    ensures r == SymbolKind <==> e.SymbolEntry?
    ensures r == ContainerKind <==> e.ContainerEntry?
    ensures r == UnknownKind <==> e.UnknownEntry?
    ensures r == ResultKind <==> e.ResultEntry?
  {
    match e
    case SectionEntry(_) => SectionKind
    case FileEntry(_) => FileKind
    case PackageEntry(_, _, _) => PackageKind
    case DisasmEntry(_, _) => DisasmKind
    case SymbolEntry(_) => SymbolKind
    case ContainerEntry(_, _, _, _) => ContainerKind
    case UnknownEntry(_) => UnknownKind
    case ResultEntry(_, _) => ResultKind
  }

  /** getSize: a section counts the bytes of its file size that no symbol explains; every
      other entry its recorded size. */
  function GetSize(e: Entry): (r: int)
    ensures e.SectionEntry? ==> r == e.section.fileSize - e.section.knownSize
    ensures e.PackageEntry? ==> r == e.pkg.size
  {
    match e
    case SectionEntry(s) => s.fileSize - s.knownSize
    case FileEntry(f) => f.size
    case PackageEntry(p, _, _) => p.size
    case DisasmEntry(_, size) => size
    case SymbolEntry(s) => s.size
    case ContainerEntry(_, size, _, _) => size
    case UnknownEntry(size) => size
    case ResultEntry(r, _) => r.size
  }

  /** getChildren: sections, files, symbols, disasm and unknown entries are leaves. */
  function GetChildren(e: Entry): (r: seq<Entry>)
    ensures GetType(e) in {SectionKind, FileKind, SymbolKind, DisasmKind, UnknownKind} ==> r == []
    ensures GetType(e) in {PackageKind, ContainerKind, ResultKind} ==> r == e.children
  {
    match e
    case PackageEntry(_, _, children) => children
    case ContainerEntry(_, _, children, _) => children
    case ResultEntry(_, children) => children
    case _ => []
  }

  /** `path.split("/").pop()`: the longest suffix of the path without a slash. */
  function LastComponent(path: string): (r: string)
    ensures '/' !in r
    ensures |r| <= |path| && r == path[|path| - |r|..]
    ensures |r| < |path| ==> path[|path| - |r| - 1] == '/'
  {
    if path == [] then []
    else if path[|path| - 1] == '/' then []
    else LastComponent(path[..|path| - 1]) + [path[|path| - 1]]
  }

  /** trimPrefix (utils.ts): the string without the prefix when it starts with it. */
  function TrimPrefix(s: string, prefix: string): (r: string)
    ensures |prefix| <= |s| && s[..|prefix|] == prefix ==> prefix + r == s
    ensures !(|prefix| <= |s| && s[..|prefix|] == prefix) ==> r == s
  {
    if |prefix| <= |s| && s[..|prefix|] == prefix then s[|prefix|..] else s
  }

  /** getName: a file is named by the last component of its path, a package under a
      parent by its name without the parent's prefix. */
  function GetName(e: Entry): (r: string)
    ensures e.FileEntry? ==> r == LastComponent(e.file.filePath)
    ensures e.PackageEntry? && e.parent.Some? ==> r == TrimPrefix(e.pkg.name, e.parent.value)
    ensures e.PackageEntry? && e.parent.None? ==> r == e.pkg.name
    ensures e.UnknownEntry? ==> r == "Unknown"
  {
    match e
    case SectionEntry(s) => s.name
    case FileEntry(f) => LastComponent(f.filePath)
    case PackageEntry(p, parent, _) => if parent.Some? then TrimPrefix(p.name, parent.value) else p.name
    case DisasmEntry(name, _) => name
    case SymbolEntry(s) => s.name
    case ContainerEntry(name, _, _, _) => name
    case UnknownEntry(_) => "Unknown"
    case ResultEntry(r, _) => r.name
  }

  /** `children.reduce((acc, child) => acc + child.getSize(), 0)`. */
  function SumSizes(es: seq<Entry>): int {
    if es == [] then 0 else SumSizes(es[..|es| - 1]) + GetSize(es[|es| - 1])
  }

  /** The sums of the sizes the analysis result records. */
  function SumFileSizes(fs: seq<File>): int {
    if fs == [] then 0 else SumFileSizes(fs[..|fs| - 1]) + fs[|fs| - 1].size
  }

  function SumSymbolSizes(ss: seq<FileSymbol>): int {
    if ss == [] then 0 else SumSymbolSizes(ss[..|ss| - 1]) + ss[|ss| - 1].size
  }

  function SumPackageSizes(ps: seq<Package>): int {
    if ps == [] then 0 else SumPackageSizes(ps[..|ps| - 1]) + ps[|ps| - 1].size
  }

  function SumSectionSizes(ss: seq<Section>): int {
    if ss == [] then 0 else SumSectionSizes(ss[..|ss| - 1]) + (ss[|ss| - 1].fileSize - ss[|ss| - 1].knownSize)
  }

  function Max(x: int, y: int): int { if x < y then y else x }

  /** The sizes a package's own entries account for: its files, sub-packages and symbols. */
  function PackageBaseSize(data: Package): int {
    SumFileSizes(data.files) + SumPackageSizes(data.subPackages) + SumSymbolSizes(data.symbols)
  }

  /** One entry per record, in order. */
  function FileEntries(fs: seq<File>): seq<Entry> {
    if fs == [] then [] else FileEntries(fs[..|fs| - 1]) + [FileEntry(fs[|fs| - 1])]
  }

  function SymbolEntries(ss: seq<FileSymbol>): seq<Entry> {
    if ss == [] then [] else SymbolEntries(ss[..|ss| - 1]) + [SymbolEntry(ss[|ss| - 1])]
  }

  function SectionEntries(ss: seq<Section>): seq<Entry> {
    if ss == [] then [] else SectionEntries(ss[..|ss| - 1]) + [SectionEntry(ss[|ss| - 1])]
  }

  /** The entries of the first n sub-packages of a package, each named under it. */
  function SubPackageEntries(data: Package, n: nat): seq<Entry>
    requires n <= |data.subPackages|
    decreases data, 0, n
  {
    if n == 0 then []
    else SubPackageEntries(data, n - 1) + [BuildPackage(data.subPackages[n - 1], Some(data.name))]
  }

  /** The entries a package's own records give: files, sub-packages, symbols. */
  function OwnEntries(data: Package): seq<Entry>
    decreases data, 1, 0
  {
    FileEntries(data.files) + SubPackageEntries(data, |data.subPackages|) + SymbolEntries(data.symbols)
  }

  /** A package's children with its Disasm entry: the bytes the children leave over,
      when there are any. */
  function WithDisasm(children: seq<Entry>, size: int, name: string): seq<Entry> {
    var left := size - SumSizes(children);
    if left > 0 then children + [DisasmEntry(name + " Disasm", left)] else children
  }

  /**
   * The PackageImpl a package becomes: its files, then its sub-packages named under it,
   * then its symbols, each in order, then a Disasm entry exactly when the package is
   * larger than they record, sized to the difference.
   */
  function BuildPackage(data: Package, parent: Option<string>): Entry
    decreases data, 2, 0
  {
    PackageEntry(data, parent, WithDisasm(OwnEntries(data), data.size, data.name))
  }

  lemma {:induction false} SumSizesAppend(a: seq<Entry>, b: seq<Entry>)
    ensures SumSizes(a + b) == SumSizes(a) + SumSizes(b)
    decreases |b|
  {
    if b == [] {
      assert a + b == a;
    } else {
      assert (a + b)[..|a + b| - 1] == a + b[..|b| - 1];
      assert (a + b)[|a + b| - 1] == b[|b| - 1];
      SumSizesAppend(a, b[..|b| - 1]);
    }
  }

  lemma SumSizesSingle(e: Entry)
    ensures SumSizes([e]) == GetSize(e)
  {
    assert [e][..0] == [];
  }

  /** One more entry adds its size. */
  lemma SumSizesSnoc(es: seq<Entry>, e: Entry)
    ensures SumSizes(es + [e]) == SumSizes(es) + GetSize(e)
  {
    assert (es + [e])[..|es|] == es;
  }

  lemma {:induction false} SumFileEntries(fs: seq<File>)
    ensures SumSizes(FileEntries(fs)) == SumFileSizes(fs)
  {
    if fs != [] {
      SumFileEntries(fs[..|fs| - 1]);
      SumSizesSnoc(FileEntries(fs[..|fs| - 1]), FileEntry(fs[|fs| - 1]));
    }
  }

  lemma {:induction false} SumSymbolEntries(ss: seq<FileSymbol>)
    ensures SumSizes(SymbolEntries(ss)) == SumSymbolSizes(ss)
  {
    if ss != [] {
      SumSymbolEntries(ss[..|ss| - 1]);
      SumSizesSnoc(SymbolEntries(ss[..|ss| - 1]), SymbolEntry(ss[|ss| - 1]));
    }
  }

  lemma {:induction false} SumSectionEntries(ss: seq<Section>)
    ensures SumSizes(SectionEntries(ss)) == SumSectionSizes(ss)
  {
    if ss != [] {
      SumSectionEntries(ss[..|ss| - 1]);
      SumSizesSnoc(SectionEntries(ss[..|ss| - 1]), SectionEntry(ss[|ss| - 1]));
    }
  }

  /** The entries of the sub-packages have the sub-packages' sizes, whatever they hold. */
  lemma {:induction false} SumSubPackageEntries(data: Package, n: nat)
    requires n <= |data.subPackages|
    ensures SumSizes(SubPackageEntries(data, n)) == SumPackageSizes(data.subPackages[..n])
  {
    if n > 0 {
      SumSubPackageEntries(data, n - 1);
      SumSizesSnoc(SubPackageEntries(data, n - 1), BuildPackage(data.subPackages[n - 1], Some(data.name)));
      assert data.subPackages[..n][..n - 1] == data.subPackages[..n - 1];
    }
  }

  /** A package's own entries add up to what its files, sub-packages and symbols record:
      the sum the constructor takes over the children built so far. */
  lemma OwnEntriesSum(data: Package)
    ensures SumSizes(OwnEntries(data)) == PackageBaseSize(data)
  {
    var files, subs, syms := FileEntries(data.files), SubPackageEntries(data, |data.subPackages|), SymbolEntries(data.symbols);
    SumSizesAppend(files, subs);
    SumSizesAppend(files + subs, syms);
    SumFileEntries(data.files);
    SumSymbolEntries(data.symbols);
    SumSubPackageEntries(data, |data.subPackages|);
    assert data.subPackages[..|data.subPackages|] == data.subPackages;
  }

  /** The Disasm entry raises the sum of the children to the package's size. */
  lemma WithDisasmSum(children: seq<Entry>, size: int, name: string)
    ensures SumSizes(WithDisasm(children, size, name)) == Max(size, SumSizes(children))
  {
    if size > SumSizes(children) {
      SumSizesSnoc(children, DisasmEntry(name + " Disasm", size - SumSizes(children)));
    }
  }

  /** The children of a package add up to the larger of its size and what its files,
      sub-packages and symbols record. */
  lemma PackageChildrenSum(data: Package, parent: Option<string>)
    ensures SumSizes(BuildPackage(data, parent).children) == Max(data.size, PackageBaseSize(data))
  {
    assert SumSizes(OwnEntries(data)) == PackageBaseSize(data) by {
      OwnEntriesSum(data);
    }
    WithDisasmSum(OwnEntries(data), data.size, data.name);
  }

  /** The file entries of the PackageImpl constructor, one per file in order. */
  method NewFileEntries(fs: seq<File>) returns (es: seq<Entry>)
    ensures es == FileEntries(fs)
  {
    es := [];
    for i := 0 to |fs|
      invariant es == FileEntries(fs[..i])
    {
      es := es + [FileEntry(fs[i])];
      assert fs[..i + 1][..i] == fs[..i];
    }
    assert fs[..|fs|] == fs;
  }

  /** The symbol entries of the PackageImpl constructor, one per symbol in order. */
  method NewSymbolEntries(ss: seq<FileSymbol>) returns (es: seq<Entry>)
    ensures es == SymbolEntries(ss)
  {
    es := [];
    for i := 0 to |ss|
      invariant es == SymbolEntries(ss[..i])
    {
      es := es + [SymbolEntry(ss[i])];
      assert ss[..i + 1][..i] == ss[..i];
    }
    assert ss[..|ss|] == ss;
  }

  /** The sub-package entries of the PackageImpl constructor, each built under this package. */
  method NewSubPackageEntries(data: Package) returns (es: seq<Entry>)
    ensures es == SubPackageEntries(data, |data.subPackages|)
    decreases data, 0
  {
    es := [];
    for i := 0 to |data.subPackages|
      invariant es == SubPackageEntries(data, i)
    {
      assert data.subPackages[i] < data;
      var sub := NewPackage(data.subPackages[i], Some(data.name));
      es := es + [sub];
    }
  }

  /**
   * The PackageImpl constructor: files, then sub-packages (named under this package),
   * then symbols, each in order, then a Disasm entry exactly when the package is larger
   * than what they account for, sized to the difference.
   */
  method NewPackage(data: Package, parent: Option<string>) returns (e: Entry)
    ensures e == BuildPackage(data, parent)
    decreases data, 1
  {
    var files := NewFileEntries(data.files);
    var subs := NewSubPackageEntries(data);
    var syms := NewSymbolEntries(data.symbols);
    var children := files + subs + syms;
    var leftSize := data.size - SumSizes(children);
    if leftSize > 0 {
      children := children + [DisasmEntry(data.name + " Disasm", leftSize)];
    }
    e := PackageEntry(data, parent, children);
  }

  /** The package types in the order they first appear: the keys of `typedPackages`. */
  function TypeOrder(ps: seq<Package>): seq<string> {
    if ps == [] then []
    else
      var r := TypeOrder(ps[..|ps| - 1]);
      if ps[|ps| - 1].typ in r then r else r + [ps[|ps| - 1].typ]
  }

  predicate DistinctTypes(order: seq<string>) {
    forall j, k :: 0 <= j < k < |order| ==> order[j] != order[k]
  }

  /** Each type some package has is listed, once; no other type is. */
  lemma {:induction false} TypeOrderSpec(ps: seq<Package>)
    ensures forall t :: t in TypeOrder(ps) <==> exists i :: 0 <= i < |ps| && ps[i].typ == t
    ensures DistinctTypes(TypeOrder(ps))
  {
    if ps != [] {
      var init := ps[..|ps| - 1];
      TypeOrderSpec(init);
      assert forall i :: 0 <= i < |init| ==> init[i] == ps[i];
      forall t | t in TypeOrder(ps) ensures exists i :: 0 <= i < |ps| && ps[i].typ == t {
        if t !in TypeOrder(init) {
          assert ps[|ps| - 1].typ == t;
        }
      }
    }
  }

  /** The packages of one type, in order: `typedPackages[type]`. */
  function Filter(ps: seq<Package>, t: string): (r: seq<Package>)
    ensures forall i :: 0 <= i < |r| ==> r[i].typ == t
  {
    if ps == [] then []
    else Filter(ps[..|ps| - 1], t) + (if ps[|ps| - 1].typ == t then [ps[|ps| - 1]] else [])
  }

  /** Grouping by type loses no package and adds none. */
  lemma {:induction false} FilterCounts(ps: seq<Package>, t: string, q: Package)
    ensures multiset(Filter(ps, t))[q] == if q.typ == t then multiset(ps)[q] else 0
  {
    if ps != [] {
      FilterCounts(ps[..|ps| - 1], t, q);
      assert ps == ps[..|ps| - 1] + [ps[|ps| - 1]];
    }
  }

  /** A type no package has groups nothing. */
  lemma {:induction false} FilterAbsent(ps: seq<Package>, t: string)
    requires forall i :: 0 <= i < |ps| ==> ps[i].typ != t
    ensures Filter(ps, t) == []
  {
    if ps != [] {
      FilterAbsent(ps[..|ps| - 1], t);
    }
  }

  /** The entries of top-level packages: `new PackageImpl(pkg)` has no parent. */
  function PackageEntries(ps: seq<Package>): seq<Entry> {
    if ps == [] then [] else PackageEntries(ps[..|ps| - 1]) + [BuildPackage(ps[|ps| - 1], None)]
  }

  /** Top-level package entries have the packages' sizes. */
  lemma {:induction false} TopLevelEntriesSum(ps: seq<Package>)
    ensures SumSizes(PackageEntries(ps)) == SumPackageSizes(ps)
  {
    if ps != [] {
      TopLevelEntriesSum(ps[..|ps| - 1]);
      SumSizesSnoc(PackageEntries(ps[..|ps| - 1]), BuildPackage(ps[|ps| - 1], None));
    }
  }

  /** The container of the packages of one type, as large as its children. */
  function TypeContainer(t: string, ps: seq<Package>, title: string -> string): Entry {
    var children := PackageEntries(Filter(ps, t));
    ContainerEntry(title(t) + " Packages Size", SumSizes(children), children,
                   "The size of the " + t + " packages in the binary.")
  }

  function TypeContainers(order: seq<string>, ps: seq<Package>, title: string -> string): seq<Entry> {
    if order == [] then []
    else TypeContainers(order[..|order| - 1], ps, title) + [TypeContainer(order[|order| - 1], ps, title)]
  }

  /** The container of the sections, as large as its children. */
  function SectionContainer(ss: seq<Section>): Entry {
    var children := SectionEntries(ss);
    ContainerEntry("Unknown Sections Size", SumSizes(children), children,
                   "The unknown size of the sections in the binary.")
  }

  /** The entries of a result before the Unknown entry. */
  function ResultBase(data: Analysis, title: string -> string): seq<Entry> {
    [SectionContainer(data.sections)] + TypeContainers(TypeOrder(data.packages), data.packages, title)
  }

  /**
   * The ResultImpl an analysis result becomes: the section container, one container per
   * package type in order of first appearance, then an Unknown entry exactly when the
   * result is larger than its sections and packages record, sized to the difference.
   */
  function BuildResult(data: Analysis, title: string -> string): Entry {
    ResultEntry(data, WithUnknown(ResultBase(data, title), data.size))
  }

  /** A result's children with its Unknown entry: the bytes the children leave over, when
      there are any. */
  function WithUnknown(children: seq<Entry>, size: int): seq<Entry> {
    var left := size - SumSizes(children);
    if left > 0 then children + [UnknownEntry(left)] else children
  }

  /** The sizes of the packages grouped under the given types. */
  function SumGrouped(order: seq<string>, ps: seq<Package>): int {
    if order == [] then 0
    else SumGrouped(order[..|order| - 1], ps) + SumPackageSizes(Filter(ps, order[|order| - 1]))
  }

  lemma SumPackageSizesSnoc(ps: seq<Package>, p: Package)
    ensures SumPackageSizes(ps + [p]) == SumPackageSizes(ps) + p.size
  {
    assert (ps + [p])[..|ps|] == ps;
  }

  /** One more package adds its size to its own group and to no other. */
  lemma {:induction false} SumGroupedStep(order: seq<string>, ps: seq<Package>, p: Package)
    requires DistinctTypes(order)
    ensures SumGrouped(order, ps + [p]) == SumGrouped(order, ps) + (if p.typ in order then p.size else 0)
  {
    if order != [] {
      var init, t := order[..|order| - 1], order[|order| - 1];
      assert DistinctTypes(init);
      SumGroupedStep(init, ps, p);
      assert (ps + [p])[..|ps|] == ps;
      if p.typ == t {
        SumPackageSizesSnoc(Filter(ps, t), p);
        assert p.typ !in init;
      } else {
        assert Filter(ps + [p], t) == Filter(ps, t);
        assert p.typ in order <==> p.typ in init;
      }
    }
  }

  /** Grouping the packages by type keeps their total size. */
  lemma {:induction false} GroupingKeepsSize(ps: seq<Package>)
    ensures SumGrouped(TypeOrder(ps), ps) == SumPackageSizes(ps)
  {
    if ps != [] {
      var init, p := ps[..|ps| - 1], ps[|ps| - 1];
      var order := TypeOrder(init);
      assert ps == init + [p];
      GroupingKeepsSize(init);
      TypeOrderSpec(init);
      SumGroupedStep(order, init, p);
      if p.typ !in order {
        assert forall i :: 0 <= i < |init| ==> init[i].typ != p.typ;
        FilterAbsent(init, p.typ);
        assert Filter(ps, p.typ) == [p];
        assert SumPackageSizes([p]) == p.size;
        assert TypeOrder(ps) == order + [p.typ];
      }
    }
  }

  /** The containers of a grouping are as large as the groups. */
  lemma {:induction false} SumTypeContainers(order: seq<string>, ps: seq<Package>, title: string -> string)
    ensures SumSizes(TypeContainers(order, ps, title)) == SumGrouped(order, ps)
  {
    if order != [] {
      var init, t := order[..|order| - 1], order[|order| - 1];
      SumTypeContainers(init, ps, title);
      SumSizesSnoc(TypeContainers(init, ps, title), TypeContainer(t, ps, title));
      TopLevelEntriesSum(Filter(ps, t));
    }
  }

  /** The containers of a result hold what its sections and packages record. */
  lemma ResultBaseSum(data: Analysis, title: string -> string)
    ensures SumSizes(ResultBase(data, title)) == SumSectionSizes(data.sections) + SumPackageSizes(data.packages)
  {
    var tc := TypeContainers(TypeOrder(data.packages), data.packages, title);
    assert SumSizes(tc) == SumPackageSizes(data.packages) by {
      SumTypeContainers(TypeOrder(data.packages), data.packages, title);
      GroupingKeepsSize(data.packages);
    }
    SectionContainerFirstSum(data.sections, tc, SumPackageSizes(data.packages));
  }

  /** The section container adds what the sections leave unexplained to what follows it. */
  lemma SectionContainerFirstSum(ss: seq<Section>, rest: seq<Entry>, known: int)
    requires SumSizes(rest) == known
    ensures SumSizes([SectionContainer(ss)] + rest) == SumSectionSizes(ss) + known
  {
    SumSectionEntries(ss);
    SumSizesAppend([SectionContainer(ss)], rest);
    SumSizesSingle(SectionContainer(ss));
  }

  /** The Unknown entry raises the sum of the children to the result's size. */
  lemma WithUnknownSum(children: seq<Entry>, size: int)
    ensures SumSizes(WithUnknown(children, size)) == Max(size, SumSizes(children))
  {
    if size > SumSizes(children) {
      SumSizesSnoc(children, UnknownEntry(size - SumSizes(children)));
    }
  }

  /** The children of a result add up to the larger of its size and what its sections
      and packages record. */
  lemma ResultChildrenSum(data: Analysis, title: string -> string)
    ensures SumSizes(BuildResult(data, title).children)
              == Max(data.size, SumSectionSizes(data.sections) + SumPackageSizes(data.packages))
  {
    ResultBaseSum(data, title);
    ResultSumOf(data, ResultBase(data, title));
  }

  lemma ResultSumOf(data: Analysis, base: seq<Entry>)
    requires SumSizes(base) == SumSectionSizes(data.sections) + SumPackageSizes(data.packages)
    ensures SumSizes(ResultEntry(data, WithUnknown(base, data.size)).children)
              == Max(data.size, SumSectionSizes(data.sections) + SumPackageSizes(data.packages))
  {
    WithUnknownSum(base, data.size);
  }

  /** The first loop of the ResultImpl constructor: packages grouped by type into a record. */
  method GroupByType(ps: seq<Package>) returns (typed: map<string, seq<Package>>, keys: seq<string>)
    ensures keys == TypeOrder(ps)
    ensures forall t :: t in typed <==> t in keys
    ensures forall t :: t in typed ==> typed[t] == Filter(ps, t)
  {
    typed, keys := map[], [];
    for i := 0 to |ps|
      invariant keys == TypeOrder(ps[..i])
      invariant forall t :: t in typed <==> t in keys
      invariant forall t :: t in typed ==> typed[t] == Filter(ps[..i], t)
    {
      var pkg := ps[i];
      assert ps[..i + 1][..i] == ps[..i];
      assert ps[..i + 1][i] == pkg;
      if pkg.typ !in typed {
        TypeOrderSpec(ps[..i]);
        FilterAbsent(ps[..i], pkg.typ);
        typed := typed[pkg.typ := []];
        keys := keys + [pkg.typ];
      }
      typed := typed[pkg.typ := typed[pkg.typ] + [pkg]];
    }
    assert ps[..|ps|] == ps;
  }

  /** The container of the packages of one type, given them in order. */
  method NewTypeContainer(t: string, group: seq<Package>, title: string -> string, ghost ps: seq<Package>)
    returns (c: Entry)
    requires group == Filter(ps, t)
    ensures c == TypeContainer(t, ps, title)
  {
    var packageChildren: seq<Entry> := [];
    for k := 0 to |group|
      invariant packageChildren == PackageEntries(group[..k])
    {
      var pe := NewPackage(group[k], None);
      packageChildren := packageChildren + [pe];
      assert group[..k + 1][..k] == group[..k];
    }
    assert group[..|group|] == group;
    c := ContainerEntry(title(t) + " Packages Size", SumSizes(packageChildren), packageChildren,
                        "The size of the " + t + " packages in the binary.");
  }

  /** The second loop of the ResultImpl constructor: one container per type, in key order. */
  method NewTypeContainers(keys: seq<string>, typed: map<string, seq<Package>>, title: string -> string,
                           ghost ps: seq<Package>)
    returns (containers: seq<Entry>)
    requires forall t :: t in keys ==> t in typed && typed[t] == Filter(ps, t)
    ensures containers == TypeContainers(keys, ps, title)
  {
    containers := [];
    for j := 0 to |keys|
      invariant containers == TypeContainers(keys[..j], ps, title)
    {
      var c := NewTypeContainer(keys[j], typed[keys[j]], title, ps);
      containers := containers + [c];
      assert keys[..j + 1][..j] == keys[..j];
    }
    assert keys[..|keys|] == keys;
  }

  /** The container of the sections, built entry by entry. */
  method NewSectionContainer(ss: seq<Section>) returns (c: Entry)
    ensures c == SectionContainer(ss)
  {
    var sectionChildren: seq<Entry> := [];
    for i := 0 to |ss|
      invariant sectionChildren == SectionEntries(ss[..i])
    {
      sectionChildren := sectionChildren + [SectionEntry(ss[i])];
      assert ss[..i + 1][..i] == ss[..i];
    }
    assert ss[..|ss|] == ss;
    c := ContainerEntry("Unknown Sections Size", SumSizes(sectionChildren), sectionChildren,
                        "The unknown size of the sections in the binary.");
  }

  /**
   * The ResultImpl constructor: the section container, then packages grouped by type
   * in a record keyed by type, one container per key in insertion order, then an
   * Unknown entry for what is left.
   */
  method NewResult(data: Analysis, title: string -> string) returns (e: Entry)
    ensures e == BuildResult(data, title)
  {
    var sectionContainer := NewSectionContainer(data.sections);
    var children := [sectionContainer];

    var typed, keys := GroupByType(data.packages);
    var containers := NewTypeContainers(keys, typed, title, data.packages);
    children := children + containers;
    assert children == ResultBase(data, title);

    var leftSize := data.size - SumSizes(children);
    if leftSize > 0 {
      children := children + [UnknownEntry(leftSize)];
    }
    e := ResultEntry(data, children);
  }
}
