/**
 * The debug-info helpers of internal/dwarf/dwarf.go: the size and indirect contents of
 * a variable, found by the shape of its type (SizeForDWARFVar); which entries describe
 * no storage of their own (EntryShouldIgnore); and the declaring file of an entry
 * (EntryFileReader).
 *
 * An entry is its attribute map; `entry.Val(a)` is nil exactly when `a` is absent. The
 * type graph, the type lookup and the memory readers are parameters.
 */
module Dwarf {
  import opened Wrappers

  /** The attributes the helpers look at (DWARF Version 4, sections 2.13, 3.3.8 and 2.14). */
  datatype Attr =
    | AttrType | AttrDeclaration | AttrInline | AttrAbstractOrigin | AttrSpecification
    | AttrTrampoline | AttrDeclFile | OtherAttr(code: nat)

  /** An attribute value, by the Go type the library decodes it to. */
  datatype AttrVal = BoolVal(b: bool) | Int64Val(i: int) | OffsetVal(off: nat) | OtherVal

  type Entry = map<Attr, AttrVal>

  /** The type shapes the resolver tells apart; `byteSize` is the library's signed size,
      and a typedef has the size of the type it names. */
  datatype DwarfType =
    | StructType(structName: string, byteSize: int)
    | TypedefType(name: string, target: DwarfType)
    | OtherType(byteSize: int)

  function TypeSize(t: DwarfType): int {
    match t
    case StructType(_, s) => s
    case TypedefType(_, target) => TypeSize(target)
    case OtherType(s) => s
  }

  const TwoTo64: int := 0x1_0000_0000_0000_0000

  /** Go's `uint64(x)` of an int64: the two's complement bits read as unsigned. */
  function ToUint64(x: int): (r: nat)
    ensures r < TwoTo64
    ensures 0 <= x < TwoTo64 ==> r == x
    ensures -TwoTo64 <= x < 0 ==> r == x + TwoTo64
  {
    x % TwoTo64
  }

  datatype DwarfError = MissingTypeOffset | Failed(msg: string)

  /** Content: a block of memory a variable points to. */
  datatype Content = Content(name: string, addr: nat, size: nat)

  /** What readString and readSlice report: the pointer and length they read. */
  datatype ReadOutcome = ReadOutcome(addr: nat, size: nat, err: Option<DwarfError>)

  /** The readers of runtime-shaped values; each reads memory once when called. */
  datatype MemoryReaders = MemoryReaders(
    readString: DwarfType -> ReadOutcome,
    readSlice: (DwarfType, string) -> ReadOutcome,
    readEmbedFS: DwarfType -> (seq<Content>, Option<DwarfError>))

  /** A call made to one of the readers. */
  datatype ReaderCall = ReadString(t: DwarfType) | ReadSlice(t: DwarfType, elem: string) | ReadEmbedFS(t: DwarfType)

  /** The contents, static size and error SizeForDWARFVar returns, with the reader calls
      it made on the way. */
  datatype VarSize = VarSize(contents: seq<Content>, size: nat, err: Option<DwarfError>, calls: seq<ReaderCall>)

  /** The type offset of an entry, when its type attribute holds one. */
  function TypeOffset(entry: Entry): Option<nat> {
    if AttrType in entry && entry[AttrType].OffsetVal? then Some(entry[AttrType].off) else None
  }

  /**
   * SizeForDWARFVar. A variable of a struct named `string`, a struct named `[]uint8` or a
   * typedef of a struct named `embed.FS` has its pointed-to memory read by the matching
   * reader, once; every other shape is just its static size. It fails without contents
   * or size when the type cannot be found, and a failed or empty read gives no contents
   * and the reader's error.
   */
  function SizeForDWARFVar(entry: Entry, resolve: nat -> Result<DwarfType, DwarfError>, mem: MemoryReaders): (r: VarSize)
    ensures |r.calls| <= 1
    ensures r.err.Some? ==> r.contents == []
    ensures r.contents != [] ==> r.err.None? && |r.calls| == 1
    ensures TypeOffset(entry).None? ==> r == VarSize([], 0, Some(MissingTypeOffset), [])
    ensures TypeOffset(entry).Some? && resolve(TypeOffset(entry).value).Err? ==>
              r == VarSize([], 0, Some(resolve(TypeOffset(entry).value).error), [])
    ensures TypeOffset(entry).Some? && resolve(TypeOffset(entry).value).Ok? ==>
              var typ := resolve(TypeOffset(entry).value).value;
              && r.size == ToUint64(TypeSize(typ))
              && (r.calls == [] ==> r.contents == [] && r.err == None)
              && (typ.StructType? && typ.structName == "string" ==>
                    var o := mem.readString(typ);
                    && r.calls == [ReadString(typ)] && r.err == o.err
                    && r.contents == (if o.err.None? && o.size != 0 then [Content("string", o.addr, o.size)] else []))
              && (typ.StructType? && typ.structName == "[]uint8" ==>
                    var o := mem.readSlice(typ, "*uint8");
                    && r.calls == [ReadSlice(typ, "*uint8")] && r.err == o.err
                    && r.contents == (if o.err.None? && o.size != 0 then [Content("[]uint8", o.addr, o.size)] else []))
              && (typ.TypedefType? && typ.target.StructType? && typ.target.structName == "embed.FS" ==>
                    var (parts, err) := mem.readEmbedFS(typ.target);
                    && r.calls == [ReadEmbedFS(typ.target)] && r.err == err
                    && r.contents == (if err.None? && parts != [] then parts else []))
              && ((!(typ.StructType? && typ.structName in {"string", "[]uint8"}) &&
                   !(typ.TypedefType? && typ.target.StructType? && typ.target.structName == "embed.FS")) ==> r.calls == [])
  {
    match TypeOffset(entry)
    case None => VarSize([], 0, Some(MissingTypeOffset), [])
    case Some(off) =>
      match resolve(off)
      case Err(e) => VarSize([], 0, Some(e), [])
      case Ok(typ) =>
        var size := ToUint64(TypeSize(typ));
        match typ
        case StructType(name, _) =>
          if name == "string" then
            var o := mem.readString(typ);
            if o.err.Some? || o.size == 0 then VarSize([], size, o.err, [ReadString(typ)])
            else VarSize([Content("string", o.addr, o.size)], size, None, [ReadString(typ)])
          else if name == "[]uint8" then
            var o := mem.readSlice(typ, "*uint8");
            if o.err.Some? || o.size == 0 then VarSize([], size, o.err, [ReadSlice(typ, "*uint8")])
            else VarSize([Content("[]uint8", o.addr, o.size)], size, None, [ReadSlice(typ, "*uint8")])
          else VarSize([], size, None, [])
        case TypedefType(_, target) =>
          if !target.StructType? then VarSize([], size, None, [])
          else if target.structName == "embed.FS" then
            var (parts, err) := mem.readEmbedFS(target);
            if err.Some? || |parts| == 0 then VarSize([], size, err, [ReadEmbedFS(target)])
            else VarSize(parts, size, None, [ReadEmbedFS(target)])
          else VarSize([], size, None, [])
        case OtherType(_) => VarSize([], size, None, [])
  }

  /** The attribute is present with the boolean value true. */
  predicate IsTrue(entry: Entry, a: Attr) { a in entry && entry[a] == BoolVal(true) }

  /**
   * EntryShouldIgnore: an entry is skipped exactly when it is a declaration or an inline
   * instance (flag true), or refers to an abstract origin or a specification (present at
   * all, whatever else it carries).
   */
  function EntryShouldIgnore(entry: Entry): (r: bool)
    ensures r <==> IsTrue(entry, AttrDeclaration) || IsTrue(entry, AttrInline)
                   || AttrAbstractOrigin in entry || AttrSpecification in entry
  {
    if AttrDeclaration in entry && entry[AttrDeclaration].BoolVal? && entry[AttrDeclaration].b then true
    else if AttrInline in entry && entry[AttrInline].BoolVal? && entry[AttrInline].b then true
    else if AttrAbstractOrigin in entry then true
    else AttrSpecification in entry
  }

  /**
   * An abstract instance root: a subprogram whose DW_AT_inline constant is anything but
   * DW_INL_not_inlined (0), as section 3.3.8.1 of DWARF Version 4 defines it: that is
   * DW_INL_inlined (1), DW_INL_declared_not_inlined (2) or DW_INL_declared_inlined (3).
   * DW_AT_inline is of class constant (section 7.5.4), which the library decodes to an
   * int64, never to a bool.
   */
  predicate AbstractInstanceRoot(entry: Entry) {
    AttrInline in entry && entry[AttrInline].Int64Val? && entry[AttrInline].i != 0
  }

  /** As written, the inline test never fires on an inline attribute as it is decoded. */
  lemma InlineRootNotIgnored()
    ensures var entry := map[AttrInline := Int64Val(1)];
            AbstractInstanceRoot(entry) && !EntryShouldIgnore(entry)
  {
  }

  /** EntryShouldIgnore with the inline test reading the attribute as the constant it is. */
  function EntryShouldIgnoreIntended(entry: Entry): (r: bool)
    ensures AbstractInstanceRoot(entry) ==> r
    ensures EntryShouldIgnore(entry) ==> r
    ensures r && !EntryShouldIgnore(entry) ==> AbstractInstanceRoot(entry)
  {
    if IsTrue(entry, AttrDeclaration) then true
    else if IsTrue(entry, AttrInline) || AbstractInstanceRoot(entry) then true
    else if AttrAbstractOrigin in entry then true
    else AttrSpecification in entry
  }

  /** A file of the line table; the library leaves some slots nil. */
  datatype LineFile = LineFile(name: string)

  const Autogenerated: string := "<autogenerated>"

  /** The file table read once for a compilation unit: that of its line reader, or
      empty when there is none (a failure to get one is only logged). */
  function FileTable(lineReader: Option<seq<Option<LineFile>>>): (files: seq<Option<LineFile>>)
    ensures lineReader.None? ==> files == []
    ensures lineReader.Some? ==> files == lineReader.value
  {
    match lineReader
    case None => []
    case Some(table) => table
  }

  /** The index an entry's decl-file attribute names, when it holds an int64 in range. */
  function FileIndex(files: seq<Option<LineFile>>, entry: Entry): (r: Option<nat>)
    ensures r.Some? <==> AttrDeclFile in entry && entry[AttrDeclFile].Int64Val? && 0 <= entry[AttrDeclFile].i < |files|
    ensures r.Some? ==> r.value < |files| && r.value == entry[AttrDeclFile].i
  {
    if AttrDeclFile in entry && entry[AttrDeclFile].Int64Val? && 0 <= entry[AttrDeclFile].i < |files|
    then Some(entry[AttrDeclFile].i) else None
  }

  /** The error the closure of the source runs into on a nil slot of the file table. */
  datatype NilDereference = NilDereference(index: nat)

  /** The closure of EntryFileReader as written: it dereferences the slot it indexes,
      so a nil slot panics. */
  function DeclFileAsWritten(files: seq<Option<LineFile>>, entry: Entry): (r: Result<string, NilDereference>)
    ensures AttrTrampoline in entry ==> r == Ok(Autogenerated)
    ensures AttrTrampoline !in entry && FileIndex(files, entry).None? ==> r == Ok(Autogenerated)
    ensures r.Err? <==> AttrTrampoline !in entry && FileIndex(files, entry).Some? && files[FileIndex(files, entry).value].None?
    ensures AttrTrampoline !in entry && FileIndex(files, entry).Some? && files[FileIndex(files, entry).value].Some?
            ==> r == Ok(files[FileIndex(files, entry).value].value.name)
  {
    if AttrTrampoline !in entry then
      match FileIndex(files, entry)
      case None => Ok(Autogenerated)
      case Some(i) => if files[i].Some? then Ok(files[i].value.name) else Err(NilDereference(i))
    else Ok(Autogenerated)
  }

  /** A DWARF 4 file table has a nil slot 0, so an entry whose decl-file is 0 makes the
      closure as written fail. */
  lemma NilSlotPanics()
    ensures DeclFileAsWritten([None, Some(LineFile("main.go"))], map[AttrDeclFile := Int64Val(0)]) == Err(NilDereference(0))
  {
    var files, entry := [None, Some(LineFile("main.go"))], map[AttrDeclFile := Int64Val(0)];
    assert FileIndex(files, entry) == Some(0);
  }

  /**
   * The closure of EntryFileReader: the name of the file an entry is declared in, or the
   * placeholder for a trampoline, a missing or non-int64 decl-file, an index out of the
   * table, or a nil slot.
   */
  function DeclFile(files: seq<Option<LineFile>>, entry: Entry): (r: string)
    ensures r == Autogenerated <==>
              || AttrTrampoline in entry
              || FileIndex(files, entry).None?
              || files[FileIndex(files, entry).value].None?
              || files[FileIndex(files, entry).value].value.name == Autogenerated
    ensures AttrTrampoline !in entry && FileIndex(files, entry).Some? && files[FileIndex(files, entry).value].Some?
            ==> r == files[FileIndex(files, entry).value].value.name
    ensures r != Autogenerated ==> exists i :: 0 <= i < |files| && files[i] == Some(LineFile(r))
  {
    if AttrTrampoline !in entry then
      match FileIndex(files, entry)
      case None => Autogenerated
      case Some(i) => if files[i].Some? then files[i].value.name else Autogenerated
    else Autogenerated
  }

  /** The repaired closure agrees with the one as written wherever that one does not fail. */
  lemma DeclFileRepairsOnlyNilSlots(files: seq<Option<LineFile>>, entry: Entry)
    ensures DeclFileAsWritten(files, entry).Ok? ==> DeclFile(files, entry) == DeclFileAsWritten(files, entry).value
    ensures DeclFileAsWritten(files, entry).Err? ==> DeclFile(files, entry) == Autogenerated
  {
  }

  /** EntryFileReader: reads the file table once and returns the lookup closure as
      written, which fails on a nil slot. */
  function EntryFileReader(lineReader: Option<seq<Option<LineFile>>>): (f: Entry -> Result<string, NilDereference>)
    ensures forall entry :: f(entry) == DeclFileAsWritten(FileTable(lineReader), entry)
  {
    var files := FileTable(lineReader);
    entry => DeclFileAsWritten(files, entry)
  }

  /** EntryFileReader with the repaired closure, which gives the placeholder on a nil slot. */
  function RepairedFileReader(lineReader: Option<seq<Option<LineFile>>>): (f: Entry -> string)
    ensures forall entry :: f(entry) == DeclFile(FileTable(lineReader), entry)
  {
    var files := FileTable(lineReader);
    entry => DeclFile(files, entry)
  }

  /** Without a line reader every lookup gives the placeholder instead of failing. */
  lemma NoLineReaderGivesPlaceholder(entry: Entry)
    ensures EntryFileReader(None)(entry) == Ok(Autogenerated)
    ensures RepairedFileReader(None)(entry) == Autogenerated
  {
    assert FileTable(None) == [];
  }
}
