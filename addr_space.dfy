/**
 * The address spaces of internal/addr.go: an AddrSpace maps an address to the record
 * stored for it and keeps the larger record on a collision; a KnownAddr holds the
 * function-table (pclntab) and symbol-table spaces and the symbol coverage, and applies
 * the precedence pclntab > symbol table > disassembly.
 *
 * Package and function pointers become package ids and Function objects; the `any`
 * payload of a record becomes a tag per provenance.
 */
module AddrSpaces {
  import opened Wrappers
  import opened Coverage

  /** Packages and functions are referred to by ids (the source holds pointers; the
      package pointer is nil for cgo symbols). */
  type PkgId = nat
  type FuncId = nat

  /** AddrSourceType: which evidence source produced a record. */
  datatype SourceType = GoPclntab | Symbol | Disasm

  /** The per-provenance payload of a record, kept opaque. */
  datatype Meta = NoMeta | PclntabMeta(tag: nat) | SymbolMeta(tag: nat)

  /** Addr: a range with its owner and provenance; `fn` is absent for symbol records. */
  datatype Addr = Addr(pos: AddrPos, pkg: Option<PkgId>, fn: Option<FuncId>, source: SourceType, meta: Meta)

  /** Every record is stored under its own address. */
  predicate KeyedByAddr(m: map<nat, Addr>) { forall k :: k in m ==> m[k].pos.addr == k }

  /**
   * AddrSpace.Insert on map values: a record at a new address is added; at a taken
   * address it replaces the stored one only when strictly larger, so ties keep the
   * record already there. No other address is touched.
   */
  function Inserted(m: map<nat, Addr>, a: Addr): (r: map<nat, Addr>)
    ensures r.Keys == m.Keys + {a.pos.addr}
    ensures forall k :: k in m && k != a.pos.addr ==> r[k] == m[k]
    ensures a.pos.addr !in m ==> r[a.pos.addr] == a
    ensures a.pos.addr in m ==> r[a.pos.addr].pos.size == LargerSize(m[a.pos.addr].pos.size, a.pos.size)
    ensures a.pos.addr in m && a.pos.size <= m[a.pos.addr].pos.size ==> r[a.pos.addr] == m[a.pos.addr]
    ensures a.pos.addr in m && m[a.pos.addr].pos.size < a.pos.size ==> r[a.pos.addr] == a
    ensures KeyedByAddr(m) ==> KeyedByAddr(r)
  {
    var k := a.pos.addr;
    if k in m then
      if m[k].pos.size < a.pos.size then m[k := a] else m
    else m[k := a]
  }

  /** The larger of two record sizes. */
  function LargerSize(x: nat, y: nat): nat { if x < y then y else x }

  /** The records of `s` inserted one after the other, first to last. */
  function InsertAll(m: map<nat, Addr>, s: seq<Addr>): map<nat, Addr>
  {
    if s == [] then m else Inserted(InsertAll(m, s[..|s| - 1]), s[|s| - 1])
  }

  /**
   * Largest wins: after inserting the records of `s`, an address is stored exactly when
   * it was stored before or some record of `s` has it, and the stored record is one of
   * those offered there, at least as large as every other.
   */
  lemma {:induction false} InsertAllLargestWins(m: map<nat, Addr>, s: seq<Addr>, k: nat)
    ensures k in InsertAll(m, s) <==> k in m || exists i :: 0 <= i < |s| && s[i].pos.addr == k
    ensures k in InsertAll(m, s) ==>
              && (k in m ==> m[k].pos.size <= InsertAll(m, s)[k].pos.size)
              && (forall i :: 0 <= i < |s| && s[i].pos.addr == k ==> s[i].pos.size <= InsertAll(m, s)[k].pos.size)
              && ((k in m && InsertAll(m, s)[k] == m[k]) ||
                  exists i :: 0 <= i < |s| && s[i].pos.addr == k && InsertAll(m, s)[k] == s[i])
  {
    if s != [] {
      var init, last := s[..|s| - 1], s[|s| - 1];
      InsertAllLargestWins(m, init, k);
      var before := InsertAll(m, init);
      assert InsertAll(m, s) == Inserted(before, last);
      forall i | 0 <= i < |s| - 1 ensures s[i] == init[i] { }
      if k in InsertAll(m, s) && k in before && InsertAll(m, s)[k] == before[k] && !(k in m && before[k] == m[k]) {
        var i :| 0 <= i < |init| && init[i].pos.addr == k && before[k] == init[i];
        assert InsertAll(m, s)[k] == s[i];
      }
      if k !in m && k !in before {
        assert forall i :: 0 <= i < |init| ==> init[i].pos.addr != k;
      }
    }
  }

  /** Two lists holding the same records, in whatever order and number. */
  ghost predicate SameRecords(s: seq<Addr>, t: seq<Addr>) { forall a :: a in s <==> a in t }

  /** At one address, inserting the same records in another order stores a record of the
      same size, or none in both cases. */
  lemma InsertOrderIrrelevantAt(m: map<nat, Addr>, s: seq<Addr>, t: seq<Addr>, k: nat)
    requires SameRecords(s, t)
    ensures k in InsertAll(m, s) <==> k in InsertAll(m, t)
    ensures k in InsertAll(m, s) ==> InsertAll(m, s)[k].pos.size == InsertAll(m, t)[k].pos.size
  {
    InsertAllLargestWins(m, s, k);
    InsertAllLargestWins(m, t, k);
    if exists i :: 0 <= i < |s| && s[i].pos.addr == k {
      var i :| 0 <= i < |s| && s[i].pos.addr == k;
      assert s[i] in t;
    }
    if exists i :: 0 <= i < |t| && t[i].pos.addr == k {
      var i :| 0 <= i < |t| && t[i].pos.addr == k;
      assert t[i] in s;
    }
    if k in InsertAll(m, s) {
      var x, y := InsertAll(m, s)[k], InsertAll(m, t)[k];
      if !(k in m && x == m[k]) {
        var i :| 0 <= i < |s| && s[i].pos.addr == k && x == s[i];
        assert s[i] in t;
      }
      if !(k in m && y == m[k]) {
        var i :| 0 <= i < |t| && t[i].pos.addr == k && y == t[i];
        assert t[i] in s;
      }
    }
  }

  /**
   * The order of insertion does not decide which addresses are stored or the size
   * stored at each: any two orderings of the same records agree on both.
   */
  lemma InsertOrderIrrelevant(m: map<nat, Addr>, s: seq<Addr>, t: seq<Addr>)
    requires multiset(s) == multiset(t)
    ensures InsertAll(m, s).Keys == InsertAll(m, t).Keys
    ensures forall k :: k in InsertAll(m, s) ==> InsertAll(m, s)[k].pos.size == InsertAll(m, t)[k].pos.size
  {
    forall a ensures a in s <==> a in t {
      assert a in s <==> a in multiset(s);
      assert a in t <==> a in multiset(t);
    }
    forall k ensures (k in InsertAll(m, s) <==> k in InsertAll(m, t))
                  && (k in InsertAll(m, s) ==> InsertAll(m, s)[k].pos.size == InsertAll(m, t)[k].pos.size)
    {
      InsertOrderIrrelevantAt(m, s, t, k);
    }
  }

  /**
   * AddrSpace.Merge on map values: every record of `src` is offered at its address;
   * it wins where the address was free or it is strictly larger.
   */
  function MergedMaps(m: map<nat, Addr>, src: map<nat, Addr>): map<nat, Addr>
  {
    map k | k in m.Keys + src.Keys ::
      if k in src && (k !in m || m[k].pos.size < src[k].pos.size) then src[k] else m[k]
  }

  /** Folding one more record of `src` into a partial merge. */
  lemma MergedMapsStep(m: map<nat, Addr>, src: map<nat, Addr>, a: Addr)
    requires a.pos.addr !in src
    ensures Inserted(MergedMaps(m, src), a) == MergedMaps(m, src[a.pos.addr := a])
  {
    var l, r := Inserted(MergedMaps(m, src), a), MergedMaps(m, src[a.pos.addr := a]);
    assert l.Keys == r.Keys;
    forall k | k in l ensures l[k] == r[k] { }
  }

  /** `order` lists the records of the space `src`, each once. */
  ghost predicate ListsOnce(order: seq<Addr>, src: map<nat, Addr>) {
    && (forall i, j :: 0 <= i < j < |order| ==> order[i].pos.addr != order[j].pos.addr)
    && (forall i :: 0 <= i < |order| ==> order[i].pos.addr in src && src[order[i].pos.addr] == order[i])
    && (forall k :: k in src ==> exists i :: 0 <= i < |order| && order[i].pos.addr == k)
  }

  /** Listing one more record of a new address. */
  lemma ListsOnceAppend(order: seq<Addr>, src: map<nat, Addr>, a: Addr)
    requires ListsOnce(order, src) && a.pos.addr !in src
    ensures ListsOnce(order + [a], src[a.pos.addr := a])
  {
    var order', src' := order + [a], src[a.pos.addr := a];
    forall k | k in src' ensures exists i :: 0 <= i < |order'| && order'[i].pos.addr == k {
      if k == a.pos.addr {
        assert order'[|order|].pos.addr == k;
      } else {
        var i :| 0 <= i < |order| && order[i].pos.addr == k;
        assert order'[i] == order[i];
      }
    }
  }

  /** Without its last record, such a list lists the rest of the space. */
  lemma ListsOnceDropLast(order: seq<Addr>, src: map<nat, Addr>) returns (src': map<nat, Addr>)
    requires ListsOnce(order, src) && order != []
    ensures var last := order[|order| - 1];
            && last.pos.addr !in src' && src'[last.pos.addr := last] == src
            && ListsOnce(order[..|order| - 1], src')
  {
    var last := order[|order| - 1];
    src' := map k | k in src && k != last.pos.addr :: src[k];
    assert src'[last.pos.addr := last] == src by {
      assert last.pos.addr in src && src[last.pos.addr] == last;
    }
    ListsOnceWithoutLast(order, src, src');
  }

  /** The list without its last record lists the space without that record's address. */
  lemma ListsOnceWithoutLast(order: seq<Addr>, src: map<nat, Addr>, src': map<nat, Addr>)
    requires ListsOnce(order, src) && order != []
    requires src' == map k | k in src && k != order[|order| - 1].pos.addr :: src[k]
    ensures ListsOnce(order[..|order| - 1], src')
  {
    var init, last := order[..|order| - 1], order[|order| - 1];
    forall i | 0 <= i < |init| ensures init[i].pos.addr in src' && src'[init[i].pos.addr] == init[i] {
      assert init[i] == order[i] && order[i].pos.addr != last.pos.addr;
    }
    forall k | k in src' ensures exists i :: 0 <= i < |init| && init[i].pos.addr == k {
      var i :| 0 <= i < |order| && order[i].pos.addr == k;
      assert i < |init| && init[i] == order[i];
    }
  }

  /**
   * Merge inserts every record of the other space, in the map's iteration order; since
   * each address is offered once, any order gives the same space.
   */
  lemma {:induction false} InsertAllIsMerge(m: map<nat, Addr>, src: map<nat, Addr>, order: seq<Addr>)
    requires ListsOnce(order, src)
    ensures InsertAll(m, order) == MergedMaps(m, src)
  {
    if order == [] {
      assert src == map[];
      assert MergedMaps(m, src) == m;
    } else {
      var src' := ListsOnceDropLast(order, src);
      InsertAllIsMerge(m, src', order[..|order| - 1]);
      MergedMapsStep(m, src', order[|order| - 1]);
    }
  }

  /** A function of the analysed binary, with its private space of disassembly records. */
  class Function {
    const id: FuncId
    const pkg: Option<PkgId>
    const disasm: AddrSpace

    constructor (id: FuncId, pkg: Option<PkgId>)
      ensures this.id == id && this.pkg == pkg && fresh(disasm) && disasm.entries == map[]
    {
      this.id := id;
      this.pkg := pkg;
      disasm := new AddrSpace();
    }
  }

  /** AddrSpace: one record per address, the larger one kept. */
  class AddrSpace {
    var entries: map<nat, Addr>

    ghost predicate Valid() reads this { KeyedByAddr(entries) }

    constructor ()
      ensures entries == map[]
    {
      entries := map[];
    }

    /** AddrSpace.Get: the record stored at `addr`, if any; it lies at `addr`. */
    function Get(addr: nat): (r: Option<Addr>)
      reads this
      ensures r.Some? <==> addr in entries
      ensures r.Some? ==> r.value == entries[addr]
      ensures Valid() && r.Some? ==> r.value.pos.addr == addr
    {
      if addr in entries then Some(entries[addr]) else None
    }

    /** AddrSpace.Insert: largest wins, ties keep the stored record. */
    method Insert(a: Addr)
      requires Valid()
      modifies this
      ensures Valid()
      ensures entries == Inserted(old(entries), a)
    {
      var stored := Get(a.pos.addr);
      if stored.Some? {
        if stored.value.pos.size < a.pos.size {
          entries := entries[a.pos.addr := a];
        }
        return;
      }
      entries := entries[a.pos.addr := a];
    }

    /** AddrSpace.Merge: every record of `other` inserted, in no particular order. */
    method Merge(other: AddrSpace)
      requires Valid() && other.Valid()
      modifies this
      ensures Valid()
      ensures entries == MergedMaps(old(entries), old(other.entries))
    {
      var src := other.entries;
      var rest := src.Keys;
      ghost var order: seq<Addr> := [];
      ghost var done: map<nat, Addr> := map[];
      while rest != {}
        invariant rest <= src.Keys && done.Keys == src.Keys - rest
        invariant forall k :: k in done ==> done[k] == src[k]
        invariant ListsOnce(order, done)
        invariant Valid()
        invariant entries == InsertAll(old(entries), order)
        decreases rest
      {
        var k :| k in rest;
        Insert(src[k]);
        ListsOnceAppend(order, done, src[k]);
        order, done := order + [src[k]], done[k := src[k]];
        rest := rest - {k};
      }
      assert done == src;
      InsertAllIsMerge(old(entries), src, order);
    }

    /**
     * AddrSpace.GetCoverage: the ranges of the stored records and of the given coverages,
     * deduplicated, sorted and merged. It fails exactly when two of them clash, naming
     * the incoming range of a clashing pair; otherwise it returns their coverage, and a
     * single coverage merged into an empty space comes back unchanged.
     */
    method GetCoverage(coverages: seq<seq<AddrPos>>) returns (r: Result<seq<AddrPos>, Conflict>)
      ensures r.Err? <==> Conflicting(RangeBag(entries, coverages))
      ensures r.Err? ==> exists p, q :: p in RangeBag(entries, coverages) && q in RangeBag(entries, coverages)
                                     && Clash(p, q) && r.error == Conflict(q.addr, p.typ, q.typ)
      ensures r.Ok? ==> CoverageOf(r.value, RangeBag(entries, coverages))
      ensures entries == map[] && |coverages| == 1 && Separated(coverages[0]) ==> r == Ok(coverages[0])
    {
      var bag := RangeBag(entries, coverages);
      var ranges := SortRanges(bag);
      assert Elements(ranges) == bag;
      r := MergeRanges(ranges);
      SingleCoverageUnchanged(entries, coverages, ranges, r);
    }
  }

  /** A separated coverage alone, sorted and merged, comes back unchanged. */
  lemma SingleCoverageUnchanged(m: map<nat, Addr>, coverages: seq<seq<AddrPos>>, ranges: seq<AddrPos>,
                                r: Result<seq<AddrPos>, Conflict>)
    requires forall p :: p in ranges <==> p in RangeBag(m, coverages)
    requires Distinct(ranges) && SortedByAddrSize(ranges)
    requires Separated(ranges) ==> r == Ok(ranges)
    ensures m == map[] && |coverages| == 1 && Separated(coverages[0]) ==> r == Ok(coverages[0])
  {
    if m == map[] && |coverages| == 1 && Separated(coverages[0]) {
      forall p ensures p in ranges <==> p in coverages[0] {
        if p in coverages[0] {
          var j :| 0 <= j < |coverages[0]| && coverages[0][j] == p;
        }
      }
      SortedCoverageUnique(ranges, coverages[0]);
    }
  }

  /** The ranges GetCoverage merges: those of the stored records and of the coverages. */
  function RangeBag(m: map<nat, Addr>, coverages: seq<seq<AddrPos>>): set<AddrPos>
  {
    (set k | k in m :: m[k].pos) + (set i, j | 0 <= i < |coverages| && 0 <= j < |coverages[i]| :: coverages[i][j])
  }

  /** KnownAddr: the pclntab and symbol-table spaces and the coverage of the latter. */
  class KnownAddr {
    const pclntab: AddrSpace
    const symbol: AddrSpace
    var symbolCoverage: seq<AddrPos>

    ghost predicate Valid() reads this, pclntab, symbol {
      && pclntab != symbol && pclntab.Valid() && symbol.Valid()
      && Separated(symbolCoverage)
    }

    /** NewKnownAddr: two fresh, empty spaces and no coverage yet. */
    constructor ()
      ensures Valid() && fresh(pclntab) && fresh(symbol)
      ensures pclntab.entries == map[] && symbol.entries == map[] && symbolCoverage == []
    {
      pclntab := new AddrSpace();
      symbol := new AddrSpace();
      symbolCoverage := [];
    }

    /** InsertPclntab: a text record owned by `fn` goes into the pclntab space. */
    method InsertPclntab(addr: nat, size: nat, fn: Function, meta: nat)
      requires Valid()
      modifies pclntab
      ensures Valid()
      ensures pclntab.entries == Inserted(old(pclntab.entries),
                                          Addr(AddrPos(addr, size, Text), fn.pkg, Some(fn.id), GoPclntab, PclntabMeta(meta)))
      ensures unchanged(symbol)
    {
      var cur := Addr(AddrPos(addr, size, Text), fn.pkg, Some(fn.id), GoPclntab, PclntabMeta(meta));
      pclntab.Insert(cur);
    }

    /** InsertSymbol: a text symbol at an address the pclntab already holds is dropped;
        any other symbol goes into the symbol space. */
    method InsertSymbol(addr: nat, size: nat, pkg: Option<PkgId>, typ: AddrType, meta: nat)
      requires Valid()
      modifies symbol
      ensures Valid()
      ensures typ == Text && addr in pclntab.entries ==> symbol.entries == old(symbol.entries)
      ensures !(typ == Text && addr in pclntab.entries) ==>
                symbol.entries == Inserted(old(symbol.entries), Addr(AddrPos(addr, size, typ), pkg, None, Symbol, SymbolMeta(meta)))
      ensures unchanged(pclntab)
    {
      var cur := Addr(AddrPos(addr, size, typ), pkg, None, Symbol, SymbolMeta(meta));
      if typ == Text {
        if pclntab.Get(addr).Some? {
          return;
        }
      }
      symbol.Insert(cur);
    }

    /** BuildSymbolCoverage: the coverage of the symbol space, or the conflict that
        makes the source panic (the stored coverage then stays as it was). */
    method BuildSymbolCoverage() returns (o: Outcome<Conflict>)
      requires Valid()
      modifies this
      ensures Valid()
      ensures o.Pass? <==> !Conflicting(RangeBag(symbol.entries, []))
      ensures o.Pass? ==> CoverageOf(symbolCoverage, RangeBag(symbol.entries, []))
      ensures o.Fail? ==> symbolCoverage == old(symbolCoverage)
    {
      var r := symbol.GetCoverage([]);
      if r.Err? {
        return Fail(r.error);
      }
      symbolCoverage := r.value;
      o := Pass;
    }

    /** SymbolCovHas: some range of the symbol coverage meets [addr, addr + size). */
    method SymbolCovHas(addr: nat, size: nat) returns (b: bool)
      requires Valid()
      ensures b <==> exists j :: 0 <= j < |symbolCoverage| && Meets(symbolCoverage[j], addr, size)
    {
      b := CoverageHas(symbolCoverage, addr, size);
    }

    /**
     * InsertDisasm: a data record found by disassembling `fn`. A symbol at the same
     * address wins, and is a fatal conflict (reported with the address) unless it is
     * data; a record the symbol coverage meets is dropped; any other goes into the
     * function's own disassembly space. The shared spaces never change.
     */
    method InsertDisasm(addr: nat, size: nat, fn: Function) returns (o: Outcome<nat>)
      requires Valid() && fn.disasm.Valid()
      requires fn.disasm != pclntab && fn.disasm != symbol
      modifies fn.disasm
      ensures Valid() && fn.disasm.Valid()
      ensures unchanged(pclntab) && unchanged(symbol)
      ensures addr in symbol.entries && symbol.entries[addr].pos.typ != Data ==>
                o == Fail(addr) && fn.disasm.entries == old(fn.disasm.entries)
      ensures addr in symbol.entries && symbol.entries[addr].pos.typ == Data ==>
                o == Pass && fn.disasm.entries == old(fn.disasm.entries)
      ensures addr !in symbol.entries && (exists j :: 0 <= j < |symbolCoverage| && Meets(symbolCoverage[j], addr, size)) ==>
                o == Pass && fn.disasm.entries == old(fn.disasm.entries)
      ensures addr !in symbol.entries && !(exists j :: 0 <= j < |symbolCoverage| && Meets(symbolCoverage[j], addr, size)) ==>
                o == Pass && fn.disasm.entries == Inserted(old(fn.disasm.entries),
                                                          Addr(AddrPos(addr, size, Data), fn.pkg, Some(fn.id), Disasm, NoMeta))
    {
      var cur := Addr(AddrPos(addr, size, Data), fn.pkg, Some(fn.id), Disasm, NoMeta);
      var sv := symbol.Get(addr);
      if sv.Some? {
        if sv.value.pos.typ != Data {
          return Fail(addr);
        }
        return Pass;
      }
      var covered := SymbolCovHas(addr, size);
      if covered {
        return Pass;
      }
      fn.disasm.Insert(cur);
      o := Pass;
    }
  }
}
