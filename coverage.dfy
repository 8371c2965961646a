/**
 * The coverage engine of internal/addr.go: address ranges, the merge of an
 * unordered bag of ranges into a sorted list of disjoint intervals
 * (AddrSpace.GetCoverage), and the overlap query by binary search over such
 * a list (KnownAddr.SymbolCovHas).
 *
 * Addresses and sizes are unbounded naturals: the source's uint64 sums
 * `Addr + Size` are taken not to wrap around.
 */
module Coverage {
  import opened Wrappers

  /** AddrType: `unknown` ranges exist in a source but are never charged to a package. */
  datatype AddrType = Unknown | Text | Data

  /** AddrPos: the half-open byte range [addr, addr + size) with its type. */
  datatype AddrPos = AddrPos(addr: nat, size: nat, typ: AddrType)

  /** What GetCoverage panics with: the address of the incoming range, the type of the
      merged range it touches and its own, different, type. */
  datatype Conflict = Conflict(addr: nat, merged: AddrType, incoming: AddrType)

  function End(p: AddrPos): nat { p.addr + p.size }

  /** Byte `x` belongs to range `p`. */
  predicate HasByte(p: AddrPos, x: int) { p.addr <= x < End(p) }

  /** Range `p` lies inside range `c` and has its type. */
  predicate Within(p: AddrPos, c: AddrPos) { c.addr <= p.addr && End(p) <= End(c) && p.typ == c.typ }

  /** `q` starts inside `p` or right at its end, and the two have different types:
      a merge that meets such a pair cannot keep a single type. */
  predicate Clash(p: AddrPos, q: AddrPos) { p.typ != q.typ && p.addr <= q.addr <= End(p) }

  ghost predicate Conflicting(rs: set<AddrPos>) { exists p, q :: p in rs && q in rs && Clash(p, q) }

  function Elements(s: seq<AddrPos>): set<AddrPos> { set p | p in s }

  /** Sorted by address, and no two ranges overlap or touch. */
  predicate Separated(c: seq<AddrPos>) { forall i, j :: 0 <= i < j < |c| ==> End(c[i]) < c[j].addr }

  /** Some range of `c` holds `p` with its type. */
  ghost predicate InsideSome(p: AddrPos, c: seq<AddrPos>) { exists j :: 0 <= j < |c| && Within(p, c[j]) }

  /** Byte `x` is a byte of some range of type `t` in the bag `rs`. */
  ghost predicate ByteOf(rs: set<AddrPos>, x: int, t: AddrType) { exists p :: p in rs && p.typ == t && HasByte(p, x) }

  /** Range `c` starts where some range of its type in `rs` starts. */
  ghost predicate StartsAtInput(c: AddrPos, rs: set<AddrPos>) { exists p :: p in rs && p.addr == c.addr && p.typ == c.typ }

  /** Range `c` ends where some range of its type in `rs` ends. */
  ghost predicate EndsAtInput(c: AddrPos, rs: set<AddrPos>) { exists p :: p in rs && End(p) == End(c) && p.typ == c.typ }

  /** `c` is the coverage of the bag `rs`: separated, every input lies inside an output
      range of its own type, every byte of an output range is a byte of an input range of
      that type, and every output range starts where an input starts and ends where an
      input ends. */
  ghost predicate CoverageOf(c: seq<AddrPos>, rs: set<AddrPos>) {
    && Separated(c)
    && (forall p :: p in rs ==> InsideSome(p, c))
    && (forall j, x :: 0 <= j < |c| && HasByte(c[j], x) ==> ByteOf(rs, x, c[j].typ))
    && (forall j :: 0 <= j < |c| ==> StartsAtInput(c[j], rs))
    && (forall j :: 0 <= j < |c| ==> EndsAtInput(c[j], rs))
  }

  /** The order GetCoverage sorts by: address, then size. */
  predicate Precedes(p: AddrPos, q: AddrPos) { p.addr < q.addr || (p.addr == q.addr && p.size <= q.size) }

  predicate SortedByAddrSize(s: seq<AddrPos>) { forall i, j :: 0 <= i < j < |s| ==> Precedes(s[i], s[j]) }

  predicate AddrSorted(s: seq<AddrPos>) { forall i, j :: 0 <= i < j < |s| ==> s[i].addr <= s[j].addr }

  lemma {:induction false} LeastExists(s: set<AddrPos>)
    requires s != {}
    ensures exists m :: m in s && forall q :: q in s ==> Precedes(m, q)
  {
    var x :| x in s;
    if s != {x} {
      LeastExists(s - {x});
      var m :| m in s - {x} && forall q :: q in s - {x} ==> Precedes(m, q);
      if !Precedes(m, x) {
        forall q | q in s ensures Precedes(x, q) {
          if q != x { assert q in s - {x}; }
        }
      } else {
        assert forall q :: q in s ==> Precedes(m, q);
      }
    }
  }

  /**
   * The deduplicating sort of GetCoverage (lo.Uniq then slices.SortFunc): the ranges of
   * the bag, each once, in (address, size) order. Ranges equal in address and size but not
   * in type may come in either order, as with the unstable library sort.
   */
  method SortRanges(rs: set<AddrPos>) returns (s: seq<AddrPos>)
    ensures forall p :: p in s <==> p in rs
    ensures Distinct(s)
    ensures SortedByAddrSize(s)
  {
    s := [];
    var rest := rs;
    while rest != {}
      invariant rest <= rs
      invariant forall p :: p in s <==> p in rs && p !in rest
      invariant Distinct(s)
      invariant SortedByAddrSize(s)
      invariant forall i, q :: 0 <= i < |s| && q in rest ==> Precedes(s[i], q)
      decreases rest
    {
      LeastExists(rest);
      var m :| m in rest && forall q :: q in rest ==> Precedes(m, q);
      s := s + [m];
      rest := rest - {m};
    }
  }

  /** The ranges a list in (address, size) order without repeats shares with a coverage. */
  ghost predicate SameRanges(s: seq<AddrPos>, c: seq<AddrPos>) { forall p :: p in s <==> p in c }

  predicate Distinct(s: seq<AddrPos>) { forall i, j :: 0 <= i < j < |s| ==> s[i] != s[j] }

  /** Such a list starts with the coverage's first range. */
  lemma SameFirstRange(s: seq<AddrPos>, c: seq<AddrPos>)
    requires Separated(c) && SortedByAddrSize(s) && Distinct(s) && SameRanges(s, c) && c != []
    ensures s != [] && s[0] == c[0]
  {
    assert c[0] in c;
    var i :| 0 <= i < |s| && s[i] == c[0];
    assert s[0] in s;
    var j :| 0 <= j < |c| && c[j] == s[0];
    assert i == 0 && j == 0;
  }

  /** Without their first ranges the two still hold the same ranges. */
  lemma SameRestRanges(s: seq<AddrPos>, c: seq<AddrPos>)
    requires Separated(c) && Distinct(s) && SameRanges(s, c) && c != [] && s != [] && s[0] == c[0]
    ensures SameRanges(s[1..], c[1..])
  {
    forall p ensures p in s[1..] <==> p in c[1..] {
      if p in s[1..] {
        var k :| 1 <= k < |s| && s[k] == p;
        assert p != s[0] && p in c;
        var k' :| 0 <= k' < |c| && c[k'] == p;
        assert k' != 0 && c[1..][k' - 1] == p;
      }
      if p in c[1..] {
        var k :| 1 <= k < |c| && c[k] == p;
        assert End(c[0]) < c[k].addr;
        assert p in s;
        var k' :| 0 <= k' < |s| && s[k'] == p;
        assert k' != 0 && s[1..][k' - 1] == p;
      }
    }
  }

  /** A list in (address, size) order without repeats that holds exactly the ranges of
      a coverage is that coverage: sorting the ranges of a coverage gives it back. */
  lemma {:induction false} SortedCoverageUnique(s: seq<AddrPos>, c: seq<AddrPos>)
    requires Separated(c) && SortedByAddrSize(s) && Distinct(s) && SameRanges(s, c)
    ensures s == c
  {
    assert s != [] ==> s[0] in c;
    if c != [] {
      SameFirstRange(s, c);
      SameRestRanges(s, c);
      SortedCoverageUnique(s[1..], c[1..]);
      assert s == [s[0]] + s[1..];
      assert c == [c[0]] + c[1..];
    }
  }

  /** In a coverage every input lies inside exactly one output range. */
  lemma CoverageHoldsOnce(c: seq<AddrPos>, rs: set<AddrPos>, p: AddrPos)
    requires CoverageOf(c, rs) && p in rs
    ensures exists j :: 0 <= j < |c| && Within(p, c[j]) && forall j' :: 0 <= j' < |c| && Within(p, c[j']) ==> j' == j
  {
    assert InsideSome(p, c);
    var j :| 0 <= j < |c| && Within(p, c[j]);
    forall j' | 0 <= j' < |c| && Within(p, c[j']) ensures j' == j {
      SeparatedHoldsOnce(c, p, j, j');
    }
  }

  /** Ranges of a separated list are disjoint, so no range lies inside two of them. */
  lemma SeparatedHoldsOnce(c: seq<AddrPos>, p: AddrPos, j: nat, j': nat)
    requires Separated(c) && j < |c| && j' < |c| && Within(p, c[j]) && Within(p, c[j'])
    ensures j == j'
  {
  }

  /**
   * The invariant of the merge loop after the first `i` sorted inputs. The ghost
   * sequences are witnesses: input k lies inside output `owner[k]`, and output j starts
   * where input `starts[j]` starts and ends where input `ends[j]` ends.
   */
  ghost predicate MergeInv(ranges: seq<AddrPos>, i: nat, cover: seq<AddrPos>,
                           owner: seq<nat>, starts: seq<nat>, ends: seq<nat>)
  {
    && i <= |ranges| && |owner| == i && |starts| == |cover| && |ends| == |cover|
    && (i > 0 <==> |cover| > 0)
    && Separated(cover)
    && (forall k {:trigger owner[k]} :: 0 <= k < i ==> owner[k] < |cover| && Within(ranges[k], cover[owner[k]]))
    && (forall j {:trigger starts[j]} :: 0 <= j < |cover| ==>
          starts[j] < i && ranges[starts[j]].addr == cover[j].addr && ranges[starts[j]].typ == cover[j].typ)
    && (forall j {:trigger ends[j]} :: 0 <= j < |cover| ==>
          ends[j] < i && End(ranges[ends[j]]) == End(cover[j]) && ranges[ends[j]].typ == cover[j].typ)
    && (forall j, x {:trigger CoverHasByte(cover, j, x)} :: CoverHasByte(cover, j, x) ==>
          exists k :: 0 <= k < i && ranges[k].typ == cover[j].typ && HasByte(ranges[k], x))
    && (forall k, k' {:trigger Clash(ranges[k], ranges[k'])} :: 0 <= k < i && 0 <= k' < i ==> !Clash(ranges[k], ranges[k']))
  }

  /** Byte `x` belongs to the `j`th range of `c`. */
  predicate CoverHasByte(c: seq<AddrPos>, j: int, x: int) { 0 <= j < |c| && HasByte(c[j], x) }

  /** The last merged range reaches at least as far as every earlier one. */
  lemma LastReachesFurthest(cover: seq<AddrPos>, j: nat)
    requires Separated(cover) && j < |cover|
    ensures End(cover[j]) <= End(cover[|cover| - 1])
  {
    if j < |cover| - 1 {
      assert End(cover[j]) < cover[|cover| - 1].addr;
    }
  }

  /** Starting a new merged range keeps the invariant. */
  lemma AppendKeepsInv(ranges: seq<AddrPos>, i: nat, cover: seq<AddrPos>,
                       owner: seq<nat>, starts: seq<nat>, ends: seq<nat>)
    requires AddrSorted(ranges) && MergeInv(ranges, i, cover, owner, starts, ends) && i < |ranges|
    requires cover == [] || End(cover[|cover| - 1]) < ranges[i].addr
    ensures MergeInv(ranges, i + 1, cover + [ranges[i]], owner + [|cover|], starts + [i], ends + [i])
  {
    var next, cover' := ranges[i], cover + [ranges[i]];
    forall k | 0 <= k < i ensures End(ranges[k]) < next.addr {
      LastReachesFurthest(cover, owner[k]);
    }
    forall j | 0 <= j < |cover| ensures End(cover[j]) < next.addr {
      LastReachesFurthest(cover, j);
    }
    AppendKeepsBytes(ranges, i, cover);
    forall k | 0 <= k < i ensures !Clash(ranges[k], next) && !Clash(next, ranges[k]) {
      assert ranges[k].addr <= next.addr;
    }
    NoClashExtend(ranges, i);
  }

  /** Inputs that clash neither with each other nor with the next input still do not
      clash once the next input is counted among them. */
  lemma NoClashExtend(ranges: seq<AddrPos>, i: nat)
    requires i < |ranges|
    requires forall k, k' {:trigger Clash(ranges[k], ranges[k'])} :: 0 <= k < i && 0 <= k' < i ==> !Clash(ranges[k], ranges[k'])
    requires forall k :: 0 <= k < i ==> !Clash(ranges[k], ranges[i]) && !Clash(ranges[i], ranges[k])
    ensures forall k, k' {:trigger Clash(ranges[k], ranges[k'])} :: 0 <= k < i + 1 && 0 <= k' < i + 1 ==> !Clash(ranges[k], ranges[k'])
  {
  }

  /** Every byte of the merged ranges, with the next input appended as a range of its
      own, is a byte of an input of its type. */
  lemma AppendKeepsBytes(ranges: seq<AddrPos>, i: nat, cover: seq<AddrPos>)
    requires i < |ranges|
    requires forall j, x {:trigger CoverHasByte(cover, j, x)} :: CoverHasByte(cover, j, x) ==>
               exists k :: 0 <= k < i && ranges[k].typ == cover[j].typ && HasByte(ranges[k], x)
    ensures forall j, x {:trigger CoverHasByte(cover + [ranges[i]], j, x)} :: CoverHasByte(cover + [ranges[i]], j, x) ==>
              exists k :: 0 <= k < i + 1 && ranges[k].typ == (cover + [ranges[i]])[j].typ && HasByte(ranges[k], x)
  {
    var cover' := cover + [ranges[i]];
    forall j, x | CoverHasByte(cover', j, x)
      ensures exists k :: 0 <= k < i + 1 && ranges[k].typ == cover'[j].typ && HasByte(ranges[k], x)
    {
      if j == |cover| {
        assert ranges[i].typ == cover'[j].typ && HasByte(ranges[i], x);
      } else {
        assert CoverHasByte(cover, j, x);
        var k :| 0 <= k < i && ranges[k].typ == cover[j].typ && HasByte(ranges[k], x);
      }
    }
  }

  /** A range of the last merged range's type that starts inside it or at its end
      starts no earlier than it and clashes with no input merged so far. */
  lemma ExtendNoClash(ranges: seq<AddrPos>, i: nat, cover: seq<AddrPos>,
                      owner: seq<nat>, starts: seq<nat>, ends: seq<nat>)
    requires AddrSorted(ranges) && MergeInv(ranges, i, cover, owner, starts, ends) && i < |ranges|
    requires cover != [] && ranges[i].addr <= End(cover[|cover| - 1])
    requires ranges[i].typ == cover[|cover| - 1].typ
    ensures ranges[i].addr >= cover[|cover| - 1].addr
    ensures forall k :: 0 <= k < i ==> !Clash(ranges[k], ranges[i]) && !Clash(ranges[i], ranges[k])
  {
    var n, next := |cover| - 1, ranges[i];
    assert next.addr >= cover[n].addr by {
      assert ranges[starts[n]].addr <= next.addr;
    }
    forall k | 0 <= k < i ensures !Clash(ranges[k], next) && !Clash(next, ranges[k]) {
      var j := owner[k];
      assert Within(ranges[k], cover[j]);
      if j < n {
        assert End(cover[j]) < cover[n].addr;
      }
      assert ranges[k].addr <= next.addr;
    }
  }

  /** Every byte of the grown range is a byte of an input of its type. */
  lemma GrowKeepsBytes(ranges: seq<AddrPos>, i: nat, cover: seq<AddrPos>,
                       owner: seq<nat>, starts: seq<nat>, ends: seq<nat>)
    requires MergeInv(ranges, i, cover, owner, starts, ends) && i < |ranges|
    requires cover != [] && ranges[i].addr <= End(cover[|cover| - 1])
    requires ranges[i].typ == cover[|cover| - 1].typ
    requires End(cover[|cover| - 1]) < End(ranges[i])
    ensures var n, next := |cover| - 1, ranges[i];
            var cover' := cover[n := AddrPos(cover[n].addr, End(next) - cover[n].addr, cover[n].typ)];
            forall j, x {:trigger CoverHasByte(cover', j, x)} :: CoverHasByte(cover', j, x) ==>
              exists k :: 0 <= k < i + 1 && ranges[k].typ == cover'[j].typ && HasByte(ranges[k], x)
  {
    var n, next := |cover| - 1, ranges[i];
    var cover' := cover[n := AddrPos(cover[n].addr, End(next) - cover[n].addr, cover[n].typ)];
    forall j, x | CoverHasByte(cover', j, x)
      ensures exists k :: 0 <= k < i + 1 && ranges[k].typ == cover'[j].typ && HasByte(ranges[k], x)
    {
      if j == n && x >= End(cover[n]) {
        assert HasByte(ranges[i], x);
      } else {
        assert CoverHasByte(cover, j, x);
        var k :| 0 <= k < i && ranges[k].typ == cover[j].typ && HasByte(ranges[k], x);
      }
    }
  }

  /** Folding such a range that reaches past the last merged range grows that range
      and keeps the invariant. */
  lemma GrowKeepsInv(ranges: seq<AddrPos>, i: nat, cover: seq<AddrPos>,
                     owner: seq<nat>, starts: seq<nat>, ends: seq<nat>)
    requires AddrSorted(ranges) && MergeInv(ranges, i, cover, owner, starts, ends) && i < |ranges|
    requires cover != [] && ranges[i].addr <= End(cover[|cover| - 1])
    requires ranges[i].typ == cover[|cover| - 1].typ
    requires End(cover[|cover| - 1]) < End(ranges[i])
    ensures var n, next := |cover| - 1, ranges[i];
            MergeInv(ranges, i + 1, cover[n := AddrPos(cover[n].addr, End(next) - cover[n].addr, cover[n].typ)],
                     owner + [n], starts, ends[n := i])
  {
    var n, next := |cover| - 1, ranges[i];
    ExtendNoClash(ranges, i, cover, owner, starts, ends);
    var grown := AddrPos(cover[n].addr, End(next) - cover[n].addr, cover[n].typ);
    var cover' := cover[n := grown];
    forall j | 0 <= j < n ensures End(cover'[j]) < cover'[n].addr {
      assert End(cover[j]) < cover[n].addr;
    }
    GrowKeepsBytes(ranges, i, cover, owner, starts, ends);
    NoClashExtend(ranges, i);
    forall k | 0 <= k < i + 1 ensures (owner + [n])[k] < |cover'| && Within(ranges[k], cover'[(owner + [n])[k]]) {
      if k < i {
        assert Within(ranges[k], cover[owner[k]]);
      }
    }
  }

  /** Folding such a range that ends inside the last merged range changes no merged
      range and keeps the invariant. */
  lemma AbsorbKeepsInv(ranges: seq<AddrPos>, i: nat, cover: seq<AddrPos>,
                       owner: seq<nat>, starts: seq<nat>, ends: seq<nat>)
    requires AddrSorted(ranges) && MergeInv(ranges, i, cover, owner, starts, ends) && i < |ranges|
    requires cover != [] && ranges[i].addr <= End(cover[|cover| - 1])
    requires ranges[i].typ == cover[|cover| - 1].typ
    requires End(ranges[i]) <= End(cover[|cover| - 1])
    ensures MergeInv(ranges, i + 1, cover, owner + [|cover| - 1], starts, ends)
  {
    var n := |cover| - 1;
    ExtendNoClash(ranges, i, cover, owner, starts, ends);
    NoClashExtend(ranges, i);
    forall k | 0 <= k < i + 1 ensures (owner + [n])[k] < |cover| && Within(ranges[k], cover[(owner + [n])[k]]) {
      if k < i {
        assert Within(ranges[k], cover[owner[k]]);
      }
    }
  }

  /** A range that meets the last merged range with a different type clashes with one
      of the inputs already merged into it. */
  lemma ClashFound(ranges: seq<AddrPos>, i: nat, cover: seq<AddrPos>,
                   owner: seq<nat>, starts: seq<nat>, ends: seq<nat>) returns (k: nat)
    requires AddrSorted(ranges) && MergeInv(ranges, i, cover, owner, starts, ends) && i < |ranges|
    requires cover != [] && ranges[i].addr <= End(cover[|cover| - 1])
    requires ranges[i].typ != cover[|cover| - 1].typ
    ensures k < i && Clash(ranges[k], ranges[i]) && ranges[k].typ == cover[|cover| - 1].typ
    ensures Conflicting(Elements(ranges))
  {
    var last, next := cover[|cover| - 1], ranges[i];
    assert last.addr <= next.addr by {
      assert ranges[starts[|cover| - 1]].addr <= next.addr;
    }
    if next.addr < End(last) {
      assert CoverHasByte(cover, |cover| - 1, next.addr);
      k :| 0 <= k < i && ranges[k].typ == last.typ && HasByte(ranges[k], next.addr);
    } else {
      k := ends[|cover| - 1];
      assert ranges[k].addr <= ranges[i].addr;
    }
    assert ranges[k] in Elements(ranges) && next in Elements(ranges);
  }

  /** Once every input is merged, every input lies inside an output range of its type. */
  lemma InvGivesTotality(ranges: seq<AddrPos>, cover: seq<AddrPos>,
                         owner: seq<nat>, starts: seq<nat>, ends: seq<nat>)
    requires MergeInv(ranges, |ranges|, cover, owner, starts, ends)
    ensures forall p :: p in Elements(ranges) ==> InsideSome(p, cover)
  {
    forall p | p in Elements(ranges) ensures InsideSome(p, cover) {
      var k :| 0 <= k < |ranges| && ranges[k] == p;
      assert Within(p, cover[owner[k]]);
    }
  }

  /** Once every input is merged, every output range is made of input bytes and input endpoints. */
  lemma InvGivesExactness(ranges: seq<AddrPos>, cover: seq<AddrPos>,
                          owner: seq<nat>, starts: seq<nat>, ends: seq<nat>)
    requires MergeInv(ranges, |ranges|, cover, owner, starts, ends)
    ensures forall j, x :: 0 <= j < |cover| && HasByte(cover[j], x) ==> ByteOf(Elements(ranges), x, cover[j].typ)
    ensures forall j :: 0 <= j < |cover| ==> StartsAtInput(cover[j], Elements(ranges))
    ensures forall j :: 0 <= j < |cover| ==> EndsAtInput(cover[j], Elements(ranges))
  {
    var rs := Elements(ranges);
    forall j | 0 <= j < |cover| ensures StartsAtInput(cover[j], rs) && EndsAtInput(cover[j], rs) {
      assert ranges[starts[j]] in rs && ranges[ends[j]] in rs;
    }
    forall j, x | 0 <= j < |cover| && HasByte(cover[j], x) ensures ByteOf(rs, x, cover[j].typ) {
      assert CoverHasByte(cover, j, x);
      var k :| 0 <= k < |ranges| && ranges[k].typ == cover[j].typ && HasByte(ranges[k], x);
      assert ranges[k] in rs;
    }
  }

  /** Once every input is merged without failing, no two inputs clash. */
  lemma InvGivesNoConflict(ranges: seq<AddrPos>, cover: seq<AddrPos>,
                           owner: seq<nat>, starts: seq<nat>, ends: seq<nat>)
    requires MergeInv(ranges, |ranges|, cover, owner, starts, ends)
    ensures !Conflicting(Elements(ranges))
  {
    var rs := Elements(ranges);
    forall p, q | p in rs && q in rs ensures !Clash(p, q) {
      var k :| 0 <= k < |ranges| && ranges[k] == p;
      var k' :| 0 <= k' < |ranges| && ranges[k'] == q;
      assert !Clash(ranges[k], ranges[k']);
    }
  }

  /**
   * The merge of GetCoverage from input `i` on, with `cover` merged so far: an input
   * that starts inside or at the end of the last merged range is folded into it (and
   * must have its type), any other input starts a new merged range.
   */
  function MergeFrom(ranges: seq<AddrPos>, i: nat, cover: seq<AddrPos>): Result<seq<AddrPos>, Conflict>
    requires i <= |ranges|
    decreases |ranges| - i
  {
    if i == |ranges| then Ok(cover)
    else
      var next := ranges[i];
      if cover == [] then MergeFrom(ranges, i + 1, [next])
      else
        var n := |cover| - 1;
        if End(cover[n]) >= next.addr then
          if cover[n].typ != next.typ then Err(Conflict(next.addr, cover[n].typ, next.typ))
          else if End(cover[n]) < End(next) then
            MergeFrom(ranges, i + 1, cover[n := AddrPos(cover[n].addr, End(next) - cover[n].addr, cover[n].typ)])
          else MergeFrom(ranges, i + 1, cover)
        else MergeFrom(ranges, i + 1, cover + [next])
  }

  /** The merge of a whole sorted list. */
  function Merged(ranges: seq<AddrPos>): Result<seq<AddrPos>, Conflict> { MergeFrom(ranges, 0, []) }

  /** What the merge of `ranges` promises of its result `r`: a failure names the
      incoming range of a clashing pair of inputs; a success is the coverage of the
      inputs, which then hold no clashing pair. */
  ghost predicate MergeSound(ranges: seq<AddrPos>, r: Result<seq<AddrPos>, Conflict>) {
    && (r.Err? ==> exists p, q :: p in ranges && q in ranges && Clash(p, q) && r.error == Conflict(q.addr, p.typ, q.typ))
    && (r.Ok? ==> CoverageOf(r.value, Elements(ranges)) && !Conflicting(Elements(ranges)))
  }

  /** The merge from any state satisfying the invariant is sound. */
  lemma {:induction false} MergeFromSound(ranges: seq<AddrPos>, i: nat, cover: seq<AddrPos>,
                                          owner: seq<nat>, starts: seq<nat>, ends: seq<nat>,
                                          r: Result<seq<AddrPos>, Conflict>)
    requires AddrSorted(ranges) && MergeInv(ranges, i, cover, owner, starts, ends)
    requires r == MergeFrom(ranges, i, cover)
    ensures MergeSound(ranges, r)
    decreases |ranges| - i, 1
  {
    if i == |ranges| {
      FinishSound(ranges, cover, owner, starts, ends);
    } else if cover == [] || End(cover[|cover| - 1]) < ranges[i].addr {
      AppendSound(ranges, i, cover, owner, starts, ends, r);
    } else if cover[|cover| - 1].typ != ranges[i].typ {
      ClashSound(ranges, i, cover, owner, starts, ends);
    } else {
      ExtendSound(ranges, i, cover, owner, starts, ends, r);
    }
  }

  lemma FinishSound(ranges: seq<AddrPos>, cover: seq<AddrPos>, owner: seq<nat>, starts: seq<nat>, ends: seq<nat>)
    requires MergeInv(ranges, |ranges|, cover, owner, starts, ends)
    ensures MergeSound(ranges, Ok(cover))
  {
    InvGivesTotality(ranges, cover, owner, starts, ends);
    InvGivesExactness(ranges, cover, owner, starts, ends);
    InvGivesNoConflict(ranges, cover, owner, starts, ends);
  }

  lemma ClashSound(ranges: seq<AddrPos>, i: nat, cover: seq<AddrPos>,
                   owner: seq<nat>, starts: seq<nat>, ends: seq<nat>)
    requires AddrSorted(ranges) && MergeInv(ranges, i, cover, owner, starts, ends) && i < |ranges|
    requires cover != [] && ranges[i].addr <= End(cover[|cover| - 1])
    requires ranges[i].typ != cover[|cover| - 1].typ
    ensures MergeSound(ranges, Err(Conflict(ranges[i].addr, cover[|cover| - 1].typ, ranges[i].typ)))
  {
    var k := ClashFound(ranges, i, cover, owner, starts, ends);
    assert ranges[k] in ranges && ranges[i] in ranges;
  }

  lemma {:induction false} AppendSound(ranges: seq<AddrPos>, i: nat, cover: seq<AddrPos>,
                                       owner: seq<nat>, starts: seq<nat>, ends: seq<nat>,
                                       r: Result<seq<AddrPos>, Conflict>)
    requires AddrSorted(ranges) && MergeInv(ranges, i, cover, owner, starts, ends) && i < |ranges|
    requires cover == [] || End(cover[|cover| - 1]) < ranges[i].addr
    requires r == MergeFrom(ranges, i, cover)
    ensures MergeSound(ranges, r)
    decreases |ranges| - i, 0
  {
    AppendKeepsInv(ranges, i, cover, owner, starts, ends);
    assert cover == [] ==> cover + [ranges[i]] == [ranges[i]];
    MergeFromSound(ranges, i + 1, cover + [ranges[i]], owner + [|cover|], starts + [i], ends + [i], r);
  }

  lemma {:induction false} ExtendSound(ranges: seq<AddrPos>, i: nat, cover: seq<AddrPos>,
                                       owner: seq<nat>, starts: seq<nat>, ends: seq<nat>,
                                       r: Result<seq<AddrPos>, Conflict>)
    requires AddrSorted(ranges) && MergeInv(ranges, i, cover, owner, starts, ends) && i < |ranges|
    requires cover != [] && ranges[i].addr <= End(cover[|cover| - 1])
    requires ranges[i].typ == cover[|cover| - 1].typ
    requires r == MergeFrom(ranges, i, cover)
    ensures MergeSound(ranges, r)
    decreases |ranges| - i, 0
  {
    var n, next := |cover| - 1, ranges[i];
    if End(cover[n]) < End(next) {
      GrowKeepsInv(ranges, i, cover, owner, starts, ends);
      MergeFromSound(ranges, i + 1, cover[n := AddrPos(cover[n].addr, End(next) - cover[n].addr, cover[n].typ)],
                     owner + [n], starts, ends[n := i], r);
    } else {
      AbsorbKeepsInv(ranges, i, cover, owner, starts, ends);
      MergeFromSound(ranges, i + 1, cover, owner + [n], starts, ends, r);
    }
  }

  /**
   * Merging a list sorted by address fails exactly when the bag holds a clashing pair,
   * and then names the incoming range of a clashing pair; otherwise it yields the
   * coverage of the bag.
   */
  lemma MergedIsCoverage(ranges: seq<AddrPos>)
    requires AddrSorted(ranges)
    ensures Merged(ranges).Err? <==> Conflicting(Elements(ranges))
    ensures Merged(ranges).Err? ==>
              exists p, q :: p in ranges && q in ranges && Clash(p, q) && Merged(ranges).error == Conflict(q.addr, p.typ, q.typ)
    ensures Merged(ranges).Ok? ==> CoverageOf(Merged(ranges).value, Elements(ranges))
  {
    MergeFromSound(ranges, 0, [], [], [], [], Merged(ranges));
    if Merged(ranges).Err? {
      var p, q :| p in ranges && q in ranges && Clash(p, q) && Merged(ranges).error == Conflict(q.addr, p.typ, q.typ);
      assert p in Elements(ranges) && q in Elements(ranges);
    }
  }

  /** A list that is already a coverage merges to itself: merging is idempotent. */
  lemma {:induction false} SeparatedMergesToItself(ranges: seq<AddrPos>, i: nat)
    requires Separated(ranges) && i <= |ranges|
    ensures MergeFrom(ranges, i, ranges[..i]) == Ok(ranges)
    decreases |ranges| - i
  {
    if i == |ranges| {
      assert ranges[..i] == ranges;
    } else {
      assert ranges[..i + 1] == ranges[..i] + [ranges[i]];
      if i == 0 {
        assert ranges[..i + 1] == [ranges[i]];
      } else {
        assert End(ranges[..i][i - 1]) < ranges[i].addr;
      }
      SeparatedMergesToItself(ranges, i + 1);
    }
  }

  lemma MergeRangesSpec(ranges: seq<AddrPos>, r: Result<seq<AddrPos>, Conflict>)
    requires AddrSorted(ranges) && r == Merged(ranges)
    ensures r.Err? <==> Conflicting(Elements(ranges))
    ensures r.Err? ==> exists p, q :: p in ranges && q in ranges && Clash(p, q) && r.error == Conflict(q.addr, p.typ, q.typ)
    ensures r.Ok? ==> CoverageOf(r.value, Elements(ranges))
    ensures Separated(ranges) ==> r == Ok(ranges)
  {
    MergedIsCoverage(ranges);
    if Separated(ranges) {
      SeparatedMergesToItself(ranges, 0);
    }
  }

  /**
   * The merge loop of GetCoverage over ranges sorted by address, extending the last
   * merged range in place. It computes Merged, so it fails exactly when the bag holds a
   * clashing pair, otherwise returns the coverage of the bag, and returns a list that
   * is already a coverage unchanged.
   */
  method MergeRanges(ranges: seq<AddrPos>) returns (r: Result<seq<AddrPos>, Conflict>)
    requires AddrSorted(ranges)
    ensures r == Merged(ranges)
    ensures r.Err? <==> Conflicting(Elements(ranges))
    ensures r.Err? ==> exists p, q :: p in ranges && q in ranges && Clash(p, q) && r.error == Conflict(q.addr, p.typ, q.typ)
    ensures r.Ok? ==> CoverageOf(r.value, Elements(ranges))
    ensures Separated(ranges) ==> r == Ok(ranges)
  {
    var cover: seq<AddrPos> := [];
    var i := 0;
    while i < |ranges|
      invariant 0 <= i <= |ranges|
      invariant MergeFrom(ranges, i, cover) == Merged(ranges)
    {
      var next := ranges[i];
      if cover == [] {
        cover := [next];
      } else {
        var last := cover[|cover| - 1];
        if End(last) >= next.addr {
          if last.typ != next.typ {
            r := Err(Conflict(next.addr, last.typ, next.typ));
            MergeRangesSpec(ranges, r);
            return;
          }
          if End(last) < End(next) {
            cover := cover[|cover| - 1 := AddrPos(last.addr, End(next) - last.addr, last.typ)];
          }
        } else {
          cover := cover + [next];
        }
      }
      i := i + 1;
    }
    r := Ok(cover);
    MergeRangesSpec(ranges, r);
  }

  /** Range `p` shares a byte with the query [addr, addr + size); an empty query at
      `addr` meets a range that holds `addr` strictly inside it. */
  predicate Meets(p: AddrPos, addr: nat, size: nat) { addr < End(p) && p.addr < addr + size }

  /** The comparison SymbolCovHas hands to the library binary search: below the query,
      above it, or meeting it. */
  function CompareToQuery(p: AddrPos, addr: nat, size: nat): int {
    if End(p) <= addr then -1
    else if p.addr >= addr + size then 1
    else 0
  }

  /** Over a coverage the comparison never goes down from one range to the next. */
  lemma CompareMonotone(c: seq<AddrPos>, addr: nat, size: nat, j: nat, j': nat)
    requires Separated(c) && j <= j' < |c|
    ensures CompareToQuery(c[j], addr, size) <= CompareToQuery(c[j'], addr, size)
  {
    if j < j' {
      assert End(c[j]) < c[j'].addr;
    }
  }

  /**
   * SymbolCovHas: the lower-bound binary search of the library over `c` (the first
   * range not below the query), then a test that this range meets the query. It never
   * reports a meeting range that is not there, and over a coverage it finds one
   * whenever there is one.
   */
  method CoverageHas(c: seq<AddrPos>, addr: nat, size: nat) returns (found: bool)
    ensures found ==> exists j :: 0 <= j < |c| && Meets(c[j], addr, size)
    ensures Separated(c) && (exists j :: 0 <= j < |c| && Meets(c[j], addr, size)) ==> found
  {
    var lo, hi := 0, |c|;
    while lo < hi
      invariant 0 <= lo <= hi <= |c|
      invariant forall j :: 0 <= j < lo && Separated(c) ==> CompareToQuery(c[j], addr, size) < 0
      invariant forall j :: hi <= j < |c| && Separated(c) ==> CompareToQuery(c[j], addr, size) >= 0
    {
      var h := (lo + hi) / 2;
      if CompareToQuery(c[h], addr, size) < 0 {
        forall j | 0 <= j <= h && Separated(c) ensures CompareToQuery(c[j], addr, size) < 0 {
          CompareMonotone(c, addr, size, j, h);
        }
        lo := h + 1;
      } else {
        forall j | h <= j < |c| && Separated(c) ensures CompareToQuery(c[j], addr, size) >= 0 {
          CompareMonotone(c, addr, size, h, j);
        }
        hi := h;
      }
    }
    found := lo < |c| && CompareToQuery(c[lo], addr, size) == 0;
    if Separated(c) && !found {
      forall j | 0 <= j < |c| ensures !Meets(c[j], addr, size) {
        if j >= lo {
          CompareMonotone(c, addr, size, lo, j);
        }
      }
    }
  }
}
