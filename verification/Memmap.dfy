/** The demand-paged shared buffer: what an mmap may ask for, and the frames a fault hands out. */
module Memmap {
  import opened Words

  const ENXIO := -6
  const EINVAL := -22

  /** The page size, and the frames behind the pages of the vmalloc area, in order. */
  datatype Config = Config(page: nat, area: seq<int>) {
    ghost predicate Valid() {
      page > 0 && forall i, j :: 0 <= i < j < |area| ==> area[i] != area[j]
    }

    /** MAP_LEN */
    function Length(): nat { |area| * page }
  }

  /** One accepted mapping; `ptes` holds the frames faulted in so far, by virtual page number. */
  datatype Vma = Vma(start: nat, end: nat, write: bool, shared: bool, ptes: map<nat, int>)

  /** All mappings, of any processes, and the contents of all frames; `unused` frames and up are free. */
  datatype State = State(vmas: seq<Vma>, phys: map<int, seq<byte>>, unused: int)

  datatype Op =
    | Mmap(start: nat, end: nat, pgoff: nat, write: bool, shared: bool)
    | Load(m: nat, a: nat)
    | Store(m: nat, a: nat, v: byte)

  datatype Out = Mapped(m: nat) | Refused(error: int) | Byte(v: byte) | Stored | Segv | Bus | Stray

  // ----- the driver ---------------------------------------------------------

  /** `my_memmap_map`: 0 or an error; the checks in the order they are made. */
  function Admit(c: Config, start: nat, end: nat, pgoff: nat, write: bool, shared: bool): int {
    if end - start > c.Length() then ENXIO
    else if write && !shared then EINVAL
    else if pgoff * c.page != 0 then ENXIO
    else 0
  }

  datatype FaultResult = Frame(frame: int) | SigBus | OutsideArea

  /** `my_memmap_vma_ops_fault` for an access at `a`. */
  function Fault(c: Config, vma: Vma, a: nat): FaultResult
    requires c.Valid()
  {
    var offset := Align(a, c.page) - vma.start;
    if offset > c.Length() then SigBus
    else if 0 <= offset / c.page < |c.area| then Frame(c.area[offset / c.page])
    else OutsideArea
  }

  // ----- the machine around it ----------------------------------------------

  predicate Covers(s: State, m: nat, a: nat) {
    m < |s.vmas| && s.vmas[m].start <= a < s.vmas[m].end
  }

  /** The frame behind `a` in mapping `m`, faulted in if need be. */
  function Resolve(c: Config, vma: Vma, a: nat): FaultResult
    requires c.Valid()
  {
    if a / c.page in vma.ptes then Frame(vma.ptes[a / c.page]) else Fault(c, vma, a)
  }

  function WithPte(s: State, m: nat, page: nat, frame: int): State
    requires m < |s.vmas|
  {
    var vma := s.vmas[m];
    s.(vmas := s.vmas[m := vma.(ptes := vma.ptes[page := frame])])
  }

  function ReadFrame(c: Config, s: State, frame: int, a: nat): byte
    requires c.Valid()
  {
    if frame in s.phys && |s.phys[frame]| == c.page then s.phys[frame][a % c.page] else 0
  }

  function Put(bs: seq<byte>, i: nat, v: byte): seq<byte>
    requires i < |bs|
  {
    bs[i := v]
  }

  function WriteFrame(c: Config, s: State, frame: int, a: nat, v: byte): State
    requires c.Valid()
  {
    if frame in s.phys && |s.phys[frame]| == c.page
    then s.(phys := s.phys[frame := Put(s.phys[frame], a % c.page, v)])
    else s
  }

  /** A store through a mapping that is not shared goes to a private copy of the frame. */
  function PrivateCopy(s: State, m: nat, page: nat, frame: int): State
    requires m < |s.vmas|
  {
    var copied := if frame in s.phys then s.phys[frame] else [];
    WithPte(s.(phys := s.phys[s.unused := copied], unused := s.unused + 1), m, page, s.unused)
  }

  function Step(c: Config, s: State, op: Op): (State, Out)
    requires c.Valid()
  {
    match op
    case Mmap(start, end, pgoff, write, shared) =>
      if start >= end || start % c.page != 0 || end % c.page != 0 then (s, Refused(EINVAL))
      else
        var error := Admit(c, start, end, pgoff, write, shared);
        if error != 0 then (s, Refused(error))
        else (s.(vmas := s.vmas + [Vma(start, end, write, shared, map[])]), Mapped(|s.vmas|))
    case Load(m, a) =>
      if !Covers(s, m, a) then (s, Segv)
      else
        (match Resolve(c, s.vmas[m], a)
         case SigBus => (s, Bus)
         case OutsideArea => (s, Stray)
         case Frame(f) => (WithPte(s, m, a / c.page, f), Byte(ReadFrame(c, s, f, a))))
    case Store(m, a, v) =>
      if !Covers(s, m, a) || !s.vmas[m].write then (s, Segv)
      else
        (match Resolve(c, s.vmas[m], a)
         case SigBus => (s, Bus)
         case OutsideArea => (s, Stray)
         case Frame(f) =>
          if s.vmas[m].shared then (WriteFrame(c, WithPte(s, m, a / c.page, f), f, a, v), Stored)
          else (WriteFrame(c, PrivateCopy(s, m, a / c.page, f), s.unused, a, v), Stored))
  }

  // ----- the flat view ------------------------------------------------------

  /** Byte `x` of the vmalloc area. */
  function AreaByte(c: Config, s: State, x: nat): byte
    requires c.Valid() && x < c.Length()
  {
    IndexInside(c, x);
    ReadFrame(c, s, c.area[x / c.page], x)
  }

  lemma IndexInside(c: Config, x: nat)
    requires c.Valid() && x < c.Length()
    ensures x / c.page < |c.area|
  {
    var q := x / c.page;
    assert x == q * c.page + x % c.page;
    Scaled(q, |c.area|, c.page);
  }

  /** The machine without pages: one array, and the accepted windows onto it. */
  datatype Window = Window(start: nat, end: nat, write: bool)
  datatype Flat = Flat(windows: seq<Window>, bytes: seq<byte>)

  function FlatStep(c: Config, f: Flat, op: Op): (Flat, Out)
    requires c.Valid()
  {
    match op
    case Mmap(start, end, pgoff, write, shared) =>
      if start >= end || start % c.page != 0 || end % c.page != 0 then (f, Refused(EINVAL))
      else if end - start > |f.bytes| then (f, Refused(ENXIO))
      else if write && !shared then (f, Refused(EINVAL))
      else if pgoff > 0 then (f, Refused(ENXIO))
      else (f.(windows := f.windows + [Window(start, end, write)]), Mapped(|f.windows|))
    case Load(m, a) =>
      if m < |f.windows| && f.windows[m].start <= a < f.windows[m].end && a - f.windows[m].start < |f.bytes|
      then (f, Byte(f.bytes[a - f.windows[m].start]))
      else (f, Segv)
    case Store(m, a, v) =>
      if m < |f.windows| && f.windows[m].start <= a < f.windows[m].end && a - f.windows[m].start < |f.bytes|
         && f.windows[m].write
      then (f.(bytes := Put(f.bytes, a - f.windows[m].start, v)), Stored)
      else (f, Segv)
  }

  // ----- refinement ---------------------------------------------------------

  /** An accepted mapping with the frames it has faulted in: page `n` of it is page `n` of the area. */
  ghost predicate VmaOk(c: Config, vma: Vma)
    requires c.Valid()
  {
    && vma.start < vma.end <= vma.start + c.Length() && vma.start % c.page == 0
    && (vma.write ==> vma.shared)
    && forall p :: p in vma.ptes ==>
         vma.start / c.page <= p < vma.start / c.page + |c.area| && vma.ptes[p] == c.area[p - vma.start / c.page]
  }

  ghost predicate Inv(c: Config, s: State)
    requires c.Valid()
  {
    && (forall m :: 0 <= m < |s.vmas| ==> VmaOk(c, s.vmas[m]))
    && (forall i :: 0 <= i < |c.area| ==> c.area[i] in s.phys && |s.phys[c.area[i]]| == c.page)
  }

  ghost predicate Refines(c: Config, s: State, f: Flat)
    requires c.Valid()
  {
    && |f.windows| == |s.vmas| && |f.bytes| == c.Length()
    && (forall m :: 0 <= m < |s.vmas| ==> f.windows[m] == Window(s.vmas[m].start, s.vmas[m].end, s.vmas[m].write))
    && (forall x :: 0 <= x < c.Length() ==> f.bytes[x] == AreaByte(c, s, x))
  }

  /** Page and byte of an address, counted from a page-aligned start. */
  lemma FromStart(page: nat, start: nat, a: nat)
    requires page > 0 && start % page == 0 && start <= a
    ensures Align(a, page) - start >= 0
    ensures (Align(a, page) - start) / page == a / page - start / page == (a - start) / page
    ensures (a - start) % page == a % page
    ensures Align(a, page) <= a
  {
    var p, q, r := start / page, a / page, a % page;
    assert start == p * page && a == q * page + r;
    QuotientBelow(a, page, p);
    var d: nat := q - p;
    assert d * page == q * page - p * page;
    assert a - start == d * page + r && Align(a, page) - start == d * page;
    DivModUnique(a - start, page, d, r);
    DivModUnique(d * page, page, d, 0);
  }

  /** In an accepted mapping every access finds the area's own frame for its offset. */
  lemma ResolvesToArea(c: Config, vma: Vma, a: nat)
    requires c.Valid() && VmaOk(c, vma) && vma.start <= a < vma.end
    ensures a - vma.start < c.Length() && (a - vma.start) / c.page < |c.area|
    ensures Resolve(c, vma, a) == Frame(c.area[(a - vma.start) / c.page])
    ensures a / c.page - vma.start / c.page == (a - vma.start) / c.page
    ensures (a - vma.start) % c.page == a % c.page
  {
    FromStart(c.page, vma.start, a);
    IndexInside(c, a - vma.start);
  }

  lemma SameByte(c: Config, x: nat, y: nat)
    requires c.Valid() && x < c.Length() && y < c.Length()
    ensures x / c.page < |c.area| && y / c.page < |c.area|
    ensures c.area[x / c.page] == c.area[y / c.page] && x % c.page == y % c.page <==> x == y
  {
    IndexInside(c, x);
    IndexInside(c, y);
    if c.area[x / c.page] == c.area[y / c.page] && x % c.page == y % c.page {
      QuotientRemainder(x, c.page);
      QuotientRemainder(y, c.page);
    }
  }

  lemma SameFrame(c: Config, s: State, t: State, x: nat)
    requires c.Valid() && x < c.Length() && x / c.page < |c.area|
    requires var f := c.area[x / c.page]; (f in t.phys <==> f in s.phys) && (f in s.phys ==> t.phys[f] == s.phys[f])
    ensures AreaByte(c, t, x) == AreaByte(c, s, x)
  {
  }

  lemma PteKeepsVma(c: Config, vma: Vma, a: nat)
    requires c.Valid() && VmaOk(c, vma) && vma.start <= a < vma.end
    ensures Resolve(c, vma, a).Frame?
    ensures VmaOk(c, vma.(ptes := vma.ptes[a / c.page := Resolve(c, vma, a).frame]))
  {
    ResolvesToArea(c, vma, a);
  }

  lemma PteKeepsBytes(c: Config, s: State, f: Flat, m: nat, page: nat, frame: int)
    requires c.Valid() && m < |s.vmas| && Refines(c, s, f)
    ensures Refines(c, WithPte(s, m, page, frame), f)
  {
    var t := WithPte(s, m, page, frame);
    forall x | 0 <= x < c.Length() ensures f.bytes[x] == AreaByte(c, t, x) {
      IndexInside(c, x);
      SameFrame(c, s, t, x);
      assert f.bytes[x] == AreaByte(c, s, x);
    }
  }

  /** Faulting a page in changes no byte and keeps the mapping in order. */
  lemma PteKeeps(c: Config, s: State, f: Flat, m: nat, a: nat)
    requires c.Valid() && Inv(c, s) && Refines(c, s, f) && Covers(s, m, a)
    ensures Resolve(c, s.vmas[m], a).Frame?
    ensures var t := WithPte(s, m, a / c.page, Resolve(c, s.vmas[m], a).frame); Inv(c, t) && Refines(c, t, f)
  {
    PteKeepsVma(c, s.vmas[m], a);
    PteKeepsBytes(c, s, f, m, a / c.page, Resolve(c, s.vmas[m], a).frame);
  }

  /** The frame an access resolves to holds the area's byte for its offset. */
  lemma ResolvedByte(c: Config, s: State, m: nat, a: nat)
    requires c.Valid() && Inv(c, s) && Covers(s, m, a)
    ensures Resolve(c, s.vmas[m], a).Frame? && a - s.vmas[m].start < c.Length()
    ensures ReadFrame(c, s, Resolve(c, s.vmas[m], a).frame, a) == AreaByte(c, s, a - s.vmas[m].start)
  {
    ResolvesToArea(c, s.vmas[m], a);
  }

  lemma WriteKeepsInv(c: Config, s: State, frame: int, a: nat, v: byte)
    requires c.Valid() && Inv(c, s)
    ensures Inv(c, WriteFrame(c, s, frame, a, v))
  {
  }

  lemma ReadAfterWrite(c: Config, s: State, frame: int, a: nat, v: byte, g: int, b: nat)
    requires c.Valid() && frame in s.phys && |s.phys[frame]| == c.page
    ensures ReadFrame(c, WriteFrame(c, s, frame, a, v), g, b)
         == if g == frame && b % c.page == a % c.page then v else ReadFrame(c, s, g, b)
  {
  }

  /** A write to the frame of byte `x` at its place in the page shows at `x` and nowhere else. */
  lemma WrittenByte(c: Config, s: State, frame: int, a: nat, x: nat, y: nat, v: byte)
    requires c.Valid() && x < c.Length() && y < c.Length() && x % c.page == a % c.page
    requires x / c.page < |c.area| && frame == c.area[x / c.page] && frame in s.phys && |s.phys[frame]| == c.page
    ensures AreaByte(c, WriteFrame(c, s, frame, a, v), y) == if y == x then v else AreaByte(c, s, y)
  {
    SameByte(c, x, y);
    ReadAfterWrite(c, s, frame, a, v, c.area[y / c.page], y);
  }

  /** Writing through the resolved frame changes exactly that byte of the area. */
  lemma WriteRefines(c: Config, s: State, f: Flat, frame: int, a: nat, x: nat, v: byte)
    requires c.Valid() && Inv(c, s) && Refines(c, s, f) && x < c.Length() && x % c.page == a % c.page
    requires x / c.page < |c.area| && frame == c.area[x / c.page]
    ensures var t := WriteFrame(c, s, frame, a, v);
      Inv(c, t) && Refines(c, t, f.(bytes := Put(f.bytes, x, v)))
  {
    WriteKeepsInv(c, s, frame, a, v);
    var t := WriteFrame(c, s, frame, a, v);
    forall y | 0 <= y < c.Length() ensures Put(f.bytes, x, v)[y] == AreaByte(c, t, y) {
      WrittenByte(c, s, frame, a, x, y, v);
    }
  }

  /** Each operation of the paged machine does what it does on the flat array, with the same outcome. */
  lemma StepRefines(c: Config, s: State, f: Flat, op: Op)
    requires c.Valid() && Inv(c, s) && Refines(c, s, f)
    ensures var (t, out) := Step(c, s, op);
      var (g, flatOut) := FlatStep(c, f, op);
      Inv(c, t) && Refines(c, t, g) && out == flatOut
  {
    match op
    case Mmap(start, end, pgoff, write, shared) =>
      MmapRefines(c, s, f, start, end, pgoff, write, shared);
    case Load(m, a) =>
      if Covers(s, m, a) {
        assert f.windows[m] == Window(s.vmas[m].start, s.vmas[m].end, s.vmas[m].write);
        LoadRefines(c, s, f, m, a);
      }
    case Store(m, a, v) =>
      if Covers(s, m, a) {
        assert f.windows[m] == Window(s.vmas[m].start, s.vmas[m].end, s.vmas[m].write);
        StoreRefines(c, s, f, m, a, v);
      }
  }

  lemma LoadRefines(c: Config, s: State, f: Flat, m: nat, a: nat)
    requires c.Valid() && Inv(c, s) && Refines(c, s, f) && Covers(s, m, a)
    ensures a - s.vmas[m].start < |f.bytes|
    ensures var (t, out) := Step(c, s, Load(m, a));
      out == Byte(f.bytes[a - s.vmas[m].start]) && Inv(c, t) && Refines(c, t, f)
  {
    PteKeeps(c, s, f, m, a);
    ResolvedByte(c, s, m, a);
  }

  lemma StoreRefines(c: Config, s: State, f: Flat, m: nat, a: nat, v: byte)
    requires c.Valid() && Inv(c, s) && Refines(c, s, f) && Covers(s, m, a)
    ensures a - s.vmas[m].start < |f.bytes|
    ensures var (t, out) := Step(c, s, Store(m, a, v));
      if s.vmas[m].write
      then out == Stored && Inv(c, t) && Refines(c, t, f.(bytes := Put(f.bytes, a - s.vmas[m].start, v)))
      else out == Segv && t == s
  {
    var vma := s.vmas[m];
    ResolvesToArea(c, vma, a);
    PteKeeps(c, s, f, m, a);
    var frame := Resolve(c, vma, a).frame;
    WriteRefines(c, WithPte(s, m, a / c.page, frame), f, frame, a, a - vma.start, v);
  }

  lemma MmapRefines(c: Config, s: State, f: Flat, start: nat, end: nat, pgoff: nat, write: bool, shared: bool)
    requires c.Valid() && Inv(c, s) && Refines(c, s, f)
    ensures var (t, out) := Step(c, s, Mmap(start, end, pgoff, write, shared));
      var (g, flatOut) := FlatStep(c, f, Mmap(start, end, pgoff, write, shared));
      Inv(c, t) && Refines(c, t, g) && out == flatOut
  {
    ProductGap(pgoff, c.page);
    assert 0 * c.page == 0;
    var t := Step(c, s, Mmap(start, end, pgoff, write, shared)).0;
    forall x | 0 <= x < c.Length() ensures AreaByte(c, t, x) == AreaByte(c, s, x) {
    }
  }

  // ----- whole runs ---------------------------------------------------------

  function Run(c: Config, s: State, ops: seq<Op>): (State, seq<Out>)
    requires c.Valid()
    decreases ops
  {
    if ops == [] then (s, [])
    else
      var (t, out) := Step(c, s, ops[0]);
      var (end, outs) := Run(c, t, ops[1..]);
      (end, [out] + outs)
  }

  function FlatRun(c: Config, f: Flat, ops: seq<Op>): (Flat, seq<Out>)
    requires c.Valid()
    decreases ops
  {
    if ops == [] then (f, [])
    else
      var (g, out) := FlatStep(c, f, ops[0]);
      var (end, outs) := FlatRun(c, g, ops[1..]);
      (end, [out] + outs)
  }

  /** Any interleaving of mmaps, loads and stores over any number of mappings behaves like the one flat
      array: the same outcomes, and the area holds the array at the end. */
  lemma {:induction false} RunRefines(c: Config, s: State, f: Flat, ops: seq<Op>)
    requires c.Valid() && Inv(c, s) && Refines(c, s, f)
    ensures Run(c, s, ops).1 == FlatRun(c, f, ops).1
    ensures Inv(c, Run(c, s, ops).0) && Refines(c, Run(c, s, ops).0, FlatRun(c, f, ops).0)
    decreases ops
  {
    if ops != [] {
      StepRefines(c, s, f, ops[0]);
      RunRefines(c, Step(c, s, ops[0]).0, FlatStep(c, f, ops[0]).0, ops[1..]);
    }
  }

  /** The array a paged state stands for. */
  function FlatOf(c: Config, s: State): Flat
    requires c.Valid()
  {
    Flat(seq(|s.vmas|, m requires 0 <= m < |s.vmas| => Window(s.vmas[m].start, s.vmas[m].end, s.vmas[m].write)),
         seq(c.Length(), x requires 0 <= x < c.Length() => AreaByte(c, s, x)))
  }

  /** In particular from the initialised module: no operation, in any order, tells the pages from the array. */
  lemma PagesUnseen(c: Config, s: State, ops: seq<Op>)
    requires c.Valid() && Inv(c, s)
    ensures Run(c, s, ops).1 == FlatRun(c, FlatOf(c, s), ops).1
    ensures Refines(c, Run(c, s, ops).0, FlatRun(c, FlatOf(c, s), ops).0)
  {
    assert Refines(c, s, FlatOf(c, s));
    RunRefines(c, s, FlatOf(c, s), ops);
  }

  /** A store through one mapping is what a load at the same offset of any mapping sees next. */
  lemma StoreIsShared(c: Config, s: State, f: Flat, m: nat, a: nat, v: byte, n: nat, b: nat)
    requires c.Valid() && Inv(c, s) && Refines(c, s, f)
    requires Covers(s, m, a) && s.vmas[m].write && Covers(s, n, b)
    requires a - s.vmas[m].start == b - s.vmas[n].start
    ensures var (t, out) := Step(c, s, Store(m, a, v)); out == Stored && Step(c, t, Load(n, b)).1 == Byte(v)
  {
    StoreRefines(c, s, f, m, a, v);
    var t, x := Step(c, s, Store(m, a, v)).0, a - s.vmas[m].start;
    var g := f.(bytes := Put(f.bytes, x, v));
    assert g.windows[n] == Window(s.vmas[n].start, s.vmas[n].end, s.vmas[n].write)
        == Window(t.vmas[n].start, t.vmas[n].end, t.vmas[n].write);
    LoadRefines(c, t, g, n, b);
  }

  /** What a load answers, in frames: the byte at its place in the area's page. */
  lemma LoadSees(c: Config, s: State, m: nat, a: nat)
    requires c.Valid() && Inv(c, s) && Covers(s, m, a)
    ensures var x: nat := a - s.vmas[m].start;
      && x / c.page < |c.area|
      && var f := c.area[x / c.page];
         f in s.phys && |s.phys[f]| == c.page && Step(c, s, Load(m, a)).1 == Byte(s.phys[f][x % c.page])
  {
    ResolvesToArea(c, s.vmas[m], a);
  }

  /** What a store does, in frames: it changes the byte at its place in the area's page, and no other frame. */
  lemma StoreChanges(c: Config, s: State, m: nat, a: nat, v: byte)
    requires c.Valid() && Inv(c, s) && Covers(s, m, a) && s.vmas[m].write
    ensures var x: nat := a - s.vmas[m].start;
      && x / c.page < |c.area|
      && var f, phys := c.area[x / c.page], Step(c, s, Store(m, a, v)).0.phys;
         && f in s.phys && phys.Keys == s.phys.Keys && |phys[f]| == c.page == |s.phys[f]|
         && (forall j :: 0 <= j < c.page ==> phys[f][j] == if j == x % c.page then v else s.phys[f][j])
         && (forall g :: g in s.phys && g != f ==> phys[g] == s.phys[g])
  {
    ResolvesToArea(c, s.vmas[m], a);
  }

  /** Byte `j` of page `i` of the area. */
  lemma AreaByteAt(c: Config, s: State, i: nat, j: nat)
    requires c.Valid() && Inv(c, s) && i < |c.area| && j < c.page
    ensures i * c.page + j < c.Length()
    ensures AreaByte(c, s, i * c.page + j) == s.phys[c.area[i]][j]
  {
    InPage(i, j, |c.area|, c.page);
  }

  lemma InPage(i: nat, j: nat, pages: nat, page: nat)
    requires i < pages && j < page
    ensures i * page + j < pages * page && (i * page + j) / page == i && (i * page + j) % page == j
  {
    Scaled(pages, i + 1, page);
    assert (i + 1) * page == i * page + page;
    DivModUnique(i * page + j, page, i, j);
  }

  // ----- what the admission checks are for ----------------------------------

  /** A store through a private mapping touches no frame that was in use before. */
  lemma PrivateStoreFrames(c: Config, s: State, m: nat, a: nat, v: byte, f: int)
    requires c.Valid() && Covers(s, m, a) && s.vmas[m].write && !s.vmas[m].shared && f < s.unused
    ensures var t := Step(c, s, Store(m, a, v)).0;
      (f in t.phys <==> f in s.phys) && (f in s.phys ==> t.phys[f] == s.phys[f])
  {
  }

  /** Without the write-needs-shared check: a store through a private mapping never reaches the area. */
  lemma PrivateStoreIsLost(c: Config, s: State, m: nat, a: nat, v: byte, x: nat)
    requires c.Valid() && x < c.Length() && Covers(s, m, a)
    requires s.vmas[m].write && !s.vmas[m].shared && forall i :: 0 <= i < |c.area| ==> c.area[i] < s.unused
    ensures AreaByte(c, Step(c, s, Store(m, a, v)).0, x) == AreaByte(c, s, x)
  {
    IndexInside(c, x);
    PrivateStoreFrames(c, s, m, a, v, c.area[x / c.page]);
    SameFrame(c, s, Step(c, s, Store(m, a, v)).0, x);
  }

  /** What an access `x` bytes behind the start of a mapping finds: the area's page there, within the area's
      length; a bus error from one page behind that length on; and in between an address outside the area. */
  ghost predicate FindsPage(c: Config, x: nat, result: FaultResult)
    requires c.Valid()
  {
    && (result.Frame? <==> x < c.Length())
    && (result.OutsideArea? <==> c.Length() <= x < c.Length() + c.page)
    && (result.Frame? ==> x / c.page < |c.area| && result.frame == c.area[x / c.page])
  }

  lemma QuotientBounds(c: Config, x: nat)
    requires c.Valid()
    ensures x / c.page < |c.area| <==> x < c.Length()
    ensures x / c.page <= |c.area| <==> x < c.Length() + c.page
  {
    QuotientBelow(x, c.page, |c.area|);
    QuotientBelow(x, c.page, |c.area| + 1);
    assert (|c.area| + 1) * c.page == c.Length() + c.page;
  }

  /** The size check is what keeps accepted mappings within the first case. */
  lemma FaultFindsPageIff(c: Config, vma: Vma, a: nat)
    requires c.Valid() && vma.start % c.page == 0 && a >= vma.start
    ensures FindsPage(c, a - vma.start, Fault(c, vma, a))
  {
    var x: nat := a - vma.start;
    FromStart(c.page, vma.start, a);
    QuotientBounds(c, x);
    assert x == (x / c.page) * c.page + x % c.page;
    Scaled(|c.area|, x / c.page, c.page);
  }

  // ----- the module ---------------------------------------------------------

  function Decimal(n: nat): string {
    if n < 10 then ['0' + n as char] else Decimal(n / 10) + ['0' + (n % 10) as char]
  }

  function Pow10(e: nat): nat { if e == 0 then 1 else 10 * Pow10(e - 1) }

  lemma {:induction false} DecimalLength(n: nat, digits: nat)
    requires digits > 0 && n < Pow10(digits)
    ensures 1 <= |Decimal(n)| <= digits
    decreases digits
  {
    if n >= 10 {
      assert digits > 1 && Pow10(digits) == 10 * Pow10(digits - 1);
      DecimalLength(n / 10, digits - 1);
    }
  }

  function Ascii(s: string): (r: seq<byte>)
    requires forall i :: 0 <= i < |s| ==> s[i] < 128 as char
    ensures |r| == |s| && forall i :: 0 <= i < |s| ==> r[i] as int == s[i] as int
  {
    seq(|s|, i requires 0 <= i < |s| => s[i] as byte)
  }

  lemma {:induction false} DecimalIsAscii(n: nat)
    ensures forall i :: 0 <= i < |Decimal(n)| ==> Decimal(n)[i] < 128 as char
  {
    if n >= 10 { DecimalIsAscii(n / 10); }
  }

  /** What `sprintf` leaves at the head of page `i`: the text with its NUL, and the rest as it was. */
  function Stamp(page: seq<byte>, i: nat): (r: seq<byte>)
    requires |page| >= 32 && i < Pow10(10)
    ensures |r| == |page|
  {
    DecimalIsAscii(i);
    DecimalLength(i, 10);
    var text := Ascii("test: " + Decimal(i)) + [0];
    text + page[|text|..]
  }

  /** The number that decimal digits in ASCII denote. */
  function NumberOf(digits: seq<byte>): int {
    if digits == [] then 0 else 10 * NumberOf(digits[..|digits| - 1]) + digits[|digits| - 1] as int - 48
  }

  /** Digits are digits, they denote the number, and only 0 begins with 0. */
  lemma {:induction false} DecimalRoundTrip(n: nat)
    ensures Decimal(n) != "" && forall i :: 0 <= i < |Decimal(n)| ==> '0' <= Decimal(n)[i] <= '9'
    ensures NumberOf(Ascii(Decimal(n))) == n
    ensures forall i :: 0 <= i < |Decimal(n)| ==> 0x30 <= Ascii(Decimal(n))[i] <= 0x39
    ensures Ascii(Decimal(n))[0] == 0x30 ==> n == 0
  {
    DecimalIsAscii(n);
    var digits := Ascii(Decimal(n));
    if n < 10 {
      assert digits[..0] == [];
    } else {
      DecimalRoundTrip(n / 10);
      DecimalIsAscii(n / 10);
      assert digits[..|digits| - 1] == Ascii(Decimal(n / 10));
    }
  }

  /** A stamped page reads `test: `, the page's number in decimal and a NUL, and is as it was behind that. */
  lemma StampReads(page: seq<byte>, i: nat) returns (n: nat)
    requires |page| >= 32 && i < Pow10(10)
    ensures 1 <= n <= 10
    ensures var r := Stamp(page, i);
      && r[..6] == [0x74, 0x65, 0x73, 0x74, 0x3A, 0x20]
      && (forall j :: 6 <= j < 6 + n ==> 0x30 <= r[j] <= 0x39)
      && NumberOf(r[6..6 + n]) == i && (r[6] == 0x30 ==> i == 0)
      && r[6 + n] == 0 && r[7 + n..] == page[7 + n..]
  {
    DecimalIsAscii(i);
    DecimalLength(i, 10);
    DecimalRoundTrip(i);
    n := |Decimal(i)|;
    StampParts(page, i);
    StampColumns([0x74, 0x65, 0x73, 0x74, 0x3A, 0x20], Ascii(Decimal(i)), page[7 + n..], Stamp(page, i));
  }

  lemma StampParts(page: seq<byte>, i: nat)
    requires |page| >= 32 && i < Pow10(10) && |Decimal(i)| <= 10
    requires forall j :: 0 <= j < |Decimal(i)| ==> Decimal(i)[j] < 128 as char
    ensures Stamp(page, i)
         == [0x74, 0x65, 0x73, 0x74, 0x3A, 0x20] + Ascii(Decimal(i)) + [0] + page[7 + |Decimal(i)|..]
  {
    AsciiHead();
    AsciiJoin("test: ", Decimal(i));
  }

  lemma AsciiHead()
    ensures Ascii("test: ") == [0x74, 0x65, 0x73, 0x74, 0x3A, 0x20]
  {
    var head := "test: ";
    assert head[0] == 't' && head[1] == 'e' && head[2] == 's' && head[3] == 't' && head[4] == ':' && head[5] == ' ';
  }

  lemma AsciiJoin(a: string, b: string)
    requires forall i :: 0 <= i < |a| ==> a[i] < 128 as char
    requires forall i :: 0 <= i < |b| ==> b[i] < 128 as char
    ensures Ascii(a + b) == Ascii(a) + Ascii(b)
  {
  }

  lemma StampColumns(head: seq<byte>, digits: seq<byte>, rest: seq<byte>, r: seq<byte>)
    requires r == head + digits + [0] + rest
    ensures r[..|head|] == head && r[|head|..|head| + |digits|] == digits
    ensures r[|head| + |digits|] == 0 && r[|head| + |digits| + 1..] == rest
    ensures digits != [] ==> r[|head|] == digits[0]
    ensures (forall j :: 0 <= j < |digits| ==> 0x30 <= digits[j] <= 0x39)
        ==> forall j :: |head| <= j < |head| + |digits| ==> 0x30 <= r[j] <= 0x39
  {
  }

  /** The frames of the area exist, each a page long, and their numbers fit the text that is stamped on them. */
  ghost predicate HasArea(c: Config, phys: map<int, seq<byte>>) {
    && c.page >= 32 && |c.area| <= Pow10(10)
    && forall i :: 0 <= i < |c.area| ==> c.area[i] in phys && |phys[c.area[i]]| == c.page
  }

  /** The pages below `n` stamped, the others and all foreign frames as they were. */
  ghost predicate StampedUpTo(c: Config, phys: map<int, seq<byte>>, n: nat, before: map<int, seq<byte>>)
    requires HasArea(c, before) && n <= |c.area|
  {
    && phys.Keys == before.Keys
    && (forall j :: 0 <= j < |c.area| ==>
          phys[c.area[j]] == if j < n then Stamp(before[c.area[j]], j) else before[c.area[j]])
    && (forall f :: f in phys && f !in c.area ==> phys[f] == before[f])
  }

  lemma StampOne(c: Config, phys: map<int, seq<byte>>, n: nat, before: map<int, seq<byte>>)
    requires c.Valid() && HasArea(c, before) && HasArea(c, phys) && n < |c.area| && StampedUpTo(c, phys, n, before)
    ensures var after := phys[c.area[n] := Stamp(phys[c.area[n]], n)];
      HasArea(c, after) && StampedUpTo(c, after, n + 1, before)
  {
    var page := Stamp(phys[c.area[n]], n);
    var after := phys[c.area[n] := page];
    assert |page| == c.page;
    forall j | 0 <= j < |c.area|
      ensures after[c.area[j]] == if j < n + 1 then Stamp(before[c.area[j]], j) else before[c.area[j]]
    {
      if j != n { assert c.area[j] != c.area[n]; }
    }
  }

  /** After the stamping, byte `j` of page `i` of the area is that of the stamped page. */
  lemma StampedByte(c: Config, s: State, before: map<int, seq<byte>>, i: nat, j: nat)
    requires c.Valid() && HasArea(c, before) && Inv(c, s) && StampedUpTo(c, s.phys, |c.area|, before)
    requires i < |c.area| && j < c.page
    ensures i * c.page + j < c.Length()
    ensures AreaByte(c, s, i * c.page + j) == Stamp(before[c.area[i]], i)[j]
  {
    AreaByteAt(c, s, i, j);
  }

  ghost function Elements(s: seq<int>): set<int> { set f | f in s }

  lemma OneMoreReserved(area: seq<int>, i: nat, before: set<int>)
    requires i < |area|
    ensures before + Elements(area[..i]) + {area[i]} == before + Elements(area[..i + 1])
  {
    assert area[..i + 1] == area[..i] + [area[i]];
  }

  class Buffer {
    const c: Config
    var vmas: seq<Vma>
    var phys: map<int, seq<byte>>
    var unused: int
    /** Frames marked reserved. */
    var reserved: set<int>

    function View(): State
      reads this
    {
      State(vmas, phys, unused)
    }

    /** The area as `vmalloc` hands it out, in physical memory that holds anything. */
    constructor (c: Config, phys: map<int, seq<byte>>, unused: int)
      requires c.Valid()
      ensures this.c == c && View() == State([], phys, unused) && reserved == {}
    {
      this.c := c;
      this.vmas, this.phys, this.unused, this.reserved := [], phys, unused, {};
    }

    /** The loop of `my_memmap_drv_init`: every page is reserved and stamped with its number. */
    method InitPages()
      requires c.Valid() && HasArea(c, phys) && vmas == []
      modifies this`phys, this`reserved
      ensures HasArea(c, old(phys)) && StampedUpTo(c, phys, |c.area|, old(phys)) && Inv(c, View())
      ensures reserved == old(reserved) + set f | f in c.area
    {
      var i := 0;
      while i < |c.area|
        invariant 0 <= i <= |c.area| && HasArea(c, phys) && StampedUpTo(c, phys, i, old(phys))
        invariant reserved == old(reserved) + Elements(c.area[..i])
      {
        StampOne(c, phys, i, old(phys));
        OneMoreReserved(c.area, i, old(reserved));
        reserved := reserved + {c.area[i]};
        phys := phys[c.area[i] := Stamp(phys[c.area[i]], i)];
        i := i + 1;
      }
      assert c.area[..i] == c.area;
    }

    /** The loop of `my_memmap_drv_exit`. */
    method ReleasePages()
      modifies this`reserved
      ensures reserved == old(reserved) - set f | f in c.area
    {
      var i := 0;
      while i < |c.area|
        invariant 0 <= i <= |c.area|
        invariant reserved == old(reserved) - set f | f in c.area[..i]
      {
        reserved := reserved - {c.area[i]};
        assert c.area[..i + 1] == c.area[..i] + [c.area[i]];
        i := i + 1;
      }
      assert c.area[..i] == c.area;
    }

    /** `my_memmap_map` on a region the kernel has laid out. */
    method Map(start: nat, end: nat, pgoff: nat, write: bool, shared: bool) returns (ret: int)
      requires c.Valid() && start < end && start % c.page == 0 && end % c.page == 0
      modifies this`vmas
      ensures (View(), if ret == 0 then Mapped(|old(vmas)|) else Refused(ret))
           == Step(c, old(View()), Mmap(start, end, pgoff, write, shared))
      ensures ret == if end - start > |c.area| * c.page then -6
                     else if write && !shared then -22
                     else if pgoff > 0 then -6
                     else 0
      ensures vmas == old(vmas) + if ret == 0 then [Vma(start, end, write, shared, map[])] else []
    {
      ProductGap(pgoff, c.page);
      var offset, size := pgoff * c.page, end - start;
      if size > |c.area| * c.page { return ENXIO; }
      if write && !shared { return EINVAL; }
      if offset == 0 {
        vmas := vmas + [Vma(start, end, write, shared, map[])];
      } else {
        return ENXIO;
      }
      return 0;
    }

    /** `my_memmap_vma_ops_fault`: the page of the area at the offset of the fault from the start of the mapping. */
    method HandleFault(m: nat, a: nat) returns (result: FaultResult)
      requires c.Valid() && Covers(View(), m, a) && vmas[m].start % c.page == 0
      ensures FindsPage(c, a - vmas[m].start, result)
    {
      FaultFindsPageIff(c, vmas[m], a);
      FromStart(c.page, vmas[m].start, a);
      var offset := Align(a, c.page) - vmas[m].start;
      if offset > |c.area| * c.page { return SigBus; }
      var n := offset / c.page;
      if n < |c.area| { result := Frame(c.area[n]); } else { result := OutsideArea; }
    }
  }
}
