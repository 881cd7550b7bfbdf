/** The page-table walk: a four-level radix tree in physical memory, and the flat map it stands for. */
module V2pAddr {
  import opened Words

  const PAGE := 0x1000
  const ENTRIES := 512
  /** The unsigned value of -1, which the walk returns for an unmapped address. */
  const UNMAPPED := 0xFFFF_FFFF_FFFF_FFFF

  type word = n: nat | n <= UNMAPPED

  /** Bits 12 to 51 of an entry: the frame it points to. */
  function Frame(entry: word): nat { entry / PAGE % 0x100_0000_0000 * PAGE }

  /** The entries of a table, read from physical memory. */
  function Entry(mem: nat -> word, base: nat, i: nat): word { mem(base + 8 * i) }

  /** The 64-bit words of a memory of bytes. */
  function WordAt(bytes: nat -> byte, a: nat): word {
    var w := seq(8, j requires 0 <= j < 8 => bytes(a + j));
    BytesOfLittleEndian(w);
    assert Pow256(8) == UNMAPPED + 1;
    LittleEndian(w)
  }

  /** The 512 entries of a table are the bytes of its page, eight by eight, in order and without gaps. */
  lemma TableIsPage(bytes: nat -> byte, base: nat, x: nat)
    requires x < 0x1000
    ensures x / 8 < ENTRIES && |Bytes(Entry(a => WordAt(bytes, a), base, x / 8), 8)| == 8
    ensures Bytes(Entry(a => WordAt(bytes, a), base, x / 8), 8)[x % 8] == bytes(base + x)
  {
    var at := base + 8 * (x / 8);
    var w := seq(8, j requires 0 <= j < 8 => bytes(at + j));
    BytesOfLittleEndian(w);
    assert Entry(a => WordAt(bytes, a), base, x / 8) == LittleEndian(w);
    assert at + x % 8 == base + x;
  }

  // ----- the walk -----------------------------------------------------------

  function Pow512(e: nat): nat { if e == 0 then 1 else ENTRIES * Pow512(e - 1) }

  /** From an entry `level` tables above the pages, to the page-table entry for a page number. */
  function Walk(mem: nat -> word, entry: word, level: nat, vpn: nat): Option<word>
    requires vpn < Pow512(level)
    decreases level
  {
    if entry == 0 then None
    else if level == 0 then Some(entry)
    else
      Digit(vpn, level);
      Walk(mem, Entry(mem, Frame(entry), vpn / Pow512(level - 1)), level - 1, vpn % Pow512(level - 1))
  }

  lemma {:induction false} Pow512Positive(e: nat)
    ensures Pow512(e) > 0
  {
    if e > 0 { Pow512Positive(e - 1); }
  }

  lemma Digit(vpn: nat, level: nat)
    requires level > 0 && vpn < Pow512(level)
    ensures Pow512(level - 1) > 0 && vpn / Pow512(level - 1) < ENTRIES && vpn % Pow512(level - 1) < Pow512(level - 1)
    ensures vpn == vpn / Pow512(level - 1) * Pow512(level - 1) + vpn % Pow512(level - 1)
  {
    Pow512Positive(level - 1);
    QuotientRemainder(vpn, Pow512(level - 1));
    QuotientBelow(vpn, Pow512(level - 1), ENTRIES);
  }

  // ----- the flat map -------------------------------------------------------

  function Repeat(n: nat): (s: seq<Option<word>>)
    ensures |s| == n && forall i :: 0 <= i < n ==> s[i] == None
  {
    seq(n, _ => None)
  }

  /** All page-table entries below one entry, in the order of their page numbers. */
  ghost function Flatten(mem: nat -> word, entry: word, level: nat): (s: seq<Option<word>>)
    ensures |s| == Pow512(level)
    decreases level, ENTRIES + 1
  {
    if entry == 0 then Repeat(Pow512(level))
    else if level == 0 then [Some(entry)]
    else FlattenTable(mem, Frame(entry), level, ENTRIES)
  }

  /** The same below the first `n` entries of a table. */
  ghost function FlattenTable(mem: nat -> word, base: nat, level: nat, n: nat): (s: seq<Option<word>>)
    requires level > 0 && n <= ENTRIES
    ensures |s| == n * Pow512(level - 1)
    decreases level, n
  {
    if n == 0 then []
    else
      assert n * Pow512(level - 1) == (n - 1) * Pow512(level - 1) + Pow512(level - 1);
      FlattenTable(mem, base, level, n - 1) + Flatten(mem, Entry(mem, base, n - 1), level - 1)
  }

  /** In a flattened table the block of entry `i` starts at i * 512^(level-1). */
  lemma {:induction false} FlattenedBlock(mem: nat -> word, base: nat, level: nat, n: nat, i: nat, r: nat)
    requires level > 0 && n <= ENTRIES && i < n && r < Pow512(level - 1)
    ensures i * Pow512(level - 1) + r < n * Pow512(level - 1)
    ensures FlattenTable(mem, base, level, n)[i * Pow512(level - 1) + r]
         == Flatten(mem, Entry(mem, base, i), level - 1)[r]
  {
    var p := Pow512(level - 1);
    BlockInside(i, n, p, r);
    if i < n - 1 {
      FlattenedBlock(mem, base, level, n - 1, i, r);
    }
  }

  lemma BlockInside(i: nat, n: nat, p: nat, r: nat)
    requires i < n && r < p
    ensures i * p + r < n * p && n * p == (n - 1) * p + p
    ensures i == n - 1 ==> i * p + r == (n - 1) * p + r
  {
    assert (i + 1) * p <= n * p;
  }

  /** The radix-tree walk is lookup in the flat map. */
  lemma {:induction false} WalkIsLookup(mem: nat -> word, entry: word, level: nat, vpn: nat)
    requires vpn < Pow512(level)
    ensures Walk(mem, entry, level, vpn) == Flatten(mem, entry, level)[vpn]
    decreases level, 2
  {
    if entry != 0 && level > 0 {
      WalkTableIsLookup(mem, Frame(entry), level, vpn);
      assert Flatten(mem, entry, level) == FlattenTable(mem, Frame(entry), level, ENTRIES);
    }
  }

  /** One table of the walk, on a table that is already found. */
  lemma {:induction false} WalkTableIsLookup(mem: nat -> word, base: nat, level: nat, vpn: nat)
    requires level > 0 && vpn < Pow512(level)
    ensures Pow512(level - 1) > 0 && vpn < ENTRIES * Pow512(level - 1)
    ensures Walk(mem, Entry(mem, base, vpn / Pow512(level - 1)), level - 1, vpn % Pow512(level - 1))
         == FlattenTable(mem, base, level, ENTRIES)[vpn]
    decreases level, 1
  {
    var p := Pow512(level - 1);
    Digit(vpn, level);
    WalkBlockIsLookup(mem, base, level, vpn / p, vpn % p);
  }

  /** The same for page number `r` below entry `i` of the table. */
  lemma {:induction false} WalkBlockIsLookup(mem: nat -> word, base: nat, level: nat, i: nat, r: nat)
    requires level > 0 && i < ENTRIES && r < Pow512(level - 1)
    ensures i * Pow512(level - 1) + r < ENTRIES * Pow512(level - 1)
    ensures Walk(mem, Entry(mem, base, i), level - 1, r)
         == FlattenTable(mem, base, level, ENTRIES)[i * Pow512(level - 1) + r]
    decreases level, 0
  {
    WalkIsLookup(mem, Entry(mem, base, i), level - 1, r);
    FlattenedBlock(mem, base, level, ENTRIES, i, r);
  }

  // ----- addresses ----------------------------------------------------------

  function PgdIndex(a: nat): nat { a / 0x80_0000_0000 % ENTRIES }
  function PudIndex(a: nat): nat { a / 0x4000_0000 % ENTRIES }
  function PmdIndex(a: nat): nat { a / 0x20_0000 % ENTRIES }
  function PteIndex(a: nat): nat { a / PAGE % ENTRIES }

  /** The page number of a 48-bit address; the bits above are not looked at. */
  function PageNumber(a: nat): nat { a / PAGE % 0x10_0000_0000 }

  function Compose(i4: nat, i3: nat, i2: nat, i1: nat, offset: nat): nat {
    (((i4 * ENTRIES + i3) * ENTRIES + i2) * ENTRIES + i1) * PAGE + offset
  }

  /** The four indices, by dividing the page number by 512 step by step. */
  lemma IndicesStepwise(a: nat)
    ensures PmdIndex(a) == a / PAGE / ENTRIES % ENTRIES
    ensures PudIndex(a) == a / PAGE / ENTRIES / ENTRIES % ENTRIES
    ensures PgdIndex(a) == a / PAGE / ENTRIES / ENTRIES / ENTRIES % ENTRIES
  {
    DivDiv(a, PAGE, ENTRIES);
    DivDiv(a, 0x20_0000, ENTRIES);
    DivDiv(a, 0x4000_0000, ENTRIES);
  }

  function Number(i4: nat, i3: nat, i2: nat, i1: nat): nat {
    ((i4 * ENTRIES + i3) * ENTRIES + i2) * ENTRIES + i1
  }

  /** The five parts of an address determine its low 48 bits, and the four indices its page number. */
  lemma PartsCompose(a: nat)
    ensures Compose(PgdIndex(a), PudIndex(a), PmdIndex(a), PteIndex(a), a % PAGE) == a % 0x1_0000_0000_0000
    ensures Number(PgdIndex(a), PudIndex(a), PmdIndex(a), PteIndex(a)) == PageNumber(a)
  {
    IndicesStepwise(a);
    var p0 := a / PAGE;
    var p1 := p0 / ENTRIES;
    var p2 := p1 / ENTRIES;
    var p3 := p2 / ENTRIES;
    var p4 := p3 / ENTRIES;
    var v := Number(PgdIndex(a), PudIndex(a), PmdIndex(a), PteIndex(a));
    assert p3 == p4 * ENTRIES + PgdIndex(a) && p2 == p3 * ENTRIES + PudIndex(a);
    assert p1 == p2 * ENTRIES + PmdIndex(a) && p0 == p1 * ENTRIES + PteIndex(a);
    assert p0 == p4 * 0x10_0000_0000 + v;
    DivModUnique(p0, 0x10_0000_0000, p4, v);
    assert a == p0 * PAGE + a % PAGE;
    DivModUnique(a, 0x1_0000_0000_0000, p4, v * PAGE + a % PAGE);
  }

  lemma SplitNumber(high: nat, low: nat)
    requires low < ENTRIES
    ensures (high * ENTRIES + low) / ENTRIES == high && (high * ENTRIES + low) % ENTRIES == low
  {
  }

  /** Every choice of parts is the decomposition of exactly the address it composes. */
  lemma ComposeParts(i4: nat, i3: nat, i2: nat, i1: nat, offset: nat)
    requires i4 < ENTRIES && i3 < ENTRIES && i2 < ENTRIES && i1 < ENTRIES && offset < PAGE
    ensures var a := Compose(i4, i3, i2, i1, offset);
      && a < 0x1_0000_0000_0000
      && PgdIndex(a) == i4 && PudIndex(a) == i3 && PmdIndex(a) == i2 && PteIndex(a) == i1 && a % PAGE == offset
  {
    var a := Compose(i4, i3, i2, i1, offset);
    IndicesStepwise(a);
    var x3 := i4 * ENTRIES + i3;
    var x2 := x3 * ENTRIES + i2;
    var x1 := x2 * ENTRIES + i1;
    DivModUnique(a, PAGE, x1, offset);
    SplitNumber(x2, i1);
    SplitNumber(x3, i2);
    SplitNumber(i4, i3);
  }

  lemma LevelSizes()
    ensures Pow512(0) == 1 && Pow512(1) == 0x200 && Pow512(2) == 0x4_0000
    ensures Pow512(3) == 0x800_0000 && Pow512(4) == 0x10_0000_0000
  {
  }

  /** The digits of the page number, level by level, are the four indices. */
  lemma IndexDigits(a: nat)
    ensures var v3 := PageNumber(a) % 0x800_0000;
      var v2 := v3 % 0x4_0000;
      && PageNumber(a) / 0x800_0000 == PgdIndex(a)
      && v3 / 0x4_0000 == PudIndex(a)
      && v2 / 0x200 == PmdIndex(a)
      && v2 % 0x200 == PteIndex(a)
  {
    PartsCompose(a);
    var i4, i3, i2, i1 := PgdIndex(a), PudIndex(a), PmdIndex(a), PteIndex(a);
    var v2 := i2 * ENTRIES + i1;
    var v3 := i3 * 0x4_0000 + v2;
    DivModUnique(PageNumber(a), 0x800_0000, i4, v3);
    DivModUnique(v3, 0x4_0000, i3, v2);
    DivModUnique(v2, 0x200, i2, i1);
  }

  // ----- vaddr2paddr --------------------------------------------------------

  /** The page-table entry the flat map of the tables at `root` has for an address. */
  ghost function Mapping(mem: nat -> word, root: nat, a: nat): Option<word> {
    LevelSizes();
    FlattenTable(mem, root, 4, ENTRIES)[PageNumber(a)]
  }

  /** `pte & PAGE_MASK` or-ed with the offset bits of the address: no bit is set in both, so that or-ing adds. */
  function Paddr(pte: word, a: nat): word { Align(pte, PAGE) + a % PAGE }

  // The rest of the walk from each level on, with its early exits.

  function FromPte(pte: word): Option<word> { if pte == 0 then None else Some(pte) }

  function FromPmd(mem: nat -> word, pmd: word, i1: nat): Option<word> {
    if pmd == 0 then None else FromPte(Entry(mem, Frame(pmd), i1))
  }

  function FromPud(mem: nat -> word, pud: word, i2: nat, i1: nat): Option<word> {
    if pud == 0 then None else FromPmd(mem, Entry(mem, Frame(pud), i2), i1)
  }

  function FromPgd(mem: nat -> word, pgd: word, i3: nat, i2: nat, i1: nat): Option<word> {
    if pgd == 0 then None else FromPud(mem, Entry(mem, Frame(pgd), i3), i2, i1)
  }

  lemma WalkPmd(mem: nat -> word, pmd: word, v1: nat)
    requires v1 < 0x200
    ensures Pow512(1) == 0x200 && Walk(mem, pmd, 1, v1) == FromPmd(mem, pmd, v1)
  {
    LevelSizes();
  }

  lemma WalkPud(mem: nat -> word, pud: word, v2: nat)
    requires v2 < 0x4_0000
    ensures Pow512(2) == 0x4_0000 && Walk(mem, pud, 2, v2) == FromPud(mem, pud, v2 / 0x200, v2 % 0x200)
  {
    LevelSizes();
    if pud != 0 { WalkPmd(mem, Entry(mem, Frame(pud), v2 / 0x200), v2 % 0x200); }
  }

  lemma WalkPgd(mem: nat -> word, pgd: word, v3: nat)
    requires v3 < 0x800_0000
    ensures Pow512(3) == 0x800_0000
    ensures Walk(mem, pgd, 3, v3) == FromPgd(mem, pgd, v3 / 0x4_0000, v3 % 0x4_0000 / 0x200, v3 % 0x4_0000 % 0x200)
  {
    LevelSizes();
    if pgd != 0 { WalkPud(mem, Entry(mem, Frame(pgd), v3 / 0x4_0000), v3 % 0x4_0000); }
  }

  /** The flat map's entry is found by the four indices in turn. */
  lemma MappingByIndices(mem: nat -> word, root: nat, a: nat)
    ensures Mapping(mem, root, a) == FromPgd(mem, Entry(mem, root, PgdIndex(a)), PudIndex(a), PmdIndex(a), PteIndex(a))
  {
    LevelSizes();
    IndexDigits(a);
    var v := PageNumber(a);
    WalkTableIsLookup(mem, root, 4, v);
    WalkPgd(mem, Entry(mem, root, v / 0x800_0000), v % 0x800_0000);
  }

  /** What the walk returns for what it found. */
  function Answer(mapping: Option<word>, a: nat): word {
    match mapping
    case None => UNMAPPED
    case Some(pte) => Paddr(pte, a)
  }

  /** The lookups with their early returns; the folded p4d level looks at the pgd entry itself. */
  method WalkTables(mem: nat -> word, root: nat, a: nat) returns (r: word)
    ensures r == Answer(FromPgd(mem, Entry(mem, root, PgdIndex(a)), PudIndex(a), PmdIndex(a), PteIndex(a)), a)
  {
    var pgd := Entry(mem, root, PgdIndex(a));
    var p4d := pgd;
    if p4d == 0 { return UNMAPPED; }
    var pud := Entry(mem, Frame(p4d), PudIndex(a));
    if pud == 0 { return UNMAPPED; }
    var pmd := Entry(mem, Frame(pud), PmdIndex(a));
    if pmd == 0 { return UNMAPPED; }
    var pte := Entry(mem, Frame(pmd), PteIndex(a));
    if pte == 0 { return UNMAPPED; }
    return Paddr(pte, a);
  }

  /** The answer from the words of memory: each table has 8-byte entries, indexed by nine bits of the address, and
      bits 12 to 51 of an entry are the address of the next table, or of the page. */
  ghost predicate TablesAnswer(mem: nat -> word, root: nat, a: nat, r: word) {
    var pgd := mem(root + 8 * (a / 0x80_0000_0000 % 512));
    if pgd == 0 then r == 0xFFFF_FFFF_FFFF_FFFF
    else
      var pud := mem(pgd / 0x1000 % 0x100_0000_0000 * 0x1000 + 8 * (a / 0x4000_0000 % 512));
      if pud == 0 then r == 0xFFFF_FFFF_FFFF_FFFF
      else
        var pmd := mem(pud / 0x1000 % 0x100_0000_0000 * 0x1000 + 8 * (a / 0x20_0000 % 512));
        if pmd == 0 then r == 0xFFFF_FFFF_FFFF_FFFF
        else
          var pte := mem(pmd / 0x1000 % 0x100_0000_0000 * 0x1000 + 8 * (a / 0x1000 % 512));
          if pte == 0 then r == 0xFFFF_FFFF_FFFF_FFFF
          else r == pte / 0x1000 * 0x1000 + a % 0x1000
  }

  lemma AnswerOfTables(mem: nat -> word, root: nat, a: nat)
    ensures TablesAnswer(mem, root, a,
      Answer(FromPgd(mem, Entry(mem, root, PgdIndex(a)), PudIndex(a), PmdIndex(a), PteIndex(a)), a))
  {
  }

  /** `vaddr2paddr` answers with the flat map's entry for the page, for any tables and any address. */
  method Vaddr2Paddr(mem: nat -> word, root: nat, a: nat) returns (r: word)
    ensures r == Answer(Mapping(mem, root, a), a)
    ensures TablesAnswer(mem, root, a, r)
  {
    MappingByIndices(mem, root, a);
    AnswerOfTables(mem, root, a);
    r := WalkTables(mem, root, a);
  }

  /** Low 12 bits from the address, all others from the entry, its high attribute bits included. */
  lemma PaddrParts(pte: word, a: nat)
    ensures Paddr(pte, a) % PAGE == a % PAGE && Paddr(pte, a) / PAGE == pte / PAGE
  {
  }

  /** -1 is ambiguous: it is also the answer for the last byte of a page whose entry has all its high bits set. */
  lemma MinusOneIff(mapping: Option<word>, a: nat)
    ensures Answer(mapping, a) == UNMAPPED
      <==> mapping == None || (mapping.value / PAGE == UNMAPPED / PAGE && a % PAGE == PAGE - 1)
  {
  }

  /** The answer is the physical address itself exactly when the entry's bits 52 to 63 are clear. */
  lemma PhysicalIff(pte: word, a: nat)
    ensures Paddr(pte, a) == Frame(pte) + a % PAGE <==> pte < 0x10_0000_0000_0000
  {
  }
}
