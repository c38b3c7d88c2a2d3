/** The processor's side of paging: page-table entries, the four-level walk of section 4.5 of the
    Intel SDM, Volume 3A, and the recursive window through which the kernel sees its tables. */
module Mmu {
  import opened Bits
  import opened FrameAllocator

  const PRESENT: nat := 0x1
  const WRITEABLE: nat := 0x2
  const HUGE: nat := 0x80
  const ADDRESS_MASK: nat := 0x000f_ffff_ffff_f000
  const NO_EXEC: nat := 0x8000_0000_0000_0000
  /** Physical frame numbers have 40 bits. */
  const FRAMES: nat := 0x100_0000_0000
  const ENTRIES: nat := 512
  const RECURSIVE: nat := 511
  /** The virtual address of the active level-4 table: every index is the recursive one. */
  const P4_TABLE: nat := 0xffff_ffff_ffff_f000

  datatype Option<+T> = None | Some(value: T)

  /** Physical memory as 64-bit words, 512 to a frame; a word never written reads as zero. */
  datatype Slot = Slot(frame: nat, index: nat)
  type Memory = map<Slot, nat>

  function Read(m: Memory, frame: nat, index: nat): nat {
    if Slot(frame, index) in m then m[Slot(frame, index)] else 0
  }

  // ------------------------------------------------------------------ entries

  predicate Present(e: nat) { e % 2 == 1 }

  predicate Huge(e: nat) { e / 0x80 % 2 == 1 }

  /** Bits 12 to 51: the frame an entry points to. */
  function FrameOf(e: nat): nat { e / 4096 % FRAMES }

  /** The word set_page_table_entry stores. */
  function Encode(frame: nat, flags: nat): nat {
    Or(And(frame * PAGE_SIZE, ADDRESS_MASK), flags)
  }

  /** Flag words have no bit in the address field. */
  predicate IsFlags(flags: nat) {
    And(flags, ADDRESS_MASK) == 0
  }

  lemma MaskIsField(e: nat)
    ensures And(e, ADDRESS_MASK) == FrameOf(e) * 4096
  {
    ShlTwelve(0xff_ffff_ffff);
    ShrTwelve(e);
    AndShifted(e, 0xff_ffff_ffff, 12);
    Pow40();
    AndLowOnes(e / 4096, 40);
    ShlTwelve(FrameOf(e));
  }

  lemma FlagBits(e: nat)
    ensures And(e, PRESENT) == e % 2
    ensures And(e, HUGE) != 0 <==> Huge(e)
  {
    assert And(e, 1) == e % 2 by { AndOdd(e, 0); }
    AndSeventh(e);
  }

  lemma AndSeventh(e: nat)
    ensures And(e, 0x80) == 0x80 * (e / 0x80 % 2)
  {
    AndEven(e, 0x40);
    AndEven(e / 2, 0x20);
    AndEven(e / 4, 0x10);
    AndEven(e / 8, 8);
    AndEven(e / 16, 4);
    AndEven(e / 32, 2);
    AndEven(e / 64, 1);
    AndOdd(e / 128, 0);
    assert e / 2 / 2 == e / 4 && e / 4 / 2 == e / 8 && e / 8 / 2 == e / 16;
    assert e / 16 / 2 == e / 32 && e / 32 / 2 == e / 64 && e / 64 / 2 == e / 128;
  }

  /** A frame number and a flag word share no bit, so the OR is a sum. */
  lemma EncodeIsSum(frame: nat, flags: nat)
    requires frame < FRAMES && IsFlags(flags)
    ensures Encode(frame, flags) == frame * PAGE_SIZE + flags
  {
    FieldOfAddress(frame);
    MaskIsField(frame * PAGE_SIZE);
    OrAcrossMask(frame * PAGE_SIZE, flags, ADDRESS_MASK);
  }

  lemma FieldOfAddress(frame: nat)
    requires frame < FRAMES
    ensures FrameOf(frame * PAGE_SIZE) == frame
  {
    assert frame * 4096 / 4096 == frame;
  }

  /** Encoding loses nothing: the frame and every flag bit come back. */
  lemma EncodeDecodes(frame: nat, flags: nat)
    requires frame < FRAMES && IsFlags(flags)
    ensures Encode(frame, flags) == frame * PAGE_SIZE + flags
    ensures FrameOf(Encode(frame, flags)) == frame
    ensures Present(Encode(frame, flags)) <==> Present(flags)
    ensures Huge(Encode(frame, flags)) <==> Huge(flags)
  {
    EncodeIsSum(frame, flags);
    assert FrameOf(flags) == 0 by { MaskIsField(flags); }
    FieldsOfSum(frame, flags);
  }

  lemma FieldsOfSum(frame: nat, flags: nat)
    requires frame < FRAMES && FrameOf(flags) == 0
    ensures FrameOf(frame * 4096 + flags) == frame
    ensures Present(frame * 4096 + flags) <==> Present(flags)
    ensures Huge(frame * 4096 + flags) <==> Huge(flags)
  {
    AddressFieldOfSum(frame, flags);
    var x := frame * 4096;
    assert x % 0x100 == 0;
    LowBitsOfSum(x, flags);
  }

  lemma AddressFieldOfSum(frame: nat, flags: nat)
    requires frame < FRAMES && FrameOf(flags) == 0
    ensures FrameOf(frame * 4096 + flags) == frame
  {
    var high := flags / 4096;
    assert (frame * 4096 + flags) / 4096 == frame + high;
    assert high % FRAMES == 0;
    assert (frame + high) % FRAMES == frame;
  }

  lemma LowBitsOfSum(x: nat, flags: nat)
    requires x % 0x100 == 0
    ensures Present(x + flags) <==> Present(flags)
    ensures Huge(x + flags) <==> Huge(flags)
  {
    ParityOfSum(x, flags);
    var high := x / 0x80;
    assert x == high * 0x80;
    QuotientOfSum(high, flags);
    ParityOfSum(high, flags / 0x80);
  }

  lemma QuotientOfSum(high: nat, flags: nat)
    ensures (high * 0x80 + flags) / 0x80 == high + flags / 0x80
  {
  }

  lemma ParityOfSum(x: nat, y: nat)
    requires x % 2 == 0
    ensures (x + y) % 2 == y % 2
  {
  }

  // -------------------------------------------------------------------- pages

  function P4Index(page: nat): nat { page / 0x800_0000 % 512 }
  function P3Index(page: nat): nat { page / 0x4_0000 % 512 }
  function P2Index(page: nat): nat { page / 512 % 512 }
  function P1Index(page: nat): nat { page % 512 }

  /** The pages of canonical addresses: bits 35 to 51 of the page number are all equal. */
  predicate Canonical(page: nat) {
    page < 0x8_0000_0000 || 0xf_fff8_0000_0000 <= page < 0x10_0000_0000_0000
  }

  /** A number written with a high part and four base-512 digits has those digits as indices. */
  lemma DigitsAreIndices(h: nat, a: nat, b: nat, c: nat, d: nat)
    requires a < 512 && b < 512 && c < 512 && d < 512
    ensures var p := h * 0x10_0000_0000 + a * 0x800_0000 + b * 0x4_0000 + c * 512 + d;
      P4Index(p) == a && P3Index(p) == b && P2Index(p) == c && P1Index(p) == d
  {
    var p3 := h * 512 + a;
    var p2 := p3 * 512 + b;
    var p1 := p2 * 512 + c;
    var p := p1 * 512 + d;
    assert p1 == p / 512 && p2 == p1 / 512 && p3 == p2 / 512;
    Quotients(p);
  }

  lemma Quotients(p: nat)
    ensures p / 0x4_0000 == p / 512 / 512
    ensures p / 0x800_0000 == p / 512 / 512 / 512
  {
    var q := p / 512;
    assert p / 0x4_0000 == q / 512;
    var r := q / 512;
    assert q / 0x4_0000 == r / 512;
    assert p / 0x800_0000 == q / 0x4_0000;
  }

  lemma SplitPage(p: nat)
    ensures p == p / 0x10_0000_0000 * 0x10_0000_0000
              + P4Index(p) * 0x800_0000 + P3Index(p) * 0x4_0000 + P2Index(p) * 512 + P1Index(p)
  {
    Quotients(p);
    var p1 := p / 512;
    var p2 := p1 / 512;
    var p3 := p2 / 512;
    assert p == p1 * 512 + P1Index(p);
    assert p1 == p2 * 512 + P2Index(p);
    assert p2 == p3 * 512 + P3Index(p);
    assert p3 / 512 == p / 0x10_0000_0000;
  }

  /** A canonical page is determined by its four indices. */
  lemma IndicesDeterminePage(p: nat, q: nat)
    requires Canonical(p) && Canonical(q)
    requires P4Index(p) == P4Index(q) && P3Index(p) == P3Index(q)
    requires P2Index(p) == P2Index(q) && P1Index(p) == P1Index(q)
    ensures p == q
  {
    SplitPage(p);
    SplitPage(q);
    CanonicalHigh(p);
    CanonicalHigh(q);
  }

  /** Bit 35 of a canonical page decides all the bits above it. */
  lemma CanonicalHigh(p: nat)
    requires Canonical(p)
    ensures p / 0x10_0000_0000 == (if P4Index(p) < 256 then 0 else 0xffff)
  {
    var a := p / 0x800_0000;
    assert p / 0x10_0000_0000 == a / 512;
    assert a < 256 || 0x1ff_ff00 <= a < 0x200_0000;
  }

  // --------------------------------------------------------------------- walk

  /** What a walk yields: the frame the page maps to and the entry that says so. */
  datatype Mapping = Mapping(frame: nat, leaf: nat)

  /** The next table: the entry is present and not huge. */
  function Step(m: Memory, table: nat, index: nat): Option<nat> {
    var e := Read(m, table, index);
    if Present(e) && !Huge(e) then Some(FrameOf(e)) else None
  }

  /** The last level: bit 7 is not a page-size bit here. */
  function WalkP1(m: Memory, table: nat, i1: nat): Option<Mapping> {
    var e := Read(m, table, i1);
    if Present(e) then Some(Mapping(FrameOf(e), e)) else None
  }

  /** A present huge entry maps a 2 MiB page. */
  function WalkP2(m: Memory, table: nat, i2: nat, i1: nat): Option<Mapping> {
    var e := Read(m, table, i2);
    if !Present(e) then None
    else if Huge(e) then Some(Mapping(FrameOf(e) / 512 * 512 + i1, e))
    else WalkP1(m, FrameOf(e), i1)
  }

  /** A present huge entry maps a 1 GiB page. */
  function WalkP3(m: Memory, table: nat, i3: nat, i2: nat, i1: nat): Option<Mapping> {
    var e := Read(m, table, i3);
    if !Present(e) then None
    else if Huge(e) then Some(Mapping(FrameOf(e) / 0x4_0000 * 0x4_0000 + i2 * 512 + i1, e))
    else WalkP2(m, FrameOf(e), i2, i1)
  }

  /** In a level-4 entry the page-size bit is reserved: such an entry faults. */
  function WalkP4(m: Memory, table: nat, i4: nat, i3: nat, i2: nat, i1: nat): Option<Mapping> {
    var e := Read(m, table, i4);
    if !Present(e) || Huge(e) then None else WalkP3(m, FrameOf(e), i3, i2, i1)
  }

  /** The translation of a page by the hierarchy whose level-4 table is root. */
  function Walk(m: Memory, root: nat, page: nat): Option<Mapping> {
    WalkP4(m, root, P4Index(page), P3Index(page), P2Index(page), P1Index(page))
  }

  // ------------------------------------------------------------------- window

  /** The place of a table in a hierarchy: the indices that lead to it. */
  datatype Path = P4 | P3(i4: nat) | P2(i4: nat, i3: nat) | P1(i4: nat, i3: nat, i2: nat)

  predicate IsPath(path: Path) {
    match path
    case P4 => true
    case P3(a) => a < ENTRIES
    case P2(a, b) => a < ENTRIES && b < ENTRIES
    case P1(a, b, c) => a < ENTRIES && b < ENTRIES && c < ENTRIES
  }

  /** The path does not begin with the recursive slot: such paths lead to distinct tables. */
  predicate InTree(path: Path) {
    IsPath(path) && (path.P4? || path.i4 != RECURSIVE)
  }

  function Child(path: Path, index: nat): Path
    requires !path.P1?
  {
    match path
    case P4 => P3(index)
    case P3(a) => P2(a, index)
    case P2(a, b) => P1(a, b, index)
  }

  function Then(m: Memory, table: Option<nat>, index: nat): Option<nat> {
    if table.Some? then Step(m, table.value, index) else None
  }

  /** The frame of the table at a path, found from physical memory alone. */
  function Locate(m: Memory, root: nat, path: Path): Option<nat> {
    match path
    case P4 => Some(root)
    case P3(a) => Step(m, root, a)
    case P2(a, b) => Then(m, Step(m, root, a), b)
    case P1(a, b, c) => Then(m, Then(m, Step(m, root, a), b), c)
  }

  /** The address descened_page_table computes: (table << 9) | (index << 12). */
  function Descend(table: nat, index: nat): nat {
    Or(table * 512 % WORD, index * 4096)
  }

  /** The virtual address the kernel uses for the table at a path. */
  function TableAddress(path: Path): nat {
    match path
    case P4 => P4_TABLE
    case P3(a) => Descend(P4_TABLE, a)
    case P2(a, b) => Descend(Descend(P4_TABLE, a), b)
    case P1(a, b, c) => Descend(Descend(Descend(P4_TABLE, a), b), c)
  }

  lemma DescendIsSum(table: nat, index: nat)
    requires table % 4096 == 0 && index < ENTRIES
    ensures Descend(table, index) == table * 512 % WORD + index * 4096
  {
    var t := table * 512 % WORD;
    assert t == t / 0x20_0000 * 0x20_0000;
    FieldsOfAddress(t / 0x20_0000, index);
  }

  lemma FieldsOfAddress(high: nat, index: nat)
    requires index < ENTRIES
    ensures Or(high * 0x20_0000, index * 4096) == high * 0x20_0000 + index * 4096
  {
    ShlNine(high);
    assert Pow2(9) == 512;
    OrAboveBelow(high, index, 9);
    ShlTwelve(high * 512);
    ShlTwelve(index);
    OrShifted(high * 512, index, 12);
    ShlTwelve(high * 512 + index);
  }

  /** The closed form of the window addresses. */
  lemma TableAddressIs(path: Path)
    requires IsPath(path)
    ensures TableAddress(path) == match path
      case P4 => WORD - 0x1000
      case P3(a) => WORD - 0x20_0000 + a * 0x1000
      case P2(a, b) => WORD - 0x4000_0000 + a * 0x20_0000 + b * 0x1000
      case P1(a, b, c) => WORD - 0x80_0000_0000 + a * 0x4000_0000 + b * 0x20_0000 + c * 0x1000
  {
    if !path.P4? {
      DescendFrom(1, path.i4);
      if !path.P3? {
        DescendFrom(512 - path.i4, path.i3);
        if !path.P2? {
          DescendFrom((512 - path.i4) * 512 - path.i3, path.i2);
        }
      }
    }
  }

  /** A descent from the n-th page below the top of the address space. */
  lemma DescendFrom(n: nat, index: nat)
    requires 0 < n <= 0x4_0000 && index < ENTRIES
    ensures Descend(WORD - n * 0x1000, index) == WORD - n * 0x20_0000 + index * 0x1000
  {
    var table := WORD - n * 0x1000;
    assert table == (0x10_0000_0000_0000 - n) * 4096;
    DescendIsSum(table, index);
    assert table * 512 == 511 * WORD + (WORD - n * 0x20_0000);
    ModUnique(table * 512, WORD, 511, WORD - n * 0x20_0000);
  }

  /** A window address is the first byte of a canonical page whose indices are those of the
      path, shifted down and filled up with the recursive index. */
  lemma WindowPage(path: Path)
    requires IsPath(path)
    ensures TableAddress(path) % PAGE_SIZE == 0 && TableAddress(path) < WORD
    ensures var p := TableAddress(path) / PAGE_SIZE;
      Canonical(p) && P4Index(p) == RECURSIVE &&
      match path
      case P4 => P3Index(p) == P2Index(p) == P1Index(p) == RECURSIVE
      case P3(a) => P3Index(p) == P2Index(p) == RECURSIVE && P1Index(p) == a
      case P2(a, b) => P3Index(p) == RECURSIVE && P2Index(p) == a && P1Index(p) == b
      case P1(a, b, c) => P3Index(p) == a && P2Index(p) == b && P1Index(p) == c
  {
    TableAddressIs(path);
    match path
    case P4 =>
      WindowDigits(511, 511, 511);
    case P3(a) =>
      WindowDigits(511, 511, a);
    case P2(a, b) =>
      WindowDigits(511, a, b);
    case P1(a, b, c) =>
      WindowDigits(a, b, c);
  }

  lemma WindowDigits(b: nat, c: nat, d: nat)
    requires b < 512 && c < 512 && d < 512
    ensures var p := 0xffff * 0x10_0000_0000 + 511 * 0x800_0000 + b * 0x4_0000 + c * 512 + d;
      && Canonical(p) && p * 4096 < WORD && p * 4096 % PAGE_SIZE == 0 && p * 4096 / PAGE_SIZE == p
      && P4Index(p) == 511 && P3Index(p) == b && P2Index(p) == c && P1Index(p) == d
  {
    DigitsAreIndices(0xffff, 511, b, c, d);
  }

  /** The hierarchy at edit is reached through the recursive slot of the active one. */
  ghost predicate Windowed(m: Memory, active: nat, edit: nat) {
    Step(m, active, RECURSIVE) == Some(edit) && Step(m, edit, RECURSIVE) == Some(edit)
  }

  /** The recursive-window theorem: whatever hierarchy is active, the address computed for a
      path translates to exactly the table at that path of the hierarchy being edited. */
  lemma WindowReachesTable(m: Memory, active: nat, edit: nat, path: Path)
    requires IsPath(path) && Windowed(m, active, edit)
    requires Locate(m, edit, path).Some?
    ensures Walk(m, active, TableAddress(path) / PAGE_SIZE).Some?
    ensures Walk(m, active, TableAddress(path) / PAGE_SIZE).value.frame == Locate(m, edit, path).value
  {
    WindowPage(path);
  }

  /** One level further down the window shows the frame that an entry of the level-2 table leads to,
      whether that is a level-1 table or the first frame of a 2 MiB mapping. */
  lemma WindowReachesEntry(m: Memory, active: nat, edit: nat, a: nat, b: nat, c: nat)
    requires IsPath(P1(a, b, c)) && Windowed(m, active, edit) && Locate(m, edit, P2(a, b)).Some?
    requires Present(Read(m, Locate(m, edit, P2(a, b)).value, c))
    ensures var t := Walk(m, active, TableAddress(P1(a, b, c)) / PAGE_SIZE);
      t.Some? && t.value.frame == FrameOf(Read(m, Locate(m, edit, P2(a, b)).value, c))
  {
    WindowPage(P1(a, b, c));
  }
}
