/**
  The extended page tables of a guest (memory.rs): bit-packed entries, the
  four-level tree of heap-allocated tables, and the operations that walk it and
  extend it. Host addresses are 64-bit words, since entries pack them with flag
  bits; guest addresses are numbers, with `/` and `%` by powers of two standing
  for the shifts and masks of the index helpers.
*/
module EptEntry {

  import opened Bits

  type HostAddr = nat

  /** The 64-bit word of an `EptTableEntry` or `EptPageTableEntry`. */
  datatype Entry = Entry(bits: nat)

  const READ_ACCESS: nat := 0x1
  const WRITE_ACCESS: nat := 0x2
  const PRIV_EXEC_ACCESS: nat := 0x4
  const IGNORE_PAT: nat := 0x40
  const USERMODE_EXEC_ACCESS: nat := 0x400
  const WRITE_BACK: nat := 6

  const ADDR_MASK: nat := 0x000f_ffff_ffff_f000
  const MEM_TYPE_MASK: nat := 0xe0
  const UNUSED: Entry := Entry(0)

  /** Page aligned and below the 52-bit physical address limit of an entry. */
  predicate PhysFrame(a: HostAddr) {
    a % 0x1000 == 0 && a < 0x10_0000_0000_0000
  }

  function EntryAddr(e: Entry): HostAddr {
    BitAnd(e.bits, ADDR_MASK)
  }

  predicate Writable(e: Entry) {
    BitAnd(e.bits, WRITE_ACCESS) != 0
  }

  function MemType(e: Entry): nat {
    BitAnd(e.bits, MEM_TYPE_MASK) / 32
  }

  // Distinct flag bits, so their union is their sum.

  const TABLE_FLAGS: nat := READ_ACCESS + WRITE_ACCESS + PRIV_EXEC_ACCESS + USERMODE_EXEC_ACCESS

  const READONLY_PAGE_FLAGS: nat := READ_ACCESS + PRIV_EXEC_ACCESS + USERMODE_EXEC_ACCESS + IGNORE_PAT

  function PageFlags(readonly: bool): nat {
    if readonly then READONLY_PAGE_FLAGS else READONLY_PAGE_FLAGS + WRITE_ACCESS
  }

  /** `EptTableEntry::set_addr` with the default flags. */
  function TableEntry(addr: HostAddr): Entry {
    Entry(BitOr(addr, TABLE_FLAGS))
  }

  /** `EptPageTableEntry::set_addr`: keeps the memory type of the entry it replaces. */
  function SetPageAddr(e: Entry, addr: HostAddr, flags: nat): Entry {
    Entry(BitOr(BitOr(addr, flags), MemType(e) * 32))
  }

  function SetMemType(e: Entry, memType: nat): Entry {
    Entry(BitOr(BitClear(e.bits, MEM_TYPE_MASK), memType * 32))
  }

  /** The leaf entry `map_guest_memory` leaves in an unused slot. */
  function LeafEntry(frame: HostAddr, readonly: bool): Entry {
    SetMemType(SetPageAddr(UNUSED, frame, PageFlags(readonly)), WRITE_BACK)
  }

  lemma EntryAddrField(e: Entry)
    ensures EntryAddr(e) == e.bits / 0x1000 % 0x100_0000_0000 * 0x1000
  {
    PowerValues();
    ShlIsTimes(Pow2(40) - 1, 12);
    AndField(12, 40, e.bits);
    ShlIsTimes(e.bits / Pow2(12) % Pow2(40), 12);
  }

  lemma WritableBit(e: Entry)
    ensures Writable(e) <==> e.bits / 2 % 2 == 1
  {
    AndField(1, 1, e.bits);
  }

  /** The address field of an aligned address with flags below bit 12. */
  lemma FieldOf(addr: nat, flags: nat)
    requires addr % 0x1000 == 0 && flags < 0x1000
    ensures (addr + flags) / 0x1000 % 0x100_0000_0000 * 0x1000 == addr <==> addr < 0x10_0000_0000_0000
  {
    var f := addr / 0x1000;
    assert addr == f * 0x1000 && (addr + flags) / 0x1000 == f;
    assert f < 0x100_0000_0000 <==> addr < 0x10_0000_0000_0000;
  }

  /** A table entry gives back the address stored in it exactly when it fits in 52 bits. */
  lemma TableEntryHoldsAddress(addr: HostAddr)
    requires addr % 0x1000 == 0
    ensures EntryAddr(TableEntry(addr)) == addr <==> PhysFrame(addr)
    ensures TableEntry(addr) != UNUSED
  {
    hide EntryAddr, TableEntry;
    TableEntryBits(addr);
    EntryAddrField(TableEntry(addr));
    FieldOf(addr, 0x407);
  }

  // What the page flags become as the memory type is cleared and then set to write-back.

  lemma MemTypeCleared()
    ensures BitClear(0x445, 0xe0) == 0x405
  {
    hide Bitwise;
    Step(AndNot, 0x445, 0xe0); Step(AndNot, 0x222, 0x70); Step(AndNot, 0x111, 0x38);
    MemTypeHigh();
  }

  lemma MemTypeHigh()
    ensures BitClear(0x88, 0x1c) == 0x80
  {
    hide Bitwise;
    Step(AndNot, 0x88, 0x1c); Step(AndNot, 0x44, 0xe); Step(AndNot, 0x22, 0x7); Step(AndNot, 0x11, 0x3);
    Step(AndNot, 0x8, 0x1);
    Identities(0x4);
  }

  lemma MemTypeClearedWritable()
    ensures BitClear(0x447, 0xe0) == 0x407
  {
    hide Bitwise;
    Step(AndNot, 0x447, 0xe0); Step(AndNot, 0x223, 0x70); Step(AndNot, 0x111, 0x38);
    MemTypeHigh();
  }

  lemma WriteBackSet()
    ensures BitOr(0x405, 0xc0) == 0x4c5
  {
    hide Bitwise;
    Step(Or, 0x405, 0xc0); Step(Or, 0x202, 0x60); Step(Or, 0x101, 0x30);
    WriteBackHigh();
  }

  lemma WriteBackHigh()
    ensures BitOr(0x80, 0x18) == 0x98
  {
    hide Bitwise;
    Step(Or, 0x80, 0x18); Step(Or, 0x40, 0xc); Step(Or, 0x20, 0x6); Step(Or, 0x10, 0x3); Step(Or, 0x8, 0x1);
    Identities(0x4);
  }

  lemma WriteBackSetWritable()
    ensures BitOr(0x407, 0xc0) == 0x4c7
  {
    hide Bitwise;
    Step(Or, 0x407, 0xc0); Step(Or, 0x203, 0x60); Step(Or, 0x101, 0x30);
    WriteBackHigh();
  }

  lemma TableEntryBits(addr: HostAddr)
    requires addr % 0x1000 == 0
    ensures TableEntry(addr).bits == addr + 0x407
  {
    hide Bitwise;
    PowerValues();
    LowBitsOnly(Or, 12, addr, 0, 0x407);
    Identities(0x407);
  }

  /**
    The bits of a leaf. Clearing the memory type drops IGNORE_PAT, which lies in
    the same field; the write-back type sets that bit again.
  */
  lemma LeafEntryBits(frame: HostAddr, readonly: bool)
    requires frame % 0x1000 == 0
    ensures LeafEntry(frame, readonly).bits == frame + (if readonly then 0x4c5 else 0x4c7)
  {
    hide Bitwise;
    MemTypeCleared();
    MemTypeClearedWritable();
    WriteBackSet();
    WriteBackSetWritable();
    Identities(MEM_TYPE_MASK);
    PowerValues();
    var flags := PageFlags(readonly);
    LowBitsOnly(Or, 12, frame, 0, flags);
    Identities(flags);
    Identities(frame + flags);
    LowBitsOnly(AndNot, 12, frame, flags, MEM_TYPE_MASK);
    LowBitsOnly(Or, 12, frame, BitClear(flags, MEM_TYPE_MASK), 0xc0);
  }

  /** A leaf gives back its frame exactly when it fits in 52 bits, and the write permission asked for. */
  lemma LeafEntryHoldsFrame(frame: HostAddr, readonly: bool)
    requires frame % 0x1000 == 0
    ensures EntryAddr(LeafEntry(frame, readonly)) == frame <==> PhysFrame(frame)
    ensures LeafEntry(frame, readonly) != UNUSED
    ensures Writable(LeafEntry(frame, readonly)) <==> !readonly
  {
    hide EntryAddr, LeafEntry, Writable;
    LeafEntryBits(frame, readonly);
    EntryAddrField(LeafEntry(frame, readonly));
    FieldOf(frame, if readonly then 0x4c5 else 0x4c7);
    WritableBit(LeafEntry(frame, readonly));
  }
}

module Ept {
  import opened Common
  import opened EptEntry

  const ENTRIES: nat := 512
  const GUEST_PAGES: nat := 0x10_0000_0000
  const GUEST_LIMIT: nat := 0x1_0000_0000_0000

  type Index = i: nat | i < 512 witness 0
  type Table = seq<Entry>
  type Tables = map<HostAddr, Table>

  function EmptyTable(): (t: Table)
    ensures |t| == ENTRIES && forall i :: 0 <= i < ENTRIES ==> t[i] == UNUSED
  {
    seq(ENTRIES, _ => UNUSED)
  }

  // ---- guest addresses -----------------------------------------------------

  datatype Path = Path(p4: Index, p3: Index, p2: Index, p1: Index)

  /** The four table indices of an address, as the index helpers compute them. */
  function PathOf(addr: nat): Path {
    Path(addr / 0x80_0000_0000 % 512,
         addr / 0x4000_0000 % 512,
         addr / 0x20_0000 % 512,
         addr / 0x1000 % 512)
  }

  /** Bits 47:12 of an address. */
  function Page(addr: nat): (p: nat)
    ensures p < GUEST_PAGES
  {
    addr / PAGE_SIZE % GUEST_PAGES
  }

  function PathOfPage(page: nat): Path {
    Path(page / 0x800_0000 % 512, page / 0x4_0000 % 512, page / 512 % 512, page % 512)
  }

  /** The indices are the digits of an address in base 512 above its page offset, the PML4 index first. */
  lemma AddressFromPath(addr: nat)
    ensures var x := PathOf(addr);
            addr % GUEST_LIMIT ==
            x.p4 * 0x80_0000_0000 + x.p3 * 0x4000_0000 + x.p2 * 0x20_0000 + x.p1 * 0x1000 + addr % 0x1000
  {
    var a, b, c, d := addr / 0x1000, addr / 0x20_0000, addr / 0x4000_0000, addr / 0x80_0000_0000;
    assert b == a / 512 && c == b / 512 && d == c / 512;
    assert addr / GUEST_LIMIT == d / 512;
    assert addr == addr / GUEST_LIMIT * GUEST_LIMIT + addr % GUEST_LIMIT;
    assert a == b * 512 + a % 512 && b == c * 512 + b % 512 && c == d * 512 + c % 512 && d == d / 512 * 512 + d % 512;
  }

  lemma WrapPt(p: nat)
    ensures p % 512 == p % GUEST_PAGES % 512
  {
  }

  lemma WrapPd(p: nat)
    ensures p / 512 % 512 == p % GUEST_PAGES / 512 % 512
  {
    var k := p / GUEST_PAGES;
    assert p / 512 == k * 0x800_0000 + p % GUEST_PAGES / 512;
  }

  lemma WrapPdpt(p: nat)
    ensures p / 0x4_0000 % 512 == p % GUEST_PAGES / 0x4_0000 % 512
  {
    var k := p / GUEST_PAGES;
    assert p / 0x4_0000 == k * 0x4_0000 + p % GUEST_PAGES / 0x4_0000;
  }

  lemma WrapPml4(p: nat)
    ensures p / 0x800_0000 % 512 == p % GUEST_PAGES / 0x800_0000 % 512
  {
    var k := p / GUEST_PAGES;
    assert p / 0x800_0000 == k * 512 + p % GUEST_PAGES / 0x800_0000;
  }

  /** The indices depend on bits 47:12 only. */
  lemma PathIsOfPage(addr: nat)
    ensures PathOf(addr) == PathOfPage(Page(addr))
  {
    var p := addr / PAGE_SIZE;
    assert addr / 0x20_0000 == p / 512;
    assert addr / 0x4000_0000 == p / 0x4_0000;
    assert addr / 0x80_0000_0000 == p / 0x800_0000;
    WrapPt(p);
    WrapPd(p);
    WrapPdpt(p);
    WrapPml4(p);
  }

  lemma PageFromIndices(p: nat)
    requires p < GUEST_PAGES
    ensures p == p % 512 + 512 * (p / 512 % 512) + 0x4_0000 * (p / 0x4_0000 % 512)
                 + 0x800_0000 * (p / 0x800_0000 % 512)
  {
    assert p / 0x4_0000 == p / 512 / 512;
    assert p / 0x800_0000 == p / 512 / 512 / 512;
  }

  /** Two addresses share all four indices exactly when they lie in the same page modulo 2^48. */
  lemma PathsSeparatePages(a: nat, b: nat)
    ensures PathOf(a) == PathOf(b) <==> Page(a) == Page(b)
  {
    PathIsOfPage(a);
    PathIsOfPage(b);
    PageFromIndices(Page(a));
    PageFromIndices(Page(b));
  }

  lemma PagePathsDiffer(p: nat, q: nat)
    requires p < GUEST_PAGES && q < GUEST_PAGES && p != q
    ensures PathOfPage(p) != PathOfPage(q)
  {
    PageFromIndices(p);
    PageFromIndices(q);
  }

  // ---- the tree of tables --------------------------------------------------

  /** The place of a table in its tree; it names the one path that leads to it. */
  datatype Role =
    | Pml4(root: HostAddr)
    | Pdpt(root: HostAddr, p4: Index)
    | Pd(root: HostAddr, p4: Index, p3: Index)
    | Pt(root: HostAddr, p4: Index, p3: Index, p2: Index)

  function ChildRole(r: Role, i: Index): Role {
    match r
    case Pml4(root) => Pdpt(root, i)
    case Pdpt(root, p4) => Pd(root, p4, i)
    case Pd(root, p4, p3) => Pt(root, p4, p3, i)
    case Pt(_, _, _, _) => r
  }

  /** The table an entry points to, if the entry is in use. */
  function Child(t: Tables, a: HostAddr, i: Index): Option<HostAddr> {
    if a in t && |t[a]| == ENTRIES && t[a][i] != UNUSED then Some(EntryAddr(t[a][i])) else None
  }

  function PageTableOf(t: Tables, root: HostAddr, x: Path): Option<HostAddr> {
    var pdpt := Child(t, root, x.p4);
    if pdpt.None? then None else
      var pd := Child(t, pdpt.value, x.p3);
      if pd.None? then None else Child(t, pd.value, x.p2)
  }

  /** The leaf entry a walk from `root` ends at; unused when some level is unused. */
  function Walk(t: Tables, root: HostAddr, x: Path): Entry {
    var pt := PageTableOf(t, root, x);
    if pt.Some? && pt.value in t && |t[pt.value]| == ENTRIES then t[pt.value][x.p1] else UNUSED
  }

  datatype Mapping = Mapping(frame: HostAddr, writable: bool)

  /** What the tree maps a guest page to. */
  function Lookup(t: Tables, root: HostAddr, page: nat): Option<Mapping> {
    var e := Walk(t, root, PathOfPage(page));
    if e == UNUSED then None else Some(Mapping(EntryAddr(e), Writable(e)))
  }

  lemma UsedPath(t: Tables, root: HostAddr, x: Path)
    ensures Walk(t, root, x) != UNUSED ==> PageTableOf(t, root, x).Some?
  {
  }

  lemma LookupIsWalk(t: Tables, root: HostAddr, addr: nat)
    ensures Lookup(t, root, Page(addr)) == var e := Walk(t, root, PathOf(addr));
              if e == UNUSED then None else Some(Mapping(EntryAddr(e), Writable(e)))
  {
    PathIsOfPage(addr);
  }

  /** Every entry in use above the leaves points to the table whose role is its own path. */
  ghost predicate TreeInv(t: Tables, roles: map<HostAddr, Role>) {
    && t.Keys == roles.Keys
    && (forall a :: a in t ==> |t[a]| == ENTRIES && PhysFrame(a))
    && (forall a :: a in t && roles[a].Pml4? ==> roles[a].root == a)
    && (forall a, i: Index :: a in t && !roles[a].Pt? && t[a][i] != UNUSED ==>
          EntryAddr(t[a][i]) in t && roles[EntryAddr(t[a][i])] == ChildRole(roles[a], i))
  }

  ghost predicate IsRoot(t: Tables, roles: map<HostAddr, Role>, root: HostAddr) {
    root in t && root in roles && roles[root] == Pml4(root)
  }

  lemma PageTableRole(t: Tables, roles: map<HostAddr, Role>, root: HostAddr, x: Path)
    requires TreeInv(t, roles) && IsRoot(t, roles, root)
    ensures var pt := PageTableOf(t, root, x);
            pt.Some? ==> pt.value in t && roles[pt.value] == Pt(root, x.p4, x.p3, x.p2)
  {
  }

  /**
    The tree grew by empty tables only: no table moved, no entry in use and no
    page table changed, and every walk ends where it did.
  */
  ghost predicate Grows(t: Tables, roles: map<HostAddr, Role>, t': Tables, roles': map<HostAddr, Role>)
    requires t.Keys == roles.Keys && t'.Keys == roles'.Keys
  {
    && (forall b :: b in t ==> b in t' && roles'[b] == roles[b] && |t'[b]| == |t[b]|)
    && (forall b, j: Index :: b in t && j < |t[b]| && t[b][j] != UNUSED ==> t'[b][j] == t[b][j])
    && (forall b :: b in t' && roles'[b].Pt? ==> t'[b] == if b in t then t[b] else EmptyTable())
    && (forall s, x :: IsRoot(t, roles, s) ==> Walk(t', s, x) == Walk(t, s, x))
  }

  lemma GrowsTrans(t: Tables, roles: map<HostAddr, Role>, t': Tables, roles': map<HostAddr, Role>,
                   t'': Tables, roles'': map<HostAddr, Role>)
    requires t.Keys == roles.Keys && t'.Keys == roles'.Keys && t''.Keys == roles''.Keys
    requires TreeInv(t, roles) && Grows(t, roles, t', roles') && Grows(t', roles', t'', roles'')
    ensures Grows(t, roles, t'', roles'')
  {
    hide EntryAddr, Walk;
  }

  lemma GrowsKeepsChild(t: Tables, roles: map<HostAddr, Role>, t': Tables, roles': map<HostAddr, Role>,
                        a: HostAddr, i: Index)
    requires t.Keys == roles.Keys && t'.Keys == roles'.Keys && Grows(t, roles, t', roles')
    ensures a in t ==> a in t' && roles'[a] == roles[a]
    ensures Child(t, a, i).Some? ==> Child(t', a, i) == Child(t, a, i)
  {
    hide EntryAddr, Walk;
  }

  lemma GrowsKeepsLookups(t: Tables, roles: map<HostAddr, Role>, t': Tables, roles': map<HostAddr, Role>)
    requires t.Keys == roles.Keys && t'.Keys == roles'.Keys && Grows(t, roles, t', roles')
    ensures forall s, p: nat :: IsRoot(t, roles, s) ==> Lookup(t', s, p) == Lookup(t, s, p)
  {
    hide EntryAddr, PathOfPage, Writable;
  }

  function WithChild(t: Tables, a: HostAddr, i: Index, c: HostAddr): Tables
    requires a in t && |t[a]| == ENTRIES
  {
    t[a := t[a][i := TableEntry(c)]][c := EmptyTable()]
  }

  function WithLeaf(t: Tables, pt: HostAddr, i: Index, e: Entry): Tables
    requires pt in t && |t[pt]| == ENTRIES
  {
    t[pt := t[pt][i := e]]
  }

  /** Hanging a fresh, empty table off an unused slot changes no walk. */
  lemma EmptyChildIsInvisible(t: Tables, roles: map<HostAddr, Role>, a: HostAddr, i: Index, c: HostAddr,
                              root: HostAddr, x: Path)
    requires TreeInv(t, roles) && IsRoot(t, roles, root)
    requires a in t && !roles[a].Pt? && t[a][i] == UNUSED
    requires PhysFrame(c) && c !in t
    ensures Walk(WithChild(t, a, i, c), root, x) == Walk(t, root, x)
  {
    hide EntryAddr, TableEntry;
    TableEntryHoldsAddress(c);
    var t' := WithChild(t, a, i, c);
    assert Child(t', a, i) == Some(c);
    assert forall j: Index :: Child(t', c, j) == None;
    assert forall b, j: Index :: b in t && (b != a || j != i) ==> Child(t', b, j) == Child(t, b, j);
  }

  lemma ChildKeepsTree(t: Tables, roles: map<HostAddr, Role>, a: HostAddr, i: Index, c: HostAddr)
    requires TreeInv(t, roles)
    requires a in t && !roles[a].Pt? && t[a][i] == UNUSED
    requires PhysFrame(c) && c !in t
    ensures TreeInv(WithChild(t, a, i, c), roles[c := ChildRole(roles[a], i)])
    ensures Grows(t, roles, WithChild(t, a, i, c), roles[c := ChildRole(roles[a], i)])
    ensures Child(WithChild(t, a, i, c), a, i) == Some(c)
  {
    hide EntryAddr, TableEntry;
    TableEntryHoldsAddress(c);
    forall s, x | IsRoot(t, roles, s)
      ensures Walk(WithChild(t, a, i, c), s, x) == Walk(t, s, x)
    {
      EmptyChildIsInvisible(t, roles, a, i, c, s, x);
    }
  }

  function WithRoot(t: Tables, root: HostAddr): Tables {
    t[root := EmptyTable()]
  }

  /** A fresh empty PML4 table starts a new tree and leaves the others alone. */
  lemma RootKeepsTree(t: Tables, roles: map<HostAddr, Role>, root: HostAddr)
    requires TreeInv(t, roles) && PhysFrame(root) && root !in t
    ensures TreeInv(WithRoot(t, root), roles[root := Pml4(root)])
    ensures Grows(t, roles, WithRoot(t, root), roles[root := Pml4(root)])
    ensures forall p :: Lookup(WithRoot(t, root), root, p) == None
  {
    hide EntryAddr, TableEntry;
    var t', roles' := WithRoot(t, root), roles[root := Pml4(root)];
    assert forall b, j: Index :: b in t ==> Child(t', b, j) == Child(t, b, j);
    forall s, x | IsRoot(t, roles, s)
      ensures Walk(t', s, x) == Walk(t, s, x)
    {
      PageTableRole(t, roles, s, x);
    }
  }

  /** Filling one leaf slot changes the walk along that slot's own path and no other. */
  lemma LeafIsItsOwnPath(t: Tables, roles: map<HostAddr, Role>, pt: HostAddr, x: Path, e: Entry,
                         root: HostAddr, otherRoot: HostAddr, y: Path)
    requires TreeInv(t, roles) && IsRoot(t, roles, root) && IsRoot(t, roles, otherRoot)
    requires PageTableOf(t, root, x) == Some(pt)
    ensures pt in t
    ensures Walk(WithLeaf(t, pt, x.p1, e), otherRoot, y)
            == if otherRoot == root && y == x then e else Walk(t, otherRoot, y)
  {
    hide EntryAddr, TableEntry;
    PageTableRole(t, roles, root, x);
    PageTableRole(t, roles, otherRoot, y);
    var t' := WithLeaf(t, pt, x.p1, e);
    assert forall b, j: Index :: b in t && !roles[b].Pt? ==> Child(t', b, j) == Child(t, b, j);
    assert PageTableOf(t', otherRoot, y) == PageTableOf(t, otherRoot, y);
  }

  /** In terms of pages: mapping a page through its leaf slot changes the lookup of that page only. */
  lemma LeafIsItsOwnPage(t: Tables, roles: map<HostAddr, Role>, pt: HostAddr, page: nat, frame: HostAddr,
                         readonly: bool, root: HostAddr, otherRoot: HostAddr, q: nat)
    requires TreeInv(t, roles) && IsRoot(t, roles, root) && IsRoot(t, roles, otherRoot)
    requires page < GUEST_PAGES && q < GUEST_PAGES && PhysFrame(frame)
    requires PageTableOf(t, root, PathOfPage(page)) == Some(pt)
    ensures pt in t
    ensures Lookup(WithLeaf(t, pt, PathOfPage(page).p1, LeafEntry(frame, readonly)), otherRoot, q)
            == if otherRoot == root && q == page then Some(Mapping(frame, !readonly)) else Lookup(t, otherRoot, q)
  {
    hide EntryAddr, LeafEntry, Writable, PathOfPage;
    LeafIsItsOwnPath(t, roles, pt, PathOfPage(page), LeafEntry(frame, readonly), root, otherRoot, PathOfPage(q));
    LeafEntryHoldsFrame(frame, readonly);
    if q != page { PagePathsDiffer(page, q); }
  }
}
