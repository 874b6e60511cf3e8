/**
  Building the guest memory of each virtual machine (vm.rs): the BIOS in its two
  windows, the configured images, zeroed RAM, and the local APIC access page.
*/
module VmLayout {
  import opened Common
  import opened Ept
  import opened HostMemory

  /** The contents of a guest's memory, page by page. */
  type Guest = map<nat, PageData>

  datatype Placement = Placement(addr: nat, data: seq<Byte>)

  const MIB: nat := 0x10_0000
  const APIC_ADDR: nat := 0xfee0_0000
  const APIC_PAGE: nat := 0xf_ee00

  predicate Within(p: nat, first: nat, n: nat) {
    first <= p < first + n
  }

  function PageRange(first: nat, n: nat): set<nat> {
    set p: nat | first <= p < first + n && Within(p, first, n)
  }

  function ChunkCount(data: seq<Byte>): nat {
    (|data| + PAGE_SIZE - 1) / PAGE_SIZE
  }

  /** The `i`-th page-sized chunk of an image, padded with zeros. */
  function Chunk(data: seq<Byte>, i: nat): (c: PageData)
    requires i < ChunkCount(data)
    ensures |c| == PAGE_SIZE
  {
    var rest := data[i * PAGE_SIZE..];
    if |rest| >= PAGE_SIZE then rest[..PAGE_SIZE] else rest + Zeros(PAGE_SIZE - |rest|)
  }

  /** The first `n` pages of an image, from the page its load address lies in. */
  function PlacedPages(pl: Placement, n: nat): Guest
    requires n <= ChunkCount(pl.data)
  {
    map p | p in PageRange(pl.addr / PAGE_SIZE, n) :: Chunk(pl.data, p - pl.addr / PAGE_SIZE)
  }

  function Placed(pl: Placement): Guest {
    PlacedPages(pl, ChunkCount(pl.data))
  }

  /** What is in memory after the first `n` placements. */
  function PlacedAll(pls: seq<Placement>, n: nat): Guest
    requires n <= |pls|
  {
    if n == 0 then map[] else PlacedAll(pls, n - 1) + Placed(pls[n - 1])
  }

  ghost predicate Disjoint(pls: seq<Placement>) {
    forall i, j :: 0 <= i < j < |pls| ==> Placed(pls[i]).Keys !! Placed(pls[j]).Keys
  }

  /** RAM fills the pages that nothing else has. */
  function WithRam(g: Guest, n: nat): Guest {
    map p | p in g.Keys + PageRange(0, n) :: if p in g then g[p] else Zeros(PAGE_SIZE)
  }

  ghost predicate DisjointUpTo(pls: seq<Placement>, n: nat)
    requires n <= |pls|
  {
    forall i, j :: 0 <= i < j < n ==> Placed(pls[i]).Keys !! Placed(pls[j]).Keys
  }

  /** A placement clashes with what is there exactly when it shares a page with an earlier one. */
  lemma ClashIsOverlap(pls: seq<Placement>, n: nat)
    requires n < |pls| && DisjointUpTo(pls, n)
    ensures PlacedAll(pls, n).Keys !! Placed(pls[n]).Keys <==> DisjointUpTo(pls, n + 1)
  {
    hide Placed;
    forall p ensures p in PlacedAll(pls, n) <==> exists i :: 0 <= i < n && p in Placed(pls[i]) {
      PlacedAllPages(pls, n, p);
    }
  }

  predicate FitsGuest(pl: Placement) {
    pl.addr + |pl.data| <= GUEST_LIMIT
  }

  /** The `n`-th turn of the mapping loop adds one page. */
  lemma PlacedStep(g: Guest, pl: Placement, n: nat)
    requires n < ChunkCount(pl.data)
    ensures (g + PlacedPages(pl, n))[pl.addr / PAGE_SIZE + n := Chunk(pl.data, n)] == g + PlacedPages(pl, n + 1)
    ensures pl.addr / PAGE_SIZE + n !in PlacedPages(pl, n)
    ensures pl.addr / PAGE_SIZE + n in Placed(pl)
  {
    hide Chunk;
    var b := pl.addr / PAGE_SIZE;
    assert forall p :: p in PageRange(b, n + 1) <==> p in PageRange(b, n) || p == b + n;
  }

  lemma PlacedNone(g: Guest, pl: Placement)
    ensures g + PlacedPages(pl, 0) == g && PlacedPages(pl, 0).Keys == {}
  {
  }

  lemma PlacedKeys(pl: Placement, n: nat)
    requires n < ChunkCount(pl.data)
    ensures PlacedPages(pl, n + 1).Keys == PlacedPages(pl, n).Keys + {pl.addr / PAGE_SIZE + n}
  {
    var b := pl.addr / PAGE_SIZE;
    assert forall p :: p in PageRange(b, n + 1) <==> p in PageRange(b, n) || p == b + n;
  }

  lemma ChunkAddress(pl: Placement, i: nat)
    requires i < ChunkCount(pl.data) && FitsGuest(pl)
    ensures pl.addr + i * PAGE_SIZE < GUEST_LIMIT
    ensures (pl.addr + i * PAGE_SIZE) / PAGE_SIZE == pl.addr / PAGE_SIZE + i
  {
  }

  function BiosPlacements(bios: seq<Byte>): seq<Placement>
    requires |bios| <= MIB
  {
    [Placement(MIB - |bios|, bios), Placement(4096 * MIB - |bios|, bios)]
  }

  function Layout(pls: seq<Placement>, memory: nat): Guest {
    WithRam(PlacedAll(pls, |pls|), memory * 256)
  }

  /** How many pages the placements from `i` up to `j` take. */
  function PagesBetween(pls: seq<Placement>, i: nat, j: nat): nat
    requires j <= |pls|
    decreases j
  {
    if j <= i then 0 else PagesBetween(pls, i, j - 1) + ChunkCount(pls[j - 1].data)
  }

  lemma {:induction false} PagesAddUp(pls: seq<Placement>, i: nat, j: nat, k: nat)
    requires i <= j <= k <= |pls|
    ensures PagesBetween(pls, i, k) == PagesBetween(pls, i, j) + PagesBetween(pls, j, k)
    decreases k
  {
    hide ChunkCount;
    if j < k { PagesAddUp(pls, i, j, k - 1); }
  }

  // ---- what a layout holds -------------------------------------------------

  function LayoutByte(g: Guest, a: nat): Option<Byte> {
    if a / PAGE_SIZE in g && |g[a / PAGE_SIZE]| == PAGE_SIZE then Some(g[a / PAGE_SIZE][a % PAGE_SIZE]) else None
  }

  lemma {:induction false} PlacedAllPages(pls: seq<Placement>, n: nat, p: nat)
    requires n <= |pls|
    ensures p in PlacedAll(pls, n) <==> exists i :: 0 <= i < n && p in Placed(pls[i])
  {
    hide Placed;
    if n > 0 { PlacedAllPages(pls, n - 1, p); }
  }

  /** With disjoint placements each keeps its own pages, whatever comes after it. */
  lemma {:induction false} PlacedAllKeeps(pls: seq<Placement>, n: nat, i: nat, p: nat)
    requires i < n <= |pls| && Disjoint(pls) && p in Placed(pls[i])
    ensures p in PlacedAll(pls, n) && PlacedAll(pls, n)[p] == Placed(pls[i])[p]
  {
    hide Placed;
    if i < n - 1 {
      PlacedAllKeeps(pls, n - 1, i, p);
      assert Placed(pls[i]).Keys !! Placed(pls[n - 1]).Keys;
    }
  }

  lemma ChunkByte(data: seq<Byte>, k: nat)
    requires k < ChunkCount(data) * PAGE_SIZE
    ensures k / PAGE_SIZE < ChunkCount(data)
    ensures Chunk(data, k / PAGE_SIZE)[k % PAGE_SIZE] == if k < |data| then data[k] else 0
  {
  }

  /** Placed bytes start at the beginning of the page of the load address, and zeros fill the last page. */
  lemma PlacedByte(pl: Placement, k: nat)
    requires k < ChunkCount(pl.data) * PAGE_SIZE
    ensures var a := pl.addr / PAGE_SIZE * PAGE_SIZE + k;
            a / PAGE_SIZE in Placed(pl)
            && LayoutByte(Placed(pl), a) == Some(if k < |pl.data| then pl.data[k] else 0)
  {
    ChunkByte(pl.data, k);
    var a := pl.addr / PAGE_SIZE * PAGE_SIZE + k;
    assert a / PAGE_SIZE == pl.addr / PAGE_SIZE + k / PAGE_SIZE && a % PAGE_SIZE == k % PAGE_SIZE;
  }

  /** The guest sees the data at its load address. */
  ghost predicate Visible(pl: Placement) {
    forall k :: 0 <= k < |pl.data| ==> LayoutByte(Placed(pl), pl.addr + k) == Some(pl.data[k])
  }

  /** Every image is visible at its load address exactly when the address is page aligned. */
  lemma VisibleIffAligned(addr: nat)
    ensures (forall data :: Visible(Placement(addr, data))) <==> addr % PAGE_SIZE == 0
  {
    if addr % PAGE_SIZE == 0 {
      forall data | true
        ensures Visible(Placement(addr, data))
      {
        AlignedVisible(Placement(addr, data));
      }
    } else {
      var pl := Placement(addr, [1]);
      PlacedByte(pl, addr % PAGE_SIZE);
      assert LayoutByte(Placed(pl), pl.addr + 0) != Some(pl.data[0]);
      assert !Visible(pl);
    }
  }

  lemma AlignedVisible(pl: Placement)
    requires pl.addr % PAGE_SIZE == 0
    ensures Visible(pl)
  {
    forall k | 0 <= k < |pl.data|
      ensures LayoutByte(Placed(pl), pl.addr + k) == Some(pl.data[k])
    {
      PlacedByte(pl, k);
    }
  }

  /**
    A layout of disjoint placements: RAM is there in full, each aligned placement
    is visible with zeros to the end of its last page, and every other RAM page
    is zero.
  */
  lemma LayoutContents(pls: seq<Placement>, memory: nat)
    requires Disjoint(pls)
    ensures forall p :: 0 <= p < memory * 256 ==> p in Layout(pls, memory)
    ensures forall i, k: nat ::
              0 <= i < |pls| && pls[i].addr % PAGE_SIZE == 0 && k < ChunkCount(pls[i].data) * PAGE_SIZE ==>
              LayoutByte(Layout(pls, memory), pls[i].addr + k) == Some(if k < |pls[i].data| then pls[i].data[k] else 0)
    ensures forall p :: 0 <= p < memory * 256 && (forall i :: 0 <= i < |pls| ==> p !in Placed(pls[i])) ==>
              Layout(pls, memory)[p] == Zeros(PAGE_SIZE)
  {
    hide ChunkCount, Placed, Zeros;
    var g := Layout(pls, memory);
    forall i, k: nat | 0 <= i < |pls| && pls[i].addr % PAGE_SIZE == 0 && k < ChunkCount(pls[i].data) * PAGE_SIZE
      ensures LayoutByte(g, pls[i].addr + k) == Some(if k < |pls[i].data| then pls[i].data[k] else 0)
    {
      PlacedByte(pls[i], k);
      PlacedAllKeeps(pls, |pls|, i, (pls[i].addr + k) / PAGE_SIZE);
    }
    forall p | 0 <= p < memory * 256 && forall i :: 0 <= i < |pls| ==> p !in Placed(pls[i])
      ensures g[p] == Zeros(PAGE_SIZE)
    {
      PlacedAllPages(pls, |pls|, p);
    }
  }
}

module VmSetup {
  import opened Common
  import opened EptEntry
  import opened Ept
  import opened HostMemory
  import opened VmLayout
  import GuestBytes

  datatype SetupResult = Done | Duplicate | Exhausted | NoSuchModule

  /** The space maps exactly the pages of `g`, writable, with their contents. */
  ghost predicate Represents(t: Tables, pages: map<HostAddr, PageData>, root: HostAddr, g: Guest) {
    && (forall p: nat :: p < GUEST_PAGES && p !in g ==> Lookup(t, root, p) == None)
    && (forall p: nat :: p in g ==> p < GUEST_PAGES && Lookup(t, root, p).Some?)
    && (forall p: nat :: p in g ==>
          var m := Lookup(t, root, p).value;
          m.writable && m.frame in pages && pages[m.frame] == g[p])
  }

  /** Everything outside one space is as it was: other lookups, and every page there was. */
  ghost predicate Kept(t: Tables, roles: map<HostAddr, Role>, pages: map<HostAddr, PageData>,
                       t': Tables, roles': map<HostAddr, Role>, pages': map<HostAddr, PageData>, root: HostAddr)
  {
    && (forall s :: IsRoot(t, roles, s) ==> IsRoot(t', roles', s))
    && (forall s, p: nat :: IsRoot(t, roles, s) && s != root && p < GUEST_PAGES ==> Lookup(t', s, p) == Lookup(t, s, p))
    && (forall f :: f in pages ==> f in pages' && pages'[f] == pages[f])
  }

  /** A moment of the host memory. */
  datatype Snapshot = Snapshot(tables: Tables, roles: map<HostAddr, Role>, pages: map<HostAddr, PageData>,
                               free: set<HostAddr>)

  ghost function Now(mem: HostMemory): Snapshot
    reads mem
  {
    Snapshot(mem.tables, mem.roles, mem.pages, mem.free)
  }

  /** From one moment to another only one space has changed, and at most `n` frames were taken. */
  ghost predicate Passed(a: Snapshot, b: Snapshot, root: HostAddr, n: nat) {
    Kept(a.tables, a.roles, a.pages, b.tables, b.roles, b.pages, root) && Spent(a.free, b.free, n)
  }

  lemma PassedNone(a: Snapshot, root: HostAddr, n: nat)
    ensures Passed(a, a, root, n)
  {
    NothingChanged(a.tables, a.roles, a.pages, root);
    SpentNone(a.free, n);
  }

  lemma PassedJoin(a: Snapshot, b: Snapshot, c: Snapshot, root: HostAddr, m: nat, n: nat, total: nat)
    requires Passed(a, b, root, m) && Passed(b, c, root, n) && m + n <= total
    ensures Passed(a, c, root, m + n) && Passed(a, c, root, total) && (c.free == {} ==> AtMost(a.free, total))
  {
    hide Kept;
    KeptTrans(a.tables, a.roles, a.pages, b.tables, b.roles, b.pages, c.tables, c.roles, c.pages, root);
    SpentJoin(a.free, b.free, c.free, m, n);
    SpentLess(a.free, c.free, m + n, total);
    SpentLeaves(a.free, c.free, total);
  }

  lemma PassedLess(a: Snapshot, b: Snapshot, root: HostAddr, m: nat, total: nat)
    requires Passed(a, b, root, m) && m <= total
    ensures Passed(a, b, root, total) && (b.free == {} ==> AtMost(a.free, total))
  {
    SpentLess(a.free, b.free, m, total);
    SpentLeaves(a.free, b.free, total);
  }

  lemma KeptTrans(t: Tables, r: map<HostAddr, Role>, p: map<HostAddr, PageData>,
                  t': Tables, r': map<HostAddr, Role>, p': map<HostAddr, PageData>,
                  t'': Tables, r'': map<HostAddr, Role>, p'': map<HostAddr, PageData>, root: HostAddr)
    requires Kept(t, r, p, t', r', p', root) && Kept(t', r', p', t'', r'', p'', root)
    ensures Kept(t, r, p, t'', r'', p'', root)
  {
    hide Lookup;
  }

  /** The memory of another virtual machine survives. */
  lemma KeptRepresents(t: Tables, r: map<HostAddr, Role>, p: map<HostAddr, PageData>,
                       t': Tables, r': map<HostAddr, Role>, p': map<HostAddr, PageData>,
                       root: HostAddr, s: HostAddr, g: Guest)
    requires Kept(t, r, p, t', r', p', root) && IsRoot(t, r, s) && s != root && Represents(t, p, s, g)
    ensures IsRoot(t', r', s) && Represents(t', p', s, g)
  {
    hide Lookup, IsRoot;
  }

  lemma PassedRepresents(a: Snapshot, b: Snapshot, root: HostAddr, n: nat, s: HostAddr, g: Guest)
    requires Passed(a, b, root, n) && IsRoot(a.tables, a.roles, s) && s != root && Represents(a.tables, a.pages, s, g)
    ensures IsRoot(b.tables, b.roles, s) && Represents(b.tables, b.pages, s, g)
  {
    hide Kept, IsRoot, Represents;
    KeptRepresents(a.tables, a.roles, a.pages, b.tables, b.roles, b.pages, root, s, g);
  }

  /** What mapping a fresh page, or failing to, does to the space and to the others. */
  lemma NewPageMapped(t: Tables, r: map<HostAddr, Role>, pages: map<HostAddr, PageData>,
                      t': Tables, r': map<HostAddr, Role>, f: HostAddr, content: PageData,
                      root: HostAddr, page: nat, g: Guest, mapped: bool)
    requires Represents(t, pages, root, g) && IsRoot(t, r, root) && f !in pages && page < GUEST_PAGES
    requires forall s :: IsRoot(t, r, s) ==> IsRoot(t', r', s)
    requires forall s, p: nat :: IsRoot(t, r, s) && p < GUEST_PAGES ==>
               Lookup(t', s, p) == if mapped && s == root && p == page then Some(Mapping(f, true)) else Lookup(t, s, p)
    ensures Kept(t, r, pages, t', r', pages[f := content], root)
    ensures Represents(t', pages[f := content], root, if mapped then g[page := content] else g)
  {
    hide Lookup, IsRoot;
  }

  /** Map one new page with the given contents: `map_new_frame`, and one turn of `map_data`. */
  method MapPage(mem: HostMemory, root: HostAddr, addr: nat, content: PageData, ghost g: Guest)
    returns (r: SetupResult)
    requires mem.Valid() && mem.Owned() && mem.Space(root)
    requires addr < GUEST_LIMIT && |content| == PAGE_SIZE
    requires Represents(mem.tables, mem.pages, root, g)
    modifies mem
    ensures mem.Valid() && mem.Owned() && mem.Space(root) && r != NoSuchModule
    ensures r == Duplicate ==> addr / PAGE_SIZE in g
    ensures r == Done ==> addr / PAGE_SIZE !in g
    ensures Represents(mem.tables, mem.pages, root, if r == Done then g[addr / PAGE_SIZE := content] else g)
    ensures (r == Exhausted ==> mem.free == {}) && Passed(old(Now(mem)), Now(mem), root, 4)
  {
    hide Lookup, IsRoot, Represents, Kept, Spent, HostMemory.Valid, HostMemory.Owned, PhysFrame, Page;
    ghost var start := Now(mem);
    var page := mem.NewPageWith(content);
    ghost var middle := mem.free;
    SpentLess(start.free, middle, 1, 4);
    if page.None? {
      NothingChanged(mem.tables, mem.roles, mem.pages, root);
      return Exhausted;
    }
    var m := mem.MapFrame(root, addr, page.value, false);
    assert Spent(start.free, mem.free, 4) by { SpentJoin(start.free, middle, mem.free, 1, 3); }
    r := match m case Mapped => Done case DuplicateMapping => Duplicate case OutOfMemory => Exhausted;
    RepresentsLookup(start.tables, start.pages, root, g, addr);
    NewPageMapped(start.tables, start.roles, start.pages, mem.tables, mem.roles, page.value, content,
                  root, addr / PAGE_SIZE, g, m == Mapped);
  }

  lemma NothingChanged(t: Tables, r: map<HostAddr, Role>, pages: map<HostAddr, PageData>, root: HostAddr)
    ensures Kept(t, r, pages, t, r, pages, root)
  {
  }

  lemma RepresentsLookup(t: Tables, pages: map<HostAddr, PageData>, root: HostAddr, g: Guest, addr: nat)
    requires Represents(t, pages, root, g) && addr < GUEST_LIMIT
    ensures Page(addr) == addr / PAGE_SIZE < GUEST_PAGES
    ensures Lookup(t, root, addr / PAGE_SIZE).Some? <==> addr / PAGE_SIZE in g
  {
  }

  /** A guest that reads an address finds the byte of the layout there, and faults where the layout has none. */
  lemma GuestSeesLayout(t: Tables, pages: map<HostAddr, PageData>, root: HostAddr, g: Guest, a: nat)
    requires Represents(t, pages, root, g) && a < GUEST_LIMIT
    ensures GuestBytes.ByteAt(t, pages, root, a) == LayoutByte(g, a)
  {
    hide Lookup;
    var p := a / PAGE_SIZE;
    assert p < GUEST_PAGES;
    if p in g { assert Lookup(t, root, p).Some?; }
  }

  /** The state of one space under construction. */
  ghost predicate Holds(mem: HostMemory, root: HostAddr, g: Guest)
    reads mem
  {
    mem.Valid() && mem.Owned() && mem.Space(root) && Represents(mem.tables, mem.pages, root, g)
  }

  /**
    `map_data`: chunk by chunk into new pages. It fails as a duplicate exactly
    when some page of the data is mapped already, and else adds the placed pages.
  */
  method MapData(mem: HostMemory, root: HostAddr, pl: Placement, ghost g: Guest) returns (r: SetupResult)
    requires Holds(mem, root, g) && FitsGuest(pl)
    modifies mem
    ensures mem.Valid() && mem.Owned() && mem.Space(root) && r != NoSuchModule
    ensures r == Done ==> Holds(mem, root, g + Placed(pl)) && g.Keys !! Placed(pl).Keys
    ensures r == Duplicate ==> !(g.Keys !! Placed(pl).Keys)
    ensures (r == Exhausted ==> mem.free == {}) && Passed(old(Now(mem)), Now(mem), root, 4 * ChunkCount(pl.data))
  {
    hide Lookup, IsRoot, Represents, Passed, AtMost, Chunk, ChunkCount, PlacedPages, HostMemory.Valid, HostMemory.Owned;
    ghost var start := Now(mem);
    PassedNone(start, root, 0);
    PlacedNone(g, pl);
    var i := 0;
    while i < ChunkCount(pl.data)
      invariant i <= ChunkCount(pl.data)
      invariant Holds(mem, root, g + PlacedPages(pl, i)) && g.Keys !! PlacedPages(pl, i).Keys
      invariant Passed(start, Now(mem), root, 4 * i)
    {
      PlacedStep(g, pl, i);
      ChunkAddress(pl, i);
      ghost var before := Now(mem);
      r := MapPage(mem, root, pl.addr + i * PAGE_SIZE, Chunk(pl.data, i), g + PlacedPages(pl, i));
      PassedJoin(start, before, Now(mem), root, 4 * i, 4, 4 * ChunkCount(pl.data));
      if r != Done { return; }
      PlacedKeys(pl, i);
      i := i + 1;
    }
    r := Done;
  }

  datatype BootModule = BootModule(identifier: Option<string>, data: seq<Byte>)

  datatype ImageConfig = ImageConfig(name: string, addr: nat)

  /** `BootInfo::find_module`: the first module with the name. */
  function FindModule(modules: seq<BootModule>, name: string): Option<seq<Byte>> {
    if modules == [] then None
    else if modules[0].identifier == Some(name) then Some(modules[0].data)
    else FindModule(modules[1..], name)
  }

  /** Module `j` has the name, and none before it has. */
  ghost predicate FirstNamed(modules: seq<BootModule>, name: string, j: nat) {
    && j < |modules| && modules[j].identifier == Some(name)
    && forall i :: 0 <= i < j ==> modules[i].identifier != Some(name)
  }

  /** A module is found exactly when some module has the name, and it is the first that has. */
  lemma {:induction false} FindModuleFirst(modules: seq<BootModule>, name: string)
    ensures FindModule(modules, name).None? <==>
            forall i :: 0 <= i < |modules| ==> modules[i].identifier != Some(name)
    ensures FindModule(modules, name).Some? ==>
              exists j: nat :: FirstNamed(modules, name, j) && FindModule(modules, name).value == modules[j].data
    ensures forall j: nat :: FirstNamed(modules, name, j) ==> FindModule(modules, name) == Some(modules[j].data)
  {
    if modules != [] {
      var rest := modules[1..];
      FindModuleFirst(rest, name);
      assert forall i :: 0 < i < |modules| ==> modules[i] == rest[i - 1];
      if modules[0].identifier == Some(name) {
        assert FirstNamed(modules, name, 0);
      } else {
        forall j: nat | FirstNamed(modules, name, j) ensures FindModule(modules, name) == Some(modules[j].data) {
          assert FirstNamed(rest, name, j - 1);
        }
        if j: nat :| FirstNamed(rest, name, j) && FindModule(rest, name).value == rest[j].data {
          assert FirstNamed(modules, name, j + 1);
        }
        assert forall i :: 0 <= i < |rest| ==> rest[i] == modules[i + 1];
      }
    }
  }

  datatype VmConfig = VmConfig(images: seq<ImageConfig>, memory: nat)

  predicate AllFound(config: VmConfig, modules: seq<BootModule>) {
    forall i :: 0 <= i < |config.images| ==> FindModule(modules, config.images[i].name).Some?
  }

  function ImagePlacement(image: ImageConfig, modules: seq<BootModule>): Placement {
    var data := FindModule(modules, image.name);
    Placement(image.addr, if data.Some? then data.value else [])
  }

  /** Everything `setup_ept` copies in, in order. */
  function Placements(bios: seq<Byte>, config: VmConfig, modules: seq<BootModule>): seq<Placement>
    requires |bios| <= MIB
  {
    BiosPlacements(bios)
    + seq(|config.images|, i requires 0 <= i < |config.images| => ImagePlacement(config.images[i], modules))
  }

  /** The guest reads the module of its name where an image is loaded, from the start of the page of its address. */
  ghost predicate ImageInPlace(t: Tables, pages: map<HostAddr, PageData>, root: HostAddr, image: ImageConfig,
                               modules: seq<BootModule>)
  {
    && (exists j: nat :: FirstNamed(modules, image.name, j))
    && forall j: nat, k: nat :: FirstNamed(modules, image.name, j) && k < |modules[j].data| ==>
         GuestBytes.ByteAt(t, pages, root, image.addr / PAGE_SIZE * PAGE_SIZE + k) == Some(modules[j].data[k])
  }

  ghost predicate ImagesInPlace(t: Tables, pages: map<HostAddr, PageData>, root: HostAddr, config: VmConfig,
                                modules: seq<BootModule>)
  {
    forall i :: 0 <= i < |config.images| ==> ImageInPlace(t, pages, root, config.images[i], modules)
  }

  /** A byte of a placement in any memory that keeps the placements. */
  lemma PlacementByte(pls: seq<Placement>, g: Guest, i: nat, k: nat)
    requires Disjoint(pls) && i < |pls| && k < |pls[i].data| && Keeps(g, PlacedAll(pls, |pls|))
    ensures LayoutByte(g, pls[i].addr / PAGE_SIZE * PAGE_SIZE + k) == Some(pls[i].data[k])
  {
    hide Placed, Disjoint, PlacedAll;
    PlacedByte(pls[i], k);
    PlacedAllKeeps(pls, |pls|, i, (pls[i].addr / PAGE_SIZE * PAGE_SIZE + k) / PAGE_SIZE);
  }

  /** All pages of one memory are in another with the same contents. */
  ghost predicate Keeps(g: Guest, part: Guest) {
    forall p :: p in part ==> p in g && g[p] == part[p]
  }

  lemma ImageAddress(pl: Placement, k: nat)
    requires FitsGuest(pl) && k < |pl.data|
    ensures pl.addr / PAGE_SIZE * PAGE_SIZE + k < GUEST_LIMIT
  {
  }

  /** A space that holds all placements has every image in place. */
  lemma ImagesRead(t: Tables, pages: map<HostAddr, PageData>, root: HostAddr, g: Guest, bios: seq<Byte>,
                   config: VmConfig, modules: seq<BootModule>)
    requires ConfigFits(bios, config, modules) && AllFound(config, modules) && Represents(t, pages, root, g)
    requires Disjoint(Placements(bios, config, modules))
    requires Keeps(g, PlacedAll(Placements(bios, config, modules), 2 + |config.images|))
    ensures ImagesInPlace(t, pages, root, config, modules)
  {
    hide Represents, Disjoint, Keeps, PlacedAll, FindModule, GuestBytes.ByteAt, LayoutByte, FitsGuest;
    var pls := Placements(bios, config, modules);
    forall i | 0 <= i < |config.images| ensures ImageInPlace(t, pages, root, config.images[i], modules) {
      var image := config.images[i];
      FindModuleFirst(modules, image.name);
      forall j: nat, k: nat | FirstNamed(modules, image.name, j) && k < |modules[j].data|
        ensures GuestBytes.ByteAt(t, pages, root, image.addr / PAGE_SIZE * PAGE_SIZE + k) == Some(modules[j].data[k])
      {
        assert pls[2 + i] == ImagePlacement(image, modules) == Placement(image.addr, modules[j].data);
        PlacementByte(pls, g, 2 + i, k);
        ImageAddress(pls[2 + i], k);
        GuestSeesLayout(t, pages, root, g, image.addr / PAGE_SIZE * PAGE_SIZE + k);
      }
    }
  }

  /** Guest addresses stay below 2^48, and the BIOS fits below 1 MiB. */
  predicate ConfigFits(bios: seq<Byte>, config: VmConfig, modules: seq<BootModule>) {
    && |bios| <= MIB && config.memory * MIB <= GUEST_LIMIT
    && forall i :: 0 <= i < |config.images| ==> FitsGuest(ImagePlacement(config.images[i], modules))
  }

  /** One `map_data` call of `setup_ept`, the `n`-th. */
  method PlaceNext(mem: HostMemory, root: HostAddr, pl: Placement, ghost pls: seq<Placement>, ghost n: nat)
    returns (r: SetupResult)
    requires n < |pls| && pl == pls[n] && FitsGuest(pl)
    requires Holds(mem, root, PlacedAll(pls, n)) && DisjointUpTo(pls, n)
    modifies mem
    ensures mem.Valid() && mem.Owned() && mem.Space(root) && r != NoSuchModule
    ensures r == Done ==> Holds(mem, root, PlacedAll(pls, n + 1)) && DisjointUpTo(pls, n + 1)
    ensures r == Duplicate ==> !Disjoint(pls)
    ensures (r == Exhausted ==> mem.free == {}) && Passed(old(Now(mem)), Now(mem), root, 4 * ChunkCount(pl.data))
  {
    hide Holds, Passed, AtMost, Placed, DisjointUpTo, ChunkCount;
    r := MapData(mem, root, pl, PlacedAll(pls, n));
    ClashIsOverlap(pls, n);
    OverlapSpreads(pls, n + 1);
    assert n + 1 > 0 && PlacedAll(pls, n + 1) == PlacedAll(pls, n) + Placed(pls[n]);
  }

  lemma OverlapSpreads(pls: seq<Placement>, n: nat)
    requires n <= |pls|
    ensures Disjoint(pls) ==> DisjointUpTo(pls, n)
    ensures DisjointUpTo(pls, |pls|) == Disjoint(pls)
  {
    hide Placed;
  }

  /** The RAM loop of `setup_ept`: pages that are there already stay as they are. */
  method FillRam(mem: HostMemory, root: HostAddr, memory: nat, ghost g: Guest) returns (r: SetupResult)
    requires Holds(mem, root, g) && memory * MIB <= GUEST_LIMIT
    modifies mem
    ensures mem.Valid() && mem.Owned() && mem.Space(root) && (r == Done || r == Exhausted)
    ensures r == Done ==> Holds(mem, root, WithRam(g, memory * 256))
    ensures (r == Exhausted ==> mem.free == {}) && Passed(old(Now(mem)), Now(mem), root, 4 * (memory * 256))
  {
    hide Represents, Passed, AtMost, WithRam, Zeros, IsRoot, HostMemory.Valid, HostMemory.Owned;
    ghost var start := Now(mem);
    PassedNone(start, root, 0);
    RamStep(g, 0);
    var i := 0;
    while i < memory * 256
      invariant i <= memory * 256
      invariant Holds(mem, root, WithRam(g, i))
      invariant Passed(start, Now(mem), root, 4 * i)
    {
      RamStep(g, i);
      ghost var before := Now(mem);
      var m := MapPage(mem, root, i * PAGE_SIZE, Zeros(PAGE_SIZE), WithRam(g, i));
      PassedJoin(start, before, Now(mem), root, 4 * i, 4, 4 * (memory * 256));
      if m == Exhausted { return Exhausted; }
      assert (i * PAGE_SIZE) / PAGE_SIZE == i;
      i := i + 1;
    }
    r := Done;
  }

  lemma RamStep(g: Guest, i: nat)
    ensures WithRam(g, 0) == g && |Zeros(PAGE_SIZE)| == PAGE_SIZE
    ensures WithRam(g, i + 1) == if i in WithRam(g, i) then WithRam(g, i) else WithRam(g, i)[i := Zeros(PAGE_SIZE)]
  {
    hide Zeros;
    assert forall p :: p in PageRange(0, i + 1) <==> p in PageRange(0, i) || p == i;
  }

  lemma GrowsKeeps(t: Tables, r: map<HostAddr, Role>, t': Tables, r': map<HostAddr, Role>,
                   pages: map<HostAddr, PageData>, root: HostAddr)
    requires t.Keys == r.Keys && t'.Keys == r'.Keys && Grows(t, r, t', r')
    ensures Kept(t, r, pages, t', r', pages, root)
  {
    GrowsKeepsLookups(t, r, t', r');
    hide Lookup, Walk;
  }

  lemma EmptySpaceRepresents(t: Tables, pages: map<HostAddr, PageData>, root: HostAddr)
    requires forall p :: Lookup(t, root, p) == None
    ensures Represents(t, pages, root, map[])
  {
    hide Lookup;
  }

  /** `map_bios`: the same bytes below 1 MiB and below 4 GiB. */
  method MapBios(mem: HostMemory, root: HostAddr, bios: seq<Byte>, ghost pls: seq<Placement>) returns (r: SetupResult)
    requires |bios| <= MIB && BiosPlacements(bios) <= pls && Holds(mem, root, map[])
    modifies mem
    ensures mem.Valid() && mem.Owned() && mem.Space(root) && r != NoSuchModule
    ensures r == Done ==> Holds(mem, root, PlacedAll(pls, 2)) && DisjointUpTo(pls, 2)
    ensures r == Duplicate ==> !Disjoint(pls)
    ensures (r == Exhausted ==> mem.free == {}) && Passed(old(Now(mem)), Now(mem), root, 4 * PagesBetween(pls, 0, 2))
  {
    hide Represents, Passed, AtMost, PlacedAll, DisjointUpTo, Disjoint, ChunkCount;
    ghost var start := Now(mem);
    var n := ChunkCount(bios);
    assert pls[0] == BiosPlacements(bios)[0] && pls[1] == BiosPlacements(bios)[1];
    assert PagesBetween(pls, 0, 1) == n && PagesBetween(pls, 0, 2) == n + n;
    NothingPlaced(pls);
    r := PlaceNext(mem, root, Placement(MIB - |bios|, bios), pls, 0);
    ghost var before := Now(mem);
    PassedLess(start, before, root, 4 * n, 4 * (n + n));
    if r != Done { return; }
    r := PlaceNext(mem, root, Placement(4096 * MIB - |bios|, bios), pls, 1);
    PassedJoin(start, before, Now(mem), root, 4 * n, 4 * n, 4 * (n + n));
  }

  /** The image loop of `setup_ept`. */
  method MapImages(mem: HostMemory, root: HostAddr, config: VmConfig, modules: seq<BootModule>,
                   ghost bios: seq<Byte>) returns (r: SetupResult)
    requires ConfigFits(bios, config, modules)
    requires Holds(mem, root, PlacedAll(Placements(bios, config, modules), 2))
    requires DisjointUpTo(Placements(bios, config, modules), 2)
    modifies mem
    ensures mem.Valid() && mem.Owned() && mem.Space(root)
    ensures var pls := Placements(bios, config, modules);
            && (r == Done ==> AllFound(config, modules) && Disjoint(pls) && Holds(mem, root, PlacedAll(pls, |pls|)))
            && (r == Duplicate ==> !Disjoint(pls))
    ensures r == NoSuchModule ==> !AllFound(config, modules)
    ensures var pls := Placements(bios, config, modules);
            && (r == Exhausted ==> mem.free == {})
            && Passed(old(Now(mem)), Now(mem), root, 4 * PagesBetween(pls, 2, |pls|))
  {
    hide Represents, Passed, AtMost, PlacedAll, DisjointUpTo, Disjoint, FindModule, HostMemory.Valid, HostMemory.Owned,
      ChunkCount;
    ghost var start := Now(mem);
    ghost var pls := Placements(bios, config, modules);
    ghost var total := 4 * PagesBetween(pls, 2, |pls|);
    PassedNone(start, root, 0);
    var k := 0;
    while k < |config.images|
      invariant k <= |config.images|
      invariant forall i :: 0 <= i < k ==> FindModule(modules, config.images[i].name).Some?
      invariant Holds(mem, root, PlacedAll(pls, 2 + k)) && DisjointUpTo(pls, 2 + k)
      invariant Passed(start, Now(mem), root, 4 * PagesBetween(pls, 2, 2 + k))
    {
      PagesAddUp(pls, 2, 2 + k, |pls|);
      PagesAddUp(pls, 2, 3 + k, |pls|);
      ghost var before := Now(mem);
      PassedLess(start, before, root, 4 * PagesBetween(pls, 2, 2 + k), total);
      var data := FindModule(modules, config.images[k].name);
      if data.None? { return NoSuchModule; }
      r := PlaceNext(mem, root, Placement(config.images[k].addr, data.value), pls, 2 + k);
      PassedJoin(start, before, Now(mem), root, 4 * PagesBetween(pls, 2, 2 + k), 4 * ChunkCount(data.value), total);
      if r != Done { return; }
      k := k + 1;
    }
    OverlapSpreads(pls, |pls|);
    r := Done;
  }

  /** Frames that suffice for one space: a root, and per page the page and at most three tables. */
  function SetupCost(bios: seq<Byte>, config: VmConfig, modules: seq<BootModule>): nat
    requires |bios| <= MIB
  {
    var pls := Placements(bios, config, modules);
    1 + 4 * (PagesBetween(pls, 0, |pls|) + config.memory * 256)
  }

  /**
    `setup_ept`. With more free frames than `SetupCost` it succeeds exactly when
    every image has a module and no two placements share a page; then the new
    space holds the layout, and no other space has changed.
  */
  method SetupEpt(mem: HostMemory, bios: seq<Byte>, config: VmConfig, modules: seq<BootModule>)
    returns (r: SetupResult, root: HostAddr)
    requires mem.Valid() && mem.Owned() && ConfigFits(bios, config, modules)
    modifies mem
    ensures mem.Valid() && mem.Owned()
    ensures r == Done ==> root !in old(mem.tables) && AllFound(config, modules)
                          && Disjoint(Placements(bios, config, modules))
                          && Holds(mem, root, Layout(Placements(bios, config, modules), config.memory))
    ensures r == Done ==> ImagesInPlace(mem.tables, mem.pages, root, config, modules)
    ensures r == Duplicate ==> !Disjoint(Placements(bios, config, modules))
    ensures r == NoSuchModule ==> !AllFound(config, modules)
    ensures r == Exhausted ==> mem.free == {} && AtMost(old(mem.free), SetupCost(bios, config, modules))
    ensures Passed(old(Now(mem)), Now(mem), root, SetupCost(bios, config, modules))
  {
    hide Represents, Passed, AtMost, PlacedAll, DisjointUpTo, Disjoint, WithRam, AllFound, Lookup, HostMemory.Owned,
      HostMemory.Valid, IsRoot, Grows, Placements, PagesBetween;
    ghost var start := Now(mem);
    ghost var pls := Placements(bios, config, modules);
    ghost var cost := SetupCost(bios, config, modules);
    var space := mem.NewSpace();
    if space.None? {
      PassedNone(start, 0, cost);
      PassedLess(start, start, 0, cost, cost);
      return Exhausted, 0;
    }
    root := space.value;
    SpaceTaken(start, Now(mem), root);
    EmptySpaceRepresents(mem.tables, mem.pages, root);
    assert BiosPlacements(bios) <= pls && |pls| == 2 + |config.images| by { BiosIsFirst(bios, config, modules); }
    PagesAddUp(pls, 0, 2, |pls|);

    ghost var before, spent := Now(mem), 1;
    r := MapBios(mem, root, bios, pls);
    PassedJoin(start, before, Now(mem), root, spent, 4 * PagesBetween(pls, 0, 2), cost);
    if r != Done { return; }

    before, spent := Now(mem), spent + 4 * PagesBetween(pls, 0, 2);
    r := MapImages(mem, root, config, modules, bios);
    PassedJoin(start, before, Now(mem), root, spent, 4 * PagesBetween(pls, 2, |pls|), cost);
    if r != Done { return; }

    before, spent := Now(mem), spent + 4 * PagesBetween(pls, 2, |pls|);
    r := FillRam(mem, root, config.memory, PlacedAll(pls, |pls|));
    PassedJoin(start, before, Now(mem), root, spent, 4 * (config.memory * 256), cost);
    if r == Done {
      LayoutKeeps(pls, config.memory);
      ImagesRead(mem.tables, mem.pages, root, Layout(pls, config.memory), bios, config, modules);
    }
  }

  lemma LayoutKeeps(pls: seq<Placement>, memory: nat)
    ensures Keeps(Layout(pls, memory), PlacedAll(pls, |pls|))
  {
    hide PlacedAll;
  }

  lemma BiosIsFirst(bios: seq<Byte>, config: VmConfig, modules: seq<BootModule>)
    requires |bios| <= MIB
    ensures BiosPlacements(bios) <= Placements(bios, config, modules)
    ensures |Placements(bios, config, modules)| == 2 + |config.images|
  {
  }

  lemma SpaceTaken(a: Snapshot, b: Snapshot, root: HostAddr)
    requires a.tables.Keys == a.roles.Keys && b.tables.Keys == b.roles.Keys && b.pages == a.pages
    requires Grows(a.tables, a.roles, b.tables, b.roles) && root in a.free && b.free == a.free - {root}
    ensures Passed(a, b, root, 1)
  {
    GrowsKeeps(a.tables, a.roles, b.tables, b.roles, a.pages, root);
    SpentOne(a.free, root);
  }

  lemma NothingPlaced(pls: seq<Placement>)
    ensures PlacedAll(pls, 0) == map[] && DisjointUpTo(pls, 0)
  {
  }

  // ---- the set of virtual machines -----------------------------------------

  /** The memory of a virtual machine once its local APIC access page is mapped. */
  function VmMemory(bios: seq<Byte>, config: VmConfig, modules: seq<BootModule>): Guest
    requires |bios| <= MIB
  {
    Layout(Placements(bios, config, modules), config.memory)[APIC_PAGE := Zeros(PAGE_SIZE)]
  }

  /** The APIC page is free in the layout, as `setup_guest_local_apic_page` needs. */
  ghost predicate ApicFree(bios: seq<Byte>, config: VmConfig, modules: seq<BootModule>)
    requires |bios| <= MIB
  {
    APIC_PAGE !in Layout(Placements(bios, config, modules), config.memory)
  }

  /** The page is free exactly when RAM ends below it and no placement covers it. */
  lemma ApicFreeIff(bios: seq<Byte>, config: VmConfig, modules: seq<BootModule>)
    requires |bios| <= MIB
    ensures var pls := Placements(bios, config, modules);
            ApicFree(bios, config, modules) <==>
            config.memory * 256 <= APIC_PAGE && forall i :: 0 <= i < |pls| ==> APIC_PAGE !in Placed(pls[i])
  {
    hide Placed, Placements;
    var pls := Placements(bios, config, modules);
    PlacedAllPages(pls, |pls|, APIC_PAGE);
  }

  /** Two placements share a page, or something lies where the APIC page goes. */
  ghost predicate Clashes(bios: seq<Byte>, config: VmConfig, modules: seq<BootModule>)
    requires |bios| <= MIB
  {
    !Disjoint(Placements(bios, config, modules)) || !ApicFree(bios, config, modules)
  }

  /** The APIC page goes where nothing was, so the images are still in place. */
  lemma VmImagesRead(t: Tables, pages: map<HostAddr, PageData>, root: HostAddr, bios: seq<Byte>, config: VmConfig,
                     modules: seq<BootModule>)
    requires ConfigFits(bios, config, modules) && AllFound(config, modules)
    requires Disjoint(Placements(bios, config, modules)) && ApicFree(bios, config, modules)
    requires Represents(t, pages, root, VmMemory(bios, config, modules))
    ensures ImagesInPlace(t, pages, root, config, modules)
  {
    hide FitsGuest, AllFound, Disjoint, Represents, PlacedAll, Layout, ImagesInPlace;
    var pls := Placements(bios, config, modules);
    LayoutKeeps(pls, config.memory);
    ImagesRead(t, pages, root, VmMemory(bios, config, modules), bios, config, modules);
  }

  /** The BIOS windows end at 1 MiB and at 4 GiB: byte k from their end is byte k from the end of the BIOS. */
  lemma BiosWindows(bios: seq<Byte>, config: VmConfig, modules: seq<BootModule>, k: nat)
    requires |bios| <= MIB && |bios| % PAGE_SIZE == 0 && k < |bios|
    requires Disjoint(Placements(bios, config, modules))
    ensures var g := Layout(Placements(bios, config, modules), config.memory);
            && LayoutByte(g, 0xF_FFFF - k) == Some(bios[|bios| - 1 - k])
            && LayoutByte(g, 0xFFFF_FFFF - k) == Some(bios[|bios| - 1 - k])
  {
    hide Disjoint, Layout, LayoutByte, Keeps;
    var pls := Placements(bios, config, modules);
    LayoutKeeps(pls, config.memory);
    var i := |bios| - 1 - k;
    PlacementByte(pls, Layout(pls, config.memory), 0, i);
    PlacementByte(pls, Layout(pls, config.memory), 1, i);
    assert pls[0].addr / PAGE_SIZE * PAGE_SIZE == 0x10_0000 - |bios|;
    assert pls[1].addr / PAGE_SIZE * PAGE_SIZE == 0x1_0000_0000 - |bios|;
  }

  /** `VirtualMachine::new`, then `setup_guest_local_apic_page` from `VirtualMachineSet::insert`. */
  method CreateVm(mem: HostMemory, bios: seq<Byte>, config: VmConfig, modules: seq<BootModule>)
    returns (r: SetupResult, root: HostAddr)
    requires mem.Valid() && mem.Owned() && ConfigFits(bios, config, modules)
    modifies mem
    ensures mem.Valid() && mem.Owned()
    ensures r == Done ==> root !in old(mem.tables) && Holds(mem, root, VmMemory(bios, config, modules))
    ensures r == Done ==> AllFound(config, modules) && Disjoint(Placements(bios, config, modules))
                          && ApicFree(bios, config, modules)
    ensures r == Done ==> ImagesInPlace(mem.tables, mem.pages, root, config, modules)
    ensures r == Duplicate ==> Clashes(bios, config, modules)
    ensures r == NoSuchModule ==> !AllFound(config, modules)
    ensures r == Exhausted ==> mem.free == {} && AtMost(old(mem.free), SetupCost(bios, config, modules) + 4)
    ensures Passed(old(Now(mem)), Now(mem), root, SetupCost(bios, config, modules) + 4)
  {
    hide Represents, Passed, AtMost, Layout, Disjoint, Placements, AllFound, Zeros, TreeInv, SetupCost;
    ghost var start := Now(mem);
    ghost var cost := SetupCost(bios, config, modules);
    r, root := SetupEpt(mem, bios, config, modules);
    ghost var before := Now(mem);
    PassedLess(start, before, root, cost, cost + 4);
    if r != Done { return; }
    RamStep(map[], 0);
    r := MapPage(mem, root, APIC_ADDR, Zeros(PAGE_SIZE), Layout(Placements(bios, config, modules), config.memory));
    PassedJoin(start, before, Now(mem), root, cost, 4, cost + 4);
    if r == Done { VmImagesRead(mem.tables, mem.pages, root, bios, config, modules); }
  }

  /** Frames that suffice for the first `n` machines. */
  function TotalCost(bios: seq<Byte>, configs: seq<VmConfig>, modules: seq<BootModule>, n: nat): nat
    requires |bios| <= MIB && n <= |configs|
  {
    if n == 0 then 0 else TotalCost(bios, configs, modules, n - 1) + SetupCost(bios, configs[n - 1], modules) + 4
  }

  lemma {:induction false} TotalCostGrows(bios: seq<Byte>, configs: seq<VmConfig>, modules: seq<BootModule>, n: nat)
    requires |bios| <= MIB && n <= |configs|
    ensures TotalCost(bios, configs, modules, n) <= TotalCost(bios, configs, modules, |configs|)
    ensures n < |configs| ==>
              && TotalCost(bios, configs, modules, n + 1) ==
                 TotalCost(bios, configs, modules, n) + SetupCost(bios, configs[n], modules) + 4
              && TotalCost(bios, configs, modules, n + 1) <= TotalCost(bios, configs, modules, |configs|)
    ensures TotalCost(bios, configs, modules, 0) == 0
    decreases |configs| - n
  {
    hide SetupCost;
    if n < |configs| { TotalCostGrows(bios, configs, modules, n + 1); }
  }

  /**
    `init_virtual_machines` for any list of configurations: when all are set up,
    each machine has its own memory and no host frame is reachable from two guest
    pages of any two machines, nor holds a table. Memory runs out only with no
    more free frames than `TotalCost`.
  */
  method CreateVms(mem: HostMemory, bios: seq<Byte>, configs: seq<VmConfig>, modules: seq<BootModule>)
    returns (r: SetupResult, roots: seq<HostAddr>)
    requires mem.Valid() && mem.Owned() && |bios| <= MIB
    requires forall i :: 0 <= i < |configs| ==> ConfigFits(bios, configs[i], modules)
    modifies mem
    ensures mem.Valid() && mem.Owned()
    ensures r == Done ==> |roots| == |configs|
    ensures r == Done ==> forall i :: 0 <= i < |configs| ==> Holds(mem, roots[i], VmMemory(bios, configs[i], modules))
    ensures r == Done ==> Isolated(mem, roots)
    ensures r == Duplicate ==> |roots| < |configs| && Clashes(bios, configs[|roots|], modules)
    ensures r == NoSuchModule ==> |roots| < |configs| && !AllFound(configs[|roots|], modules)
    ensures r == Exhausted ==> mem.free == {} && AtMost(old(mem.free), TotalCost(bios, configs, modules, |configs|))
  {
    hide Represents, Passed, AtMost, ConfigFits, VmMemory, HostMemory.Valid, HostMemory.Owned, Clashes, AllFound, Spent,
      SetupCost, TotalCost;
    TotalCostGrows(bios, configs, modules, 0);
    SpentNone(mem.free, 0);
    roots := [];
    while |roots| < |configs|
      invariant |roots| <= |configs| && mem.Valid() && mem.Owned()
      invariant forall i :: 0 <= i < |roots| ==> Holds(mem, roots[i], VmMemory(bios, configs[i], modules))
      invariant forall i, j :: 0 <= i < j < |roots| ==> roots[i] != roots[j]
      invariant Spent(old(mem.free), mem.free, TotalCost(bios, configs, modules, |roots|))
    {
      var k := |roots|;
      ghost var before := Now(mem);
      var root;
      r, root := CreateVm(mem, bios, configs[k], modules);
      TotalCostGrows(bios, configs, modules, k);
      CostSpent(old(mem.free), before, Now(mem), root, TotalCost(bios, configs, modules, k),
                SetupCost(bios, configs[k], modules) + 4, TotalCost(bios, configs, modules, |configs|));
      if r != Done { return; }
      forall i | 0 <= i < k
        ensures Holds(mem, roots[i], VmMemory(bios, configs[i], modules))
      {
        PassedRepresents(before, Now(mem), root, SetupCost(bios, configs[k], modules) + 4, roots[i],
                         VmMemory(bios, configs[i], modules));
      }
      roots := roots + [root];
    }
    AllIsolated(mem, roots);
    r := Done;
  }

  lemma CostSpent(free: set<HostAddr>, a: Snapshot, b: Snapshot, root: HostAddr, m: nat, n: nat, total: nat)
    requires Spent(free, a.free, m) && Passed(a, b, root, n) && m + n <= total
    ensures Spent(free, b.free, m + n) && (b.free == {} ==> AtMost(free, total))
  {
    SpentJoin(free, a.free, b.free, m, n);
    SpentLess(free, b.free, m + n, total);
    SpentLeaves(free, b.free, total);
  }

  /** Frames reachable from the guest pages of the machines are pairwise distinct, and none is a table. */
  ghost predicate Isolated(mem: HostMemory, roots: seq<HostAddr>)
    reads mem
  {
    forall i, j, p: nat, q: nat ::
      0 <= i < |roots| && 0 <= j < |roots| && p < GUEST_PAGES && q < GUEST_PAGES
      && Lookup(mem.tables, roots[i], p).Some? && Lookup(mem.tables, roots[j], q).Some? ==>
        && (Lookup(mem.tables, roots[i], p).value.frame == Lookup(mem.tables, roots[j], q).value.frame
            <==> i == j && p == q)
        && Lookup(mem.tables, roots[i], p).value.frame !in mem.tables
  }

  lemma AllIsolated(mem: HostMemory, roots: seq<HostAddr>)
    requires mem.Valid() && mem.Owned() && forall i :: 0 <= i < |roots| ==> mem.Space(roots[i])
    requires forall i, j :: 0 <= i < j < |roots| ==> roots[i] != roots[j]
    ensures Isolated(mem, roots)
  {
    hide Lookup, HostMemory.Valid, HostMemory.Owned;
    forall i, j, p: nat, q: nat |
      && 0 <= i < |roots| && 0 <= j < |roots| && p < GUEST_PAGES && q < GUEST_PAGES
      && Lookup(mem.tables, roots[i], p).Some? && Lookup(mem.tables, roots[j], q).Some?
      ensures Lookup(mem.tables, roots[i], p).value.frame == Lookup(mem.tables, roots[j], q).value.frame
              <==> i == j && p == q
      ensures Lookup(mem.tables, roots[i], p).value.frame !in mem.tables
    {
      mem.FramesNeverShared(roots[i], p, roots[j], q);
    }
  }
}
