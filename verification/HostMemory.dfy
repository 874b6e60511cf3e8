/**
  Host memory as the guest address spaces use it (memory.rs): EPT tables and
  data pages at distinct physical frames, handed out by an allocator. All guest
  address spaces of the hypervisor share one such memory; a space is the frame
  of its PML4 table.
*/
module HostMemory {
  import opened Common
  import opened EptEntry
  import opened Ept

  type PageData = seq<Byte>

  datatype MapResult = Mapped | DuplicateMapping | OutOfMemory

  datatype FindResult = Found(frame: HostAddr) | NoPml4Entry | NoPdpEntry | NoPdEntry | NoPtEntry

  /** A slot of a page table: the one place a data frame may be mapped from. */
  datatype Slot = Slot(table: HostAddr, index: Index)

  /** At most `n` frames were taken. */
  ghost predicate Spent(before: set<HostAddr>, after: set<HostAddr>, n: nat) {
    after <= before && |before| <= |after| + n
  }

  lemma SpentNone(free: set<HostAddr>, n: nat)
    ensures Spent(free, free, n)
  {
  }

  lemma SpentOne(free: set<HostAddr>, f: HostAddr)
    requires f in free
    ensures Spent(free, free - {f}, 1)
  {
    assert free == free - {f} + {f};
  }

  lemma SpentJoin(a: set<HostAddr>, b: set<HostAddr>, c: set<HostAddr>, m: nat, n: nat)
    requires Spent(a, b, m) && Spent(b, c, n)
    ensures Spent(a, c, m + n)
  {
  }

  lemma SpentLess(a: set<HostAddr>, b: set<HostAddr>, m: nat, n: nat)
    requires Spent(a, b, m) && m <= n
    ensures Spent(a, b, n)
  {
  }

  ghost predicate AtMost(frames: set<HostAddr>, n: nat) {
    |frames| <= n
  }

  /** More frames than could be taken were not all taken. */
  lemma SpentLeaves(a: set<HostAddr>, b: set<HostAddr>, n: nat)
    requires Spent(a, b, n)
    ensures b == {} ==> AtMost(a, n)
  {
  }

  class HostMemory {
    var tables: Tables
    var pages: map<HostAddr, PageData>
    var free: set<HostAddr>
    ghost var roles: map<HostAddr, Role>
    ghost var home: map<HostAddr, Slot>

    /** Tables form trees, and no frame has two uses. */
    ghost predicate Valid()
      reads this
    {
      && TreeInv(tables, roles)
      && (forall f :: f in pages ==> |pages[f]| == PAGE_SIZE && PhysFrame(f))
      && (forall f :: f in free ==> PhysFrame(f))
      && tables.Keys !! pages.Keys
      && tables.Keys !! free
      && pages.Keys !! free
      && home.Keys <= pages.Keys
    }

    /** Every mapped frame is a data page mapped from exactly one slot of one space. */
    ghost predicate Owned()
      requires Valid()
      reads this
    {
      forall a, i: Index :: a in tables && roles[a].Pt? && tables[a][i] != UNUSED ==>
        EntryAddr(tables[a][i]) in home && home[EntryAddr(tables[a][i])] == Slot(a, i)
    }

    ghost predicate Space(root: HostAddr)
      reads this
    {
      IsRoot(tables, roles, root)
    }

    constructor (frames: set<HostAddr>)
      requires forall f :: f in frames ==> PhysFrame(f)
      ensures Valid() && Owned()
      ensures tables == map[] && pages == map[] && free == frames
    {
      tables, pages, free, roles, home := map[], map[], frames, map[], map[];
    }

    /** `Box::new(Raw4kPage::default())`: a zeroed data page, not yet mapped anywhere. */
    method NewPage() returns (r: Option<HostAddr>)
      requires Valid() && Owned()
      modifies this`pages, this`free
      ensures Valid() && Owned()
      ensures r.None? <==> old(free) == {}
      ensures r.None? ==> pages == old(pages) && free == old(free)
      ensures r.Some? ==> r.value in old(free) && free == old(free) - {r.value}
      ensures r.Some? ==> pages == old(pages)[r.value := Zeros(PAGE_SIZE)] && r.value !in home
    {
      if free == {} { return None; }
      var f :| f in free;
      free := free - {f};
      pages := pages[f := Zeros(PAGE_SIZE)];
      r := Some(f);
    }

    /** A new data page, filled before it is mapped. */
    method NewPageWith(content: PageData) returns (r: Option<HostAddr>)
      requires Valid() && Owned() && |content| == PAGE_SIZE
      modifies this`pages, this`free
      ensures Valid() && Owned() && Spent(old(free), free, 1)
      ensures r.None? ==> free == {} && pages == old(pages)
      ensures r.Some? ==> PhysFrame(r.value) && r.value !in old(pages) && r.value !in home
      ensures r.Some? ==> pages == old(pages)[r.value := content]
    {
      hide Spent, TreeInv;
      SpentNone(free, 1);
      r := NewPage();
      if r.None? { return; }
      SpentOne(old(free), r.value);
      pages := pages[r.value := content];
    }

    /** `GuestAddressSpace::new`: an empty PML4 table. */
    method NewSpace() returns (r: Option<HostAddr>)
      requires Valid() && Owned()
      modifies this`tables, this`free, this`roles
      ensures Valid() && Owned() && Grows(old(tables), old(roles), tables, roles)
      ensures r.None? <==> old(free) == {}
      ensures r.None? ==> tables == old(tables) && roles == old(roles) && free == old(free)
      ensures r.Some? ==> r.value in old(free) && free == old(free) - {r.value} && Space(r.value)
      ensures r.Some? ==> r.value !in old(tables)
      ensures r.Some? ==> forall p :: Lookup(tables, r.value, p) == None
      ensures old(tables).Keys == old(roles).Keys && tables.Keys == roles.Keys
    {
      if free == {} { return None; }
      var f :| f in free;
      RootKeepsTree(tables, roles, f);
      free := free - {f};
      tables := WithRoot(tables, f);
      roles := roles[f := Pml4(f)];
      r := Some(f);
    }

    /**
      One level of `map_guest_memory`: the table behind an entry, created empty
      when the entry is unused.
    */
    method EnsureChild(a: HostAddr, i: Index) returns (r: Option<HostAddr>)
      requires Valid() && a in tables && !roles[a].Pt?
      modifies this`tables, this`free, this`roles
      ensures Valid() && Grows(old(tables), old(roles), tables, roles) && Spent(old(free), free, 1)
      ensures r.Some? ==> Child(tables, a, i) == r && r.value in tables && roles[r.value] == ChildRole(roles[a], i)
      ensures r.None? ==> old(free) == {}
      ensures r.None? || old(Child(tables, a, i)).Some? ==>
                tables == old(tables) && roles == old(roles) && free == old(free)
      ensures old(Child(tables, a, i)).Some? ==> r.Some?
    {
      hide EntryAddr, TableEntry, Walk, WithChild, Spent;
      SpentNone(free, 1);
      if tables[a][i] == UNUSED {
        if free == {} { return None; }
        var c :| c in free;
        ChildKeepsTree(tables, roles, a, i, c);
        SpentOne(free, c);
        free := free - {c};
        tables := WithChild(tables, a, i, c);
        roles := roles[c := ChildRole(roles[a], i)];
      }
      r := Some(EntryAddr(tables[a][i]));
    }

    /** The upper three levels of `map_guest_memory`: the page table on the path of an address. */
    method EnsurePageTable(root: HostAddr, x: Path) returns (r: Option<HostAddr>)
      requires Valid() && Space(root)
      modifies this`tables, this`free, this`roles
      ensures Valid() && Grows(old(tables), old(roles), tables, roles) && Spent(old(free), free, 3)
      ensures r.Some? ==> PageTableOf(tables, root, x) == r && r.value in tables && roles[r.value].Pt?
      ensures r.None? ==> free == {}
      ensures old(Walk(tables, root, x)) != UNUSED ==>
                r.Some? && tables == old(tables) && roles == old(roles) && free == old(free)
    {
      hide Child, Grows, EntryAddr, Walk, Spent;
      ghost var t0, r0, f0 := tables, roles, free;
      UsedPath(tables, root, x);
      var pdpt := EnsureChild(root, x.p4);
      ghost var f1 := free;
      SpentLess(f0, f1, 1, 3);
      if pdpt.None? { return None; }
      ghost var t1, r1 := tables, roles;
      GrowsKeepsChild(t0, r0, t1, r1, root, x.p4);
      var pd := EnsureChild(pdpt.value, x.p3);
      GrowsTrans(t0, r0, t1, r1, tables, roles);
      ghost var f2 := free;
      SpentJoin(f0, f1, f2, 1, 1);
      SpentLess(f0, f2, 2, 3);
      if pd.None? { return None; }
      ghost var t2, r2 := tables, roles;
      GrowsKeepsChild(t1, r1, t2, r2, root, x.p4);
      GrowsKeepsChild(t1, r1, t2, r2, pdpt.value, x.p3);
      r := EnsureChild(pd.value, x.p2);
      SpentJoin(f0, f2, free, 2, 1);
      GrowsTrans(t0, r0, t2, r2, tables, roles);
      GrowsKeepsChild(t2, r2, tables, roles, root, x.p4);
      GrowsKeepsChild(t2, r2, tables, roles, pdpt.value, x.p3);
      GrowsKeepsChild(t2, r2, tables, roles, pd.value, x.p2);
    }

    /** The last step of `map_guest_memory`: fill the unused leaf slot of a page. */
    method FillLeaf(root: HostAddr, x: Path, ghost page: nat, pt: HostAddr, frame: HostAddr, readonly: bool)
      requires Valid() && Space(root) && PhysFrame(frame)
      requires page < GUEST_PAGES && x == PathOfPage(page)
      requires PageTableOf(tables, root, x) == Some(pt)
      modifies this`tables, this`home
      ensures Valid() && forall s :: IsRoot(old(tables), old(roles), s) ==> IsRoot(tables, roles, s)
      ensures forall s, p: nat :: IsRoot(old(tables), old(roles), s) && p < GUEST_PAGES ==>
                Lookup(tables, s, p) == if s == root && p == page
                                        then Some(Mapping(frame, !readonly)) else Lookup(old(tables), s, p)
      ensures old(Owned()) && frame in pages && frame !in old(home) ==> Owned()
      ensures home.Keys == old(home).Keys + if frame in pages then {frame} else {}
    {
      hide EntryAddr, LeafEntry, PathOfPage, Writable, Lookup;
      PageTableRole(tables, roles, root, x);
      LeafEntryHoldsFrame(frame, readonly);
      forall s, p: nat | Space(s) && p < GUEST_PAGES
        ensures Lookup(WithLeaf(tables, pt, x.p1, LeafEntry(frame, readonly)), s, p)
                == if s == root && p == page then Some(Mapping(frame, !readonly)) else Lookup(tables, s, p)
      {
        LeafIsItsOwnPage(tables, roles, pt, page, frame, readonly, root, s, p);
      }
      tables := WithLeaf(tables, pt, x.p1, LeafEntry(frame, readonly));
      if frame in pages { home := home[frame := Slot(pt, x.p1)]; }
    }

    /**
      `map_guest_memory`. Lookups are keyed by bits 47:12 of the guest address:
      a success maps that page of that space to the frame and changes no other
      lookup of any space; a duplicate changes nothing at all.
    */
    method MapFrame(root: HostAddr, guestAddr: nat, frame: HostAddr, readonly: bool) returns (r: MapResult)
      requires Valid() && Space(root) && PhysFrame(frame)
      modifies this`tables, this`free, this`roles, this`home
      ensures Valid() && forall s :: IsRoot(old(tables), old(roles), s) ==> IsRoot(tables, roles, s)
      ensures r == DuplicateMapping <==> old(Lookup(tables, root, Page(guestAddr))).Some?
      ensures r == DuplicateMapping ==>
                tables == old(tables) && roles == old(roles) && home == old(home) && free == old(free)
      ensures r == OutOfMemory ==> free == {}
      ensures Spent(old(free), free, 3)
      ensures forall s, p: nat :: IsRoot(old(tables), old(roles), s) && p < GUEST_PAGES ==>
                Lookup(tables, s, p) == if r == Mapped && s == root && p == Page(guestAddr)
                                        then Some(Mapping(frame, !readonly)) else Lookup(old(tables), s, p)
      ensures old(Owned()) && (r == Mapped ==> frame in pages && frame !in old(home)) ==> Owned()
      ensures home.Keys == old(home).Keys + if r == Mapped && frame in pages then {frame} else {}
    {
      hide EntryAddr, PathOfPage, Writable, Lookup, PageTableOf, Spent;
      var x := PathOf(guestAddr);
      PathIsOfPage(guestAddr);
      LookupIsWalk(tables, root, guestAddr);
      var pt := EnsurePageTable(root, x);
      GrowsKeepsLookups(old(tables), old(roles), tables, roles);
      if pt.None? { return OutOfMemory; }
      LookupIsWalk(tables, root, guestAddr);
      assert Walk(tables, root, x) == tables[pt.value][x.p1];
      if tables[pt.value][x.p1] != UNUSED { return DuplicateMapping; }
      FillLeaf(root, x, Page(guestAddr), pt.value, frame, readonly);
      r := Mapped;
    }

    /** `find_host_frame`: the frame of an address, or the level at which its walk stops. */
    method FindHostFrame(root: HostAddr, addr: nat) returns (r: FindResult)
      requires Valid() && Space(root)
      ensures r.Found? <==> Lookup(tables, root, Page(addr)).Some?
      ensures r.Found? ==> r.frame == Lookup(tables, root, Page(addr)).value.frame
      ensures r == NoPml4Entry <==> Child(tables, root, PathOf(addr).p4) == None
      ensures r == NoPdpEntry <==>
              (&& Child(tables, root, PathOf(addr).p4).Some?
               && Child(tables, Child(tables, root, PathOf(addr).p4).value, PathOf(addr).p3) == None)
      ensures r == NoPtEntry <==> PageTableOf(tables, root, PathOf(addr)).Some? && !r.Found?
    {
      hide EntryAddr, Lookup, PathOf;
      var x := PathOf(addr);
      LookupIsWalk(tables, root, addr);
      var pml4e := tables[root][x.p4];
      if pml4e == UNUSED { return NoPml4Entry; }
      var pdpe := tables[EntryAddr(pml4e)][x.p3];
      if pdpe == UNUSED { return NoPdpEntry; }
      var pde := tables[EntryAddr(pdpe)][x.p2];
      if pde == UNUSED { return NoPdEntry; }
      var pte := tables[EntryAddr(pde)][x.p1];
      if pte == UNUSED { return NoPtEntry; }
      return Found(EntryAddr(pte));
    }

    /** One `map_frame` call against the flat map. */
    method MapRequested(root: HostAddr, req: MapRequest, ghost flat: map<nat, Mapping>) returns (r: MapResult)
      requires Valid() && Space(root) && PhysFrame(req.frame) && Refines(tables, root, flat)
      modifies this`tables, this`free, this`roles, this`home
      ensures Valid() && Space(root)
      ensures r == DuplicateMapping <==> Page(req.guestAddr) in flat
      ensures Refines(tables, root, if r == OutOfMemory then flat else FlatStep(flat, req))
      ensures (r == OutOfMemory ==> free == {}) && Spent(old(free), free, 3)
    {
      hide Page, Lookup, TreeInv, Spent;
      r := MapFrame(root, req.guestAddr, req.frame, req.readonly);
    }

    /** Where a mapped page lives: the slot its frame is mapped from names its space and its page. */
    lemma MappedFrameHome(root: HostAddr, p: nat)
      requires Valid() && Owned() && Space(root) && Lookup(tables, root, p).Some?
      ensures var f, x := Lookup(tables, root, p).value.frame, PathOfPage(p);
              && f in home && f in pages && home[f].table in roles
              && roles[home[f].table] == Pt(root, x.p4, x.p3, x.p2) && home[f].index == x.p1
    {
      hide EntryAddr, PathOfPage, Child;
      PageTableRole(tables, roles, root, PathOfPage(p));
    }

    /**
      No host frame is reachable from two guest pages, of one space or of two,
      and none is a table.
    */
    lemma FramesNeverShared(root: HostAddr, p: nat, otherRoot: HostAddr, q: nat)
      requires Valid() && Owned() && Space(root) && Space(otherRoot)
      requires p < GUEST_PAGES && q < GUEST_PAGES
      requires Lookup(tables, root, p).Some? && Lookup(tables, otherRoot, q).Some?
      ensures Lookup(tables, root, p).value.frame == Lookup(tables, otherRoot, q).value.frame
              <==> root == otherRoot && p == q
      ensures Lookup(tables, root, p).value.frame !in tables
    {
      hide EntryAddr, PathOfPage, Lookup;
      MappedFrameHome(root, p);
      MappedFrameHome(otherRoot, q);
      if p != q { PagePathsDiffer(p, q); }
    }

    /**
      Any sequence of `map_frame` calls on a new space, up to the first one that
      finds no memory for a table: the tree holds exactly the flat map, and a
      call fails as a duplicate exactly when the flat map has its page. With more
      than three free frames per call, memory does not run out.
    */
    method MapFrames(root: HostAddr, reqs: seq<MapRequest>) returns (results: seq<MapResult>)
      requires Valid() && Space(root)
      requires forall i :: 0 <= i < |reqs| ==> PhysFrame(reqs[i].frame)
      requires Refines(tables, root, map[])
      modifies this`tables, this`free, this`roles, this`home
      ensures Valid() && Space(root)
      ensures |results| <= |reqs| && forall i :: 0 <= i < |results| - 1 ==> results[i] != OutOfMemory
      ensures |results| < |reqs| ==> results != [] && results[|results| - 1] == OutOfMemory
      ensures forall i :: 0 <= i < |results| ==>
                (results[i] == DuplicateMapping <==> Page(reqs[i].guestAddr) in FlatAfter(reqs, i))
      ensures Refines(tables, root, FlatAfter(reqs, Done(results)))
      ensures Spent(old(free), free, 3 * |reqs|)
      ensures results != [] && results[|results| - 1] == OutOfMemory ==> free == {} && AtMost(old(free), 3 * |reqs|)
    {
      hide Page, Refines, Valid, Space, FlatStep, FlatAfter, Spent, AtMost;
      results := [];
      SpentNone(free, 0);
      FlatAfterStep(reqs, 0);
      while |results| < |reqs|
        invariant |results| <= |reqs| && Valid() && Space(root)
        invariant forall i :: 0 <= i < |results| ==> results[i] != OutOfMemory
        invariant forall i :: 0 <= i < |results| ==>
                    (results[i] == DuplicateMapping <==> Page(reqs[i].guestAddr) in FlatAfter(reqs, i))
        invariant Refines(tables, root, FlatAfter(reqs, |results|))
        invariant Spent(old(free), free, 3 * |results|)
      {
        var k := |results|;
        ghost var f1 := free;
        FlatAfterStep(reqs, k);
        var r := MapRequested(root, reqs[k], FlatAfter(reqs, k));
        results := results + [r];
        SpentJoin(old(free), f1, free, 3 * k, 3);
        if r == OutOfMemory {
          SpentLess(old(free), free, 3 * (k + 1), 3 * |reqs|);
          SpentLeaves(old(free), free, 3 * |reqs|);
          return;
        }
      }
    }
  }

  datatype MapRequest = MapRequest(guestAddr: nat, frame: HostAddr, readonly: bool)

  /** How many calls ran to their end. */
  function Done(results: seq<MapResult>): nat {
    if results != [] && results[|results| - 1] == OutOfMemory then |results| - 1 else |results|
  }

  function FlatStep(flat: map<nat, Mapping>, req: MapRequest): map<nat, Mapping> {
    if Page(req.guestAddr) in flat then flat
    else flat[Page(req.guestAddr) := Mapping(req.frame, !req.readonly)]
  }

  /** The flat map the first `n` requests build. */
  function FlatAfter(reqs: seq<MapRequest>, n: nat): map<nat, Mapping>
    requires n <= |reqs|
  {
    if n == 0 then map[] else FlatStep(FlatAfter(reqs, n - 1), reqs[n - 1])
  }

  lemma FlatAfterStep(reqs: seq<MapRequest>, k: nat)
    ensures FlatAfter(reqs, 0) == map[]
    ensures k < |reqs| ==> FlatAfter(reqs, k + 1) == FlatStep(FlatAfter(reqs, k), reqs[k])
  {
  }

  /** The tree maps exactly the pages of the flat map, to the same frames with the same permission. */
  ghost predicate Refines(t: Tables, root: HostAddr, flat: map<nat, Mapping>) {
    && (forall p :: p in flat ==> p < GUEST_PAGES)
    && forall p: nat :: p < GUEST_PAGES ==> Lookup(t, root, p) == if p in flat then Some(flat[p]) else None
  }

  /** The flat map has the pages some request named. */
  lemma {:induction false} FlatHoldsRequested(reqs: seq<MapRequest>, n: nat, p: nat)
    requires n <= |reqs|
    ensures p in FlatAfter(reqs, n) <==> exists i :: 0 <= i < n && Page(reqs[i].guestAddr) == p
  {
    hide Page;
    if n > 0 { FlatHoldsRequested(reqs, n - 1, p); }
  }

  /** A page keeps the frame and permission of the first request for it. */
  lemma {:induction false} FlatHoldsFirst(reqs: seq<MapRequest>, n: nat, p: nat, i: nat)
    requires i < n <= |reqs| && Page(reqs[i].guestAddr) == p
    requires forall j :: 0 <= j < i ==> Page(reqs[j].guestAddr) != p
    ensures p in FlatAfter(reqs, n) && FlatAfter(reqs, n)[p] == Mapping(reqs[i].frame, !reqs[i].readonly)
  {
    hide Page;
    if i < n - 1 {
      FlatHoldsFirst(reqs, n - 1, p, i);
    } else {
      FlatHoldsRequested(reqs, n - 1, p);
    }
  }
}
