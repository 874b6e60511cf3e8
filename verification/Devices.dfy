/**
  Looking up the device behind a port or an address (virtdev/mod.rs): ordered
  maps keyed by ranges, where two ranges that overlap compare as equal.
*/
module Devices {
  import opened Common

  /** An inclusive range of ports or addresses. */
  datatype Region = Region(start: nat, end: nat)

  datatype Ordering = Less | Equal | Greater

  /** The ordering of `PortIoRegion` and `MemIoRegion`. */
  function Compare(a: Region, b: Region): Ordering {
    if a.end < b.start then Less else if b.end < a.start then Greater else Equal
  }

  predicate NonEmpty(a: Region) { a.start <= a.end }

  predicate Overlap(a: Region, b: Region) { a.start <= b.end && b.start <= a.end }

  predicate Contains(a: Region, x: nat) { a.start <= x <= a.end }

  /** Equality under this ordering is not transitive, so it is no ordering of all ranges. */
  lemma OverlapIsNotTransitive()
    ensures Compare(Region(0, 1), Region(1, 2)) == Equal && Compare(Region(1, 2), Region(2, 3)) == Equal
    ensures Compare(Region(0, 1), Region(2, 3)) == Less
  {
  }

  /** The two directions of a comparison agree exactly when the ranges are not each before the other. */
  lemma CompareFlips(a: Region, b: Region)
    ensures (&& (Compare(a, b) == Less <==> Compare(b, a) == Greater)
             && (Compare(a, b) == Equal <==> Compare(b, a) == Equal))
            <==> !(a.end < b.start && b.end < a.start)
    ensures NonEmpty(a) && NonEmpty(b) ==> !(a.end < b.start && b.end < a.start)
  {
  }

  datatype Entry = Entry(region: Region, dev: nat)

  /** An ordered map, as a search tree of any shape. */
  datatype Tree = Leaf | Node(left: Tree, entry: Entry, right: Tree)

  function Get(t: Tree, key: Region): Option<Entry> {
    match t
    case Leaf => None
    case Node(l, e, r) =>
      match Compare(key, e.region)
      case Less => Get(l, key)
      case Equal => Some(e)
      case Greater => Get(r, key)
  }

  function Insert(t: Tree, key: Region, dev: nat): Tree {
    match t
    case Leaf => Node(Leaf, Entry(key, dev), Leaf)
    case Node(l, e, r) =>
      match Compare(key, e.region)
      case Less => Node(Insert(l, key, dev), e, r)
      case Equal => Node(l, Entry(e.region, dev), r)
      case Greater => Node(l, e, Insert(r, key, dev))
  }

  function Contents(t: Tree): set<Entry> {
    match t
    case Leaf => {}
    case Node(l, e, r) => Contents(l) + {e} + Contents(r)
  }

  /** In key order: non-empty ranges, one after the other, from `lo` and below `hi`. */
  predicate Sorted(t: Tree, lo: nat, hi: nat) {
    match t
    case Leaf => true
    case Node(l, e, r) =>
      && lo <= e.region.start <= e.region.end < hi
      && Sorted(l, lo, e.region.start) && Sorted(r, e.region.end + 1, hi)
  }

  lemma {:induction false} SortedBounds(t: Tree, lo: nat, hi: nat, e: Entry)
    requires Sorted(t, lo, hi) && e in Contents(t)
    ensures lo <= e.region.start <= e.region.end < hi
  {
    if e in Contents(t.left) {
      SortedBounds(t.left, lo, t.entry.region.start, e);
    } else if e in Contents(t.right) {
      SortedBounds(t.right, t.entry.region.end + 1, hi, e);
    }
  }

  /** The ranges of a sorted tree are pairwise disjoint. */
  lemma {:induction false} SortedDisjoint(t: Tree, lo: nat, hi: nat, e: Entry, f: Entry)
    requires Sorted(t, lo, hi) && e in Contents(t) && f in Contents(t) && Overlap(e.region, f.region)
    ensures e == f
  {
    var k := t.entry.region;
    if e in Contents(t.left) { SortedBounds(t.left, lo, k.start, e); }
    if e in Contents(t.right) { SortedBounds(t.right, k.end + 1, hi, e); }
    if f in Contents(t.left) { SortedBounds(t.left, lo, k.start, f); }
    if f in Contents(t.right) { SortedBounds(t.right, k.end + 1, hi, f); }
    if e in Contents(t.left) && f in Contents(t.left) {
      SortedDisjoint(t.left, lo, k.start, e, f);
    } else if e in Contents(t.right) && f in Contents(t.right) {
      SortedDisjoint(t.right, k.end + 1, hi, e, f);
    }
  }

  /**
    The search follows a comparison that is no ordering, yet in a sorted tree of
    any shape it finds an entry exactly when some entry overlaps the key.
  */
  lemma {:induction false} SearchFinds(t: Tree, lo: nat, hi: nat, key: Region)
    requires Sorted(t, lo, hi) && NonEmpty(key)
    ensures Get(t, key).Some? ==> Get(t, key).value in Contents(t) && Overlap(Get(t, key).value.region, key)
    ensures forall e :: e in Contents(t) && Overlap(e.region, key) ==> Get(t, key).Some?
  {
    if t.Node? {
      var k := t.entry.region;
      SearchFinds(t.left, lo, k.start, key);
      SearchFinds(t.right, k.end + 1, hi, key);
      forall e | e in Contents(t) && Overlap(e.region, key) ensures Get(t, key).Some? {
        if e in Contents(t.left) { SortedBounds(t.left, lo, k.start, e); }
        if e in Contents(t.right) { SortedBounds(t.right, k.end + 1, hi, e); }
      }
    }
  }

  /** A port or address is found in exactly the entry whose range contains it, as a scan of all entries would. */
  lemma LookupIsScan(t: Tree, lo: nat, hi: nat, x: nat, e: Entry)
    requires Sorted(t, lo, hi)
    ensures Get(t, Region(x, x)) == Some(e) <==> e in Contents(t) && Contains(e.region, x)
  {
    SearchFinds(t, lo, hi, Region(x, x));
    if e in Contents(t) && Contains(e.region, x) {
      SortedDisjoint(t, lo, hi, e, Get(t, Region(x, x)).value);
    }
  }

  lemma {:induction false} InsertKeepsSorted(t: Tree, lo: nat, hi: nat, key: Region, dev: nat)
    requires Sorted(t, lo, hi) && lo <= key.start <= key.end < hi && Get(t, key).None?
    ensures Sorted(Insert(t, key, dev), lo, hi)
    ensures Contents(Insert(t, key, dev)) == Contents(t) + {Entry(key, dev)}
  {
    if t.Node? {
      var k := t.entry.region;
      if Compare(key, k) == Less {
        InsertKeepsSorted(t.left, lo, k.start, key, dev);
      } else {
        InsertKeepsSorted(t.right, k.end + 1, hi, key, dev);
      }
    }
  }

  /**
    Non-empty ranges are what this needs. After any empty range that nothing else lies between the ends of, in a map
    with anything else in it, a range that shares no port with any is either turned away as a conflict or cannot be
    found by one of its ports.
  */
  lemma {:induction false} EmptyRangeBreaksSearch(t: Tree, lo: nat, hi: nat, r: Region, dev: nat, other: nat)
    requires Sorted(t, lo, hi) && !NonEmpty(r)
    requires forall e :: e in Contents(t) ==> !Overlap(e.region, Region(r.end, r.start))
    ensures Get(t, r).None?
    ensures var t', q := Insert(t, r, dev), Region(r.start - 1, r.start);
            && NonEmpty(q) && (forall x :: !(Contains(r, x) && Contains(q, x)))
            && (forall e :: e in Contents(t) ==> !Overlap(e.region, q))
            && (Get(t', q).Some? || Get(Insert(t', q, other), Region(q.start, q.start)).None?)
  {
    var q := Region(r.start - 1, r.start);
    if t.Node? {
      var k := t.entry.region;
      assert t.entry in Contents(t) && !Overlap(k, Region(r.end, r.start));
      if r.start < k.start {
        EmptyRangeBreaksSearch(t.left, lo, k.start, r, dev, other);
      } else {
        EmptyRangeBreaksSearch(t.right, k.end + 1, hi, r, dev, other);
      }
    } else {
      var t' := Insert(t, r, dev);
      if Get(t', q).None? { assert Insert(t', q, other) == Node(Leaf, Entry(r, dev), Insert(Leaf, q, other)); }
    }
  }

  // ---- the device map ------------------------------------------------------

  datatype DeviceRegion = PortIo(region: Region) | MemIo(region: Region)

  const PORT_LIMIT: nat := 0x1_0000
  const ADDR_LIMIT: nat := 0x1_0000_0000_0000_0000

  predicate InRange(r: DeviceRegion) {
    NonEmpty(r.region) && r.region.end < if r.PortIo? then PORT_LIMIT else ADDR_LIMIT
  }

  /** The entries a device's first `n` regions of one kind make. */
  function Claimed(services: seq<DeviceRegion>, n: nat, dev: nat, ports: bool): set<Entry>
    requires n <= |services|
  {
    if n == 0 then {}
    else Claimed(services, n - 1, dev, ports)
         + if services[n - 1].PortIo? == ports then {Entry(services[n - 1].region, dev)} else {}
  }

  /** The device covers the port or address with one of its regions. */
  ghost predicate Covers(services: seq<DeviceRegion>, ports: bool, x: nat) {
    exists i :: 0 <= i < |services| && services[i].PortIo? == ports && Contains(services[i].region, x)
  }

  /** A device claims exactly its whole regions of that kind. */
  lemma {:induction false} ClaimedMeans(services: seq<DeviceRegion>, n: nat, dev: nat, ports: bool, e: Entry)
    requires n <= |services|
    ensures e in Claimed(services, n, dev, ports) <==>
            exists i :: 0 <= i < n && services[i].PortIo? == ports && e == Entry(services[i].region, dev)
  {
    if n > 0 { ClaimedMeans(services, n - 1, dev, ports, e); }
  }

  class DeviceMap {
    var portio: Tree
    var memio: Tree

    ghost predicate Valid()
      reads this
    {
      Sorted(portio, 0, PORT_LIMIT) && Sorted(memio, 0, ADDR_LIMIT)
    }

    constructor ()
      ensures Valid() && Contents(portio) == {} && Contents(memio) == {}
    {
      portio, memio := Leaf, Leaf;
    }

    /** `find_device` for a port. */
    method FindPort(port: nat) returns (r: Option<nat>)
      requires Valid()
      ensures forall dev ::
                r == Some(dev) <==> exists e :: e in Contents(portio) && Contains(e.region, port) && e.dev == dev
    {
      var found := Get(portio, Region(port, port));
      r := if found.Some? then Some(found.value.dev) else None;
      forall e ensures found == Some(e) <==> e in Contents(portio) && Contains(e.region, port) {
        LookupIsScan(portio, 0, PORT_LIMIT, port, e);
      }
      assert r.Some? ==> found.value in Contents(portio);
    }

    /** `find_device` for a guest physical address. */
    method FindAddress(addr: nat) returns (r: Option<nat>)
      requires Valid()
      ensures forall dev ::
                r == Some(dev) <==> exists e :: e in Contents(memio) && Contains(e.region, addr) && e.dev == dev
    {
      var found := Get(memio, Region(addr, addr));
      r := if found.Some? then Some(found.value.dev) else None;
      forall e ensures found == Some(e) <==> e in Contents(memio) && Contains(e.region, addr) {
        LookupIsScan(memio, 0, ADDR_LIMIT, addr, e);
      }
      assert r.Some? ==> found.value in Contents(memio);
    }

    /**
      `register_device`: claims the regions in order up to the first that overlaps
      one already claimed. All earlier entries stay; on an error the regions
      before the conflicting one are claimed and nothing else.
    */
    method RegisterDevice(dev: nat, services: seq<DeviceRegion>) returns (ok: bool, ghost claimed: nat)
      requires Valid() && forall i :: 0 <= i < |services| ==> InRange(services[i])
      modifies this
      ensures Valid() && claimed <= |services| && (ok <==> claimed == |services|)
      ensures Contents(portio) == old(Contents(portio)) + Claimed(services, claimed, dev, true)
      ensures Contents(memio) == old(Contents(memio)) + Claimed(services, claimed, dev, false)
      ensures !ok ==> exists e :: e in Contents(if services[claimed].PortIo? then portio else memio)
                                  && Overlap(e.region, services[claimed].region)
    {
      hide Sorted, Get, Insert, Contents, Overlap;
      claimed := 0;
      for i := 0 to |services|
        invariant Valid() && claimed == i
        invariant Contents(portio) == old(Contents(portio)) + Claimed(services, i, dev, true)
        invariant Contents(memio) == old(Contents(memio)) + Claimed(services, i, dev, false)
      {
        var key := services[i].region;
        if services[i].PortIo? {
          SearchFinds(portio, 0, PORT_LIMIT, key);
          if Get(portio, key).Some? { return false, i; }
          InsertKeepsSorted(portio, 0, PORT_LIMIT, key, dev);
          portio := Insert(portio, key, dev);
        } else {
          SearchFinds(memio, 0, ADDR_LIMIT, key);
          if Get(memio, key).Some? { return false, i; }
          InsertKeepsSorted(memio, 0, ADDR_LIMIT, key, dev);
          memio := Insert(memio, key, dev);
        }
        claimed := i + 1;
      }
      ok := true;
    }

    /** The device a lookup of a port or an address finds. */
    ghost predicate Answers(ports: bool, x: nat, dev: nat)
      reads this
    {
      exists e :: e in Contents(if ports then portio else memio) && Contains(e.region, x) && e.dev == dev
    }

    /**
      Registering a device and then looking something up: every port and address
      of every region of a registered device finds that device, and everything
      outside finds what it found before.
    */
    method RegisterThenFind(dev: nat, services: seq<DeviceRegion>, ports: bool, x: nat)
      returns (ok: bool, found: Option<nat>)
      requires Valid() && forall i :: 0 <= i < |services| ==> InRange(services[i])
      modifies this
      ensures Valid()
      ensures ok && Covers(services, ports, x) ==> found == Some(dev)
      ensures !Covers(services, ports, x) ==> forall d: nat :: found == Some(d) <==> old(Answers(ports, x, d))
    {
      hide Sorted, Contents, Contains;
      ghost var before := Contents(if ports then portio else memio);
      ghost var claimed: nat;
      ok, claimed := RegisterDevice(dev, services);
      if ports { found := FindPort(x); } else { found := FindAddress(x); }
      ghost var after := Contents(if ports then portio else memio);
      assert after == before + Claimed(services, claimed, dev, ports);
      if ok && Covers(services, ports, x) {
        var i :| 0 <= i < |services| && services[i].PortIo? == ports && Contains(services[i].region, x);
        ClaimedMeans(services, claimed, dev, ports, Entry(services[i].region, dev));
        assert Entry(services[i].region, dev) in after;
      }
      if !Covers(services, ports, x) {
        forall e | e in Claimed(services, claimed, dev, ports) ensures !Contains(e.region, x) {
          ClaimedMeans(services, claimed, dev, ports, e);
        }
      }
    }
  }
}
