/**
  Byte access to guest memory (memory.rs, `read_bytes` and `write_bytes`), for a
  guest that runs without paging: loops over frames that together act on one
  flat array of bytes.
*/
module GuestBytes {
  import opened Common
  import opened EptEntry
  import opened Ept
  import opened HostMemory

  /** The byte of guest memory at an address below 2^48, if its page is mapped. */
  function ByteAt(t: Tables, pages: map<HostAddr, PageData>, root: HostAddr, a: nat): Option<Byte> {
    var m := Lookup(t, root, a / PAGE_SIZE);
    if m.Some? && m.value.frame in pages && |pages[m.value.frame]| == PAGE_SIZE
    then Some(pages[m.value.frame][a % PAGE_SIZE]) else None
  }

  /** A range ends below 2^48; an empty range still looks up the page it starts in. */
  predicate InGuest(addr: nat, length: nat) {
    addr < GUEST_LIMIT && addr + length <= GUEST_LIMIT
  }

  /** The pages an access of `length` bytes looks up are all mapped. */
  ghost predicate RangeMapped(t: Tables, root: HostAddr, addr: nat, length: nat) {
    forall p: nat :: addr / PAGE_SIZE <= p && (p == addr / PAGE_SIZE || p * PAGE_SIZE < addr + length) ==>
      Lookup(t, root, p).Some?
  }

  /** The frames below `done` bytes and the one at `done` cover the rest of the range. */
  lemma RangeCovered(t: Tables, root: HostAddr, addr: nat, done: nat, length: nat)
    requires done <= length && (addr + done) % PAGE_SIZE + (length - done) <= PAGE_SIZE
    requires forall p: nat :: addr / PAGE_SIZE <= p < (addr + done) / PAGE_SIZE ==> Lookup(t, root, p).Some?
    requires Lookup(t, root, (addr + done) / PAGE_SIZE).Some?
    ensures RangeMapped(t, root, addr, length)
  {
    hide Lookup;
  }

  lemma PageUnmapped(t: Tables, root: HostAddr, addr: nat, done: nat, length: nat)
    requires done == 0 || (done < length && (addr + done) % PAGE_SIZE == 0)
    requires Lookup(t, root, (addr + done) / PAGE_SIZE) == None
    ensures !RangeMapped(t, root, addr, length)
  {
    hide Lookup;
  }

  lemma NextFrame(addr: nat, iter: nat)
    ensures var n := PAGE_SIZE - addr % PAGE_SIZE;
            (addr + n) % PAGE_SIZE == 0 && (addr + n) / PAGE_SIZE == addr / PAGE_SIZE + 1
    ensures (iter + PAGE_SIZE) / PAGE_SIZE == iter / PAGE_SIZE + 1
  {
  }

  function Patched(page: PageData, offset: nat, bytes: seq<Byte>): PageData
    requires offset + |bytes| <= |page|
  {
    page[..offset] + bytes + page[offset + |bytes|..]
  }

  lemma PageOf(a: nat)
    requires a < GUEST_LIMIT
    ensures Page(a) == a / PAGE_SIZE < GUEST_PAGES
  {
  }

  /** Patching the frame of one page changes the bytes of that page of that space and no other byte. */
  lemma PatchIsLocal(mem: HostMemory, root: HostAddr, addr: nat, bytes: seq<Byte>, f: HostAddr,
                     pages': map<HostAddr, PageData>, s: HostAddr, a: nat)
    requires mem.Valid() && mem.Owned() && mem.Space(root) && mem.Space(s)
    requires InGuest(addr, |bytes|) && addr % PAGE_SIZE + |bytes| <= PAGE_SIZE && a < GUEST_LIMIT
    requires Lookup(mem.tables, root, addr / PAGE_SIZE).Some?
    requires f == Lookup(mem.tables, root, addr / PAGE_SIZE).value.frame && f in mem.pages
    requires pages' == mem.pages[f := Patched(mem.pages[f], addr % PAGE_SIZE, bytes)]
    ensures ByteAt(mem.tables, pages', s, a) ==
            if s == root && addr <= a < addr + |bytes| then Some(bytes[a - addr])
            else ByteAt(mem.tables, mem.pages, s, a)
  {
    hide Lookup;
    PageOf(a);
    PageOf(addr);
    if Lookup(mem.tables, s, a / PAGE_SIZE).Some? {
      mem.FramesNeverShared(s, a / PAGE_SIZE, root, addr / PAGE_SIZE);
    }
  }

  /** `pages` holds what `before` held, except that `bytes` were written at `addr` in the space `root`. */
  ghost predicate Wrote(t: Tables, roles: map<HostAddr, Role>, before: map<HostAddr, PageData>,
                        pages: map<HostAddr, PageData>, root: HostAddr, addr: nat, bytes: seq<Byte>)
  {
    forall s, a: nat :: IsRoot(t, roles, s) && a < GUEST_LIMIT ==>
      ByteAt(t, pages, s, a) == if s == root && addr <= a < addr + |bytes| then Some(bytes[a - addr])
                                else ByteAt(t, before, s, a)
  }

  lemma WroteThenWrote(t: Tables, roles: map<HostAddr, Role>, p0: map<HostAddr, PageData>,
                       p1: map<HostAddr, PageData>, p2: map<HostAddr, PageData>,
                       root: HostAddr, addr: nat, first: seq<Byte>, second: seq<Byte>)
    requires Wrote(t, roles, p0, p1, root, addr, first)
    requires Wrote(t, roles, p1, p2, root, addr + |first|, second)
    ensures Wrote(t, roles, p0, p2, root, addr, first + second)
  {
    hide ByteAt;
  }

  /** `copy_from_slice` into the frame of a page. */
  method PatchFrame(mem: HostMemory, ghost root: HostAddr, ghost addr: nat, f: HostAddr, offset: nat, bytes: seq<Byte>)
    requires mem.Valid() && mem.Owned() && mem.Space(root)
    requires offset == addr % PAGE_SIZE && InGuest(addr, |bytes|) && offset + |bytes| <= PAGE_SIZE
    requires Lookup(mem.tables, root, addr / PAGE_SIZE).Some?
    requires f == Lookup(mem.tables, root, addr / PAGE_SIZE).value.frame
    modifies mem`pages
    ensures mem.Valid() && mem.Owned()
    ensures mem.pages.Keys == old(mem.pages).Keys
    ensures Wrote(mem.tables, mem.roles, old(mem.pages), mem.pages, root, addr, bytes)
  {
    hide Lookup, TreeInv;
    mem.MappedFrameHome(root, addr / PAGE_SIZE);
    var patched := mem.pages[f := Patched(mem.pages[f], offset, bytes)];
    forall s, a: nat | mem.Space(s) && a < GUEST_LIMIT
      ensures ByteAt(mem.tables, patched, s, a) ==
              if s == root && addr <= a < addr + |bytes| then Some(bytes[a - addr])
              else ByteAt(mem.tables, mem.pages, s, a)
    {
      PatchIsLocal(mem, root, addr, bytes, f, patched, s, a);
    }
    mem.pages := patched;
  }

  /**
    `write_bytes`. It succeeds exactly when every page it reaches is mapped, and
    then the guest's memory is updated by the bytes. A failing write has written
    the bytes up to the start of the first page that is not mapped. No other
    space sees a change.
  */
  method WriteBytes(mem: HostMemory, root: HostAddr, addr: nat, bytes: seq<Byte>)
    returns (ok: bool, ghost written: nat)
    requires mem.Valid() && mem.Owned() && mem.Space(root) && InGuest(addr, |bytes|)
    modifies mem`pages
    ensures mem.Valid() && mem.Owned()
    ensures mem.pages.Keys == old(mem.pages).Keys
    ensures ok <==> RangeMapped(mem.tables, root, addr, |bytes|)
    ensures written <= |bytes| && Wrote(mem.tables, mem.roles, old(mem.pages), mem.pages, root, addr, bytes[..written])
    ensures ok ==> written == |bytes|
    ensures !ok ==> Lookup(mem.tables, root, (addr + written) / PAGE_SIZE) == None
    ensures !ok && written > 0 ==> (addr + written) % PAGE_SIZE == 0
  {
    hide Lookup, Wrote, RangeMapped, HostMemory.Valid, HostMemory.Owned;
    var rest, iter, offset := bytes, addr, addr % PAGE_SIZE;
    written := 0;
    assert Wrote(mem.tables, mem.roles, old(mem.pages), mem.pages, root, addr, bytes[..0]) by {
      WroteNothing(mem.tables, mem.roles, mem.pages, root, addr);
    }
    while true
      invariant written <= |bytes| && rest == bytes[written..]
      invariant iter / PAGE_SIZE == (addr + written) / PAGE_SIZE && offset == (addr + written) % PAGE_SIZE
      invariant written > 0 ==> offset == 0 && rest != []
      invariant mem.Valid() && mem.Owned() && mem.pages.Keys == old(mem.pages).Keys
      invariant forall p: nat :: addr / PAGE_SIZE <= p < (addr + written) / PAGE_SIZE ==>
                  Lookup(mem.tables, root, p).Some?
      invariant Wrote(mem.tables, mem.roles, old(mem.pages), mem.pages, root, addr, bytes[..written])
      decreases |rest|
    {
      PageOf(addr + written);
      PageOf(iter);
      var frame := mem.FindHostFrame(root, iter);
      iter := iter + PAGE_SIZE;
      if !frame.Found? {
        PageUnmapped(mem.tables, root, addr, written, |bytes|);
        return false, written;
      }
      NextFrame(addr + written, iter - PAGE_SIZE);
      ghost var before := mem.pages;
      if offset + |rest| <= PAGE_SIZE {
        PatchFrame(mem, root, addr + written, frame.frame, offset, rest);
        WroteThenWrote(mem.tables, mem.roles, old(mem.pages), before, mem.pages, root, addr, bytes[..written], rest);
        assert bytes[..written] + rest == bytes[..|bytes|];
        RangeCovered(mem.tables, root, addr, written, |bytes|);
        return true, |bytes|;
      }
      var n := PAGE_SIZE - offset;
      PatchFrame(mem, root, addr + written, frame.frame, offset, rest[..n]);
      WroteThenWrote(mem.tables, mem.roles, old(mem.pages), before, mem.pages, root, addr, bytes[..written], rest[..n]);
      assert bytes[..written] + rest[..n] == bytes[..written + n];
      rest, written, offset := rest[n..], written + n, 0;
    }
  }

  lemma WroteNothing(t: Tables, roles: map<HostAddr, Role>, pages: map<HostAddr, PageData>, root: HostAddr, addr: nat)
    ensures Wrote(t, roles, pages, pages, root, addr, [])
  {
  }

  /** `out` is the guest memory of `root` from `addr` on. */
  ghost predicate Holds(t: Tables, pages: map<HostAddr, PageData>, root: HostAddr, addr: nat, out: seq<Byte>) {
    forall k :: 0 <= k < |out| ==> ByteAt(t, pages, root, addr + k) == Some(out[k])
  }

  lemma HoldsJoin(t: Tables, pages: map<HostAddr, PageData>, root: HostAddr, addr: nat, a: seq<Byte>, b: seq<Byte>)
    requires Holds(t, pages, root, addr, a) && Holds(t, pages, root, addr + |a|, b)
    ensures Holds(t, pages, root, addr, a + b)
  {
    hide ByteAt;
    forall k | 0 <= k < |a + b|
      ensures ByteAt(t, pages, root, addr + k) == Some((a + b)[k])
    {
      if k >= |a| { assert addr + k == addr + |a| + (k - |a|); }
    }
  }

  lemma FrameHolds(mem: HostMemory, root: HostAddr, addr: nat, f: HostAddr, offset: nat, n: nat)
    requires mem.Valid() && mem.Owned() && mem.Space(root)
    requires offset == addr % PAGE_SIZE && offset + n <= PAGE_SIZE
    requires Lookup(mem.tables, root, addr / PAGE_SIZE).Some?
    requires f == Lookup(mem.tables, root, addr / PAGE_SIZE).value.frame
    ensures f in mem.pages && |mem.pages[f]| == PAGE_SIZE
    ensures Holds(mem.tables, mem.pages, root, addr, mem.pages[f][offset..offset + n])
  {
    hide Lookup, TreeInv;
    mem.MappedFrameHome(root, addr / PAGE_SIZE);
  }

  /**
    `read_bytes`. It succeeds exactly when every page it reaches is mapped, and
    then returns that slice of the guest's memory.
  */
  method ReadBytes(mem: HostMemory, root: HostAddr, addr: nat, length: nat) returns (r: Option<seq<Byte>>)
    requires mem.Valid() && mem.Owned() && mem.Space(root) && InGuest(addr, length)
    ensures r.Some? <==> RangeMapped(mem.tables, root, addr, length)
    ensures r.Some? ==> |r.value| == length && Holds(mem.tables, mem.pages, root, addr, r.value)
  {
    hide Lookup, Holds, RangeMapped, HostMemory.Valid, HostMemory.Owned;
    var out, left, iter, offset := [], length, addr, addr % PAGE_SIZE;
    assert Holds(mem.tables, mem.pages, root, addr, []) by {
      HoldsNothing(mem.tables, mem.pages, root, addr);
    }
    while true
      invariant |out| + left == length
      invariant iter / PAGE_SIZE == (addr + |out|) / PAGE_SIZE && offset == (addr + |out|) % PAGE_SIZE
      invariant out != [] ==> offset == 0 && left > 0
      invariant forall p: nat :: addr / PAGE_SIZE <= p < (addr + |out|) / PAGE_SIZE ==>
                  Lookup(mem.tables, root, p).Some?
      invariant Holds(mem.tables, mem.pages, root, addr, out)
      decreases left
    {
      PageOf(addr + |out|);
      PageOf(iter);
      var frame := mem.FindHostFrame(root, iter);
      iter := iter + PAGE_SIZE;
      if !frame.Found? {
        PageUnmapped(mem.tables, root, addr, |out|, length);
        return None;
      }
      NextFrame(addr + |out|, iter - PAGE_SIZE);
      var n := if offset + left <= PAGE_SIZE then left else PAGE_SIZE - offset;
      FrameHolds(mem, root, addr + |out|, frame.frame, offset, n);
      var slice := mem.pages[frame.frame][offset..offset + n];
      HoldsJoin(mem.tables, mem.pages, root, addr, out, slice);
      if left == n { RangeCovered(mem.tables, root, addr, |out|, length); }
      out, left := out + slice, left - n;
      if left == 0 { return Some(out); }
      offset := 0;
    }
  }

  lemma HoldsNothing(t: Tables, pages: map<HostAddr, PageData>, root: HostAddr, addr: nat)
    ensures Holds(t, pages, root, addr, [])
  {
  }

  /** Bytes written to a mapped range are the bytes read back from it. */
  method WriteThenRead(mem: HostMemory, root: HostAddr, addr: nat, bytes: seq<Byte>) returns (r: Option<seq<Byte>>)
    requires mem.Valid() && mem.Owned() && mem.Space(root) && InGuest(addr, |bytes|)
    modifies mem`pages
    ensures r == if RangeMapped(mem.tables, root, addr, |bytes|) then Some(bytes) else None
  {
    hide Lookup, HostMemory.Valid, HostMemory.Owned, ByteAt;
    var ok, written := WriteBytes(mem, root, addr, bytes);
    r := ReadBytes(mem, root, addr, |bytes|);
    if ok {
      assert bytes[..written] == bytes;
      forall k | 0 <= k < |bytes|
        ensures r.value[k] == bytes[k]
      {
        assert ByteAt(mem.tables, mem.pages, root, addr + k) == Some(r.value[k]);
      }
      assert r.value == bytes;
    }
  }
}
