/**
  The DMA engine of the fw_cfg device (virtdev/qemu_fw_cfg.rs): requests and
  replies are big-endian records in guest memory, and a read copies the next
  slice of the selected item into the guest.
*/
module FwCfg {
  import opened Bits
  import opened Common
  import opened Endian
  import opened EptEntry
  import opened Ept
  import opened HostMemory
  import opened GuestBytes

  const DESC_SIZE: nat := 16

  datatype DmaFlags = DmaFlags(error: bool, read: bool, skip: bool, select: bool, write: bool)

  /** `DmaControlFlags::from_bits_truncate`. */
  function FlagsOf(bits: nat): DmaFlags {
    DmaFlags(bits % 2 == 1, bits / 2 % 2 == 1, bits / 4 % 2 == 1, bits / 8 % 2 == 1, bits / 16 % 2 == 1)
  }

  function BitsOf(f: DmaFlags): nat {
    (if f.error then 1 else 0) + (if f.read then 2 else 0) + (if f.skip then 4 else 0)
    + (if f.select then 8 else 0) + (if f.write then 16 else 0)
  }

  datatype DmaRequest = DmaRequest(control: DmaFlags, select: nat, length: nat, address: nat)

  function DecodeRequest(raw: seq<Byte>): DmaRequest
    requires |raw| == DESC_SIZE
  {
    var control := FromBE(raw[..4]);
    DmaRequest(FlagsOf(control % 0x1_0000), control / 0x1_0000, FromBE(raw[4..8]), FromBE(raw[8..]))
  }

  /** The record written back; the selector half of the control word is dropped. */
  function EncodeReply(req: DmaRequest): (raw: seq<Byte>)
    ensures |raw| == DESC_SIZE
  {
    BE(4, BitsOf(req.control)) + BE(4, req.length) + BE(8, req.address)
  }

  /** How a guest lays out a request. */
  function EncodeRequest(req: DmaRequest): (raw: seq<Byte>)
    ensures |raw| == DESC_SIZE
  {
    BE(4, req.select * 0x1_0000 + BitsOf(req.control)) + BE(4, req.length) + BE(8, req.address)
  }

  predicate RequestFits(req: DmaRequest) {
    req.select < 0x1_0000 && req.length < 0x1_0000_0000 && req.address < 0x1_0000_0000_0000_0000
  }

  lemma FlagsRoundTrip(f: DmaFlags)
    ensures FlagsOf(BitsOf(f)) == f && BitsOf(f) < 32
  {
  }

  lemma RequestRoundTrip(req: DmaRequest)
    requires RequestFits(req)
    ensures DecodeRequest(EncodeRequest(req)) == req
  {
    hide BE, FromBE, Pow256, BitsOf, FlagsOf;
    var raw := EncodeRequest(req);
    var control := req.select * 0x1_0000 + BitsOf(req.control);
    FlagsRoundTrip(req.control);
    WordSizes();
    BERoundTrip(4, control);
    BERoundTrip(4, req.length);
    BERoundTrip(8, req.address);
    assert raw[..4] == BE(4, control) && raw[4..8] == BE(4, req.length) && raw[8..] == BE(8, req.address);
    assert control / 0x1_0000 == req.select && control % 0x1_0000 == BitsOf(req.control);
  }

  /** A reply differs from its request in the control word only: length and address are where they were. */
  lemma ReplyKeepsRest(req: DmaRequest, control: DmaFlags)
    ensures EncodeReply(req.(control := control))[4..] == EncodeRequest(req)[4..]
  {
    hide BE;
  }

  // ---- what one transfer does ----------------------------------------------

  type Items = map<nat, seq<Byte>>

  datatype Cursor = Cursor(selector: nat, idx: nat)

  /** SELECT moves to the start of an item; SKIP moves to the given position of the item. */
  function Seek(c: Cursor, req: DmaRequest): Cursor {
    var c1 := if req.control.select then Cursor(req.select, 0) else c;
    if req.control.skip then Cursor(c1.selector, req.length) else c1
  }

  predicate Delivers(items: Items, c: Cursor, req: DmaRequest) {
    req.control.read && Seek(c, req).selector in items
  }

  /** The read stays within the item; the device panics otherwise. */
  predicate InItem(items: Items, c: Cursor, req: DmaRequest) {
    Delivers(items, c, req) ==> Seek(c, req).idx + req.length <= |items[Seek(c, req).selector]|
  }

  function SliceFor(items: Items, c: Cursor, req: DmaRequest): seq<Byte>
    requires InItem(items, c, req)
  {
    var at := Seek(c, req);
    if Delivers(items, c, req) then items[at.selector][at.idx..at.idx + req.length] else []
  }

  function CursorAfter(items: Items, c: Cursor, req: DmaRequest): Cursor {
    var at := Seek(c, req);
    if Delivers(items, c, req) then Cursor(at.selector, at.idx + req.length) else at
  }

  /** The error a transfer reports: a missing item, a write, or one the guest left set. */
  predicate Fails(items: Items, c: Cursor, req: DmaRequest) {
    if req.control.read && !Delivers(items, c, req) then true else req.control.error || req.control.write
  }

  function Reply(items: Items, c: Cursor, req: DmaRequest): DmaRequest {
    req.(control := DmaFlags(Fails(items, c, req), false, false, false, false))
  }

  /** Where a request reads: which item, from where, and whether there is anything to read. */
  lemma RequestMeans(items: Items, c: Cursor, req: DmaRequest)
    ensures var key := if req.control.select then req.select else c.selector;
            && Seek(c, req).selector == key
            && Seek(c, req).idx ==
               (if req.control.skip then req.length else if req.control.select then 0 else c.idx)
            && (Delivers(items, c, req) <==> req.control.read && key in items)
            && (CursorAfter(items, c, req).idx - Seek(c, req).idx ==
                if req.control.read && key in items then req.length else 0)
  {
  }

  /** A request is refused if it reads an item there is not, writes, or had the error set by the guest. */
  predicate Refused(items: Items, c: Cursor, req: DmaRequest) {
    var key := if req.control.select then req.select else c.selector;
    (req.control.read && key !in items) || req.control.write || req.control.error
  }

  /** The control word of a reply is ERROR for a refused request and 0 for any other. */
  lemma ReplyControlWord(items: Items, c: Cursor, req: DmaRequest)
    ensures FromBE(EncodeReply(Reply(items, c, req))[..4]) == if Refused(items, c, req) then 1 else 0
  {
    var bits := BitsOf(Reply(items, c, req).control);
    WordSizes();
    BERoundTrip(4, bits);
    assert EncodeReply(Reply(items, c, req))[..4] == BE(4, bits);
  }

  /** Guest memory after a transfer: the slice at its target, then the reply over the request. */
  ghost predicate Transferred(t: Tables, roles: map<HostAddr, Role>, before: map<HostAddr, PageData>,
                              pages: map<HostAddr, PageData>, root: HostAddr,
                              target: nat, slice: seq<Byte>, desc: nat, reply: seq<Byte>)
  {
    forall s, a: nat :: IsRoot(t, roles, s) && a < GUEST_LIMIT ==>
      ByteAt(t, pages, s, a) ==
        if s == root && desc <= a < desc + |reply| then Some(reply[a - desc])
        else if s == root && target <= a < target + |slice| then Some(slice[a - target])
        else ByteAt(t, before, s, a)
  }

  /** A write that stopped: a prefix is in place, up to the start of a page that is not mapped. */
  ghost predicate WrotePrefix(t: Tables, roles: map<HostAddr, Role>, before: map<HostAddr, PageData>,
                              pages: map<HostAddr, PageData>, root: HostAddr, addr: nat, bytes: seq<Byte>, n: nat)
  {
    && n <= |bytes| && Wrote(t, roles, before, pages, root, addr, bytes[..n])
    && Lookup(t, root, (addr + n) / PAGE_SIZE) == None && (n > 0 ==> (addr + n) % PAGE_SIZE == 0)
  }

  lemma TwoWrites(t: Tables, roles: map<HostAddr, Role>, p0: map<HostAddr, PageData>, p1: map<HostAddr, PageData>,
                  p2: map<HostAddr, PageData>, root: HostAddr, target: nat, slice: seq<Byte>, desc: nat,
                  reply: seq<Byte>)
    requires Wrote(t, roles, p0, p1, root, target, slice) && Wrote(t, roles, p1, p2, root, desc, reply)
    ensures Transferred(t, roles, p0, p2, root, target, slice, desc, reply)
  {
    hide ByteAt, IsRoot;
  }

  lemma SameBytes(t: Tables, pages: map<HostAddr, PageData>, root: HostAddr, addr: nat, a: seq<Byte>, b: seq<Byte>)
    requires Holds(t, pages, root, addr, a) && Holds(t, pages, root, addr, b) && |a| == |b|
    ensures a == b
  {
    hide ByteAt;
    forall k | 0 <= k < |a| ensures a[k] == b[k] {
      assert ByteAt(t, pages, root, addr + k) == Some(a[k]);
    }
  }

  class QemuFwCfg {
    var selector: nat
    var data: Items
    var dataIdx: nat
    var dmaAddr: nat

    ghost function Position(): Cursor
      reads this
    {
      Cursor(selector, dataIdx)
    }

    /** `read_selector`. */
    method ReadSelector(length: nat) returns (r: Option<seq<Byte>>)
      requires selector in data ==> dataIdx + length <= |data[selector]|
      modifies this`dataIdx
      ensures selector !in data ==> r == None && dataIdx == old(dataIdx)
      ensures selector in data ==> dataIdx == old(dataIdx) + length && r == Some(data[selector][old(dataIdx)..dataIdx])
    {
      if selector in data {
        r := Some(data[selector][dataIdx..dataIdx + length]);
        dataIdx := dataIdx + length;
      } else {
        r := None;
      }
    }

    /**
      `perform_dma_transfer` for the request `raw` lying at `dmaAddr`. It succeeds
      exactly when the request and the target of a delivering read are mapped.
      With the request unmapped nothing changes at all; with the target unmapped
      the cursor has moved and a prefix of the slice is in place.
    */
    method PerformDma(mem: HostMemory, root: HostAddr, ghost raw: seq<Byte>) returns (ok: bool)
      requires mem.Valid() && mem.Owned() && mem.Space(root) && InGuest(dmaAddr, DESC_SIZE) && |raw| == DESC_SIZE
      requires RangeMapped(mem.tables, root, dmaAddr, DESC_SIZE) ==> Holds(mem.tables, mem.pages, root, dmaAddr, raw)
      requires InItem(data, Position(), DecodeRequest(raw))
      requires Delivers(data, Position(), DecodeRequest(raw)) ==>
                 InGuest(DecodeRequest(raw).address, DecodeRequest(raw).length)
      modifies this`selector, this`dataIdx, mem`pages
      ensures mem.Valid() && mem.Owned()
      ensures ok <==> RangeMapped(mem.tables, root, dmaAddr, DESC_SIZE) &&
                      (Delivers(data, old(Position()), DecodeRequest(raw)) ==>
                        RangeMapped(mem.tables, root, DecodeRequest(raw).address, DecodeRequest(raw).length))
      ensures !RangeMapped(mem.tables, root, dmaAddr, DESC_SIZE) ==>
                mem.pages == old(mem.pages) && Position() == old(Position())
      ensures RangeMapped(mem.tables, root, dmaAddr, DESC_SIZE) ==>
                Position() == CursorAfter(data, old(Position()), DecodeRequest(raw))
      ensures RangeMapped(mem.tables, root, dmaAddr, DESC_SIZE) && !ok ==>
                exists n :: 0 <= n <= DecodeRequest(raw).length &&
                  WrotePrefix(mem.tables, mem.roles, old(mem.pages), mem.pages, root, DecodeRequest(raw).address,
                              SliceFor(data, old(Position()), DecodeRequest(raw)), n)
      ensures ok ==>
                var req := DecodeRequest(raw);
                Transferred(mem.tables, mem.roles, old(mem.pages), mem.pages, root,
                            req.address, SliceFor(data, old(Position()), req),
                            dmaAddr, EncodeReply(Reply(data, old(Position()), req)))
    {
      hide Lookup, RangeMapped, Holds, Wrote, Transferred, HostMemory.Valid, HostMemory.Owned, DecodeRequest,
           EncodeReply;
      var bytes := ReadBytes(mem, root, dmaAddr, DESC_SIZE);
      if bytes.None? { return false; }
      SameBytes(mem.tables, mem.pages, root, dmaAddr, bytes.value, raw);
      var request := DecodeRequest(bytes.value);
      ghost var req := request;

      if request.control.select {
        selector := request.select;
        dataIdx := 0;
        request := request.(control := request.control.(select := false));
      }
      if request.control.skip {
        dataIdx := request.length;
        request := request.(control := request.control.(skip := false));
      }
      ghost var slice := [];
      if request.control.read {
        var d := ReadSelector(request.length);
        if d.Some? {
          slice := d.value;
          var wrote, written := WriteBytes(mem, root, request.address, d.value);
          if !wrote {
            assert d.value == SliceFor(data, old(Position()), req);
            assert WrotePrefix(mem.tables, mem.roles, old(mem.pages), mem.pages, root, req.address, d.value, written);
            return false;
          }
          assert d.value[..written] == d.value;
        } else {
          request := request.(control := DmaFlags(true, false, false, false, false));
        }
        request := request.(control := request.control.(read := false));
      }
      if request.control.write {
        request := request.(control := request.control.(write := false, error := true));
      }
      ghost var mid := mem.pages;
      if slice == [] { WroteNothing(mem.tables, mem.roles, mem.pages, root, req.address); }
      assert Wrote(mem.tables, mem.roles, old(mem.pages), mid, root, req.address, slice);
      var done, written := WriteBytes(mem, root, dmaAddr, EncodeReply(request));
      assert EncodeReply(request)[..written] == EncodeReply(request);
      TwoWrites(mem.tables, mem.roles, old(mem.pages), mid, mem.pages, root, req.address, slice,
                dmaAddr, EncodeReply(request));
      ok := true;
    }

    /** The high half of the request address; ports carry it byte-swapped. */
    method WriteDmaHigh(val: nat)
      requires val < 0x1_0000_0000
      modifies this`dmaAddr
      ensures dmaAddr == Swap32(val) * 0x1_0000_0000
    {
      dmaAddr := Swap32(val) * 0x1_0000_0000;
    }

    /** The low half, which starts the transfer; the address is cleared when it succeeds. */
    method WriteDmaLow(val: nat, mem: HostMemory, root: HostAddr, ghost desc: nat, ghost raw: seq<Byte>)
      returns (ok: bool)
      requires val < 0x1_0000_0000 && dmaAddr == desc / 0x1_0000_0000 * 0x1_0000_0000
      requires Swap32(val) == desc % 0x1_0000_0000
      requires mem.Valid() && mem.Owned() && mem.Space(root) && InGuest(desc, DESC_SIZE) && |raw| == DESC_SIZE
      requires RangeMapped(mem.tables, root, desc, DESC_SIZE) ==> Holds(mem.tables, mem.pages, root, desc, raw)
      requires InItem(data, Position(), DecodeRequest(raw))
      requires Delivers(data, Position(), DecodeRequest(raw)) ==>
                 InGuest(DecodeRequest(raw).address, DecodeRequest(raw).length)
      modifies this`selector, this`dataIdx, this`dmaAddr, mem`pages
      ensures mem.Valid() && mem.Owned()
      ensures ok <==> RangeMapped(mem.tables, root, desc, DESC_SIZE) &&
                      (Delivers(data, old(Position()), DecodeRequest(raw)) ==>
                        RangeMapped(mem.tables, root, DecodeRequest(raw).address, DecodeRequest(raw).length))
      ensures dmaAddr == if ok then 0 else desc
      ensures !RangeMapped(mem.tables, root, desc, DESC_SIZE) ==>
                mem.pages == old(mem.pages) && Position() == old(Position())
      ensures RangeMapped(mem.tables, root, desc, DESC_SIZE) ==>
                Position() == CursorAfter(data, old(Position()), DecodeRequest(raw))
      ensures RangeMapped(mem.tables, root, desc, DESC_SIZE) && !ok ==>
                exists n :: 0 <= n <= DecodeRequest(raw).length &&
                  WrotePrefix(mem.tables, mem.roles, old(mem.pages), mem.pages, root, DecodeRequest(raw).address,
                              SliceFor(data, old(Position()), DecodeRequest(raw)), n)
      ensures ok ==>
                var req := DecodeRequest(raw);
                Transferred(mem.tables, mem.roles, old(mem.pages), mem.pages, root,
                            req.address, SliceFor(data, old(Position()), req),
                            desc, EncodeReply(Reply(data, old(Position()), req)))
    {
      hide Lookup, RangeMapped, Holds, Transferred, WrotePrefix, HostMemory.Valid, HostMemory.Owned, DecodeRequest,
           EncodeReply, Swap32, BitOr;
      JoinHalves(desc);
      dmaAddr := BitOr(dmaAddr, Swap32(val));
      ok := PerformDma(mem, root, raw);
      if !ok { return; }
      dmaAddr := 0;
    }
  }

  function Swap32(x: nat): (y: nat)
    requires x < 0x1_0000_0000
    ensures y < 0x1_0000_0000
  {
    x % 256 * 0x100_0000 + x / 256 % 256 * 0x1_0000 + x / 0x1_0000 % 256 * 256 + x / 0x100_0000
  }

  lemma Digits(a: Byte, b: Byte, c: Byte, d: Byte)
    ensures var y := a * 0x100_0000 + b * 0x1_0000 + c * 256 + d;
            y % 256 == d && y / 256 % 256 == c && y / 0x1_0000 % 256 == b && y / 0x100_0000 == a
  {
    var y := a * 0x100_0000 + b * 0x1_0000 + c * 256 + d;
    assert y / 256 == a * 0x1_0000 + b * 256 + c;
    assert y / 0x1_0000 == a * 256 + b;
  }

  lemma Swap32Twice(x: nat)
    requires x < 0x1_0000_0000
    ensures Swap32(Swap32(x)) == x
  {
    var p, q := x / 256, x / 256 / 256;
    assert x / 0x1_0000 == q && x / 0x100_0000 == q / 256;
    assert x == 256 * p + x % 256 && p == 256 * q + p % 256 && q == 256 * (q / 256) + q % 256;
    Digits(x % 256, p % 256, q % 256, q / 256);
  }

  /** It turns the number a little-endian port access carries into the big-endian number of the same bytes. */
  lemma Swap32IsBigEndian(a: Byte, b: Byte, c: Byte, d: Byte)
    ensures FromLE([a, b, c, d]) < 0x1_0000_0000 && Swap32(FromLE([a, b, c, d])) == FromBE([a, b, c, d])
  {
    hide FromLE, FromBE;
    FourLE(a, b, c, d);
    FourBE(a, b, c, d);
    Digits(d, c, b, a);
  }

  lemma FourLE(a: Byte, b: Byte, c: Byte, d: Byte)
    ensures FromLE([a, b, c, d]) == d * 0x100_0000 + c * 0x1_0000 + b * 256 + a
  {
    assert FromLE([]) == 0;
    hide FromLE;
    FromLEFirst(d, []);
    FromLEFirst(c, [d]);
    FromLEFirst(b, [c, d]);
    FromLEFirst(a, [b, c, d]);
    assert [d] + [] == [d] && [c] + [d] == [c, d] && [b] + [c, d] == [b, c, d] && [a] + [b, c, d] == [a, b, c, d];
  }

  lemma FourBE(a: Byte, b: Byte, c: Byte, d: Byte)
    ensures FromBE([a, b, c, d]) == a * 0x100_0000 + b * 0x1_0000 + c * 256 + d
  {
    assert FromBE([]) == 0;
    hide FromBE;
    FromBELast([], a);
    FromBELast([a], b);
    FromBELast([a, b], c);
    FromBELast([a, b, c], d);
    assert [] + [a] == [a] && [a] + [b] == [a, b] && [a, b] + [c] == [a, b, c] && [a, b, c] + [d] == [a, b, c, d];
  }

  lemma JoinHalves(desc: nat)
    ensures BitOr(desc / 0x1_0000_0000 * 0x1_0000_0000, desc % 0x1_0000_0000) == desc
  {
    hide Bitwise;
    var high, low := desc / 0x1_0000_0000 * 0x1_0000_0000, desc % 0x1_0000_0000;
    PowerValues();
    LowBitsOnly(Or, 32, high, 0, low);
    Identities(low);
  }

  // ---- runs of reads -------------------------------------------------------

  datatype Chunk = Chunk(target: nat, length: nat)

  predicate Covers(start: nat, length: nat, a: nat) {
    start <= a < start + length
  }

  predicate Apart(start: nat, length: nat, start': nat, length': nat) {
    start + length <= start' || start' + length' <= start
  }

  function LengthUpTo(chunks: seq<Chunk>, n: nat): nat
    requires n <= |chunks|
  {
    if n == 0 then 0 else LengthUpTo(chunks, n - 1) + chunks[n - 1].length
  }

  lemma LengthNext(chunks: seq<Chunk>, n: nat)
    requires n < |chunks|
    ensures LengthUpTo(chunks, n + 1) == LengthUpTo(chunks, n) + chunks[n].length
  {
  }

  lemma {:induction false} LengthGrows(chunks: seq<Chunk>, n: nat, m: nat)
    requires n <= m <= |chunks|
    ensures LengthUpTo(chunks, n) <= LengthUpTo(chunks, m)
  {
    if n < m { LengthGrows(chunks, n, m - 1); }
  }

  /** Targets lie in the guest, mapped, apart from each other and from the request record. */
  ghost predicate GoodTargets(t: Tables, root: HostAddr, desc: nat, chunks: seq<Chunk>) {
    && InGuest(desc, DESC_SIZE) && RangeMapped(t, root, desc, DESC_SIZE)
    && (forall j :: 0 <= j < |chunks| ==>
          && InGuest(chunks[j].target, chunks[j].length) && chunks[j].length < 0x1_0000_0000
          && RangeMapped(t, root, chunks[j].target, chunks[j].length)
          && Apart(chunks[j].target, chunks[j].length, desc, DESC_SIZE))
    && forall i, j :: 0 <= i < j < |chunks| ==>
         Apart(chunks[i].target, chunks[i].length, chunks[j].target, chunks[j].length)
  }

  /** The first `n` chunks hold consecutive slices of the item; the rest of memory, but for the record, is as before. */
  ghost predicate Delivered(t: Tables, roles: map<HostAddr, Role>, before: map<HostAddr, PageData>,
                            pages: map<HostAddr, PageData>, root: HostAddr, desc: nat,
                            item: seq<Byte>, chunks: seq<Chunk>, n: nat)
    requires n <= |chunks|
  {
    && (forall j: nat, a: nat :: j < n && Covers(chunks[j].target, chunks[j].length, a) ==>
          Arrived(t, pages, root, item, chunks, j, a))
    && (forall s, a: nat :: IsRoot(t, roles, s) && a < GUEST_LIMIT && Untouched(root, desc, chunks, n, s, a) ==>
          ByteAt(t, pages, s, a) == ByteAt(t, before, s, a))
  }

  /** The byte of the item that belongs at address `a` of chunk `j` is there. */
  ghost predicate Arrived(t: Tables, pages: map<HostAddr, PageData>, root: HostAddr,
                          item: seq<Byte>, chunks: seq<Chunk>, j: nat, a: nat)
    requires j < |chunks| && Covers(chunks[j].target, chunks[j].length, a)
  {
    var k := LengthUpTo(chunks, j) + (a - chunks[j].target);
    k < |item| && ByteAt(t, pages, root, a) == Some(item[k])
  }

  ghost predicate Untouched(root: HostAddr, desc: nat, chunks: seq<Chunk>, n: nat, s: HostAddr, a: nat)
    requires n <= |chunks|
  {
    s == root ==>
      && !Covers(desc, DESC_SIZE, a)
      && forall j :: 0 <= j < n ==> !Covers(chunks[j].target, chunks[j].length, a)
  }

  lemma DeliveredChunk(t: Tables, roles: map<HostAddr, Role>, p0: map<HostAddr, PageData>, p1: map<HostAddr, PageData>,
                       p2: map<HostAddr, PageData>, root: HostAddr, desc: nat, item: seq<Byte>, chunks: seq<Chunk>,
                       n: nat, reply: seq<Byte>, j: nat, a: nat)
    requires n < |chunks| && IsRoot(t, roles, root) && GoodTargets(t, root, desc, chunks) && |reply| == DESC_SIZE
    requires LengthUpTo(chunks, n + 1) <= |item|
    requires Delivered(t, roles, p0, p1, root, desc, item, chunks, n)
    requires Transferred(t, roles, p1, p2, root, chunks[n].target,
                         item[LengthUpTo(chunks, n)..LengthUpTo(chunks, n + 1)], desc, reply)
    requires j <= n && Covers(chunks[j].target, chunks[j].length, a)
    ensures Arrived(t, p2, root, item, chunks, j, a)
  {
    hide ByteAt, RangeMapped, IsRoot, Untouched;
    assert Apart(chunks[j].target, chunks[j].length, desc, DESC_SIZE);
    assert a < GUEST_LIMIT;
    if j < n {
      assert Arrived(t, p1, root, item, chunks, j, a);
      assert Apart(chunks[j].target, chunks[j].length, chunks[n].target, chunks[n].length);
      assert ByteAt(t, p2, root, a) == ByteAt(t, p1, root, a);
    } else {
      assert LengthUpTo(chunks, n + 1) == LengthUpTo(chunks, n) + chunks[n].length;
      var slice := item[LengthUpTo(chunks, n)..LengthUpTo(chunks, n + 1)];
      assert ByteAt(t, p2, root, a) == Some(slice[a - chunks[n].target]);
    }
  }

  lemma DeliveredNext(t: Tables, roles: map<HostAddr, Role>, p0: map<HostAddr, PageData>, p1: map<HostAddr, PageData>,
                      p2: map<HostAddr, PageData>, root: HostAddr, desc: nat, item: seq<Byte>, chunks: seq<Chunk>,
                      n: nat, reply: seq<Byte>)
    requires n < |chunks| && IsRoot(t, roles, root) && GoodTargets(t, root, desc, chunks) && |reply| == DESC_SIZE
    requires LengthUpTo(chunks, n + 1) <= |item|
    requires Delivered(t, roles, p0, p1, root, desc, item, chunks, n)
    requires Transferred(t, roles, p1, p2, root, chunks[n].target,
                         item[LengthUpTo(chunks, n)..LengthUpTo(chunks, n + 1)], desc, reply)
    ensures Delivered(t, roles, p0, p2, root, desc, item, chunks, n + 1)
  {
    hide ByteAt, RangeMapped, IsRoot, LengthUpTo, Arrived;
    LengthNext(chunks, n);
    forall j: nat, a: nat | j < n + 1 && Covers(chunks[j].target, chunks[j].length, a)
      ensures Arrived(t, p2, root, item, chunks, j, a)
    {
      DeliveredChunk(t, roles, p0, p1, p2, root, desc, item, chunks, n, reply, j, a);
    }
    forall s, a: nat | IsRoot(t, roles, s) && a < GUEST_LIMIT && Untouched(root, desc, chunks, n + 1, s, a)
      ensures ByteAt(t, p2, s, a) == ByteAt(t, p0, s, a)
    {
      assert Untouched(root, desc, chunks, n, s, a);
      if s == root { assert !Covers(chunks[n].target, chunks[n].length, a); }
      assert ByteAt(t, p2, s, a) == ByteAt(t, p1, s, a);
    }
  }

  /** The request is in place, unanswered, and then a prefix of the slice is. */
  ghost predicate StoppedDma(t: Tables, roles: map<HostAddr, Role>, before: map<HostAddr, PageData>,
                             pages: map<HostAddr, PageData>, root: HostAddr, desc: nat, req: DmaRequest,
                             slice: seq<Byte>, n: nat)
  {
    exists mid :: Wrote(t, roles, before, mid, root, desc, EncodeRequest(req)) &&
                  WrotePrefix(t, roles, mid, pages, root, req.address, slice, n)
  }

  /** One request of a guest driver: lay the record out, then write both halves of its address. */
  method GuestDma(fw: QemuFwCfg, mem: HostMemory, root: HostAddr, desc: nat, req: DmaRequest) returns (ok: bool)
    requires mem.Valid() && mem.Owned() && mem.Space(root) && RequestFits(req)
    requires InGuest(desc, DESC_SIZE) && RangeMapped(mem.tables, root, desc, DESC_SIZE)
    requires InItem(fw.data, fw.Position(), req)
    requires Delivers(fw.data, fw.Position(), req) ==> InGuest(req.address, req.length)
    modifies fw`selector, fw`dataIdx, fw`dmaAddr, mem`pages
    ensures mem.Valid() && mem.Owned()
    ensures ok <==> (Delivers(fw.data, old(fw.Position()), req) ==>
                      RangeMapped(mem.tables, root, req.address, req.length))
    ensures fw.Position() == CursorAfter(fw.data, old(fw.Position()), req) && fw.dmaAddr == if ok then 0 else desc
    ensures !ok ==>
              exists n: nat :: StoppedDma(mem.tables, mem.roles, old(mem.pages), mem.pages, root, desc, req,
                                          SliceFor(fw.data, old(fw.Position()), req), n)
    ensures ok ==> Transferred(mem.tables, mem.roles, old(mem.pages), mem.pages, root,
                               req.address, SliceFor(fw.data, old(fw.Position()), req),
                               desc, EncodeReply(Reply(fw.data, old(fw.Position()), req)))
  {
    hide Lookup, RangeMapped, Wrote, WrotePrefix, Transferred, HostMemory.Valid, HostMemory.Owned, DecodeRequest,
         EncodeReply, EncodeRequest, Swap32, Holds;
    var raw := EncodeRequest(req);
    RequestRoundTrip(req);
    var stored, written := WriteBytes(mem, root, desc, raw);
    ghost var mid := mem.pages;
    assert raw[..written] == raw;
    StoredHolds(mem, old(mem.pages), root, desc, raw);
    HalvesFit(desc);
    var high, low := desc / 0x1_0000_0000, desc % 0x1_0000_0000;
    Swap32Twice(high);
    Swap32Twice(low);
    fw.WriteDmaHigh(Swap32(high));
    ok := fw.WriteDmaLow(Swap32(low), mem, root, desc, raw);
    if ok {
      StoreThenTransfer(mem.tables, mem.roles, old(mem.pages), mid, mem.pages, root, req.address,
                        SliceFor(fw.data, old(fw.Position()), req), desc, raw,
                        EncodeReply(Reply(fw.data, old(fw.Position()), req)));
    } else {
      ghost var n: nat :| 0 <= n <= req.length &&
        WrotePrefix(mem.tables, mem.roles, mid, mem.pages, root, req.address,
                    SliceFor(fw.data, old(fw.Position()), req), n);
      assert StoppedDma(mem.tables, mem.roles, old(mem.pages), mem.pages, root, desc, req,
                        SliceFor(fw.data, old(fw.Position()), req), n);
    }
  }

  lemma HalvesFit(desc: nat)
    requires desc < GUEST_LIMIT
    ensures desc / 0x1_0000_0000 < 0x1_0000_0000 && desc % 0x1_0000_0000 < 0x1_0000_0000
  {
  }

  lemma StoredHolds(mem: HostMemory, before: map<HostAddr, PageData>, root: HostAddr, addr: nat, bytes: seq<Byte>)
    requires mem.Space(root) && InGuest(addr, |bytes|)
    requires Wrote(mem.tables, mem.roles, before, mem.pages, root, addr, bytes)
    ensures Holds(mem.tables, mem.pages, root, addr, bytes)
  {
    hide ByteAt;
  }

  lemma StoreThenTransfer(t: Tables, roles: map<HostAddr, Role>, p0: map<HostAddr, PageData>,
                          p1: map<HostAddr, PageData>, p2: map<HostAddr, PageData>, root: HostAddr, target: nat,
                          slice: seq<Byte>, desc: nat, raw: seq<Byte>, reply: seq<Byte>)
    requires Wrote(t, roles, p0, p1, root, desc, raw) && |raw| == |reply|
    requires Transferred(t, roles, p1, p2, root, target, slice, desc, reply)
    ensures Transferred(t, roles, p0, p2, root, target, slice, desc, reply)
  {
    hide ByteAt, IsRoot;
  }

  /**
    Reading an item in pieces, as firmware does: SELECT with the first READ, then
    READs that go on where the last one stopped. Every piece lands at its target,
    in order; the rest of the guest's memory, but for the request record, and all
    memory of other guests stay as they were.
  */
  method ReadItem(fw: QemuFwCfg, mem: HostMemory, root: HostAddr, desc: nat, key: nat, chunks: seq<Chunk>)
    requires mem.Valid() && mem.Owned() && mem.Space(root) && GoodTargets(mem.tables, root, desc, chunks)
    requires key < 0x1_0000 && key in fw.data && LengthUpTo(chunks, |chunks|) <= |fw.data[key]|
    modifies fw`selector, fw`dataIdx, fw`dmaAddr, mem`pages
    ensures mem.Valid() && mem.Owned()
    ensures chunks != [] ==> fw.Position() == Cursor(key, LengthUpTo(chunks, |chunks|))
    ensures Delivered(mem.tables, mem.roles, old(mem.pages), mem.pages, root, desc, fw.data[key], chunks, |chunks|)
  {
    hide Lookup, Transferred, HostMemory.Valid, HostMemory.Owned, EncodeReply, Delivered;
    assert Delivered(mem.tables, mem.roles, mem.pages, mem.pages, root, desc, fw.data[key], chunks, 0) by {
      DeliveredNone(mem.tables, mem.roles, mem.pages, root, desc, fw.data[key], chunks);
    }
    var n := 0;
    while n < |chunks|
      invariant n <= |chunks| && mem.Valid() && mem.Owned()
      invariant n > 0 ==> fw.Position() == Cursor(key, LengthUpTo(chunks, n))
      invariant Delivered(mem.tables, mem.roles, old(mem.pages), mem.pages, root, desc, fw.data[key], chunks, n)
    {
      LengthGrows(chunks, n + 1, |chunks|);
      ghost var p1 := mem.pages;
      ghost var at := fw.Position();
      var req := DmaRequest(DmaFlags(false, true, false, n == 0, false), key, chunks[n].length, chunks[n].target);
      var ok := GuestDma(fw, mem, root, desc, req);
      DeliveredNext(mem.tables, mem.roles, old(mem.pages), p1, mem.pages, root, desc, fw.data[key], chunks, n,
                    EncodeReply(Reply(fw.data, at, req)));
      n := n + 1;
    }
  }

  lemma DeliveredNone(t: Tables, roles: map<HostAddr, Role>, pages: map<HostAddr, PageData>, root: HostAddr, desc: nat,
                      item: seq<Byte>, chunks: seq<Chunk>)
    ensures Delivered(t, roles, pages, pages, root, desc, item, chunks, 0)
  {
  }
}
