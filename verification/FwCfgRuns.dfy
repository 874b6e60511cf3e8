/**
  Any run of DMA requests to the fw_cfg device (virtdev/qemu_fw_cfg.rs): selecting, skipping, reading and writing in any
  order, each with a request record of its own.
*/
module FwCfgRuns {
  import opened Common
  import opened Endian
  import opened EptEntry
  import opened Ept
  import opened HostMemory
  import opened GuestBytes
  import opened FwCfg

  type Pages = map<HostAddr, PageData>

  /** A request and the address of its record. */
  datatype Call = Call(desc: nat, req: DmaRequest)

  /** The device's position before the `n`-th call. */
  function CursorAt(items: Items, c: Cursor, calls: seq<Call>, n: nat): Cursor
    requires n <= |calls|
  {
    if n == 0 then c else CursorAfter(items, CursorAt(items, c, calls, n - 1), calls[n - 1].req)
  }

  /** The record is mapped, the read is within the item, and its target is mapped and apart from the record. */
  ghost predicate CallOk(t: Tables, root: HostAddr, items: Items, c: Cursor, call: Call) {
    && RequestFits(call.req) && InGuest(call.desc, DESC_SIZE) && RangeMapped(t, root, call.desc, DESC_SIZE)
    && InItem(items, c, call.req)
    && (Delivers(items, c, call.req) ==>
          && InGuest(call.req.address, call.req.length) && RangeMapped(t, root, call.req.address, call.req.length)
          && Apart(call.req.address, call.req.length, call.desc, DESC_SIZE))
  }

  ghost predicate CallsOk(t: Tables, root: HostAddr, items: Items, c: Cursor, calls: seq<Call>) {
    forall i: nat :: i < |calls| ==> CallOk(t, root, items, CursorAt(items, c, calls, i), calls[i])
  }

  /** What one call does to guest memory. */
  ghost predicate Answered(t: Tables, roles: map<HostAddr, Role>, before: Pages, after: Pages, root: HostAddr,
                           items: Items, c: Cursor, call: Call)
  {
    && InItem(items, c, call.req)
    && Transferred(t, roles, before, after, root, call.req.address, SliceFor(items, c, call.req),
                   call.desc, EncodeReply(Reply(items, c, call.req)))
  }

  /** Guest memory before, between and after the calls of a run. */
  ghost predicate IsTrace(t: Tables, roles: map<HostAddr, Role>, trace: seq<Pages>, root: HostAddr,
                          items: Items, c: Cursor, calls: seq<Call>)
  {
    && |trace| == |calls| + 1
    && forall i: nat :: i < |calls| ==>
         Answered(t, roles, trace[i], trace[i + 1], root, items, CursorAt(items, c, calls, i), calls[i])
  }

  /** Driving the device through its ports with one request after another. */
  method DmaRun(fw: QemuFwCfg, mem: HostMemory, root: HostAddr, calls: seq<Call>) returns (ghost trace: seq<Pages>)
    requires mem.Valid() && mem.Owned() && mem.Space(root)
    requires CallsOk(mem.tables, root, fw.data, fw.Position(), calls)
    modifies fw`selector, fw`dataIdx, fw`dmaAddr, mem`pages
    ensures mem.Valid() && mem.Owned()
    ensures fw.Position() == CursorAt(fw.data, old(fw.Position()), calls, |calls|)
    ensures IsTrace(mem.tables, mem.roles, trace, root, fw.data, old(fw.Position()), calls)
    ensures trace[0] == old(mem.pages) && trace[|calls|] == mem.pages
  {
    hide HostMemory.Valid, HostMemory.Owned, Transferred, RangeMapped, EncodeReply, CursorAfter, InItem;
    ghost var c0 := fw.Position();
    trace := [mem.pages];
    var n := 0;
    while n < |calls|
      invariant n <= |calls| && mem.Valid() && mem.Owned() && |trace| == n + 1
      invariant fw.Position() == CursorAt(fw.data, c0, calls, n)
      invariant trace[0] == old(mem.pages) && trace[n] == mem.pages
      invariant forall i: nat :: i < n ==>
                  Answered(mem.tables, mem.roles, trace[i], trace[i + 1], root, fw.data,
                           CursorAt(fw.data, c0, calls, i), calls[i])
    {
      assert CallOk(mem.tables, root, fw.data, CursorAt(fw.data, c0, calls, n), calls[n]);
      var ok := GuestDma(fw, mem, root, calls[n].desc, calls[n].req);
      trace := trace + [mem.pages];
      n := n + 1;
    }
  }

  /** Right after its call each record holds the reply, whose control word is 0, or ERROR if it was refused. */
  lemma RecordAnswered(t: Tables, roles: map<HostAddr, Role>, trace: seq<Pages>, root: HostAddr,
                       items: Items, c: Cursor, calls: seq<Call>, i: nat)
    requires IsTrace(t, roles, trace, root, items, c, calls) && i < |calls| && IsRoot(t, roles, root)
    requires CallsOk(t, root, items, c, calls)
    ensures var at, req := CursorAt(items, c, calls, i), calls[i].req;
            var reply := EncodeReply(Reply(items, at, req));
            && Holds(t, trace[i + 1], root, calls[i].desc, reply)
            && FromBE(reply[..4]) == if Refused(items, at, req) then 1 else 0
  {
    hide ByteAt, IsRoot, EncodeReply, RangeMapped, CursorAt, FromBE, Reply, Refused;
    var at := CursorAt(items, c, calls, i);
    assert CallOk(t, root, items, at, calls[i]);
    assert Answered(t, roles, trace[i], trace[i + 1], root, items, at, calls[i]);
    ReplyControlWord(items, at, calls[i].req);
  }

  /** Right after its call a read has its slice at its target. */
  lemma SliceDelivered(t: Tables, roles: map<HostAddr, Role>, trace: seq<Pages>, root: HostAddr,
                       items: Items, c: Cursor, calls: seq<Call>, i: nat)
    requires IsTrace(t, roles, trace, root, items, c, calls) && i < |calls| && IsRoot(t, roles, root)
    requires CallsOk(t, root, items, c, calls) && Delivers(items, CursorAt(items, c, calls, i), calls[i].req)
    ensures InItem(items, CursorAt(items, c, calls, i), calls[i].req)
    ensures Holds(t, trace[i + 1], root, calls[i].req.address,
                  SliceFor(items, CursorAt(items, c, calls, i), calls[i].req))
  {
    hide ByteAt, IsRoot, EncodeReply, RangeMapped, CursorAt, Reply, Seek;
    var at, call := CursorAt(items, c, calls, i), calls[i];
    assert CallOk(t, root, items, at, call) && Answered(t, roles, trace[i], trace[i + 1], root, items, at, call);
    var slice := SliceFor(items, at, call.req);
    forall k | 0 <= k < |slice| ensures ByteAt(t, trace[i + 1], root, call.req.address + k) == Some(slice[k]) {
      var a := call.req.address + k;
      assert Covers(call.req.address, call.req.length, a);
    }
  }

  /** How many bytes the calls from `i` up to `j` deliver. */
  function DeliveredBetween(items: Items, c: Cursor, calls: seq<Call>, i: nat, j: nat): nat
    requires j <= |calls|
    decreases j
  {
    if j <= i then 0
    else DeliveredBetween(items, c, calls, i, j - 1)
         + if Delivers(items, CursorAt(items, c, calls, j - 1), calls[j - 1].req) then calls[j - 1].req.length else 0
  }

  /**
    Reads go on where the last one stopped: with no SELECT or SKIP after call `i`, call `j` is at the place where call
    `i` began plus everything delivered since, in the same item. After a SELECT that place is the start of the item.
  */
  lemma {:induction false} ReadsAreConsecutive(items: Items, c: Cursor, calls: seq<Call>, i: nat, j: nat)
    requires i <= j < |calls|
    requires forall k :: i < k <= j ==> !calls[k].req.control.select && !calls[k].req.control.skip
    ensures var from := Seek(CursorAt(items, c, calls, i), calls[i].req);
            && Seek(CursorAt(items, c, calls, j), calls[j].req) ==
               Cursor(from.selector, from.idx + DeliveredBetween(items, c, calls, i, j))
            && (calls[i].req.control.select && !calls[i].req.control.skip ==> from == Cursor(calls[i].req.select, 0))
    decreases j
  {
    if i < j {
      ReadsAreConsecutive(items, c, calls, i, j - 1);
      assert CursorAt(items, c, calls, j) == CursorAfter(items, CursorAt(items, c, calls, j - 1), calls[j - 1].req);
    }
  }

  /** The slice of read `j` in terms of the item and of what was delivered since call `i`. */
  lemma SlicesAreConsecutive(t: Tables, root: HostAddr, items: Items, c: Cursor, calls: seq<Call>, i: nat, j: nat)
    requires CallsOk(t, root, items, c, calls) && i <= j < |calls|
    requires forall k :: i < k <= j ==> !calls[k].req.control.select && !calls[k].req.control.skip
    requires Delivers(items, CursorAt(items, c, calls, j), calls[j].req)
    ensures var from := Seek(CursorAt(items, c, calls, i), calls[i].req);
            var start := from.idx + DeliveredBetween(items, c, calls, i, j);
            && InItem(items, CursorAt(items, c, calls, j), calls[j].req)
            && from.selector in items && start + calls[j].req.length <= |items[from.selector]|
            && SliceFor(items, CursorAt(items, c, calls, j), calls[j].req) ==
               items[from.selector][start..start + calls[j].req.length]
  {
    hide RangeMapped, CursorAt, DeliveredBetween;
    ReadsAreConsecutive(items, c, calls, i, j);
    assert CallOk(t, root, items, CursorAt(items, c, calls, j), calls[j]);
  }

  /**
    SKIP is absolute: a READ in the same request as a SKIP of n bytes, or later with no SELECT or SKIP in between,
    starts at byte n of the item plus what was delivered from the SKIP on.
  */
  lemma ReadAfterSkip(t: Tables, root: HostAddr, items: Items, c: Cursor, calls: seq<Call>, i: nat, j: nat)
    requires CallsOk(t, root, items, c, calls) && i <= j < |calls| && calls[i].req.control.skip
    requires forall k :: i < k <= j ==> !calls[k].req.control.select && !calls[k].req.control.skip
    requires Delivers(items, CursorAt(items, c, calls, j), calls[j].req)
    ensures var req, at := calls[i].req, CursorAt(items, c, calls, i);
            var key := if req.control.select then req.select else at.selector;
            var start := calls[i].req.length + DeliveredBetween(items, c, calls, i, j);
            && InItem(items, CursorAt(items, c, calls, j), calls[j].req)
            && key in items && start + calls[j].req.length <= |items[key]|
            && SliceFor(items, CursorAt(items, c, calls, j), calls[j].req) ==
               items[key][start..start + calls[j].req.length]
  {
    hide RangeMapped, CursorAt, DeliveredBetween, CallsOk, SliceFor, InItem;
    SlicesAreConsecutive(t, root, items, c, calls, i, j);
  }

  /** No call from `i` up to `j` has the address in its record or in its target. */
  ghost predicate Clear(items: Items, c: Cursor, calls: seq<Call>, i: nat, j: nat, a: nat)
    requires j <= |calls|
  {
    forall k: nat :: i <= k < j ==>
      && !Covers(calls[k].desc, DESC_SIZE, a)
      && (Delivers(items, CursorAt(items, c, calls, k), calls[k].req) ==>
            !Covers(calls[k].req.address, calls[k].req.length, a))
  }

  lemma AnswerIsLocal(t: Tables, roles: map<HostAddr, Role>, before: Pages, after: Pages, root: HostAddr,
                      items: Items, c: Cursor, call: Call, s: HostAddr, a: nat)
    requires Answered(t, roles, before, after, root, items, c, call) && IsRoot(t, roles, s) && a < GUEST_LIMIT
    requires s == root ==> !Covers(call.desc, DESC_SIZE, a)
    requires s == root && Delivers(items, c, call.req) ==> !Covers(call.req.address, call.req.length, a)
    ensures ByteAt(t, after, s, a) == ByteAt(t, before, s, a)
  {
    hide ByteAt, IsRoot, EncodeReply, Reply, Seek;
  }

  /** From call `i` to call `j` every byte outside their records and targets stays as it was, in every space. */
  lemma {:induction false} RestUntouched(t: Tables, roles: map<HostAddr, Role>, trace: seq<Pages>, root: HostAddr,
                                         items: Items, c: Cursor, calls: seq<Call>, i: nat, j: nat, s: HostAddr, a: nat)
    requires IsTrace(t, roles, trace, root, items, c, calls) && i <= j <= |calls|
    requires IsRoot(t, roles, s) && a < GUEST_LIMIT && (s == root ==> Clear(items, c, calls, i, j, a))
    ensures ByteAt(t, trace[j], s, a) == ByteAt(t, trace[i], s, a)
    decreases j
  {
    hide ByteAt, IsRoot, CursorAt, Answered;
    if i < j {
      RestUntouched(t, roles, trace, root, items, c, calls, i, j - 1, s, a);
      var k := j - 1;
      var at := CursorAt(items, c, calls, k);
      assert Answered(t, roles, trace[k], trace[k + 1], root, items, at, calls[k]);
      AnswerIsLocal(t, roles, trace[k], trace[j], root, items, at, calls[k], s, a);
    }
  }

  /** A delivered slice stays at its target as long as no later record or target touches it. */
  lemma SliceStays(t: Tables, roles: map<HostAddr, Role>, trace: seq<Pages>, root: HostAddr,
                   items: Items, c: Cursor, calls: seq<Call>, i: nat, j: nat)
    requires IsTrace(t, roles, trace, root, items, c, calls) && i < j <= |calls| && IsRoot(t, roles, root)
    requires CallsOk(t, root, items, c, calls) && Delivers(items, CursorAt(items, c, calls, i), calls[i].req)
    requires forall a: nat :: Covers(calls[i].req.address, calls[i].req.length, a) ==>
                                Clear(items, c, calls, i + 1, j, a)
    ensures InItem(items, CursorAt(items, c, calls, i), calls[i].req)
    ensures Holds(t, trace[j], root, calls[i].req.address, SliceFor(items, CursorAt(items, c, calls, i), calls[i].req))
  {
    hide ByteAt, IsRoot, CursorAt, IsTrace, RangeMapped, Clear, Seek;
    SliceDelivered(t, roles, trace, root, items, c, calls, i);
    assert |trace| == |calls| + 1 by { TraceLength(t, roles, trace, root, items, c, calls); }
    var call := calls[i];
    assert CallOk(t, root, items, CursorAt(items, c, calls, i), call);
    var slice := SliceFor(items, CursorAt(items, c, calls, i), call.req);
    forall k | 0 <= k < |slice| ensures ByteAt(t, trace[j], root, call.req.address + k) == Some(slice[k]) {
      assert Covers(call.req.address, call.req.length, call.req.address + k);
      RestUntouched(t, roles, trace, root, items, c, calls, i + 1, j, root, call.req.address + k);
    }
  }

  lemma TraceLength(t: Tables, roles: map<HostAddr, Role>, trace: seq<Pages>, root: HostAddr,
                    items: Items, c: Cursor, calls: seq<Call>)
    requires IsTrace(t, roles, trace, root, items, c, calls)
    ensures |trace| == |calls| + 1
  {
  }
}
