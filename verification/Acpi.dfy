/** One-byte checksums of ACPI tables (acpi/mod.rs). */
module Checksum {
  import opened Common

  function Sum(bytes: seq<Byte>): nat {
    if bytes == [] then 0 else bytes[0] + Sum(bytes[1..])
  }

  /** `verify_checksum`. */
  predicate Verifies(bytes: seq<Byte>) {
    Sum(bytes) % 256 == 0
  }

  /** The fold of `calc_checksum`, wrapping at each step. */
  function WrappingSum(acc: Byte, bytes: seq<Byte>): Byte
    decreases |bytes|
  {
    if bytes == [] then acc else WrappingSum((acc + bytes[0]) % 256, bytes[1..])
  }

  function CalcChecksum(bytes: seq<Byte>): Byte {
    (0x100 - WrappingSum(0, bytes)) % 256
  }

  lemma ModAdd(a: nat, b: nat)
    ensures (a % 256 + b) % 256 == (a + b) % 256
  {
    assert a == a / 256 * 256 + a % 256;
  }

  /** Wrapping at every step loses nothing of the low byte of the sum. */
  lemma {:induction false} WrappingSumIsSum(acc: Byte, bytes: seq<Byte>)
    ensures WrappingSum(acc, bytes) == (acc + Sum(bytes)) % 256
    decreases |bytes|
  {
    if bytes != [] {
      WrappingSumIsSum((acc + bytes[0]) % 256, bytes[1..]);
      ModAdd(acc + bytes[0], Sum(bytes[1..]));
      assert acc + bytes[0] + Sum(bytes[1..]) == acc + Sum(bytes);
    }
  }

  lemma {:induction false} SumOfJoin(a: seq<Byte>, b: seq<Byte>)
    ensures Sum(a + b) == Sum(a) + Sum(b)
  {
    if a == [] {
      assert a + b == b;
    } else {
      SumOfJoin(a[1..], b);
      assert (a + b)[1..] == a[1..] + b;
    }
  }

  /** The sum of a table in terms of a slice of it. */
  lemma SumAround(bytes: seq<Byte>, off: nat, n: nat)
    requires off + n <= |bytes|
    ensures Sum(bytes) == Sum(bytes[..off]) + Sum(bytes[off..off + n]) + Sum(bytes[off + n..])
  {
    hide Sum;
    SumOfJoin(bytes[..off] + bytes[off..off + n], bytes[off + n..]);
    SumOfJoin(bytes[..off], bytes[off..off + n]);
    assert bytes == bytes[..off] + bytes[off..off + n] + bytes[off + n..];
  }

  function Put(buf: seq<Byte>, off: nat, bytes: seq<Byte>): (r: seq<Byte>)
    requires off + |bytes| <= |buf|
    ensures |r| == |buf|
    ensures forall i :: 0 <= i < |buf| ==> r[i] == if off <= i < off + |bytes| then bytes[i - off] else buf[i]
  {
    buf[..off] + bytes + buf[off + |bytes|..]
  }

  /** What a write does to the sum. */
  lemma SumAfterPut(buf: seq<Byte>, off: nat, bytes: seq<Byte>)
    requires off + |bytes| <= |buf|
    ensures Sum(Put(buf, off, bytes)) == Sum(buf) - Sum(buf[off..off + |bytes|]) + Sum(bytes)
  {
    hide Sum;
    SumAround(buf, off, |bytes|);
    SumOfJoin(buf[..off] + bytes, buf[off + |bytes|..]);
    SumOfJoin(buf[..off], bytes);
  }

  lemma {:induction false} SumOfZeros(n: nat)
    ensures Sum(Zeros(n)) == 0
  {
    if n > 0 {
      assert Zeros(n)[1..] == Zeros(n - 1);
      SumOfZeros(n - 1);
    }
  }

  lemma SumOfOne(b: Byte)
    ensures Sum([b]) == b
  {
    assert [b][1..] == [];
  }

  /** A byte that replaces another and cancels a sum cancels it exactly when the old one was zero. */
  lemma CancelledIffZero(sum: nat, was: Byte)
    requires was <= sum
    ensures (sum - was + (0x100 - sum % 256) % 256) % 256 == 0 <==> was == 0
  {
    assert sum == sum / 256 * 256 + sum % 256;
  }

  lemma SumAfterByte(buf: seq<Byte>, i: nat, x: Byte)
    requires i < |buf|
    ensures buf[i] <= Sum(buf) && Sum(Put(buf, i, [x])) == Sum(buf) - buf[i] + x
  {
    hide Sum, Put;
    SumAfterPut(buf, i, [x]);
    SumOfOne(x);
    assert buf[i..i + 1] == [buf[i]];
    SumOfOne(buf[i]);
    SumAround(buf, i, 1);
  }

  /** `calc_checksum` is the byte that makes the sum a multiple of 256. */
  lemma ChecksumCancels(bytes: seq<Byte>)
    ensures CalcChecksum(bytes) == (0x100 - Sum(bytes) % 256) % 256
    ensures (Sum(bytes) + CalcChecksum(bytes)) % 256 == 0
  {
    WrappingSumIsSum(0, bytes);
    hide Sum, WrappingSum;
    CancelledIffZero(Sum(bytes), 0);
  }

  /** Storing the checksum makes the bytes verify exactly when its place was zero before. */
  lemma StoredChecksumVerifies(buf: seq<Byte>, i: nat)
    requires i < |buf|
    ensures Verifies(Put(buf, i, [CalcChecksum(buf)])) <==> buf[i] == 0
  {
    hide Sum, CalcChecksum, Put;
    ChecksumCancels(buf);
    SumAfterByte(buf, i, CalcChecksum(buf));
    CancelledIffZero(Sum(buf), buf[i]);
  }
}

/** System description tables (acpi/rsdt.rs): the 36-byte header and its checksum. */
module Sdt {
  import opened Common
  import opened Endian
  import opened Checksum

  const HEADER_SIZE: nat := 36
  const CHECKSUM_AT: nat := 9

  function WithFields(buf: seq<Byte>, signature: seq<Byte>, revision: Byte, creator: nat, length: nat): (r: seq<Byte>)
    requires |buf| >= HEADER_SIZE && |signature| == 4
    ensures |r| == |buf|
  {
    Put(Put(Put(Put(buf, 0, signature), 4, LE(4, length)), 8, [revision]), 32, LE(4, creator))
  }

  /** `write_sdt_header`: it fails when the buffer is shorter than the length to be written. */
  function WriteHeader(buf: seq<Byte>, signature: seq<Byte>, revision: Byte, creator: nat, length: nat)
    : Option<seq<Byte>>
    requires |buf| >= HEADER_SIZE && |signature| == 4
  {
    if |buf| < length then None
    else
      var b := WithFields(buf, signature, revision, creator, length);
      Some(Put(b, CHECKSUM_AT, [CalcChecksum(b)]))
  }

  lemma FieldsAt(buf: seq<Byte>, signature: seq<Byte>, revision: Byte, creator: nat, length: nat)
    requires |buf| >= HEADER_SIZE && |signature| == 4
    ensures var b := WithFields(buf, signature, revision, creator, length);
            && b[..4] == signature && b[4..8] == LE(4, length) && b[8] == revision
            && b[9..32] == buf[9..32] && b[32..36] == LE(4, creator) && b[HEADER_SIZE..] == buf[HEADER_SIZE..]
  {
    hide LE, Put;
    var b := WithFields(buf, signature, revision, creator, length);
    assert b[4..8] == LE(4, length);
    assert b[9..32] == buf[9..32];
    assert b[32..36] == LE(4, creator);
  }

  /** The header written over a buffer: its fields, the untouched body, and a sum that is right iff byte 9 was zero. */
  lemma HeaderWritten(buf: seq<Byte>, signature: seq<Byte>, revision: Byte, creator: nat, length: nat)
    requires |buf| >= HEADER_SIZE && |signature| == 4 && length <= |buf|
    ensures var r := WriteHeader(buf, signature, revision, creator, length).value;
            && |r| == |buf| && r[..4] == signature && r[4..8] == LE(4, length) && r[8] == revision
            && r[10..32] == buf[10..32] && r[32..36] == LE(4, creator) && r[HEADER_SIZE..] == buf[HEADER_SIZE..]
            && (Verifies(r) <==> buf[CHECKSUM_AT] == 0)
  {
    hide LE, CalcChecksum, WithFields;
    FieldsAt(buf, signature, revision, creator, length);
    var b := WithFields(buf, signature, revision, creator, length);
    assert b[CHECKSUM_AT] == b[9..32][0] == buf[9..32][0] == buf[CHECKSUM_AT];
    StoredChecksumVerifies(b, CHECKSUM_AT);
    var r := Put(b, CHECKSUM_AT, [CalcChecksum(b)]);
    assert r[10..32] == b[9..32][1..] == buf[9..32][1..] == buf[10..32];
    assert r[32..36] == b[32..36];
    assert r[..4] == b[..4] && r[4..8] == b[4..8] && r[HEADER_SIZE..] == b[HEADER_SIZE..];
  }

  method CopyAt(buffer: array<Byte>, off: nat, bytes: seq<Byte>)
    requires off + |bytes| <= buffer.Length
    modifies buffer
    ensures buffer[..] == Put(old(buffer[..]), off, bytes)
  {
    for i := 0 to |bytes|
      invariant forall k :: 0 <= k < buffer.Length ==>
                              buffer[k] == if off <= k < off + i then bytes[k - off] else old(buffer[k])
    {
      buffer[off + i] := bytes[i];
    }
  }

  /** `write_sdt_header` in place; a buffer that is too short is left alone. */
  method WriteSdtHeader(buffer: array<Byte>, signature: seq<Byte>, revision: Byte, creator: nat, length: nat)
    returns (ok: bool)
    requires |signature| == 4 && buffer.Length >= HEADER_SIZE
    modifies buffer
    ensures ok <==> length <= buffer.Length
    ensures WriteHeader(old(buffer[..]), signature, revision, creator, length) == if ok then Some(buffer[..]) else None
    ensures !ok ==> buffer[..] == old(buffer[..])
  {
    hide LE, Put, CalcChecksum;
    if buffer.Length < length { return false; }
    CopyAt(buffer, 0, signature);
    CopyAt(buffer, 4, LE(4, length));
    CopyAt(buffer, 8, [revision]);
    CopyAt(buffer, 32, LE(4, creator));
    CopyAt(buffer, CHECKSUM_AT, [CalcChecksum(buffer[..])]);
    return true;
  }

  datatype Table = Table(signature: seq<Byte>, revision: Byte, body: seq<Byte>)

  /** `SDTBuilder::encode_sdt` into an empty buffer of a fixed capacity. */
  function EncodeSdt(t: Table, capacity: nat): Option<seq<Byte>>
    requires |t.signature| == 4
  {
    if HEADER_SIZE + |t.body| > capacity then None
    else WriteHeader(Zeros(HEADER_SIZE) + t.body, t.signature, t.revision, 0, HEADER_SIZE + |t.body|)
  }

  /** The length field of a table in memory. */
  function SdtLength(mem: seq<Byte>): nat
    requires |mem| >= HEADER_SIZE
  {
    FromLE(mem[4..8])
  }

  /** `SDT::new` on the bytes at its address: a table whose checksum verifies. */
  function ParseSdt(mem: seq<Byte>): Option<Table>
    requires |mem| >= HEADER_SIZE && HEADER_SIZE <= SdtLength(mem) <= |mem|
  {
    var bytes := mem[..SdtLength(mem)];
    if Verifies(bytes) then Some(Table(mem[..4], mem[8], bytes[HEADER_SIZE..])) else None
  }

  /** An encoded table parses back to itself, wherever it lies in memory. */
  lemma SdtRoundTrip(t: Table, capacity: nat, after: seq<Byte>)
    requires |t.signature| == 4 && HEADER_SIZE + |t.body| <= capacity && HEADER_SIZE + |t.body| < 0x1_0000_0000
    ensures EncodeSdt(t, capacity).Some?
    ensures var mem := EncodeSdt(t, capacity).value + after;
            && |mem| >= HEADER_SIZE && HEADER_SIZE <= SdtLength(mem) <= |mem| && ParseSdt(mem) == Some(t)
  {
    hide LE, FromLE, WithFields, CalcChecksum, Put, Verifies;
    var buf := Zeros(HEADER_SIZE) + t.body;
    var length := HEADER_SIZE + |t.body|;
    HeaderWritten(buf, t.signature, t.revision, 0, length);
    assert WriteHeader(buf, t.signature, t.revision, 0, length).Some?;
    WordSizes();
    LERoundTrip(4, length);
    var r := WriteHeader(buf, t.signature, t.revision, 0, length).value;
    var mem := r + after;
    assert mem[4..8] == r[4..8] && mem[..4] == r[..4] && mem[..length] == r;
    assert buf[HEADER_SIZE..] == t.body;
  }
}

/** The multiple APIC description table (acpi/madt.rs): interrupt controller structures as tagged, sized records. */
module Madt {
  import opened Common
  import opened Endian
  import opened Checksum
  import opened Sdt

  datatype Ics =
    | LocalApic(apicUid: Byte, apicId: Byte, flags: nat)
    | IoApic(ioApicId: Byte, ioApicAddr: nat, gsiBase: nat)
    | InterruptSourceOverride(source: Byte, gsi: nat, inti: nat)
    | NmiSource(inti: nat, gsi: nat)
    | LocalApicNmi(procUid: Byte, inti: nat, lint: Byte)
    | LocalX2Apic(x2ApicId: nat, flags: nat, x2Uid: nat)

  predicate KnownType(ty: Byte) {
    ty <= 5 || 8 <= ty <= 10
  }

  /** `expected_len`, the type and length bytes included. */
  function ExpectedLen(ty: Byte): nat
    requires KnownType(ty)
  {
    match ty
    case 0 => 8
    case 1 => 12
    case 2 => 10
    case 3 => 8
    case 4 => 6
    case 5 => 12
    case 8 => 16
    case 9 => 16
    case _ => 12
  }

  /** `Ics::parse` on the bytes after the type and length; unknown flag bits are dropped. */
  function Parse(ty: Byte, b: seq<Byte>): Option<Ics>
    requires KnownType(ty)
  {
    if |b| != ExpectedLen(ty) - 2 then None
    else match ty
      case 0 => Some(LocalApic(b[0], b[1], FromLE(b[2..6]) % 4))
      case 1 => Some(IoApic(b[0], FromLE(b[2..6]), FromLE(b[6..10])))
      case 2 => Some(InterruptSourceOverride(b[1], FromLE(b[2..6]), FromLE(b[6..8]) % 16))
      case 3 => Some(NmiSource(FromLE(b[0..2]) % 16, FromLE(b[2..6])))
      case 4 => Some(LocalApicNmi(b[0], FromLE(b[1..3]) % 16, b[3]))
      case 9 => Some(LocalX2Apic(FromLE(b[2..6]), FromLE(b[6..10]) % 4, FromLE(b[10..14])))
      case _ => None
  }

  /** The value's fields fit the widths of its Rust types. */
  predicate Fits(ics: Ics) {
    match ics
    case LocalApic(_, _, flags) => flags < 4
    case IoApic(_, addr, gsi) => gsi < 0x1_0000_0000
    case _ => true
  }

  /** What `Ics::encode` accepts: a local APIC, or an I/O APIC below 4 GiB. */
  predicate Encodable(ics: Ics) {
    ics.LocalApic? || (ics.IoApic? && ics.ioApicAddr < 0x1_0000_0000)
  }

  /** `Ics::encode`. */
  function EncodeIcs(ics: Ics): (r: Option<seq<Byte>>)
    ensures r.Some? <==> Encodable(ics)
  {
    if !Encodable(ics) then None
    else match ics
      case LocalApic(uid, id, flags) => Some([0, 8, uid, id] + LE(4, flags))
      case IoApic(id, addr, gsi) => Some([1, 12, id, 0] + LE(4, addr) + LE(4, gsi))
  }

  /** One step of the iterator: the end, an error that consumes nothing, or a structure and what follows it. */
  datatype Item = End | Stuck | Structure(ics: Option<Ics>, rest: seq<Byte>)

  function NextItem(bytes: seq<Byte>): (r: Item)
    ensures r.Structure? ==> |r.rest| < |bytes|
  {
    if |bytes| < 2 then End
    else if !KnownType(bytes[0]) || bytes[1] > |bytes| || bytes[1] < 3 then Stuck
    else Structure(Parse(bytes[0], bytes[2..bytes[1]]), bytes[bytes[1]..])
  }

  /** `IcsIterator`. */
  class IcsIterator {
    var bytes: seq<Byte>

    constructor (bytes: seq<Byte>)
      ensures this.bytes == bytes
    {
      this.bytes := bytes;
    }

    /** `next`: nothing at the end, otherwise a structure or an error. */
    method Next() returns (r: Option<Option<Ics>>)
      modifies this
      ensures match NextItem(old(bytes))
              case End => r == None && bytes == old(bytes)
              case Stuck => r == Some(None) && bytes == old(bytes)
              case Structure(ics, rest) => r == Some(ics) && bytes == rest
    {
      if 2 > |bytes| { return None; }
      var ty := bytes[0];
      if !KnownType(ty) { return Some(None); }
      var len := bytes[1];
      if len > |bytes| { return Some(None); }
      if len < 3 { return Some(None); }
      var payload := bytes[2..len];
      bytes := bytes[len..];
      return Some(Parse(ty, payload));
    }
  }

  /** Structure by structure to the end: a known type, and a length between 3 and what is left. */
  predicate WellFormed(bytes: seq<Byte>)
    decreases |bytes|
  {
    |bytes| < 2 || (KnownType(bytes[0]) && 3 <= bytes[1] <= |bytes| && WellFormed(bytes[bytes[1]..]))
  }

  /** What iterating a well-formed buffer yields. */
  function Structures(bytes: seq<Byte>): seq<Option<Ics>>
    requires WellFormed(bytes)
    decreases |bytes|
  {
    match NextItem(bytes)
    case End => []
    case Structure(ics, rest) => [ics] + Structures(rest)
  }

  /** Draining the iterator to its end, as a `for` loop over it does. */
  method Iterate(bytes: seq<Byte>) returns (found: seq<Option<Ics>>)
    requires WellFormed(bytes)
    ensures found == Structures(bytes)
  {
    found := [];
    var it := new IcsIterator(bytes);
    var done := false;
    while !done
      invariant WellFormed(it.bytes)
      invariant if done then found == Structures(bytes) else found + Structures(it.bytes) == Structures(bytes)
      decreases !done, |it.bytes|
    {
      var r := it.Next();
      if r.None? {
        done := true;
      } else {
        found := found + [r.value];
      }
    }
  }

  /** The iterator's buffer after `k` calls of `next`. */
  function After(bytes: seq<Byte>, k: nat): seq<Byte> {
    if k == 0 then bytes
    else match NextItem(bytes)
      case Structure(_, rest) => After(rest, k - 1)
      case _ => bytes
  }

  lemma {:induction false} WellFormedEnds(bytes: seq<Byte>) returns (k: nat)
    requires WellFormed(bytes)
    ensures NextItem(After(bytes, k)).End?
    decreases |bytes|
  {
    hide Parse;
    k := 0;
    var item := NextItem(bytes);
    if item.Structure? {
      var j := WellFormedEnds(item.rest);
      k := j + 1;
    }
  }

  lemma {:induction false} EndedIsWellFormed(bytes: seq<Byte>, k: nat)
    requires NextItem(After(bytes, k)).End?
    ensures WellFormed(bytes)
    decreases k
  {
    hide Parse;
    var item := NextItem(bytes);
    if item.Structure? { EndedIsWellFormed(item.rest, k - 1); }
  }

  /** Iteration ends exactly for well-formed buffers: on any other it reports the same error for ever. */
  lemma EndsIffWellFormed(bytes: seq<Byte>)
    ensures WellFormed(bytes) <==> exists k: nat :: NextItem(After(bytes, k)).End?
  {
    hide WellFormed, NextItem, After;
    if WellFormed(bytes) { var k := WellFormedEnds(bytes); }
    if k: nat :| NextItem(After(bytes, k)).End? { EndedIsWellFormed(bytes, k); }
  }

  /** One encoded structure is read back and consumed whole. */
  lemma EncodedIsNext(ics: Ics, after: seq<Byte>)
    requires Encodable(ics) && Fits(ics)
    ensures NextItem(EncodeIcs(ics).value + after) == Structure(Some(ics), after)
  {
    hide LE, FromLE;
    WordSizes();
    var e := EncodeIcs(ics).value;
    var bytes := e + after;
    match ics {
      case LocalApic(uid, id, flags) =>
        LERoundTrip(4, flags);
        assert bytes == [0, 8, uid, id] + LE(4, flags) + after;
        assert bytes[4..8] == LE(4, flags);
        assert bytes[2..8][2..6] == bytes[4..8];
        assert bytes[8..] == after;
      case IoApic(id, addr, gsi) =>
        LERoundTrip(4, addr);
        LERoundTrip(4, gsi);
        assert bytes == [1, 12, id, 0] + LE(4, addr) + LE(4, gsi) + after;
        assert bytes[4..8] == LE(4, addr) && bytes[8..12] == LE(4, gsi);
        assert bytes[2..12][2..6] == bytes[4..8] && bytes[2..12][6..10] == bytes[8..12];
        assert bytes[12..] == after;
    }
  }

  /**
    The structures as section 5.2.12 of the ACPI specification, version 6.3, lays them out; `bus` and `reserved` are
    bytes the parser passes over.
  */
  function Specified(ics: Ics, bus: Byte, reserved: seq<Byte>): seq<Byte>
    requires |reserved| == 2
  {
    match ics
    case LocalApic(uid, id, flags) => [0, 8, uid, id] + LE(4, flags)
    case IoApic(id, addr, gsi) => [1, 12, id, bus] + LE(4, addr) + LE(4, gsi)
    case InterruptSourceOverride(source, gsi, inti) => [2, 10, bus, source] + LE(4, gsi) + LE(2, inti)
    case NmiSource(inti, gsi) => [3, 8] + LE(2, inti) + LE(4, gsi)
    case LocalApicNmi(uid, inti, lint) => [4, 6, uid] + LE(2, inti) + [lint]
    case LocalX2Apic(id, flags, uid) => [9, 16] + reserved + LE(4, id) + LE(4, flags) + LE(4, uid)
  }

  predicate SpecifiedFits(ics: Ics) {
    match ics
    case LocalApic(_, _, flags) => flags < 4
    case IoApic(_, addr, gsi) => addr < 0x1_0000_0000 && gsi < 0x1_0000_0000
    case InterruptSourceOverride(_, gsi, inti) => gsi < 0x1_0000_0000 && inti < 16
    case NmiSource(inti, gsi) => gsi < 0x1_0000_0000 && inti < 16
    case LocalApicNmi(_, inti, _) => inti < 16
    case LocalX2Apic(id, flags, uid) => id < 0x1_0000_0000 && flags < 4 && uid < 0x1_0000_0000
  }

  lemma IoApicIsNext(id: Byte, addr: nat, gsi: nat, reserved: Byte, after: seq<Byte>)
    requires addr < 0x1_0000_0000 && gsi < 0x1_0000_0000
    ensures NextItem([1, 12, id, reserved] + LE(4, addr) + LE(4, gsi) + after) ==
            Structure(Some(IoApic(id, addr, gsi)), after)
  {
    hide LE, FromLE;
    WordSizes();
    LERoundTrip(4, addr);
    LERoundTrip(4, gsi);
    var b := [1, 12, id, reserved] + LE(4, addr) + LE(4, gsi) + after;
    assert b[4..8] == LE(4, addr);
    assert b[8..12] == LE(4, gsi);
    assert b[2..12][2..6] == b[4..8] && b[2..12][6..10] == b[8..12];
    assert b[12..] == after;
  }

  /** The parser reads each kind of structure as specified and consumes it whole. */
  lemma SpecifiedIsNext(ics: Ics, bus: Byte, reserved: seq<Byte>, after: seq<Byte>)
    requires SpecifiedFits(ics) && |reserved| == 2
    ensures NextItem(Specified(ics, bus, reserved) + after) == Structure(Some(ics), after)
  {
    hide LE, FromLE;
    WordSizes();
    var b := Specified(ics, bus, reserved) + after;
    match ics {
      case LocalApic(_, _, _) => EncodedIsNext(ics, after);
      case IoApic(id, addr, gsi) => IoApicIsNext(id, addr, gsi, bus, after);
      case InterruptSourceOverride(source, gsi, inti) =>
        LERoundTrip(4, gsi);
        LERoundTrip(2, inti);
        assert b == [2, 10, bus, source] + LE(4, gsi) + LE(2, inti) + after;
        assert b[2..10][2..6] == b[4..8] == LE(4, gsi) && b[2..10][6..8] == b[8..10] == LE(2, inti);
        assert b[10..] == after;
      case NmiSource(inti, gsi) =>
        LERoundTrip(4, gsi);
        LERoundTrip(2, inti);
        assert b == [3, 8] + LE(2, inti) + LE(4, gsi) + after;
        assert b[2..8][0..2] == b[2..4] == LE(2, inti) && b[2..8][2..6] == b[4..8] == LE(4, gsi);
        assert b[8..] == after;
      case LocalApicNmi(uid, inti, lint) =>
        LERoundTrip(2, inti);
        assert b == [4, 6, uid] + LE(2, inti) + [lint] + after;
        assert b[2..6][1..3] == b[3..5] == LE(2, inti);
        assert b[6..] == after;
      case LocalX2Apic(id, flags, uid) => X2ApicIsNext(id, flags, uid, bus, reserved, after);
    }
  }

  lemma X2ApicIsNext(id: nat, flags: nat, uid: nat, bus: Byte, reserved: seq<Byte>, after: seq<Byte>)
    requires id < 0x1_0000_0000 && flags < 4 && uid < 0x1_0000_0000 && |reserved| == 2
    ensures NextItem(Specified(LocalX2Apic(id, flags, uid), bus, reserved) + after) ==
            Structure(Some(LocalX2Apic(id, flags, uid)), after)
  {
    hide LE, FromLE;
    WordSizes();
    LERoundTrip(4, id);
    LERoundTrip(4, flags);
    LERoundTrip(4, uid);
    var b := Specified(LocalX2Apic(id, flags, uid), bus, reserved) + after;
    assert b == [9, 16] + reserved + LE(4, id) + LE(4, flags) + LE(4, uid) + after;
    assert b[4..8] == LE(4, id);
    assert b[8..12] == LE(4, flags);
    assert b[12..16] == LE(4, uid);
    assert b[2..16][2..6] == b[4..8] && b[2..16][6..10] == b[8..12] && b[2..16][10..14] == b[12..16];
    assert b[16..] == after;
  }

  lemma EncodedIsFirst(ics: Ics, after: seq<Byte>)
    requires Encodable(ics) && Fits(ics) && WellFormed(after)
    ensures WellFormed(EncodeIcs(ics).value + after)
    ensures Structures(EncodeIcs(ics).value + after) == [Some(ics)] + Structures(after)
  {
    EncodedIsNext(ics, after);
    hide EncodeIcs, NextItem;
  }

  ghost predicate AllEncodable(list: seq<Ics>) {
    forall i :: 0 <= i < |list| ==> Encodable(list[i])
  }

  function EncodeAll(list: seq<Ics>): seq<Byte>
    requires AllEncodable(list)
  {
    if list == [] then [] else EncodeAll(list[..|list| - 1]) + EncodeIcs(list[|list| - 1]).value
  }

  function Somes(list: seq<Ics>): (r: seq<Option<Ics>>)
    ensures |r| == |list| && forall i :: 0 <= i < |list| ==> r[i] == Some(list[i])
  {
    seq(|list|, i requires 0 <= i < |list| => Some(list[i]))
  }

  /** Encoded structures in front of a well-formed buffer are iterated first, in order. */
  lemma {:induction false} EncodedAreFirst(list: seq<Ics>, after: seq<Byte>)
    requires AllEncodable(list) && WellFormed(after)
    requires forall i :: 0 <= i < |list| ==> Fits(list[i])
    ensures WellFormed(EncodeAll(list) + after)
    ensures Structures(EncodeAll(list) + after) == Somes(list) + Structures(after)
    decreases |list|
  {
    hide WellFormed, Structures, EncodeIcs, Fits;
    if list == [] {
      assert EncodeAll(list) + after == after;
    } else {
      var last := list[|list| - 1];
      var first := list[..|list| - 1];
      var e := EncodeIcs(last).value;
      EncodedIsFirst(last, after);
      EncodedAreFirst(first, e + after);
      assert EncodeAll(list) == EncodeAll(first) + e;
      assert EncodeAll(list) + after == EncodeAll(first) + (e + after);
      assert Somes(list) == Somes(first) + [Some(last)];
    }
  }

  function OrZero(x: Option<nat>): nat {
    if x.Some? then x.value else 0
  }

  /** The table body `encode_table` writes; a missing address or missing flags are zero. */
  function Body(ica: Option<nat>, flags: Option<nat>, list: seq<Ics>): seq<Byte>
    requires AllEncodable(list)
  {
    LE(4, OrZero(ica)) + LE(4, OrZero(flags)) + EncodeAll(list)
  }

  const APIC: seq<Byte> := [0x41, 0x50, 0x49, 0x43]

  function MadtTable(ica: Option<nat>, flags: Option<nat>, list: seq<Ics>): Table
    requires AllEncodable(list)
  {
    Table(APIC, 5, Body(ica, flags, list))
  }

  function TryExtend(buffer: seq<Byte>, more: seq<Byte>, capacity: nat): Option<seq<Byte>> {
    if |buffer| + |more| <= capacity then Some(buffer + more) else None
  }

  /** `encode_table` after the zeroed header, into an `ArrayVec` of the given capacity. */
  method EncodeTable(header: seq<Byte>, ica: Option<nat>, flags: Option<nat>, list: seq<Ics>, capacity: nat)
    returns (r: Option<seq<Byte>>)
    ensures r.Some? <==> AllEncodable(list) && |header| + |Body(ica, flags, list)| <= capacity
    ensures r.Some? ==> r.value == header + Body(ica, flags, list)
  {
    hide LE, EncodeIcs, Encodable;
    var fixed := LE(4, OrZero(ica)) + LE(4, OrZero(flags));
    var buffer := TryExtend(header, fixed, capacity);
    if buffer.None? { return None; }
    var out := buffer.value;
    for i := 0 to |list|
      invariant AllEncodable(list[..i]) && |out| <= capacity
      invariant out == header + fixed + EncodeAll(list[..i])
    {
      assert list[..i + 1][..i] == list[..i];
      var e := EncodeIcs(list[i]);
      if e.None? {
        assert !Encodable(list[i]);
        return None;
      }
      var next := TryExtend(out, e.value, capacity);
      if next.None? {
        if AllEncodable(list) { EncodeAllGrows(list, i + 1); }
        return None;
      }
      out := next.value;
    }
    assert list[..|list|] == list;
    return Some(out);
  }

  lemma {:induction false} EncodeAllGrows(list: seq<Ics>, n: nat)
    requires n <= |list| && AllEncodable(list)
    ensures |EncodeAll(list[..n])| <= |EncodeAll(list)|
    decreases |list|
  {
    if n < |list| {
      EncodeAllGrows(list[..|list| - 1], n);
      assert list[..|list| - 1][..n] == list[..n];
    } else {
      assert list[..n] == list;
    }
  }

  /** `encode_sdt` for a MADT. */
  method EncodeMadt(ica: Option<nat>, flags: Option<nat>, list: seq<Ics>, capacity: nat)
    returns (r: Option<seq<Byte>>)
    ensures r.Some? <==> AllEncodable(list) && HEADER_SIZE + |Body(ica, flags, list)| <= capacity
    ensures r.Some? ==> r == EncodeSdt(MadtTable(ica, flags, list), capacity)
  {
    hide Body, WriteHeader;
    if HEADER_SIZE > capacity { return None; }
    var buffer := EncodeTable(Zeros(HEADER_SIZE), ica, flags, list, capacity);
    if buffer.None? { return None; }
    var bytes := new Byte[|buffer.value|](i requires 0 <= i < |buffer.value| => buffer.value[i]);
    assert bytes[..] == buffer.value;
    var ok := WriteSdtHeader(bytes, APIC, 5, 0, bytes.Length);
    return Some(bytes[..]);
  }

  /** `MADT::new` on the body of a table. */
  function Address(body: seq<Byte>): nat
    requires |body| >= 8
  {
    FromLE(body[0..4])
  }

  function ApicFlags(body: seq<Byte>): nat
    requires |body| >= 8
  {
    FromLE(body[4..8]) % 2
  }

  lemma BodyRoundTrip(ica: Option<nat>, flags: Option<nat>, list: seq<Ics>)
    requires AllEncodable(list) && OrZero(ica) < 0x1_0000_0000 && OrZero(flags) < 2
    requires forall i :: 0 <= i < |list| ==> Fits(list[i])
    ensures var body := Body(ica, flags, list);
            && |body| >= 8 && Address(body) == OrZero(ica) && ApicFlags(body) == OrZero(flags)
            && WellFormed(body[8..]) && Structures(body[8..]) == Somes(list)
  {
    hide LE, FromLE, EncodeAll;
    WordSizes();
    LERoundTrip(4, OrZero(ica));
    LERoundTrip(4, OrZero(flags));
    var body := Body(ica, flags, list);
    assert body[0..4] == LE(4, OrZero(ica)) && body[4..8] == LE(4, OrZero(flags));
    EncodedAreFirst(list, []);
    assert body[8..] == EncodeAll(list) + [];
    assert Somes(list) + Structures([]) == Somes(list);
  }

  /** Building, encoding, parsing and iterating a MADT gives back its address, flags and structures. */
  lemma MadtRoundTrip(ica: Option<nat>, flags: Option<nat>, list: seq<Ics>, capacity: nat, after: seq<Byte>)
    requires AllEncodable(list) && OrZero(ica) < 0x1_0000_0000 && OrZero(flags) < 2 && capacity < 0x1_0000_0000
    requires forall i :: 0 <= i < |list| ==> Fits(list[i])
    requires HEADER_SIZE + |Body(ica, flags, list)| <= capacity
    ensures EncodeSdt(MadtTable(ica, flags, list), capacity).Some?
    ensures var mem := EncodeSdt(MadtTable(ica, flags, list), capacity).value + after;
            && |mem| >= HEADER_SIZE && HEADER_SIZE <= SdtLength(mem) <= |mem|
            && ParseSdt(mem) == Some(MadtTable(ica, flags, list))
            && var body := ParseSdt(mem).value.body;
               && |body| >= 8 && Address(body) == OrZero(ica) && ApicFlags(body) == OrZero(flags)
               && WellFormed(body[8..]) && Structures(body[8..]) == Somes(list)
  {
    hide EncodeSdt, ParseSdt, SdtLength, Body, Address, ApicFlags, WellFormed, Structures;
    SdtRoundTrip(MadtTable(ica, flags, list), capacity, after);
    BodyRoundTrip(ica, flags, list);
  }
}
