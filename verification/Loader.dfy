/** Table loader commands and their 128-byte records (acpi/seabios.rs). */
module LoaderCommands {
  import opened Common
  import opened Endian
  import opened Checksum
  import opened FwCfgBuilder
  import Sdt

  datatype Zone = High | Fseg

  datatype Command =
    | Allocate(file: Name, align: nat, zone: Zone)
    | AddPointer(dst: Name, src: Name, offset: nat, size: Byte)
    | AddChecksum(file: Name, offset: nat, start: nat, length: nat)
    | WritePointer(dst: Name, src: Name, dstOffset: nat, srcOffset: nat, size: Byte)

  const RECORD_SIZE: nat := 128

  function ZoneByte(z: Zone): Byte {
    if z.High? then 1 else 2
  }

  /** Names must leave room for a terminating zero in 56 bytes. */
  predicate Supported(c: Command) {
    match c
    case Allocate(file, _, _) => |file| <= MAX_NAME
    case AddPointer(dst, src, _, _) => |src| <= MAX_NAME && |dst| <= MAX_NAME
    case AddChecksum(file, _, _, _) => |file| <= MAX_NAME
    case WritePointer(dst, src, _, _, _) => |src| <= MAX_NAME && |dst| <= MAX_NAME
  }

  /** The record of a command: little-endian numbers and zero-padded names at fixed offsets. */
  function Record(c: Command): (r: seq<Byte>)
    requires Supported(c)
    ensures |r| == RECORD_SIZE
  {
    match c
    case Allocate(file, align, zone) =>
      LE(4, 1) + NameField(file) + LE(4, align) + [ZoneByte(zone)] + Zeros(63)
    case AddPointer(dst, src, offset, size) =>
      LE(4, 2) + NameField(dst) + NameField(src) + LE(4, offset) + [size] + Zeros(7)
    case AddChecksum(file, offset, start, length) =>
      LE(4, 3) + NameField(file) + LE(4, offset) + LE(4, start) + LE(4, length) + Zeros(56)
    case WritePointer(dst, src, dstOffset, srcOffset, size) =>
      LE(4, 4) + NameField(dst) + NameField(src) + LE(4, dstOffset) + LE(4, srcOffset) + [size] + Zeros(3)
  }

  /** A name copied over zeros fills its field. */
  method CopyName(bytes: array<Byte>, off: nat, name: Name)
    requires |name| <= MAX_NAME && off + MAX_NAME + 1 <= bytes.Length
    requires bytes[off..off + MAX_NAME + 1] == Zeros(MAX_NAME + 1)
    modifies bytes
    ensures bytes[..] == Put(old(bytes[..]), off, NameField(name))
  {
    ghost var was := bytes[..];
    assert forall i :: off <= i < off + MAX_NAME + 1 ==> was[i] == was[off..off + MAX_NAME + 1][i - off];
    Sdt.CopyAt(bytes, off, name);
    hide Put, NameField;
    assert bytes[..] == Put(was, off, NameField(name)) by { PutName(was, off, name); }
  }

  lemma PutName(buf: seq<Byte>, off: nat, name: Name)
    requires off + MAX_NAME + 1 <= |buf| && |name| <= MAX_NAME
    requires forall i :: off <= i < off + MAX_NAME + 1 ==> buf[i] == 0
    ensures Put(buf, off, name) == Put(buf, off, NameField(name))
  {
  }

  /** A zeroed record with its command type and first name written. */
  method Begin(ty: Byte, name: Name) returns (bytes: array<Byte>)
    requires |name| <= MAX_NAME
    ensures fresh(bytes) && bytes[..] == LE(4, ty) + NameField(name) + Zeros(68)
  {
    hide LE, Put;
    bytes := new Byte[128](_ => 0);
    Sdt.CopyAt(bytes, 0, LE(4, ty));
    CopyName(bytes, 4, name);
  }

  /** `TableLoaderCommand::encode`: fill a zeroed record in place and append it if there is room. */
  method Encode(c: Command, buffer: seq<Byte>, capacity: nat) returns (r: Option<seq<Byte>>)
    ensures r.Some? <==> Supported(c) && |buffer| + RECORD_SIZE <= capacity
    ensures r.Some? ==> r.value == buffer + Record(c)
  {
    hide LE, Put, NameField;
    if !Supported(c) { return None; }
    var bytes: array<Byte>;
    match c {
      case Allocate(file, align, zone) =>
        bytes := Begin(1, file);
        Sdt.CopyAt(bytes, 60, LE(4, align));
        bytes[64] := ZoneByte(zone);
        assert bytes[..] == Record(c);
      case AddPointer(dst, src, offset, size) =>
        bytes := Begin(2, dst);
        CopyName(bytes, 60, src);
        Sdt.CopyAt(bytes, 116, LE(4, offset));
        bytes[120] := size;
        assert bytes[..] == Record(c);
      case AddChecksum(file, offset, start, length) =>
        bytes := Begin(3, file);
        Sdt.CopyAt(bytes, 60, LE(4, offset));
        Sdt.CopyAt(bytes, 64, LE(4, start));
        Sdt.CopyAt(bytes, 68, LE(4, length));
        assert bytes[..] == Record(c);
      case WritePointer(dst, src, dstOffset, srcOffset, size) =>
        bytes := Begin(4, dst);
        CopyName(bytes, 60, src);
        Sdt.CopyAt(bytes, 116, LE(4, dstOffset));
        Sdt.CopyAt(bytes, 120, LE(4, srcOffset));
        bytes[124] := size;
        assert bytes[..] == Record(c);
    }
    if |buffer| + RECORD_SIZE > capacity { return None; }
    return Some(buffer + bytes[..]);
  }

  /** A record as firmware reads it. */
  function Decode(b: seq<Byte>): Option<Command>
    requires |b| == RECORD_SIZE
  {
    match FromLE(b[0..4])
    case 1 =>
      if b[64] == 1 then Some(Allocate(UpToNul(b[4..60]), FromLE(b[60..64]), High))
      else if b[64] == 2 then Some(Allocate(UpToNul(b[4..60]), FromLE(b[60..64]), Fseg))
      else None
    case 2 => Some(AddPointer(UpToNul(b[4..60]), UpToNul(b[60..116]), FromLE(b[116..120]), b[120]))
    case 3 => Some(AddChecksum(UpToNul(b[4..60]), FromLE(b[60..64]), FromLE(b[64..68]), FromLE(b[68..72])))
    case 4 =>
      Some(WritePointer(UpToNul(b[4..60]), UpToNul(b[60..116]), FromLE(b[116..120]), FromLE(b[120..124]), b[124]))
    case _ => None
  }

  predicate Word(x: nat) {
    x < 0x1_0000_0000
  }

  /** Names without zeros and numbers of 32 bits. */
  predicate Clean(c: Command) {
    match c
    case Allocate(file, align, _) => CleanName(file) && Word(align)
    case AddPointer(dst, src, offset, _) => CleanName(dst) && CleanName(src) && Word(offset)
    case AddChecksum(file, offset, start, length) => CleanName(file) && Word(offset) && Word(start) && Word(length)
    case WritePointer(dst, src, dstOffset, srcOffset, _) =>
      CleanName(dst) && CleanName(src) && Word(dstOffset) && Word(srcOffset)
  }

  lemma WordReads(x: nat)
    requires Word(x)
    ensures FromLE(LE(4, x)) == x
  {
    WordSizes();
    LERoundTrip(4, x);
  }

  lemma FieldReads(name: Name)
    requires CleanName(name)
    ensures UpToNul(NameField(name)) == name
  {
    NameReads(name, MAX_NAME + 1 - |name|);
  }

  lemma AllocateReads(file: Name, align: nat, zone: Zone)
    requires CleanName(file) && Word(align)
    ensures Decode(Record(Allocate(file, align, zone))) == Some(Allocate(file, align, zone))
  {
    hide LE, FromLE, UpToNul, NameField;
    var b := Record(Allocate(file, align, zone));
    WordReads(1);
    WordReads(align);
    FieldReads(file);
    assert b[0..4] == LE(4, 1);
    assert b[4..60] == NameField(file);
    assert b[60..64] == LE(4, align);
    assert b[64] == ZoneByte(zone);
  }

  lemma AddPointerReads(dst: Name, src: Name, offset: nat, size: Byte)
    requires CleanName(dst) && CleanName(src) && Word(offset)
    ensures Decode(Record(AddPointer(dst, src, offset, size))) == Some(AddPointer(dst, src, offset, size))
  {
    hide LE, FromLE, UpToNul, NameField;
    var b := Record(AddPointer(dst, src, offset, size));
    WordReads(2);
    WordReads(offset);
    FieldReads(dst);
    FieldReads(src);
    assert b[0..4] == LE(4, 2);
    assert b[4..60] == NameField(dst);
    assert b[60..116] == NameField(src);
    assert b[116..120] == LE(4, offset);
    assert b[120] == size;
  }

  lemma AddChecksumReads(file: Name, offset: nat, start: nat, length: nat)
    requires CleanName(file) && Word(offset) && Word(start) && Word(length)
    ensures Decode(Record(AddChecksum(file, offset, start, length))) == Some(AddChecksum(file, offset, start, length))
  {
    hide LE, FromLE, UpToNul, NameField;
    var b := Record(AddChecksum(file, offset, start, length));
    WordReads(3);
    WordReads(offset);
    WordReads(start);
    WordReads(length);
    FieldReads(file);
    assert b[0..4] == LE(4, 3);
    assert b[4..60] == NameField(file);
    assert b[60..64] == LE(4, offset);
    assert b[64..68] == LE(4, start);
    assert b[68..72] == LE(4, length);
  }

  lemma WritePointerReads(dst: Name, src: Name, dstOffset: nat, srcOffset: nat, size: Byte)
    requires CleanName(dst) && CleanName(src) && Word(dstOffset) && Word(srcOffset)
    ensures Decode(Record(WritePointer(dst, src, dstOffset, srcOffset, size))) ==
            Some(WritePointer(dst, src, dstOffset, srcOffset, size))
  {
    hide LE, FromLE, UpToNul, NameField;
    var b := Record(WritePointer(dst, src, dstOffset, srcOffset, size));
    WordReads(4);
    WordReads(dstOffset);
    WordReads(srcOffset);
    FieldReads(dst);
    FieldReads(src);
    assert b[0..4] == LE(4, 4);
    assert b[4..60] == NameField(dst);
    assert b[60..116] == NameField(src);
    assert b[116..120] == LE(4, dstOffset);
    assert b[120..124] == LE(4, srcOffset);
    assert b[124] == size;
  }

  /** Firmware reads back exactly the command that was encoded. */
  lemma RecordRoundTrip(c: Command)
    requires Clean(c)
    ensures Supported(c) && Decode(Record(c)) == Some(c)
  {
    hide Decode, Record;
    match c {
      case Allocate(file, align, zone) => AllocateReads(file, align, zone);
      case AddPointer(dst, src, offset, size) => AddPointerReads(dst, src, offset, size);
      case AddChecksum(file, offset, start, length) => AddChecksumReads(file, offset, start, length);
      case WritePointer(dst, src, dstOffset, srcOffset, size) =>
        WritePointerReads(dst, src, dstOffset, srcOffset, size);
    }
  }

  ghost predicate AllClean(cs: seq<Command>) {
    forall i :: 0 <= i < |cs| ==> Clean(cs[i])
  }

  ghost predicate AllSupported(cs: seq<Command>) {
    forall i :: 0 <= i < |cs| ==> Supported(cs[i])
  }

  function Records(cs: seq<Command>): (r: seq<Byte>)
    requires AllSupported(cs)
    ensures |r| == RECORD_SIZE * |cs|
  {
    if cs == [] then [] else Records(cs[..|cs| - 1]) + Record(cs[|cs| - 1])
  }

  /** A whole loader file as firmware reads it, record by record. */
  function DecodeAll(b: seq<Byte>): Option<seq<Command>> {
    if |b| < RECORD_SIZE then if b == [] then Some([]) else None
    else
      var front := DecodeAll(b[..|b| - RECORD_SIZE]);
      var last := Decode(b[|b| - RECORD_SIZE..]);
      if front.None? || last.None? then None else Some(front.value + [last.value])
  }

  lemma {:induction false} RecordsRoundTrip(cs: seq<Command>)
    requires AllClean(cs)
    ensures AllSupported(cs) && DecodeAll(Records(cs)) == Some(cs)
  {
    hide Record, Decode, Clean, Supported;
    if cs != [] {
      var front, last := cs[..|cs| - 1], cs[|cs| - 1];
      RecordsRoundTrip(front);
      RecordRoundTrip(last);
      var b := Records(front) + Record(last);
      assert b[..|b| - RECORD_SIZE] == Records(front) && b[|b| - RECORD_SIZE..] == Record(last);
      assert front + [last] == cs;
      assert AllSupported(cs) by {
        forall i | 0 <= i < |cs| ensures Supported(cs[i]) {
          if i < |front| { assert front[i] == cs[i]; }
        }
      }
    }
  }

  // What firmware does with a program.

  /** Loaded tables by file name. */
  type Loaded = map<Name, seq<Byte>>

  /** One command: a file is allocated once and before use, a pointer is added little-endian at its offset, and
      the checksum of a range is added to a checksum byte. `None` is a program firmware cannot carry out. */
  ghost function Exec(c: Command, files: seq<File>, addr: Name -> nat, mem: Loaded): Option<Loaded> {
    match c
    case Allocate(file, _, _) =>
      if file in mem || Find(files, file).None? then None
      else Some(mem[file := Find(files, file).value])
    case AddPointer(dst, src, offset, size) =>
      if dst !in mem || src !in mem || offset + size > |mem[dst]| then None
      else
        var was := FromLE(mem[dst][offset..offset + size]);
        Some(mem[dst := Put(mem[dst], offset, LE(size, was + addr(src)))])
    case AddChecksum(file, offset, start, length) =>
      if file !in mem || offset >= |mem[file]| || start + length > |mem[file]| then None
      else
        var b := mem[file];
        Some(mem[file := Put(b, offset, [(b[offset] + CalcChecksum(b[start..start + length])) % 256])])
    case WritePointer(dst, src, _, _, _) =>
      if src !in mem then None else Some(mem)
  }

  ghost function Run(cs: seq<Command>, files: seq<File>, addr: Name -> nat, mem: Loaded): Option<Loaded> {
    if cs == [] then Some(mem)
    else
      var next := Exec(cs[0], files, addr, mem);
      if next.None? then None else Run(cs[1..], files, addr, next.value)
  }

  lemma {:induction false} RunJoin(a: seq<Command>, b: seq<Command>, files: seq<File>, addr: Name -> nat, mem: Loaded)
    ensures Run(a + b, files, addr, mem) ==
            var m := Run(a, files, addr, mem);
            if m.None? then None else Run(b, files, addr, m.value)
    decreases |a|
  {
    hide Exec;
    if a == [] {
      assert a + b == b;
    } else {
      assert (a + b)[1..] == a[1..] + b;
      var next := Exec(a[0], files, addr, mem);
      if next.Some? { RunJoin(a[1..], b, files, addr, next.value); }
    }
  }

  /** Only `Allocate` adds a file to memory, and nothing removes one. */
  lemma {:induction false} RunKeepsAllocated(cs: seq<Command>, files: seq<File>, addr: Name -> nat, mem: Loaded)
    requires Run(cs, files, addr, mem).Some?
    ensures mem.Keys <= Run(cs, files, addr, mem).value.Keys
    ensures forall i :: 0 <= i < |cs| && cs[i].Allocate? ==> cs[i].file !in mem
    ensures forall i, j :: 0 <= i < j < |cs| && cs[i].Allocate? && cs[j].Allocate? ==> cs[i].file != cs[j].file
    decreases |cs|
  {
    hide LE, FromLE, Put, CalcChecksum, Find;
    if cs != [] {
      var next := Exec(cs[0], files, addr, mem).value;
      assert mem.Keys <= next.Keys;
      assert cs[0].Allocate? ==> cs[0].file in next;
      RunKeepsAllocated(cs[1..], files, addr, next);
      forall i | 0 <= i < |cs| && cs[i].Allocate? ensures cs[i].file !in mem {
        if i > 0 { assert cs[i] == cs[1..][i - 1]; }
      }
      forall i, j | 0 <= i < j < |cs| && cs[i].Allocate? && cs[j].Allocate? ensures cs[i].file != cs[j].file {
        assert cs[j] == cs[1..][j - 1];
        if i > 0 { assert cs[i] == cs[1..][i - 1]; }
      }
    }
  }
}
