/** The root tables (acpi/rsdp.rs, acpi/rsdt.rs) as files and a loader program, and what firmware makes of them. */
module AcpiTables {
  import opened Common
  import opened Endian
  import opened Checksum
  import opened Sdt
  import opened FwCfgBuilder
  import opened LoaderCommands

  // "RSD PTR ", "XSDT", "etc/mythril/", "xsdt", "rsdp" and "etc/table-loader" as bytes
  const RSDP_SIGNATURE: seq<Byte> := [0x52, 0x53, 0x44, 0x20, 0x50, 0x54, 0x52, 0x20]
  const XSDT_SIGNATURE: seq<Byte> := [0x58, 0x53, 0x44, 0x54]
  const PREFIX: Name := [0x65, 0x74, 0x63, 0x2f, 0x6d, 0x79, 0x74, 0x68, 0x72, 0x69, 0x6c, 0x2f]
  const XSDT: seq<Byte> := [0x78, 0x73, 0x64, 0x74]
  const RSDP: seq<Byte> := [0x72, 0x73, 0x64, 0x70]
  const LOADER_FILE: Name :=
    [0x65, 0x74, 0x63, 0x2f, 0x74, 0x61, 0x62, 0x6c, 0x65, 0x2d, 0x6c, 0x6f, 0x61, 0x64, 0x65, 0x72]

  function FileName(tail: seq<Byte>): Name {
    PREFIX + tail
  }

  lemma FileNamesDiffer(a: seq<Byte>, b: seq<Byte>)
    requires a != b
    ensures FileName(a) != FileName(b)
  {
    assert FileName(a)[12..] == a && FileName(b)[12..] == b;
  }

  datatype SdtFile = SdtFile(signature: seq<Byte>, bytes: seq<Byte>)

  // The RSDP.

  function RsdpFields(): (b: seq<Byte>)
    ensures |b| == 36 && b[8] == 0 && b[32] == 0 && b[15] == 2 && b[..8] == RSDP_SIGNATURE && b[24..32] == Zeros(8)
    ensures b[20..24] == LE(4, 36)
  {
    Put(Put(Put(Zeros(36), 0, RSDP_SIGNATURE), 15, [2]), 20, LE(4, 36))
  }

  /** The RSDP as `RSDPBuilder::build` stores it: no addresses yet, both checksums over what is there. */
  function RsdpFile(): (r: seq<Byte>)
    ensures |r| == 36
  {
    var b := Put(RsdpFields(), 8, [CalcChecksum(RsdpFields()[..20])]);
    Put(b, 32, [CalcChecksum(b)])
  }

  lemma RsdpFileVerifies()
    ensures Verifies(RsdpFile()[..20]) && Verifies(RsdpFile())
    ensures RsdpFile()[24..32] == Zeros(8) && RsdpFile()[15] == 2 && RsdpFile()[..8] == RSDP_SIGNATURE
    ensures RsdpFile()[20..24] == LE(4, 36)
  {
    hide RsdpFields, CalcChecksum, Put, Verifies;
    var f := RsdpFields();
    var c := [CalcChecksum(f[..20])];
    var b := Put(f, 8, c);
    StoredChecksumVerifies(f[..20], 8);
    assert RsdpFile()[..20] == Put(f[..20], 8, c);
    StoredChecksumVerifies(b, 32);
    assert f[24..32] == RsdpFile()[24..32];
    assert f[..8] == RsdpFile()[..8];
    assert RsdpFile()[20..24] == f[20..24];
  }

  /** What `RSDP::from_bytes` accepts as an ACPI 2.0 pointer structure, and the XSDT address it reads. */
  function ParseRsdp(b: seq<Byte>): Option<nat>
    requires |b| == 36
  {
    if b[15] == 2 && Verifies(b[..20]) && Verifies(b) then Some(FromLE(b[24..32])) else None
  }

  // The XSDT.

  const XSDT_BUFFER: nat := 4096

  /** The XSDT as `RSDTBuilder::build` stores it: the first part of a header written over 4096 zeros. */
  function XsdtFile(n: nat): (r: seq<Byte>)
    requires HEADER_SIZE + 8 * n <= XSDT_BUFFER
    ensures |r| == HEADER_SIZE + 8 * n
  {
    HeaderWritten(Zeros(XSDT_BUFFER), XSDT_SIGNATURE, 0, 0, HEADER_SIZE + 8 * n);
    WriteHeader(Zeros(XSDT_BUFFER), XSDT_SIGNATURE, 0, 0, HEADER_SIZE + 8 * n).value[..HEADER_SIZE + 8 * n]
  }

  lemma XsdtFileVerifies(n: nat)
    requires HEADER_SIZE + 8 * n <= XSDT_BUFFER
    ensures Verifies(XsdtFile(n)) && forall j :: HEADER_SIZE <= j < HEADER_SIZE + 8 * n ==> XsdtFile(n)[j] == 0
    ensures XsdtFile(n)[..4] == XSDT_SIGNATURE && XsdtFile(n)[4..8] == LE(4, HEADER_SIZE + 8 * n) && XsdtFile(n)[8] == 0
  {
    hide WithFields, Sum, LE, CalcChecksum, Put;
    var length := HEADER_SIZE + 8 * n;
    HeaderWritten(Zeros(XSDT_BUFFER), XSDT_SIGNATURE, 0, 0, length);
    var full := WriteHeader(Zeros(XSDT_BUFFER), XSDT_SIGNATURE, 0, 0, length).value;
    var r := XsdtFile(n);
    assert full[HEADER_SIZE..] == Zeros(XSDT_BUFFER - HEADER_SIZE);
    assert full[length..] == full[HEADER_SIZE..][8 * n..] == Zeros(XSDT_BUFFER - length);
    SumOfJoin(r, full[length..]);
    assert full == r + full[length..];
    SumOfZeros(XSDT_BUFFER - length);
    assert forall j :: HEADER_SIZE <= j < |r| ==> r[j] == full[HEADER_SIZE..][j - HEADER_SIZE];
    assert r[..4] == full[..4] && r[4..8] == full[4..8];
  }

  /** Addresses written one after another behind the header. */
  function WithPointers(buf: seq<Byte>, ptrs: seq<nat>): (r: seq<Byte>)
    requires HEADER_SIZE + 8 * |ptrs| <= |buf|
    ensures |r| == |buf|
  {
    if ptrs == [] then buf
    else
      var k := |ptrs| - 1;
      Put(WithPointers(buf, ptrs[..k]), HEADER_SIZE + 8 * k, LE(8, ptrs[k]))
  }

  /** The header and everything behind the addresses is as it was. */
  lemma {:induction false} PointersStayInPlace(buf: seq<Byte>, ptrs: seq<nat>)
    requires HEADER_SIZE + 8 * |ptrs| <= |buf|
    ensures forall j :: 0 <= j < HEADER_SIZE || HEADER_SIZE + 8 * |ptrs| <= j < |buf| ==>
                          WithPointers(buf, ptrs)[j] == buf[j]
    decreases |ptrs|
  {
    hide LE, Put;
    if ptrs != [] {
      var k := |ptrs| - 1;
      PointersStayInPlace(buf, ptrs[..k]);
    }
  }

  lemma {:induction false} PointerAt(buf: seq<Byte>, ptrs: seq<nat>, i: nat)
    requires HEADER_SIZE + 8 * |ptrs| <= |buf| && i < |ptrs| && ptrs[i] < Pow256(8)
    ensures FromLE(WithPointers(buf, ptrs)[HEADER_SIZE + 8 * i..HEADER_SIZE + 8 * i + 8]) == ptrs[i]
    decreases |ptrs|
  {
    hide LE, FromLE, Put, Pow256;
    var k := |ptrs| - 1;
    var r := WithPointers(buf, ptrs);
    var at := HEADER_SIZE + 8 * i;
    if i < k {
      PointerAt(buf, ptrs[..k], i);
      assert r[at..at + 8] == WithPointers(buf, ptrs[..k])[at..at + 8];
    } else {
      LERoundTrip(8, ptrs[k]);
      assert r[at..at + 8] == LE(8, ptrs[k]);
    }
  }

  // Patching checksums.

  function Fixed(b: seq<Byte>, offset: nat, start: nat, length: nat): (r: seq<Byte>)
    requires offset < |b| && start + length <= |b|
    ensures |r| == |b|
  {
    Put(b, offset, [(b[offset] + CalcChecksum(b[start..start + length])) % 256])
  }

  lemma Cancels(total: nat, part: nat, was: Byte)
    requires total % 256 == part % 256 && was <= total
    ensures (total - was + (was + (0x100 - part % 256) % 256) % 256) % 256 == 0
  {
    var c := (0x100 - part % 256) % 256;
    ModAdd(was + c, total - was);
    assert total == total / 256 * 256 + part % 256;
    assert part % 256 + c == if part % 256 == 0 then 0 else 256;
    assert total + c == (total / 256 + if part % 256 == 0 then 0 else 1) * 256;
  }

  /** A checksum patch over a range repairs bytes whose sum is off by exactly the sum of that range. */
  lemma FixedVerifies(b: seq<Byte>, offset: nat, start: nat, length: nat)
    requires offset < |b| && start + length <= |b|
    requires Sum(b) % 256 == Sum(b[start..start + length]) % 256
    ensures Verifies(Fixed(b, offset, start, length))
  {
    hide Sum, CalcChecksum, Put;
    var range := b[start..start + length];
    ChecksumCancels(range);
    SumAfterByte(b, offset, (b[offset] + CalcChecksum(range)) % 256);
    Cancels(Sum(b), Sum(range), b[offset]);
  }

  /** Bytes that verified and changed only where they were zero are off by the sum of what was put there. */
  lemma OffByRange(before: seq<Byte>, after: seq<Byte>, start: nat, length: nat)
    requires Verifies(before) && |after| == |before| && start + length <= |before|
    requires before[start..start + length] == Zeros(length)
    requires after[..start] == before[..start] && after[start + length..] == before[start + length..]
    ensures Sum(after) % 256 == Sum(after[start..start + length]) % 256
  {
    hide Sum;
    SumAround(before, start, length);
    SumAround(after, start, length);
    SumOfZeros(length);
    var same, part := Sum(before), Sum(after[start..start + length]);
    assert Sum(after) == same + part;
    ModAdd(same, part);
  }

  // The generated program.

  ghost predicate Signatures(sigs: seq<seq<Byte>>) {
    && (forall i :: 0 <= i < |sigs| ==> |sigs[i]| == 4 && forall j :: 0 <= j < 4 ==> 0 < sigs[i][j] < 128)
    && (forall i, j :: 0 <= i < j < |sigs| ==> sigs[i] != sigs[j])
  }

  /** Two commands per table: allocate it, and store its address in the next XSDT entry. */
  function TableCommands(sigs: seq<seq<Byte>>): (cs: seq<Command>)
    ensures |cs| == 2 * |sigs|
    ensures forall i {:trigger sigs[i]} :: 0 <= i < |sigs| ==> cs[2 * i] == Allocate(FileName(sigs[i]), 8, Fseg)
  {
    if sigs == [] then []
    else
      var k := |sigs| - 1;
      TableCommands(sigs[..k]) + TableStep(sigs[k], k)
  }

  function TableStep(sig: seq<Byte>, k: nat): seq<Command> {
    [Allocate(FileName(sig), 8, Fseg), AddPointer(FileName(XSDT), FileName(sig), HEADER_SIZE + 8 * k, 8)]
  }

  function Opening(): seq<Command> {
    [Allocate(FileName(RSDP), 16, Fseg), Allocate(FileName(XSDT), 8, Fseg),
     AddPointer(FileName(RSDP), FileName(XSDT), 24, 8)]
  }

  function Closing(n: nat): seq<Command> {
    [AddChecksum(FileName(XSDT), CHECKSUM_AT, HEADER_SIZE, 8 * n), AddChecksum(FileName(RSDP), 32, 24, 8)]
  }

  function Program(sigs: seq<seq<Byte>>): (cs: seq<Command>)
    ensures |cs| == 5 + 2 * |sigs|
  {
    Opening() + TableCommands(sigs) + Closing(|sigs|)
  }

  /** No table's file name is that of the RSDP or the XSDT. */
  ghost predicate NoClash(sigs: seq<seq<Byte>>) {
    XSDT !in sigs && RSDP !in sigs
  }

  /** The files the program reads: the root structures and every table. */
  ghost predicate Stored(files: seq<File>, tables: seq<SdtFile>) {
    && HEADER_SIZE + 8 * |tables| <= XSDT_BUFFER
    && Find(files, FileName(RSDP)) == Some(RsdpFile())
    && Find(files, FileName(XSDT)) == Some(XsdtFile(|tables|))
    && forall i :: 0 <= i < |tables| ==> Find(files, FileName(tables[i].signature)) == Some(tables[i].bytes)
  }

  function Sigs(tables: seq<SdtFile>): (r: seq<seq<Byte>>)
    ensures |r| == |tables| && forall i :: 0 <= i < |tables| ==> r[i] == tables[i].signature
  {
    seq(|tables|, i requires 0 <= i < |tables| => tables[i].signature)
  }

  ghost function Pointers(sigs: seq<seq<Byte>>, addr: Name -> nat): (r: seq<nat>)
    ensures |r| == |sigs| && forall i :: 0 <= i < |sigs| ==> r[i] == addr(FileName(sigs[i]))
  {
    seq<nat>(|sigs|, i requires 0 <= i < |sigs| => addr(FileName(sigs[i])))
  }

  /** Firmware that gives each file an address as its allocation asks: aligned, and in its zone. */
  ghost predicate Obeys(addr: Name -> nat, cs: seq<Command>) {
    forall i :: 0 <= i < |cs| && cs[i].Allocate? ==>
      && cs[i].align > 0 && addr(cs[i].file) % cs[i].align == 0
      && (cs[i].zone.Fseg? ==> 0xF_0000 <= addr(cs[i].file) < 0x10_0000)
  }

  /** The RSDP is where section 5.2.5.1 of the ACPI specification, version 6.3, has it looked for, on 16 bytes. */
  lemma RsdpCanBeFound(sigs: seq<seq<Byte>>, addr: Name -> nat)
    requires Obeys(addr, Program(sigs))
    ensures addr(FileName(RSDP)) % 16 == 0 && 0xF_0000 <= addr(FileName(RSDP)) < 0x10_0000
    ensures addr(FileName(XSDT)) % 8 == 0
    ensures forall i :: 0 <= i < |sigs| ==> addr(FileName(sigs[i])) % 8 == 0
  {
    hide FileName, TableCommands;
    var cs := Program(sigs);
    assert cs[0] == Allocate(FileName(RSDP), 16, Fseg) && cs[1] == Allocate(FileName(XSDT), 8, Fseg);
    forall i | 0 <= i < |sigs| ensures addr(FileName(sigs[i])) % 8 == 0 {
      assert cs[3 + 2 * i] == TableCommands(sigs)[2 * i] == Allocate(FileName(sigs[i]), 8, Fseg);
    }
  }

  // Memory during a run.

  function PatchedRsdp(addr: Name -> nat): (r: seq<Byte>)
    ensures |r| == 36
  {
    Put(RsdpFile(), 24, LE(8, addr(FileName(XSDT))))
  }

  ghost function PatchedXsdt(tables: seq<SdtFile>, k: nat, addr: Name -> nat): (r: seq<Byte>)
    requires k <= |tables| && HEADER_SIZE + 8 * |tables| <= XSDT_BUFFER
    ensures |r| == HEADER_SIZE + 8 * |tables|
  {
    WithPointers(XsdtFile(|tables|), Pointers(Sigs(tables)[..k], addr))
  }

  /** Memory when `k` tables are in it. */
  ghost predicate During(mem: Loaded, tables: seq<SdtFile>, k: nat, addr: Name -> nat)
    requires k <= |tables| && HEADER_SIZE + 8 * |tables| <= XSDT_BUFFER
  {
    && FileName(RSDP) in mem && mem[FileName(RSDP)] == PatchedRsdp(addr)
    && FileName(XSDT) in mem && mem[FileName(XSDT)] == PatchedXsdt(tables, k, addr)
    && (forall i :: 0 <= i < k ==>
          FileName(tables[i].signature) in mem && mem[FileName(tables[i].signature)] == tables[i].bytes)
    && (forall i :: k <= i < |tables| ==> FileName(tables[i].signature) !in mem)
  }

  lemma ZerosReadZero(n: nat)
    ensures FromLE(Zeros(n)) == 0
  {
    if n > 0 {
      ZerosReadZero(n - 1);
      assert Zeros(n)[1..] == Zeros(n - 1);
    }
  }

  lemma OpeningRuns(files: seq<File>, tables: seq<SdtFile>, addr: Name -> nat)
    requires Signatures(Sigs(tables)) && NoClash(Sigs(tables)) && Stored(files, tables)
    ensures Run(Opening(), files, addr, map[]).Some?
    ensures During(Run(Opening(), files, addr, map[]).value, tables, 0, addr)
  {
    hide Put, LE, FromLE, RsdpFile, XsdtFile, FileName, Find;
    var rsdp, xsdt := FileName(RSDP), FileName(XSDT);
    FileNamesDiffer(RSDP, XSDT);
    var m1: Loaded := map[rsdp := RsdpFile()];
    var m2: Loaded := m1[xsdt := XsdtFile(|tables|)];
    var m3: Loaded := m2[rsdp := PatchedRsdp(addr)];
    var cs := Opening();
    RsdpFileVerifies();
    ZerosReadZero(8);
    assert Exec(cs[0], files, addr, map[]) == Some(m1);
    assert Exec(cs[1], files, addr, m1) == Some(m2);
    assert Exec(cs[2], files, addr, m2) == Some(m3);
    assert cs[1..][1..][1..] == [];
    assert Run(cs[1..][1..], files, addr, m2) == Some(m3);
    assert Run(cs[1..], files, addr, m1) == Some(m3);
    assert Pointers(Sigs(tables)[..0], addr) == [];
    forall i | 0 <= i < |tables| ensures FileName(tables[i].signature) !in m3 {
      assert Sigs(tables)[i] in Sigs(tables);
      FileNamesDiffer(tables[i].signature, RSDP);
      FileNamesDiffer(tables[i].signature, XSDT);
    }
  }

  lemma PointersGrow(tables: seq<SdtFile>, k: nat, addr: Name -> nat)
    requires k < |tables| && HEADER_SIZE + 8 * |tables| <= XSDT_BUFFER
    ensures var at := HEADER_SIZE + 8 * k;
            && FromLE(PatchedXsdt(tables, k, addr)[at..at + 8]) == 0
            && PatchedXsdt(tables, k + 1, addr) ==
               Put(PatchedXsdt(tables, k, addr), at, LE(8, addr(FileName(tables[k].signature))))
  {
    hide Put, LE, FromLE, FileName, XsdtFile;
    var at := HEADER_SIZE + 8 * k;
    var sigs := Sigs(tables);
    var before, after := Pointers(sigs[..k], addr), Pointers(sigs[..k + 1], addr);
    assert after[..k] == before;
    var x := XsdtFile(|tables|);
    XsdtFileVerifies(|tables|);
    PointersStayInPlace(x, before);
    assert PatchedXsdt(tables, k, addr)[at..at + 8] == Zeros(8);
    ZerosReadZero(8);
  }

  lemma TableRuns(files: seq<File>, tables: seq<SdtFile>, k: nat, addr: Name -> nat, mem: Loaded)
    requires Signatures(Sigs(tables)) && NoClash(Sigs(tables)) && Stored(files, tables)
    requires k < |tables| && During(mem, tables, k, addr)
    ensures Run(TableStep(tables[k].signature, k), files, addr, mem).Some?
    ensures During(Run(TableStep(tables[k].signature, k), files, addr, mem).value, tables, k + 1, addr)
  {
    hide Put, LE, FromLE, FileName, PatchedXsdt, PatchedRsdp, Find;
    var sig := tables[k].signature;
    var name, xsdt := FileName(sig), FileName(XSDT);
    var cs := TableStep(sig, k);
    PointersGrow(tables, k, addr);
    assert Sigs(tables)[k] in Sigs(tables);
    FileNamesDiffer(sig, XSDT);
    FileNamesDiffer(sig, RSDP);
    FileNamesDiffer(RSDP, XSDT);
    var m1 := mem[name := tables[k].bytes];
    var m2 := m1[xsdt := PatchedXsdt(tables, k + 1, addr)];
    assert Exec(cs[0], files, addr, mem) == Some(m1);
    assert Exec(cs[1], files, addr, m1) == Some(m2);
    assert cs[1..][1..] == [];
    assert Run(cs[1..], files, addr, m1) == Some(m2);
    forall i | 0 <= i < |tables| && i != k
      ensures FileName(tables[i].signature) != name && FileName(tables[i].signature) != xsdt
    {
      assert Sigs(tables)[i] in Sigs(tables) && Sigs(tables)[i] != Sigs(tables)[k];
      FileNamesDiffer(tables[i].signature, sig);
      FileNamesDiffer(tables[i].signature, XSDT);
    }
  }

  lemma {:induction false} TablesRun(files: seq<File>, tables: seq<SdtFile>, k: nat, addr: Name -> nat, mem: Loaded)
    requires Signatures(Sigs(tables)) && NoClash(Sigs(tables)) && Stored(files, tables)
    requires k <= |tables| && During(mem, tables, 0, addr)
    ensures Run(TableCommands(Sigs(tables)[..k]), files, addr, mem).Some?
    ensures During(Run(TableCommands(Sigs(tables)[..k]), files, addr, mem).value, tables, k, addr)
  {
    hide During, TableStep, Stored, Signatures, NoClash;
    var sigs := Sigs(tables);
    if k > 0 {
      TablesRun(files, tables, k - 1, addr, mem);
      assert sigs[..k][..k - 1] == sigs[..k - 1];
      var m := Run(TableCommands(sigs[..k - 1]), files, addr, mem).value;
      TableRuns(files, tables, k - 1, addr, m);
      RunJoin(TableCommands(sigs[..k - 1]), TableStep(sigs[k - 1], k - 1), files, addr, mem);
    } else {
      assert sigs[..0] == [];
    }
  }

  /** Memory at the end: both checksums patched. */
  ghost predicate Finished(mem: Loaded, tables: seq<SdtFile>, addr: Name -> nat)
    requires HEADER_SIZE + 8 * |tables| <= XSDT_BUFFER
  {
    var n := |tables|;
    && FileName(RSDP) in mem && mem[FileName(RSDP)] == Fixed(PatchedRsdp(addr), 32, 24, 8)
    && FileName(XSDT) in mem
    && mem[FileName(XSDT)] == Fixed(PatchedXsdt(tables, n, addr), CHECKSUM_AT, HEADER_SIZE, 8 * n)
    && forall i :: 0 <= i < n ==>
         FileName(tables[i].signature) in mem && mem[FileName(tables[i].signature)] == tables[i].bytes
  }

  lemma ClosingRuns(files: seq<File>, tables: seq<SdtFile>, addr: Name -> nat, mem: Loaded)
    requires Signatures(Sigs(tables)) && NoClash(Sigs(tables)) && Stored(files, tables)
    requires During(mem, tables, |tables|, addr)
    ensures Run(Closing(|tables|), files, addr, mem).Some?
    ensures Finished(Run(Closing(|tables|), files, addr, mem).value, tables, addr)
  {
    hide Put, FileName, PatchedXsdt, PatchedRsdp, CalcChecksum, Find;
    var n := |tables|;
    var rsdp, xsdt := FileName(RSDP), FileName(XSDT);
    var cs := Closing(n);
    FileNamesDiffer(RSDP, XSDT);
    var m1 := mem[xsdt := Fixed(PatchedXsdt(tables, n, addr), CHECKSUM_AT, HEADER_SIZE, 8 * n)];
    var m2 := m1[rsdp := Fixed(PatchedRsdp(addr), 32, 24, 8)];
    assert Exec(cs[0], files, addr, mem) == Some(m1);
    assert Exec(cs[1], files, addr, m1) == Some(m2);
    assert cs[1..][1..] == [];
    assert Run(cs[1..], files, addr, m1) == Some(m2);
    forall i | 0 <= i < n
      ensures FileName(tables[i].signature) != rsdp && FileName(tables[i].signature) != xsdt
    {
      assert Sigs(tables)[i] in Sigs(tables);
      FileNamesDiffer(tables[i].signature, RSDP);
      FileNamesDiffer(tables[i].signature, XSDT);
    }
  }

  lemma ProgramRuns(files: seq<File>, tables: seq<SdtFile>, addr: Name -> nat)
    requires Signatures(Sigs(tables)) && NoClash(Sigs(tables)) && Stored(files, tables)
    ensures Run(Program(Sigs(tables)), files, addr, map[]).Some?
    ensures Finished(Run(Program(Sigs(tables)), files, addr, map[]).value, tables, addr)
  {
    hide Opening, Closing, TableCommands, During, Finished, NoClash, Signatures;
    var sigs := Sigs(tables);
    OpeningRuns(files, tables, addr);
    var m := Run(Opening(), files, addr, map[]).value;
    TablesRun(files, tables, |tables|, addr, m);
    assert sigs[..|tables|] == sigs;
    RunJoin(Opening(), TableCommands(sigs), files, addr, map[]);
    var m' := Run(Opening() + TableCommands(sigs), files, addr, map[]).value;
    ClosingRuns(files, tables, addr, m');
    RunJoin(Opening() + TableCommands(sigs), Closing(|sigs|), files, addr, map[]);
  }

  /** The finished RSDP passes both checksums and points to the XSDT. */
  lemma RsdpIsSound(addr: Name -> nat)
    requires addr(FileName(XSDT)) < Pow256(8)
    ensures ParseRsdp(Fixed(PatchedRsdp(addr), 32, 24, 8)) == Some(addr(FileName(XSDT)))
    ensures Fixed(PatchedRsdp(addr), 32, 24, 8)[..8] == RSDP_SIGNATURE
    ensures FromLE(Fixed(PatchedRsdp(addr), 32, 24, 8)[20..24]) == 36
  {
    hide Put, LE, FromLE, Verifies, RsdpFile, CalcChecksum, FileName, Pow256;
    var before, b := RsdpFile(), PatchedRsdp(addr);
    var r := Fixed(b, 32, 24, 8);
    RsdpFileVerifies();
    assert b[..24] == before[..24] && b[32..] == before[32..];
    OffByRange(before, b, 24, 8);
    FixedVerifies(b, 32, 24, 8);
    assert r[..20] == before[..20] && r[..8] == before[..8];
    assert r[20..24] == before[20..24];
    WordReads(36);
    assert r[24..32] == LE(8, addr(FileName(XSDT)));
    LERoundTrip(8, addr(FileName(XSDT)));
  }

  /** The finished XSDT parses, and its entries are the addresses of the tables in order. */
  lemma XsdtIsSound(tables: seq<SdtFile>, addr: Name -> nat)
    requires HEADER_SIZE + 8 * |tables| <= XSDT_BUFFER
    requires forall i :: 0 <= i < |tables| ==> addr(FileName(tables[i].signature)) < Pow256(8)
    ensures var n := |tables|;
            var x := Fixed(PatchedXsdt(tables, n, addr), CHECKSUM_AT, HEADER_SIZE, 8 * n);
            && SdtLength(x) == |x| && ParseSdt(x) == Some(Table(XSDT_SIGNATURE, 0, x[HEADER_SIZE..]))
            && forall i :: 0 <= i < n ==>
                 FromLE(x[HEADER_SIZE + 8 * i..HEADER_SIZE + 8 * i + 8]) == addr(FileName(tables[i].signature))
  {
    hide Put, LE, FromLE, Verifies, XsdtFile, CalcChecksum, WithPointers, FileName, Pow256;
    var n := |tables|;
    var before, b := XsdtFile(n), PatchedXsdt(tables, n, addr);
    var x := Fixed(b, CHECKSUM_AT, HEADER_SIZE, 8 * n);
    var ptrs := Pointers(Sigs(tables)[..n], addr);
    XsdtFileVerifies(n);
    PointersStayInPlace(before, ptrs);
    assert before[HEADER_SIZE..HEADER_SIZE + 8 * n] == Zeros(8 * n);
    assert b[..HEADER_SIZE] == before[..HEADER_SIZE];
    OffByRange(before, b, HEADER_SIZE, 8 * n);
    FixedVerifies(b, CHECKSUM_AT, HEADER_SIZE, 8 * n);
    assert x[4..8] == before[4..8];
    assert x[..4] == before[..4];
    assert x[8] == b[8] == before[8];
    WordReads(HEADER_SIZE + 8 * n);
    assert x[..|x|] == x;
    forall i | 0 <= i < n
      ensures FromLE(x[HEADER_SIZE + 8 * i..HEADER_SIZE + 8 * i + 8]) == addr(FileName(tables[i].signature))
    {
      PointerAt(before, ptrs, i);
      var at := HEADER_SIZE + 8 * i;
      assert x[at..at + 8] == b[at..at + 8];
    }
  }

  /** Two allocations of one file stop the run. */
  lemma ClashFails(files: seq<File>, sigs: seq<seq<Byte>>, addr: Name -> nat)
    requires !NoClash(sigs)
    ensures Run(Program(sigs), files, addr, map[]).None?
  {
    hide FileName, TableCommands, Run;
    var cs := Program(sigs);
    var k :| 0 <= k < |sigs| && (sigs[k] == XSDT || sigs[k] == RSDP);
    assert cs[3 + 2 * k] == TableCommands(sigs)[2 * k] == Allocate(FileName(sigs[k]), 8, Fseg);
    assert cs[0] == Allocate(FileName(RSDP), 16, Fseg) && cs[1] == Allocate(FileName(XSDT), 8, Fseg);
    if Run(cs, files, addr, map[]).Some? { RunKeepsAllocated(cs, files, addr, map[]); }
  }

  // The files.

  function TableFiles(tables: seq<SdtFile>): (r: seq<File>)
    ensures |r| == |tables|
    ensures forall i :: 0 <= i < |tables| ==> r[i] == File(FileName(tables[i].signature), tables[i].bytes)
  {
    seq(|tables|, i requires 0 <= i < |tables| => File(FileName(tables[i].signature), tables[i].bytes))
  }

  lemma {:induction false} TableCommandsClean(sigs: seq<seq<Byte>>)
    requires Signatures(sigs) && |sigs| <= 507
    ensures AllClean(TableCommands(sigs))
  {
    hide CleanName;
    if sigs != [] {
      var k := |sigs| - 1;
      TableCommandsClean(sigs[..k]);
      NameIsClean(sigs[k]);
      NameIsClean(XSDT);
      assert forall i :: 0 <= i < |TableStep(sigs[k], k)| ==> Clean(TableStep(sigs[k], k)[i]);
      AllCleanJoin(TableCommands(sigs[..k]), TableStep(sigs[k], k));
    }
  }

  lemma AllCleanJoin(a: seq<Command>, b: seq<Command>)
    requires AllClean(a) && AllClean(b)
    ensures AllClean(a + b)
  {
  }

  lemma NameIsClean(tail: seq<Byte>)
    requires |tail| == 4 && forall j :: 0 <= j < 4 ==> tail[j] != 0
    ensures CleanName(FileName(tail))
  {
  }

  /** Firmware decodes the program it is given. */
  lemma ProgramReads(sigs: seq<seq<Byte>>)
    requires Signatures(sigs) && |sigs| <= 507
    ensures AllSupported(Program(sigs)) && DecodeAll(Records(Program(sigs))) == Some(Program(sigs))
  {
    hide CleanName, TableCommands, DecodeAll, Records;
    NameIsClean(XSDT);
    NameIsClean(RSDP);
    TableCommandsClean(sigs);
    assert AllClean(Opening()) && AllClean(Closing(|sigs|));
    AllCleanJoin(Opening(), TableCommands(sigs));
    AllCleanJoin(Opening() + TableCommands(sigs), Closing(|sigs|));
    RecordsRoundTrip(Program(sigs));
  }

  /** The files `RSDPBuilder::build` adds, in order. */
  function BuiltFiles(tables: seq<SdtFile>): (r: seq<File>)
    requires HEADER_SIZE + 8 * |tables| <= XSDT_BUFFER && AllSupported(Program(Sigs(tables)))
  {
    [File(FileName(RSDP), RsdpFile()), File(FileName(XSDT), XsdtFile(|tables|))] + TableFiles(tables)
    + [File(LOADER_FILE, Records(Program(Sigs(tables))))]
  }

  lemma {:induction false} FindBehind(before: seq<File>, files: seq<File>, name: Name)
    requires Find(before, name).None?
    ensures Find(before + files, name) == Find(files, name)
  {
    if before == [] {
      assert before + files == files;
    } else {
      FindBehind(before[1..], files, name);
      assert (before + files)[1..] == before[1..] + files;
    }
  }

  lemma {:induction false} FindAt(files: seq<File>, i: nat)
    requires i < |files| && forall j :: 0 <= j < i ==> files[j].name != files[i].name
    ensures Find(files, files[i].name) == Some(files[i].bytes)
  {
    if i > 0 { FindAt(files[1..], i - 1); }
  }

  /** The built files are found behind files that were there before under other names. */
  lemma BuiltFilesAreStored(before: seq<File>, tables: seq<SdtFile>)
    requires HEADER_SIZE + 8 * |tables| <= XSDT_BUFFER && AllSupported(Program(Sigs(tables)))
    requires Signatures(Sigs(tables)) && NoClash(Sigs(tables))
    requires forall f :: f in BuiltFiles(tables) ==> Find(before, f.name).None?
    ensures Stored(before + BuiltFiles(tables), tables)
    ensures Find(before + BuiltFiles(tables), LOADER_FILE) == Some(Records(Program(Sigs(tables))))
  {
    hide Find, FileName, RsdpFile, XsdtFile, Records, Program, AllSupported;
    var built := BuiltFiles(tables);
    var n := |tables|;
    forall i: nat | i < |built| ensures Find(before + built, built[i].name) == Some(built[i].bytes) {
      assert built[i] in built;
      FindBehind(before, built, built[i].name);
      forall j | 0 <= j < i ensures built[j].name != built[i].name {
        BuiltNamesDiffer(tables, j, i);
      }
      FindAt(built, i);
    }
    assert built[0] == File(FileName(RSDP), RsdpFile()) && built[1] == File(FileName(XSDT), XsdtFile(n));
    assert built[2 + n] == File(LOADER_FILE, Records(Program(Sigs(tables))));
    forall i | 0 <= i < n
      ensures Find(before + built, FileName(tables[i].signature)) == Some(tables[i].bytes)
    {
      assert built[2 + i] == TableFiles(tables)[i];
    }
  }

  function Tail(tables: seq<SdtFile>, i: nat): seq<Byte>
    requires i < 2 + |tables|
  {
    if i == 0 then RSDP else if i == 1 then XSDT else tables[i - 2].signature
  }

  lemma BuiltNamesDiffer(tables: seq<SdtFile>, j: nat, i: nat)
    requires HEADER_SIZE + 8 * |tables| <= XSDT_BUFFER && AllSupported(Program(Sigs(tables)))
    requires Signatures(Sigs(tables)) && NoClash(Sigs(tables)) && j < i < |BuiltFiles(tables)|
    ensures BuiltFiles(tables)[j].name != BuiltFiles(tables)[i].name
  {
    hide RsdpFile, XsdtFile, Records, Program, AllSupported;
    var built := BuiltFiles(tables);
    var sigs := Sigs(tables);
    assert forall k :: 0 <= k < |sigs| ==> sigs[k] in sigs;
    assert forall k: nat :: k < 2 + |tables| ==> built[k].name == FileName(Tail(tables, k));
    if i < 2 + |tables| {
      assert i >= 2 ==> Tail(tables, i) == sigs[i - 2];
      assert j >= 2 ==> Tail(tables, j) == sigs[j - 2];
      FileNamesDiffer(Tail(tables, j), Tail(tables, i));
    } else {
      assert built[i].name == LOADER_FILE && built[j].name[4] == PREFIX[4];
    }
  }

  ghost predicate Addressable(tables: seq<SdtFile>, addr: Name -> nat) {
    && addr(FileName(XSDT)) < Pow256(8)
    && forall i :: 0 <= i < |tables| ==> addr(FileName(tables[i].signature)) < Pow256(8)
  }

  /** A guest that follows the RSDP at the end of a run: both checksums hold, the XSDT it points to verifies, and
      entry `i` is the address of table `i`, which is in memory byte for byte. */
  ghost predicate GuestSees(mem: Loaded, tables: seq<SdtFile>, addr: Name -> nat) {
    && FileName(RSDP) in mem && FileName(XSDT) in mem
    && var rsdp, xsdt := mem[FileName(RSDP)], mem[FileName(XSDT)];
    && |rsdp| == 36 && rsdp[..8] == RSDP_SIGNATURE && FromLE(rsdp[20..24]) == 36
    && ParseRsdp(rsdp) == Some(addr(FileName(XSDT)))
    && |xsdt| == HEADER_SIZE + 8 * |tables| && SdtLength(xsdt) == |xsdt|
    && ParseSdt(xsdt) == Some(Table(XSDT_SIGNATURE, 0, xsdt[HEADER_SIZE..]))
    && forall i :: 0 <= i < |tables| ==>
         var name := FileName(tables[i].signature);
         && FromLE(xsdt[HEADER_SIZE + 8 * i..HEADER_SIZE + 8 * i + 8]) == addr(name)
         && name in mem && mem[name] == tables[i].bytes
  }

  /** For any addresses firmware chooses, the generated program runs to the end exactly when no table is named
      "xsdt" or "rsdp", and then leaves a consistent set of tables. */
  lemma LoaderIsSound(before: seq<File>, tables: seq<SdtFile>, addr: Name -> nat)
    requires HEADER_SIZE + 8 * |tables| <= XSDT_BUFFER && AllSupported(Program(Sigs(tables)))
    requires Signatures(Sigs(tables)) && Addressable(tables, addr)
    requires forall f :: f in BuiltFiles(tables) ==> Find(before, f.name).None?
    ensures var end := Run(Program(Sigs(tables)), before + BuiltFiles(tables), addr, map[]);
            && (end.Some? <==> NoClash(Sigs(tables)))
            && (end.Some? ==> GuestSees(end.value, tables, addr))
  {
    hide Run, Program, Find, BuiltFiles, Signatures, FileName, AllSupported, ParseRsdp, ParseSdt, SdtLength, FromLE,
      Fixed, PatchedXsdt, PatchedRsdp, Stored, Pow256;
    var files := before + BuiltFiles(tables);
    if NoClash(Sigs(tables)) {
      BuiltFilesAreStored(before, tables);
      ProgramRuns(files, tables, addr);
      RsdpIsSound(addr);
      XsdtIsSound(tables, addr);
    } else {
      ClashFails(files, Sigs(tables), addr);
    }
  }

  // The builder.

  const LOADER_CAPACITY: nat := 2048

  /** Keys of the table map in iteration order: byte arrays compare like big-endian numbers. */
  ghost predicate Increasing(tables: seq<SdtFile>) {
    forall i, j :: 0 <= i < j < |tables| ==> FromBE(tables[i].signature) < FromBE(tables[j].signature)
  }

  predicate IsSignature(sig: seq<Byte>) {
    |sig| == 4 && forall j :: 0 <= j < 4 ==> 0 < sig[j] < 128
  }

  /** A table file that parses as a table with its own signature. */
  predicate Parses(f: SdtFile) {
    && IsSignature(f.signature)
    && |f.bytes| >= HEADER_SIZE && SdtLength(f.bytes) == |f.bytes|
    && ParseSdt(f.bytes).Some? && ParseSdt(f.bytes).value.signature == f.signature
  }

  function Inserted(tables: seq<SdtFile>, p: nat, f: SdtFile): seq<SdtFile>
    requires p <= |tables|
  {
    tables[..p] + [f] + tables[p..]
  }

  ghost predicate IsInsertion(before: seq<SdtFile>, after: seq<SdtFile>, f: SdtFile) {
    exists p: nat :: p <= |before| && after == Inserted(before, p, f)
  }

  /** Inserting between smaller and larger keys keeps the order; the key was not there. */
  lemma InsertKeeps(tables: seq<SdtFile>, p: nat, f: SdtFile)
    requires p <= |tables| && Increasing(tables) && Parses(f)
    requires forall i :: 0 <= i < |tables| ==> Parses(tables[i])
    requires forall i :: 0 <= i < p ==> FromBE(tables[i].signature) < FromBE(f.signature)
    requires p < |tables| ==> FromBE(f.signature) < FromBE(tables[p].signature)
    ensures Increasing(Inserted(tables, p, f)) && f.signature !in Sigs(tables)
    ensures forall i :: 0 <= i < |Inserted(tables, p, f)| ==> Parses(Inserted(tables, p, f)[i])
  {
    hide FromBE, Parses;
    var r := Inserted(tables, p, f);
    forall i, j | 0 <= i < j < |r| ensures FromBE(r[i].signature) < FromBE(r[j].signature) {
      assert r[i] == if i < p then tables[i] else if i == p then f else tables[i - 1];
      assert r[j] == if j < p then tables[j] else if j == p then f else tables[j - 1];
    }
    forall i | 0 <= i < |tables| ensures tables[i].signature != f.signature {
    }
  }

  /** What every builder keeps is what the loader program needs of its tables. */
  lemma BuilderTablesAreDistinct(tables: seq<SdtFile>)
    requires Increasing(tables) && forall i :: 0 <= i < |tables| ==> Parses(tables[i])
    ensures Signatures(Sigs(tables))
  {
    hide FromBE, SdtLength, ParseSdt;
    forall i, j | 0 <= i < j < |tables| ensures Sigs(tables)[i] != Sigs(tables)[j] {
      assert FromBE(tables[i].signature) < FromBE(tables[j].signature);
    }
  }

  /** What firmware does with the loader file it finds, and what a guest then finds. */
  ghost predicate Delivered(files: seq<File>, tables: seq<SdtFile>, addr: Name -> nat) {
    var file := Find(files, LOADER_FILE);
    file.Some? &&
    var program := DecodeAll(file.value);
    program.Some? &&
    var end := Run(program.value, files, addr, map[]);
    end.Some? && GuestSees(end.value, tables, addr)
  }

  /** From the builder to the guest: firmware that finds, decodes and runs the loader file hands over all tables. */
  lemma TablesReachTheGuest(before: seq<File>, tables: seq<SdtFile>, addr: Name -> nat)
    requires |tables| <= 5 && Increasing(tables) && forall i :: 0 <= i < |tables| ==> Parses(tables[i])
    requires NoClash(Sigs(tables)) && Addressable(tables, addr)
    requires AllSupported(Program(Sigs(tables)))
    requires forall f :: f in BuiltFiles(tables) ==> Find(before, f.name).None?
    ensures Delivered(before + BuiltFiles(tables), tables, addr)
  {
    hide Run, Program, Find, BuiltFiles, FileName, AllSupported, GuestSees, DecodeAll, Records, Pow256, FromBE, Parses,
      Increasing, Signatures, NoClash, Addressable;
    BuilderTablesAreDistinct(tables);
    ProgramReads(Sigs(tables));
    BuiltFilesAreStored(before, tables);
    LoaderIsSound(before, tables, addr);
  }

  class RsdpBuilder {
    const capacity: nat
    var tables: seq<SdtFile>

    ghost predicate Valid()
      reads this
    {
      && capacity < 0x1_0000_0000
      && Increasing(tables)
      && forall i :: 0 <= i < |tables| ==> Parses(tables[i])
    }

    constructor (capacity: nat)
      requires capacity < 0x1_0000_0000
      ensures Valid() && tables == [] && this.capacity == capacity
    {
      this.capacity := capacity;
      tables := [];
    }

    /** `add_sdt`: an encoded table under its signature, unless the signature is taken or the table is too long. */
    method AddSdt(t: Table) returns (ok: bool)
      requires Valid() && IsSignature(t.signature)
      modifies this
      ensures Valid()
      ensures ok <==> HEADER_SIZE + |t.body| <= capacity && t.signature !in old(Sigs(tables))
      ensures ok ==> EncodeSdt(t, capacity).Some? &&
                     IsInsertion(old(tables), tables, SdtFile(t.signature, EncodeSdt(t, capacity).value))
      ensures !ok ==> tables == old(tables)
    {
      hide EncodeSdt, FromBE, SdtLength, ParseSdt, Inserted;
      if HEADER_SIZE + |t.body| > capacity { return false; }
      EncodedParses(t, capacity);
      var f := SdtFile(t.signature, EncodeSdt(t, capacity).value);
      var p := 0;
      while p < |tables| && FromBE(tables[p].signature) < FromBE(t.signature)
        invariant 0 <= p <= |tables|
        invariant forall i :: 0 <= i < p ==> FromBE(tables[i].signature) < FromBE(t.signature)
      {
        p := p + 1;
      }
      if p < |tables| && tables[p].signature == t.signature {
        assert Sigs(tables)[p] == t.signature;
        return false;
      }
      if p < |tables| && FromBE(tables[p].signature) == FromBE(t.signature) {
        SameKey(tables[p].signature, t.signature);
        assert false;
      }
      InsertKeeps(tables, p, f);
      tables := Inserted(tables, p, f);
      return true;
    }

    /** `RSDTBuilder::build`: the XSDT and every table as a file, and the commands that join them. */
    method BuildXsdt(fw: QemuFwCfgBuilder, loader: TableLoader) returns (ok: bool)
      requires Valid() && fw.Valid() && loader.Valid() && loader.program == Opening()[..1]
      modifies fw, loader
      ensures fw.Valid() && loader.Valid()
      ensures ok <==> |tables| <= 6 && old(|fw.fileInfo|) + |tables| + 1 <= MAX_FILES
      ensures ok ==> loader.program == Opening() + TableCommands(Sigs(tables)) + Closing(|tables|)[..1]
      ensures ok ==> fw.Files() == old(fw.Files()) + [File(FileName(XSDT), XsdtFile(|tables|))] + TableFiles(tables)
    {
      hide XsdtFile, Records, TableCommands, RsdpBuilder.Valid, QemuFwCfgBuilder.Valid, QemuFwCfgBuilder.Files,
        TableLoader.Valid;
      var n := |tables|;
      if HEADER_SIZE + 8 * n > XSDT_BUFFER { return false; }
      var xsdt := XsdtBuffer(n);
      ok := fw.AddFile(FileName(XSDT), xsdt);
      if !ok { return; }
      ok := loader.AddCommand(Opening()[1]);
      if !ok { return; }
      ok := loader.AddCommand(Opening()[2]);
      if !ok { return; }
      assert TableCommands([]) == [] && Sigs(tables)[..0] == [] by { TableCommandsEmpty(); }
      ghost var files := fw.Files();
      ghost var sigs := Sigs(tables);
      assert loader.program == Opening() + TableCommands(sigs[..0]);
      assert files == old(fw.Files()) + [File(FileName(XSDT), XsdtFile(n))] + TableFiles(tables)[..0];
      for i := 0 to n
        invariant fw.Valid() && loader.Valid()
        invariant |fw.fileInfo| == old(|fw.fileInfo|) + 1 + i <= MAX_FILES
        invariant loader.program == Opening() + TableCommands(sigs[..i])
        invariant fw.Files() == files + TableFiles(tables)[..i]
      {
        var name := FileName(tables[i].signature);
        SignatureLength(i);
        ok := loader.AddCommand(Allocate(name, 8, Fseg));
        if !ok { return; }
        ok := loader.AddCommand(AddPointer(FileName(XSDT), name, HEADER_SIZE + 8 * i, 8));
        if !ok { return; }
        ok := fw.AddFile(name, tables[i].bytes);
        if !ok { return; }
        TableCommandsNext(sigs, i);
        assert TableFiles(tables)[..i + 1] == TableFiles(tables)[..i] + [File(name, tables[i].bytes)];
      }
      assert sigs[..n] == sigs && TableFiles(tables)[..n] == TableFiles(tables);
      ok := loader.AddCommand(Closing(n)[0]);
    }

    lemma SignatureLength(i: nat)
      requires Valid() && i < |tables|
      ensures |FileName(tables[i].signature)| == 16
    {
    }

    /** `RSDPBuilder::build`: it succeeds exactly for at most five tables, if the files fit. */
    method Build(fw: QemuFwCfgBuilder) returns (ok: bool)
      requires Valid() && fw.Valid()
      modifies fw
      ensures fw.Valid()
      ensures ok <==> |tables| <= 5 && old(|fw.fileInfo|) + |tables| + 3 <= MAX_FILES
      ensures ok ==> AllSupported(Program(Sigs(tables))) && fw.Files() == old(fw.Files()) + BuiltFiles(tables)
    {
      hide RsdpFile, XsdtFile, Records, TableCommands, AllSupported, RsdpBuilder.Valid, QemuFwCfgBuilder.Valid,
        QemuFwCfgBuilder.Files;
      var buffer := RsdpBuffer();
      ok := fw.AddFile(FileName(RSDP), buffer);
      if !ok { return; }
      var loader := new TableLoader();
      ok := loader.AddCommand(Opening()[0]);
      if !ok { return; }
      ok := BuildXsdt(fw, loader);
      if !ok { return; }
      ok := loader.AddCommand(Closing(|tables|)[1]);
      if !ok { return; }
      assert loader.program == Program(Sigs(tables));
      ok := fw.AddFile(LOADER_FILE, loader.bytes);
    }
  }

  lemma TableCommandsEmpty()
    ensures TableCommands([]) == []
  {
  }

  lemma TableCommandsNext(sigs: seq<seq<Byte>>, i: nat)
    requires i < |sigs|
    ensures TableCommands(sigs[..i + 1]) == TableCommands(sigs[..i]) + TableStep(sigs[i], i)
  {
    assert sigs[..i + 1][..i] == sigs[..i];
  }

  /** `TableLoaderBuilder` over a 2048-byte buffer: room for sixteen commands. */
  class TableLoader {
    var bytes: seq<Byte>
    ghost var program: seq<Command>

    ghost predicate Valid()
      reads this
    {
      AllSupported(program) && bytes == Records(program) && |bytes| <= LOADER_CAPACITY
    }

    constructor ()
      ensures Valid() && program == []
    {
      bytes := [];
      program := [];
    }

    method AddCommand(c: Command) returns (ok: bool)
      requires Valid()
      modifies this
      ensures Valid()
      ensures ok <==> Supported(c) && old(|program|) < 16
      ensures program == old(program) + if ok then [c] else []
    {
      hide Record, Supported;
      var r := Encode(c, bytes, LOADER_CAPACITY);
      if r.None? { return false; }
      assert (program + [c])[..|program|] == program;
      program := program + [c];
      bytes := r.value;
      return true;
    }
  }

  /** The XSDT header, written over a zeroed buffer. */
  method XsdtBuffer(n: nat) returns (bytes: seq<Byte>)
    requires HEADER_SIZE + 8 * n <= XSDT_BUFFER
    ensures bytes == XsdtFile(n)
  {
    hide WriteHeader;
    var buffer := new Byte[4096](_ => 0);
    assert buffer[..] == Zeros(XSDT_BUFFER);
    var ok := WriteSdtHeader(buffer, XSDT_SIGNATURE, 0, 0, HEADER_SIZE + 8 * n);
    return buffer[..HEADER_SIZE + 8 * n];
  }

  /** The RSDP, filled in place. */
  method RsdpBuffer() returns (bytes: seq<Byte>)
    ensures bytes == RsdpFile()
  {
    hide LE, Put, CalcChecksum;
    var buffer := new Byte[36](_ => 0);
    assert buffer[..] == Zeros(36);
    CopyAt(buffer, 0, RSDP_SIGNATURE);
    CopyAt(buffer, 15, [2]);
    CopyAt(buffer, 20, LE(4, 36));
    ghost var fields := buffer[..];
    CopyAt(buffer, 8, [CalcChecksum(buffer[..20])]);
    assert fields[..20] == RsdpFields()[..20];
    CopyAt(buffer, 32, [CalcChecksum(buffer[..])]);
    return buffer[..];
  }

  lemma EncodedParses(t: Table, capacity: nat)
    requires IsSignature(t.signature) && HEADER_SIZE + |t.body| <= capacity < 0x1_0000_0000
    ensures EncodeSdt(t, capacity).Some? && Parses(SdtFile(t.signature, EncodeSdt(t, capacity).value))
  {
    hide LE, FromLE, CalcChecksum, Put, WithFields, Verifies;
    SdtRoundTrip(t, capacity, []);
    var e := EncodeSdt(t, capacity).value;
    assert e + [] == e;
    HeaderWritten(Zeros(HEADER_SIZE) + t.body, t.signature, t.revision, 0, HEADER_SIZE + |t.body|);
    WordReads(HEADER_SIZE + |t.body|);
  }

  /** Signatures with the same key are the same. */
  lemma SameKey(a: seq<Byte>, b: seq<Byte>)
    requires |a| == |b| && FromBE(a) == FromBE(b)
    ensures a == b
    decreases |a|
  {
    if a != [] {
      SameKey(a[..|a| - 1], b[..|b| - 1]);
      assert a == a[..|a| - 1] + [a[|a| - 1]] && b == b[..|b| - 1] + [b[|b| - 1]];
    }
  }
}
