/** Filling the firmware configuration device with files (virtdev/qemu_fw_cfg.rs, `QemuFwCfgBuilder`). */
module FwCfgBuilder {
  import opened Common
  import opened Endian

  const FILE_DIR: nat := 0x19
  const FILE_FIRST: nat := 0x20
  const FILE_LAST: nat := 0x7fff
  const MAX_FILES: nat := 0x7fe0
  const MAX_NAME: nat := 55

  type Name = seq<Byte>

  datatype FileInfo = FileInfo(size: nat, select: nat, name: Name)

  datatype File = File(name: Name, bytes: seq<Byte>)

  /** The file with a given name a reader of the directory comes to first. */
  function Find(files: seq<File>, name: Name): Option<seq<Byte>> {
    if files == [] then None
    else if files[0].name == name then Some(files[0].bytes)
    else Find(files[1..], name)
  }

  /** A fixed-size name field: the name and zeros after it. */
  function NameField(name: Name): (r: seq<Byte>)
    requires |name| <= MAX_NAME
    ensures |r| == MAX_NAME + 1
  {
    name + Zeros(MAX_NAME + 1 - |name|)
  }

  /** How firmware reads a name field: up to the first zero. */
  function UpToNul(s: seq<Byte>): Name {
    if s == [] || s[0] == 0 then [] else [s[0]] + UpToNul(s[1..])
  }

  predicate CleanName(name: Name) {
    |name| <= MAX_NAME && forall i :: 0 <= i < |name| ==> name[i] != 0
  }

  lemma {:induction false} NameReads(name: seq<Byte>, zeros: nat)
    requires zeros > 0 && forall i :: 0 <= i < |name| ==> name[i] != 0
    ensures UpToNul(name + Zeros(zeros)) == name
  {
    if name != [] {
      NameReads(name[1..], zeros);
      assert (name + Zeros(zeros))[1..] == name[1..] + Zeros(zeros);
    }
  }

  function InfoBytes(info: FileInfo): (r: seq<Byte>)
    requires |info.name| <= MAX_NAME
    ensures |r| == 64
  {
    BE(4, info.size) + BE(2, info.select) + [0, 0] + NameField(info.name)
  }

  ghost predicate NamesFit(infos: seq<FileInfo>) {
    forall i :: 0 <= i < |infos| ==> |infos[i].name| <= MAX_NAME
  }

  function InfosBytes(infos: seq<FileInfo>): (r: seq<Byte>)
    requires NamesFit(infos)
    ensures |r| == 64 * |infos|
  {
    if infos == [] then [] else InfosBytes(infos[..|infos| - 1]) + InfoBytes(infos[|infos| - 1])
  }

  /** The file directory item: a count and one 64-byte entry per file. */
  function Directory(infos: seq<FileInfo>): seq<Byte>
    requires NamesFit(infos)
  {
    BE(4, |infos|) + InfosBytes(infos)
  }

  /** A directory entry as firmware reads it. */
  function ReadInfo(b: seq<Byte>): FileInfo
    requires |b| == 64
  {
    FileInfo(FromBE(b[0..4]), FromBE(b[4..6]), UpToNul(b[8..64]))
  }

  lemma InfoRoundTrip(info: FileInfo)
    requires CleanName(info.name) && info.size < 0x1_0000_0000 && info.select < 0x1_0000
    ensures ReadInfo(InfoBytes(info)) == info
  {
    hide BE, FromBE, UpToNul;
    WordSizes();
    BERoundTrip(4, info.size);
    BERoundTrip(2, info.select);
    NameReads(info.name, MAX_NAME + 1 - |info.name|);
    var b := InfoBytes(info);
    assert b[0..4] == BE(4, info.size) && b[4..6] == BE(2, info.select) && b[8..64] == NameField(info.name);
  }

  lemma {:induction false} InfoAt(infos: seq<FileInfo>, i: nat)
    requires NamesFit(infos) && i < |infos|
    ensures InfosBytes(infos)[64 * i..64 * i + 64] == InfoBytes(infos[i])
    decreases |infos|
  {
    hide InfoBytes;
    var rest := infos[..|infos| - 1];
    assert InfosBytes(infos) == InfosBytes(rest) + InfoBytes(infos[|infos| - 1]);
    if i < |infos| - 1 {
      InfoAt(rest, i);
      assert InfosBytes(infos)[64 * i..64 * i + 64] == InfosBytes(rest)[64 * i..64 * i + 64];
    }
  }

  /** Firmware that walks the directory item reads back the count and every entry. */
  lemma DirectoryRoundTrip(infos: seq<FileInfo>, i: nat)
    requires |infos| <= MAX_FILES && NamesFit(infos) && i < |infos|
    requires CleanName(infos[i].name) && infos[i].size < 0x1_0000_0000 && infos[i].select < 0x1_0000
    ensures |Directory(infos)| == 4 + 64 * |infos|
    ensures FromBE(Directory(infos)[0..4]) == |infos|
    ensures ReadInfo(Directory(infos)[4 + 64 * i..4 + 64 * i + 64]) == infos[i]
  {
    hide BE, FromBE, InfoBytes, ReadInfo, InfosBytes;
    WordSizes();
    BERoundTrip(4, |infos|);
    InfoAt(infos, i);
    InfoRoundTrip(infos[i]);
    var d := Directory(infos);
    assert d[0..4] == BE(4, |infos|);
    assert d[4 + 64 * i..4 + 64 * i + 64] == InfosBytes(infos)[64 * i..64 * i + 64];
  }

  /** A directory entry of the item under a selector. */
  predicate InfoOf(info: FileInfo, select: nat, data: map<nat, seq<Byte>>) {
    && info.select == select && |info.name| <= MAX_NAME
    && select in data && info.size == |data[select]| % 0x1_0000_0000
  }

  class QemuFwCfgBuilder {
    var fileInfo: seq<FileInfo>
    var data: map<nat, seq<Byte>>

    /** File items are numbered from FILE_FIRST without a gap, in directory order. */
    ghost predicate Valid()
      reads this
    {
      && |fileInfo| <= MAX_FILES
      && (forall i :: 0 <= i < |fileInfo| ==> InfoOf(fileInfo[i], FILE_FIRST + i, data))
      && (forall k :: k in data && FILE_FIRST <= k <= FILE_LAST ==> k < FILE_FIRST + |fileInfo|)
    }

    /** The files the directory lists, with the contents their selectors give. */
    ghost function Files(): (r: seq<File>)
      requires Valid()
      reads this
      ensures |r| == |fileInfo|
    {
      seq(|fileInfo|, i requires 0 <= i < |fileInfo| && Valid() reads this =>
        File(fileInfo[i].name, data[fileInfo[i].select]))
    }

    constructor ()
      ensures Valid() && Files() == []
    {
      fileInfo := [];
      data := map[0 := LE(4, 0x554d4551), 1 := LE(4, 3)];
    }

    /** `next_file_selector`: one past the largest file selector in use. */
    method NextFileSelector() returns (s: nat)
      requires Valid()
      ensures s == FILE_FIRST + |fileInfo|
    {
      s := FILE_FIRST - 1;
      var rest := data.Keys;
      while rest != {}
        invariant rest <= data.Keys
        invariant FILE_FIRST - 1 <= s <= FILE_LAST && (s == FILE_FIRST - 1 || s in data.Keys)
        invariant forall k :: k in data.Keys && k !in rest && FILE_FIRST <= k <= FILE_LAST ==> k <= s
        decreases rest
      {
        var k :| k in rest;
        if FILE_FIRST <= k <= FILE_LAST && s < k { s := k; }
        rest := rest - {k};
      }
      assert |fileInfo| > 0 ==> fileInfo[|fileInfo| - 1].select in data;
      s := s + 1;
    }

    /** `add_file`: a new item under a selector no item had, listed last in the directory. */
    method AddFile(name: Name, bytes: seq<Byte>) returns (ok: bool)
      requires Valid()
      modifies this
      ensures Valid()
      ensures ok <==> |name| <= MAX_NAME && old(|fileInfo|) < MAX_FILES
      ensures Files() == old(Files()) + if ok then [File(name, bytes)] else []
      ensures forall k :: k in old(data) ==> k in data && data[k] == old(data)[k]
    {
      if |name| > MAX_NAME { return false; }
      var selector := NextFileSelector();
      if selector > FILE_LAST { return false; }
      ghost var before, infos, items := Files(), fileInfo, data;
      fileInfo := fileInfo + [FileInfo(|bytes| % 0x1_0000_0000, selector, name)];
      data := data[selector := bytes];
      forall i | 0 <= i < |fileInfo| ensures InfoOf(fileInfo[i], FILE_FIRST + i, data) {
        if i < |infos| { assert InfoOf(infos[i], FILE_FIRST + i, items); }
      }
      assert Files() == before + [File(name, bytes)];
      return true;
    }

    /** `add_bytes` and `add_i32`, which store an item that is not a file. */
    method AddBytes(selector: nat, bytes: seq<Byte>)
      requires Valid() && !(FILE_FIRST <= selector <= FILE_LAST)
      modifies this
      ensures Valid() && Files() == old(Files()) && data == old(data)[selector := bytes]
    {
      ghost var items := data;
      data := data[selector := bytes];
      assert forall i :: 0 <= i < |fileInfo| ==> InfoOf(fileInfo[i], FILE_FIRST + i, items);
    }

    /** `build`: the directory becomes an item of its own. */
    method Build() returns (items: map<nat, seq<Byte>>)
      requires Valid()
      ensures NamesFit(fileInfo)
      ensures items == data[FILE_DIR := Directory(fileInfo)]
    {
      hide BE, InfoBytes;
      var buffer := BE(4, |fileInfo|);
      for i := 0 to |fileInfo|
        invariant buffer == BE(4, |fileInfo|) + InfosBytes(fileInfo[..i])
      {
        assert fileInfo[..i + 1][..i] == fileInfo[..i];
        buffer := buffer + InfoBytes(fileInfo[i]);
      }
      assert fileInfo[..|fileInfo|] == fileInfo;
      items := data[FILE_DIR := buffer];
    }
  }
}
