/**
 * What the OVA walker guarantees: which entries it visits and where, that
 * the walk is the per-entry step applied to those entries in order, what ends
 * up in the grain table map and the descriptor, and that an archive written by
 * a tar writer is walked entry for entry with each entry's exact content.
 */
module OvaFacts {
  import opened Wrappers
  import opened Bytes
  import opened Strings
  import opened Tar
  import opened Xml
  import opened Ovf
  import opened Ova

  // ----- range reads -----

  /** `readFile(start, end)` of an entry reads the archive bytes at that position of the entry's content. */
  lemma ReaderReadsEntry(archive: seq<byte>, e: TarEntry, start: nat, end: nat)
    requires e.offset + HEADER_SIZE + e.fileSize <= |archive|
    requires start <= end <= e.fileSize
    ensures Read(Reader(Content(archive, e)), start, end)
      == archive[e.offset + HEADER_SIZE + start..e.offset + HEADER_SIZE + end]
  {
    SliceOfSlice(archive, e.offset + HEADER_SIZE, e.fileSize, start, end);
  }

  // ----- entry names -----

  /** The extension test ignores case and looks only at the end of the name. */
  lemma ExtensionExamples()
    ensures IsOvf("vm.OVF") && IsVmdk("Disk-1.Vmdk")
    ensures !IsVmdk("disk1.vmdk.gz") && !IsOvf("vm.mf")
  {
    assert LowerAscii("vm.OVF")[2..] == ".ovf";
    assert LowerAscii("Disk-1.Vmdk")[6..] == ".vmdk";
    assert LowerAscii("disk1.vmdk.gz")[8] == 'd';
    assert LowerAscii("vm.mf")[1] == 'm';
  }

  /** An entry is a descriptor exactly when its last four characters, lower-cased, are `.ovf`. */
  lemma OvfExtension(name: string)
    ensures IsOvf(name) <==> |name| >= 4 && LowerAscii(name[|name| - 4..]) == ".ovf"
  {
    if |name| >= 4 {
      LowerAsciiSuffix(name, |name| - 4);
    }
  }

  /** An entry is a disk exactly when its last five characters, lower-cased, are `.vmdk`. */
  lemma VmdkExtension(name: string)
    ensures IsVmdk(name) <==> |name| >= 5 && LowerAscii(name[|name| - 5..]) == ".vmdk"
  {
    if |name| >= 5 {
      LowerAsciiSuffix(name, |name| - 5);
    }
  }

  // ----- the spread of a descriptor -----

  /** Spreading the same descriptor twice changes nothing. */
  lemma MergeIdempotent(v: Vm)
    ensures Merge(Some(v), v) == v
  {
  }

  /** Spreading two descriptors one after the other is spreading their spread. */
  lemma MergeAssociative(a: Vm, b: Vm, c: Vm)
    ensures Merge(Some(Merge(Some(a), b)), c) == Merge(Some(a), Merge(Some(b), c))
  {
  }

  // ----- the entries the walk visits -----

  /** The entries from `offset` up to the end marker, or the offset of a header whose size does not parse. */
  function Scan(archive: seq<byte>, offset: nat): Result<seq<TarEntry>, nat>
    decreases if offset < |archive| then |archive| - offset else 0
  {
    HeaderInside(archive, offset);
    match HeaderAt(archive, offset)
    case EndOfArchive => Success([])
    case BadSize => Failure(offset)
    case Entry(name, size) =>
      var e := TarEntry(offset, name, size);
      var rest :- Scan(archive, NextOffset(e));
      Success([e] + rest)
  }

  /**
   * The visited headers: the first at `offset`, each next one right after the
   * previous content rounded up to whole blocks, each decoding to its entry.
   */
  lemma {:induction false} ScanChain(archive: seq<byte>, offset: nat)
    requires Scan(archive, offset).Success?
    ensures var es := Scan(archive, offset).value;
      && (es != [] ==> es[0].offset == offset)
      && (forall i :: 0 <= i < |es| - 1 ==> es[i + 1].offset == NextOffset(es[i]))
      && (forall i :: 0 <= i < |es| ==> HeaderAt(archive, es[i].offset) == Entry(es[i].fileName, es[i].fileSize))
    decreases if offset < |archive| then |archive| - offset else 0
  {
    if HeaderAt(archive, offset).Entry? {
      ScanCons(archive, offset);
      var e := TarEntry(offset, HeaderAt(archive, offset).fileName, HeaderAt(archive, offset).fileSize);
      ScanChain(archive, NextOffset(e));
    }
  }

  /** The visited headers all lie inside the archive, from `offset` on. */
  lemma {:induction false} ScanInside(archive: seq<byte>, offset: nat)
    requires Scan(archive, offset).Success?
    ensures var es := Scan(archive, offset).value;
      forall i :: 0 <= i < |es| ==> offset <= es[i].offset < |archive|
    decreases if offset < |archive| then |archive| - offset else 0
  {
    if HeaderAt(archive, offset).Entry? {
      ScanCons(archive, offset);
      var e := TarEntry(offset, HeaderAt(archive, offset).fileName, HeaderAt(archive, offset).fileSize);
      var rest := Scan(archive, NextOffset(e)).value;
      ScanInside(archive, NextOffset(e));
      var es := [e] + rest;
      assert Scan(archive, offset).value == es;
      assert offset <= NextOffset(e);
      forall i | 0 <= i < |es| ensures offset <= es[i].offset < |archive| {
        if i > 0 {
          assert es[i] == rest[i - 1];
        }
      }
    }
  }

  /** The visited headers are block-aligned with `offset`. */
  lemma {:induction false} ScanAligned(archive: seq<byte>, offset: nat)
    requires Scan(archive, offset).Success?
    ensures var es := Scan(archive, offset).value;
      forall i :: 0 <= i < |es| ==> es[i].offset % 512 == offset % 512
    decreases if offset < |archive| then |archive| - offset else 0
  {
    if HeaderAt(archive, offset).Entry? {
      ScanCons(archive, offset);
      var e := TarEntry(offset, HeaderAt(archive, offset).fileName, HeaderAt(archive, offset).fileSize);
      var rest := Scan(archive, NextOffset(e)).value;
      ScanAligned(archive, NextOffset(e));
      var es := [e] + rest;
      assert Scan(archive, offset).value == es;
      NextAligned(e);
      var next := NextOffset(e);
      forall i | 0 <= i < |es| ensures es[i].offset % 512 == offset % 512 {
        if i > 0 {
          assert es[i] == rest[i - 1];
          assert rest[i - 1].offset % 512 == next % 512;
        }
      }
    }
  }

  /** Every visited entry takes at least one block, so there are at most as many entries as blocks from `offset`. */
  lemma {:induction false} ScanCount(archive: seq<byte>, offset: nat)
    requires Scan(archive, offset).Success?
    ensures var es := Scan(archive, offset).value;
      es != [] ==> |es| * HEADER_SIZE < |archive| - offset + HEADER_SIZE
    decreases if offset < |archive| then |archive| - offset else 0
  {
    if HeaderAt(archive, offset).Entry? {
      ScanCons(archive, offset);
      var e := TarEntry(offset, HeaderAt(archive, offset).fileName, HeaderAt(archive, offset).fileSize);
      var rest := Scan(archive, NextOffset(e)).value;
      ScanCount(archive, NextOffset(e));
      assert Scan(archive, offset).value == [e] + rest;
      assert HEADER_SIZE == 512 && NextOffset(e) >= offset + 512;
      assert |[e] + rest| * 512 == |rest| * 512 + 512;
    }
  }

  /** The next header is as block-aligned as the current one: content is skipped in whole blocks. */
  lemma NextAligned(e: TarEntry)
    ensures NextOffset(e) % 512 == e.offset % 512
  {
    var p := Padded(e.fileSize);
    assert HEADER_SIZE == 512 && p % 512 == 0;
    AddBlocks(e.offset, p / 512 + 1);
    assert NextOffset(e) == e.offset + 512 * (p / 512 + 1);
  }

  /** Whole blocks added to an offset keep its place within a block. */
  lemma {:induction false} AddBlocks(x: nat, m: nat)
    ensures (x + 512 * m) % 512 == x % 512
    decreases m
  {
    if m > 0 {
      AddBlocks(x, m - 1);
      assert x + 512 * m == (x + 512 * (m - 1)) + 512;
    }
  }

  /** The content handed to each visited entry's step. */
  function Files(archive: seq<byte>, es: seq<TarEntry>): (fs: seq<ArchiveFile>)
    ensures |fs| == |es|
    ensures forall i :: 0 <= i < |es| ==> fs[i] == ArchiveFile(es[i].fileName, Content(archive, es[i]))
  {
    seq(|es|, i requires 0 <= i < |es| => ArchiveFile(es[i].fileName, Content(archive, es[i])))
  }

  /** The entry list of a scan that visits `e` first. */
  lemma ScanCons(archive: seq<byte>, offset: nat)
    requires HeaderAt(archive, offset).Entry?
    ensures var e := TarEntry(offset, HeaderAt(archive, offset).fileName, HeaderAt(archive, offset).fileSize);
      && offset < |archive|
      && Scan(archive, offset) == (var rest :- Scan(archive, NextOffset(e)); Success([e] + rest))
  {
    HeaderInside(archive, offset);
  }

  /** The files of a scan that visits `e` first: `e`'s file, then the files of the rest of the scan. */
  lemma ApplyScanCons<T>(h: Handlers<T>, archive: seq<byte>, offset: nat, data: Parsed<T>)
    requires HeaderAt(archive, offset).Entry? && Scan(archive, offset).Success?
    ensures var e := TarEntry(offset, HeaderAt(archive, offset).fileName, HeaderAt(archive, offset).fileSize);
      && Scan(archive, NextOffset(e)).Success?
      && Apply(h, Files(archive, Scan(archive, offset).value), data)
           == (var next :- EntryStep(h, data, e.fileName, Content(archive, e));
               Apply(h, Files(archive, Scan(archive, NextOffset(e)).value), next))
  {
    ScanCons(archive, offset);
    var e := TarEntry(offset, HeaderAt(archive, offset).fileName, HeaderAt(archive, offset).fileSize);
    var rest := Scan(archive, NextOffset(e)).value;
    FilesCons(archive, e, rest);
  }

  /** The walk is the entry step applied to the visited entries in order. */
  lemma {:induction false} WalkIsApply<T>(h: Handlers<T>, archive: seq<byte>, offset: nat, data: Parsed<T>)
    requires Scan(archive, offset).Success?
    ensures Walk(h, archive, offset, data) == Apply(h, Files(archive, Scan(archive, offset).value), data)
    decreases if offset < |archive| then |archive| - offset else 0
  {
    WalkStep(h, archive, offset, data);
    if HeaderAt(archive, offset).Entry? {
      ApplyScanCons(h, archive, offset, data);
      var e := TarEntry(offset, HeaderAt(archive, offset).fileName, HeaderAt(archive, offset).fileSize);
      HeaderInside(archive, offset);
      var next := EntryStep(h, data, e.fileName, Content(archive, e));
      if next.Success? {
        WalkIsApply(h, archive, NextOffset(e), next.value);
      }
    }
  }

  /** A header whose size does not parse makes the walk reject, here or at an earlier entry. */
  lemma {:induction false} WalkFailsOnBadSize<T>(h: Handlers<T>, archive: seq<byte>, offset: nat, data: Parsed<T>)
    requires Scan(archive, offset).Failure?
    ensures Walk(h, archive, offset, data).Failure?
    decreases if offset < |archive| then |archive| - offset else 0
  {
    WalkStep(h, archive, offset, data);
    if HeaderAt(archive, offset).Entry? {
      ScanCons(archive, offset);
      var e := TarEntry(offset, HeaderAt(archive, offset).fileName, HeaderAt(archive, offset).fileSize);
      var next := EntryStep(h, data, e.fileName, Content(archive, e));
      if next.Success? {
        WalkFailsOnBadSize(h, archive, NextOffset(e), next.value);
      }
    }
  }

  // ----- what the per-entry steps build -----

  /** An entry whose step rejects, whatever `data` holds: a descriptor that does not parse or normalise, a disk the reader refuses. */
  predicate EntryFails<T>(h: Handlers<T>, f: ArchiveFile) {
    || (IsOvf(f.name) && (h.parseXml(f.content).None? || Normalise(h.parseXml(f.content).value).Failure?))
    || (!h.skipVmdk && IsVmdk(f.name) && h.readGrainTable(Reader(f.content)).None?)
  }

  lemma EntryStepFails<T>(h: Handlers<T>, data: Parsed<T>, f: ArchiveFile)
    ensures EntryStep(h, data, f.name, f.content).Failure? <==> EntryFails(h, f)
  {
  }

  /** The steps reject exactly when one of the entries does. */
  lemma {:induction false} ApplyFails<T>(h: Handlers<T>, fs: seq<ArchiveFile>, data: Parsed<T>)
    ensures Apply(h, fs, data).Failure? <==> exists i :: 0 <= i < |fs| && EntryFails(h, fs[i])
    decreases |fs|
  {
    if fs != [] {
      EntryStepFails(h, data, fs[0]);
      var next := EntryStep(h, data, fs[0].name, fs[0].content);
      if next.Success? {
        ApplyFails(h, fs[1..], next.value);
        if exists i :: 0 <= i < |fs| && EntryFails(h, fs[i]) {
          var i :| 0 <= i < |fs| && EntryFails(h, fs[i]);
          assert fs[1..][i - 1] == fs[i];
        }
      }
    }
  }

  /** The names of the disk entries whose grain tables are read. */
  function DiskNames<T>(h: Handlers<T>, fs: seq<ArchiveFile>): set<string> {
    if h.skipVmdk then {} else set i | 0 <= i < |fs| && IsVmdk(fs[i].name) :: fs[i].name
  }

  lemma DiskNamesCons<T>(h: Handlers<T>, fs: seq<ArchiveFile>)
    requires fs != []
    ensures DiskNames(h, fs) == (if !h.skipVmdk && IsVmdk(fs[0].name) then {fs[0].name} else {}) + DiskNames(h, fs[1..])
  {
    if !h.skipVmdk {
      forall n | n in DiskNames(h, fs)
        ensures n in (if IsVmdk(fs[0].name) then {fs[0].name} else {}) + DiskNames(h, fs[1..])
      {
        var i :| 0 <= i < |fs| && IsVmdk(fs[i].name) && fs[i].name == n;
        if i > 0 {
          assert fs[1..][i - 1] == fs[i];
        }
      }
      forall n | n in DiskNames(h, fs[1..]) ensures n in DiskNames(h, fs) {
        var i :| 0 <= i < |fs[1..]| && IsVmdk(fs[1..][i].name) && fs[1..][i].name == n;
        assert fs[1..][i] == fs[i + 1];
      }
    }
  }

  /**
   * `data.tables` gains one key per disk entry, named as the entry; the table
   * under it is the one the reader returned for the last entry of that name,
   * since a later entry overwrites an earlier one. Every other key keeps its
   * table, and with `skipVmdk` nothing changes.
   */
  lemma ApplyTables<T>(h: Handlers<T>, fs: seq<ArchiveFile>, data: Parsed<T>)
    requires Apply(h, fs, data).Success?
    ensures var tables := Apply(h, fs, data).value.tables;
      && tables.Keys == data.tables.Keys + DiskNames(h, fs)
      && (forall n :: n in tables && n !in DiskNames(h, fs) ==> tables[n] == data.tables[n])
      && (forall n :: n in DiskNames(h, fs) ==>
            exists i :: 0 <= i < |fs| && fs[i].name == n && h.readGrainTable(Reader(fs[i].content)) == Some(tables[n]))
      && (forall i :: LastDiskEntry(h, fs, i) ==>
            fs[i].name in tables && h.readGrainTable(Reader(fs[i].content)) == Some(tables[fs[i].name]))
  {
    ApplyTableKeys(h, fs, data);
    forall i | LastDiskEntry(h, fs, i)
      ensures fs[i].name in Apply(h, fs, data).value.tables
      ensures h.readGrainTable(Reader(fs[i].content)) == Some(Apply(h, fs, data).value.tables[fs[i].name])
    {
      ApplyTableLast(h, fs, data, i);
    }
  }

  /** The keys the steps add to `data.tables`, the keys they keep, and an entry of each added name holding its table. */
  lemma {:induction false} ApplyTableKeys<T>(h: Handlers<T>, fs: seq<ArchiveFile>, data: Parsed<T>)
    requires Apply(h, fs, data).Success?
    ensures var tables := Apply(h, fs, data).value.tables;
      && tables.Keys == data.tables.Keys + DiskNames(h, fs)
      && (forall n :: n in tables && n !in DiskNames(h, fs) ==> tables[n] == data.tables[n])
      && (forall n :: n in DiskNames(h, fs) ==>
            exists i :: 0 <= i < |fs| && fs[i].name == n && h.readGrainTable(Reader(fs[i].content)) == Some(tables[n]))
    decreases |fs|
  {
    if fs != [] {
      var next := EntryStep(h, data, fs[0].name, fs[0].content).value;
      ApplyTableKeys(h, fs[1..], next);
      DiskNamesCons(h, fs);
      var tables := Apply(h, fs, data).value.tables;
      forall n | n in DiskNames(h, fs)
        ensures exists i :: 0 <= i < |fs| && fs[i].name == n && h.readGrainTable(Reader(fs[i].content)) == Some(tables[n])
      {
        if n in DiskNames(h, fs[1..]) {
          var i :| 0 <= i < |fs[1..]| && fs[1..][i].name == n && h.readGrainTable(Reader(fs[1..][i].content)) == Some(tables[n]);
          assert fs[1..][i] == fs[i + 1];
        } else {
          assert fs[0].name == n;
        }
      }
    }
  }

  /** The table under the name of the last disk entry with that name is the one the reader returned for it. */
  lemma {:induction false} ApplyTableLast<T>(h: Handlers<T>, fs: seq<ArchiveFile>, data: Parsed<T>, i: int)
    requires Apply(h, fs, data).Success?
    requires LastDiskEntry(h, fs, i)
    ensures fs[i].name in Apply(h, fs, data).value.tables
    ensures h.readGrainTable(Reader(fs[i].content)) == Some(Apply(h, fs, data).value.tables[fs[i].name])
    decreases |fs|
  {
    var next := EntryStep(h, data, fs[0].name, fs[0].content).value;
    if i == 0 {
      EntryStepTables(h, data, fs[0]);
      forall j | 0 <= j < |fs[1..]| ensures fs[1..][j].name != fs[0].name {
        assert fs[1..][j] == fs[j + 1];
      }
      assert fs[0].name !in DiskNames(h, fs[1..]);
      ApplyTableKeys(h, fs[1..], next);
    } else {
      LaterDiskEntry(h, fs, i);
      ApplyTableLast(h, fs[1..], next, i - 1);
    }
  }

  /** Disk entry `i` is the last entry of `fs` with its name: a later one would overwrite its table. */
  predicate LastDiskEntry<T>(h: Handlers<T>, fs: seq<ArchiveFile>, i: int) {
    0 <= i < |fs| && !h.skipVmdk && IsVmdk(fs[i].name) && forall j :: i < j < |fs| ==> fs[j].name != fs[i].name
  }

  lemma LaterDiskEntry<T>(h: Handlers<T>, fs: seq<ArchiveFile>, i: int)
    requires 0 < i && LastDiskEntry(h, fs, i)
    ensures fs[1..][i - 1] == fs[i] && LastDiskEntry(h, fs[1..], i - 1)
  {
    forall j | i - 1 < j < |fs[1..]| ensures fs[1..][j].name != fs[i].name {
      assert fs[1..][j] == fs[j + 1];
    }
  }

  /** One entry stores the table the reader returns under its name if it is a read disk, and leaves the tables alone otherwise. */
  lemma EntryStepTables<T>(h: Handlers<T>, data: Parsed<T>, f: ArchiveFile)
    requires EntryStep(h, data, f.name, f.content).Success?
    ensures var tables := EntryStep(h, data, f.name, f.content).value.tables;
      if !h.skipVmdk && IsVmdk(f.name)
      then h.readGrainTable(Reader(f.content)).Some? && tables == data.tables[f.name := h.readGrainTable(Reader(f.content)).value]
      else tables == data.tables
  {
    if IsOvf(f.name) {
      var afterOvf := OvfEntry(h, data, f.name, f.content);
      assert afterOvf.Success? && afterOvf.value.tables == data.tables;
      assert EntryStep(h, data, f.name, f.content) == DiskEntry(h, afterOvf.value, f.name, f.content);
    }
  }

  /** An entry that is neither a descriptor nor a disk whose table is read leaves `data` as it is. */
  lemma OtherEntryUnchanged<T>(h: Handlers<T>, data: Parsed<T>, name: string, content: seq<byte>)
    requires !IsOvf(name) && (h.skipVmdk || !IsVmdk(name))
    ensures EntryStep(h, data, name, content) == Success(data)
  {
  }

  lemma EntryStepDescriptor<T>(h: Handlers<T>, data: Parsed<T>, f: ArchiveFile)
    requires EntryStep(h, data, f.name, f.content).Success?
    ensures EntryStep(h, data, f.name, f.content).value.descriptor.Some? <==> data.descriptor.Some? || IsOvf(f.name)
  {
    if IsOvf(f.name) {
      var afterOvf := OvfEntry(h, data, f.name, f.content);
      assert afterOvf.Success?;
      assert EntryStep(h, data, f.name, f.content) == DiskEntry(h, afterOvf.value, f.name, f.content);
    } else {
      assert EntryStep(h, data, f.name, f.content) == DiskEntry(h, data, f.name, f.content);
    }
  }

  /** The result holds a descriptor exactly when `data` did or some entry is a descriptor. */
  lemma {:induction false} ApplyDescriptor<T>(h: Handlers<T>, fs: seq<ArchiveFile>, data: Parsed<T>)
    requires Apply(h, fs, data).Success?
    ensures Apply(h, fs, data).value.descriptor.Some? <==>
      data.descriptor.Some? || exists i :: 0 <= i < |fs| && IsOvf(fs[i].name)
    decreases |fs|
  {
    if fs != [] {
      var next := EntryStep(h, data, fs[0].name, fs[0].content).value;
      EntryStepDescriptor(h, data, fs[0]);
      ApplyDescriptor(h, fs[1..], next);
      if exists i :: 1 <= i < |fs| && IsOvf(fs[i].name) {
        var i :| 1 <= i < |fs| && IsOvf(fs[i].name);
        assert fs[1..][i - 1] == fs[i];
      }
      if exists i :: 0 <= i < |fs[1..]| && IsOvf(fs[1..][i].name) {
        var i :| 0 <= i < |fs[1..]| && IsOvf(fs[1..][i].name);
        assert fs[1..][i] == fs[i + 1];
      }
    }
  }

  /** The record a descriptor entry normalises to; None for any other entry, and when parsing or normalising fails. */
  function DescriptorOf<T>(h: Handlers<T>, f: ArchiveFile): Option<Vm> {
    if !IsOvf(f.name) then None
    else match h.parseXml(f.content)
      case None => None
      case Some(res) => if Normalise(res).Success? then Some(Normalise(res).value.vm) else None
  }

  /** The records of the descriptor entries of `fs`, in order. */
  function OvfVms<T>(h: Handlers<T>, fs: seq<ArchiveFile>): seq<Vm> {
    if fs == [] then []
    else (match DescriptorOf(h, fs[0]) case Some(v) => [v] case None => []) + OvfVms(h, fs[1..])
  }

  /** Spreading the records into `prior` one after another. */
  function MergeAll(prior: Option<Vm>, vms: seq<Vm>): Option<Vm>
    decreases |vms|
  {
    if vms == [] then prior else MergeAll(Some(Merge(prior, vms[0])), vms[1..])
  }

  /** One entry spreads its record into the descriptor if it is a descriptor entry, and leaves it alone otherwise. */
  lemma EntryStepDescriptorValue<T>(h: Handlers<T>, data: Parsed<T>, f: ArchiveFile)
    requires EntryStep(h, data, f.name, f.content).Success?
    ensures EntryStep(h, data, f.name, f.content).value.descriptor
      == match DescriptorOf(h, f) case Some(v) => Some(Merge(data.descriptor, v)) case None => data.descriptor
  {
    if IsOvf(f.name) {
      var afterOvf := OvfEntry(h, data, f.name, f.content);
      assert afterOvf.Success?;
      assert EntryStep(h, data, f.name, f.content) == DiskEntry(h, afterOvf.value, f.name, f.content);
    } else {
      assert EntryStep(h, data, f.name, f.content) == DiskEntry(h, data, f.name, f.content);
    }
  }

  /** The descriptor after the steps is every descriptor entry's record spread into `data`'s, in order. */
  lemma {:induction false} ApplyDescriptorValue<T>(h: Handlers<T>, fs: seq<ArchiveFile>, data: Parsed<T>)
    requires Apply(h, fs, data).Success?
    ensures Apply(h, fs, data).value.descriptor == MergeAll(data.descriptor, OvfVms(h, fs))
    decreases |fs|
  {
    if fs != [] {
      var next := EntryStep(h, data, fs[0].name, fs[0].content).value;
      EntryStepDescriptorValue(h, data, fs[0]);
      ApplyDescriptorValue(h, fs[1..], next);
      var rest := OvfVms(h, fs[1..]);
      match DescriptorOf(h, fs[0])
      case Some(v) =>
        assert OvfVms(h, fs) == [v] + rest;
        assert ([v] + rest)[1..] == rest;
      case None =>
        assert OvfVms(h, fs) == rest;
    }
  }

  /** Once at least one record is spread in, the labels, networks and disks are those of the last. */
  lemma {:induction false} MergeAllLast(prior: Option<Vm>, vms: seq<Vm>)
    requires vms != []
    ensures var r := MergeAll(prior, vms);
      var last := vms[|vms| - 1];
      && r.Some?
      && r.value.nameLabel == last.nameLabel && r.value.descriptionLabel == last.descriptionLabel
      && r.value.networks == last.networks && r.value.disks == last.disks
    decreases |vms|
  {
    if |vms| > 1 {
      MergeAllLast(Some(Merge(prior, vms[0])), vms[1..]);
      assert vms[1..][|vms| - 2] == vms[|vms| - 1];
    }
  }

  /** Entry `i` is the last descriptor entry of `fs`. */
  predicate LastOvf(fs: seq<ArchiveFile>, i: int) {
    0 <= i < |fs| && IsOvf(fs[i].name) && forall j :: i < j < |fs| ==> !IsOvf(fs[j].name)
  }

  /** Entries none of which is a descriptor contribute no record. */
  lemma {:induction false} OvfVmsNone<T>(h: Handlers<T>, fs: seq<ArchiveFile>)
    requires forall j :: 0 <= j < |fs| ==> !IsOvf(fs[j].name)
    ensures OvfVms(h, fs) == []
    decreases |fs|
  {
    if fs != [] {
      assert !IsOvf(fs[0].name);
      forall j | 0 <= j < |fs[1..]| ensures !IsOvf(fs[1..][j].name) {
        assert fs[1..][j] == fs[j + 1];
      }
      OvfVmsNone(h, fs[1..]);
    }
  }

  /** The last record is that of the last descriptor entry, when that entry normalises. */
  lemma {:induction false} OvfVmsLast<T>(h: Handlers<T>, fs: seq<ArchiveFile>, i: int)
    requires LastOvf(fs, i) && DescriptorOf(h, fs[i]).Some?
    ensures var vms := OvfVms(h, fs); vms != [] && vms[|vms| - 1] == DescriptorOf(h, fs[i]).value
    decreases |fs|
  {
    var rest := fs[1..];
    if i == 0 {
      forall j | 0 <= j < |rest| ensures !IsOvf(rest[j].name) {
        assert rest[j] == fs[j + 1];
      }
      OvfVmsNone(h, rest);
      assert OvfVms(h, fs) == [DescriptorOf(h, fs[0]).value];
    } else {
      forall j | i - 1 < j < |rest| ensures !IsOvf(rest[j].name) {
        assert rest[j] == fs[j + 1];
      }
      assert rest[i - 1] == fs[i];
      OvfVmsLast(h, rest, i - 1);
    }
  }

  /**
   * `data = { ...data, ...res }`: after the steps, the name, description,
   * networks and disks are those the last descriptor entry normalised to.
   */
  lemma ApplyLastDescriptor<T>(h: Handlers<T>, fs: seq<ArchiveFile>, data: Parsed<T>, i: int)
    requires Apply(h, fs, data).Success?
    requires LastOvf(fs, i)
    ensures DescriptorOf(h, fs[i]).Some?
    ensures var d := Apply(h, fs, data).value.descriptor;
      var v := DescriptorOf(h, fs[i]).value;
      && d.Some?
      && d.value.nameLabel == v.nameLabel && d.value.descriptionLabel == v.descriptionLabel
      && d.value.networks == v.networks && d.value.disks == v.disks
  {
    ApplyFails(h, fs, data);
    assert !EntryFails(h, fs[i]);
    ApplyDescriptorValue(h, fs, data);
    OvfVmsLast(h, fs, i);
    MergeAllLast(data.descriptor, OvfVms(h, fs));
  }

  // ----- archives written by a tar writer -----

  /** An entry a tar writer can store: a valid name and a size the size field can hold. */
  predicate Storable(f: ArchiveFile) {
    ValidName(f.name) && |f.content| < Pow(256, OCTAL_DIGITS)
  }

  /** Every entry of `fs` can be stored. */
  predicate AllStorable(fs: seq<ArchiveFile>) {
    fs == [] || (Storable(fs[0]) && AllStorable(fs[1..]))
  }

  /** One entry as written: its header, its content, and zeros up to the next block. */
  function EncodeEntry(f: ArchiveFile): (bs: seq<byte>)
    requires Storable(f)
    ensures |bs| == HEADER_SIZE + Padded(|f.content|)
  {
    EncodeHeader(f.name, |f.content|) + f.content + Zeros(Padded(|f.content|) - |f.content|)
  }

  /** The entries in order, then the two zero blocks that end a tar archive. */
  function EncodeArchive(fs: seq<ArchiveFile>): seq<byte>
    requires AllStorable(fs)
  {
    if fs == [] then Zeros(2 * HEADER_SIZE) else EncodeEntry(fs[0]) + EncodeArchive(fs[1..])
  }

  /** The header and the content of an entry laid out as header, content and padding are read back by their positions. */
  lemma EntryLayout(pre: seq<byte>, header: seq<byte>, content: seq<byte>, padding: seq<byte>, post: seq<byte>)
    ensures var archive := pre + (header + content + padding) + post;
      && Slice(archive, |pre|, |pre| + |header|) == header
      && Slice(archive, |pre| + |header|, |pre| + |header| + |content|) == content
  {
    var archive := pre + (header + content + padding) + post;
    assert archive == pre + header + (content + padding + post);
    SliceMiddle(pre, header, content + padding + post);
    assert archive == (pre + header) + content + (padding + post);
    SliceMiddle(pre + header, content, padding + post);
  }

  /** The header of a written entry decodes to it. */
  lemma EncodedHeaderAt(pre: seq<byte>, f: ArchiveFile, post: seq<byte>)
    requires Storable(f)
    ensures HeaderAt(pre + EncodeEntry(f) + post, |pre|) == Entry(f.name, |f.content|)
  {
    var header := EncodeHeader(f.name, |f.content|);
    var padding := Zeros(Padded(|f.content|) - |f.content|);
    assert EncodeEntry(f) == header + f.content + padding;
    EntryLayout(pre, header, f.content, padding, post);
    HeaderRoundTrip(f.name, |f.content|);
  }

  /** The content of a written entry is read back exactly, and the next header follows its padding. */
  lemma EncodedContentAt(pre: seq<byte>, f: ArchiveFile, post: seq<byte>)
    requires Storable(f)
    ensures var e := TarEntry(|pre|, f.name, |f.content|);
      && Content(pre + EncodeEntry(f) + post, e) == f.content
      && NextOffset(e) == |pre + EncodeEntry(f)|
  {
    var header := EncodeHeader(f.name, |f.content|);
    var padding := Zeros(Padded(|f.content|) - |f.content|);
    assert EncodeEntry(f) == header + f.content + padding;
    EntryLayout(pre, header, f.content, padding, post);
  }

  /** The middle of three sequences, read back by its position. */
  lemma SliceMiddle<T>(a: seq<T>, b: seq<T>, c: seq<T>)
    ensures Slice(a + b + c, |a|, |a| + |b|) == b
  {
    if b != [] {
      assert (a + b + c)[|a|..|a| + |b|] == b;
    }
  }

  /** The two zero blocks at the end of a written archive end the walk. */
  lemma EncodedEnd(pre: seq<byte>)
    ensures HeaderAt(pre + Zeros(2 * HEADER_SIZE), |pre|) == EndOfArchive
  {
    assert Slice(pre + Zeros(2 * HEADER_SIZE), |pre|, |pre| + HEADER_SIZE) == Zeros(HEADER_SIZE);
    ZeroBlockEndsArchive();
  }

  /** A scan that finds the entry of `f` at `offset` and reads the rest back from the next header reads `f` back first. */
  lemma ScanReadsBack(archive: seq<byte>, offset: nat, f: ArchiveFile, restFiles: seq<ArchiveFile>)
    requires HeaderAt(archive, offset) == Entry(f.name, |f.content|)
    requires Content(archive, TarEntry(offset, f.name, |f.content|)) == f.content
    requires var next := NextOffset(TarEntry(offset, f.name, |f.content|));
      Scan(archive, next).Success? && Files(archive, Scan(archive, next).value) == restFiles
    ensures Scan(archive, offset).Success? && Files(archive, Scan(archive, offset).value) == [f] + restFiles
  {
    var e := TarEntry(offset, f.name, |f.content|);
    ScanCons(archive, offset);
    FilesCons(archive, e, Scan(archive, NextOffset(e)).value);
  }

  /** Reading a written entry visits it with its exact content, then goes on right after its padding. */
  lemma ScanEncodedEntry(archive: seq<byte>, pre: seq<byte>, f: ArchiveFile, post: seq<byte>, restFiles: seq<ArchiveFile>)
    requires Storable(f) && archive == pre + EncodeEntry(f) + post
    requires Scan(archive, |pre + EncodeEntry(f)|).Success?
    requires Files(archive, Scan(archive, |pre + EncodeEntry(f)|).value) == restFiles
    ensures Scan(archive, |pre|).Success? && Files(archive, Scan(archive, |pre|).value) == [f] + restFiles
  {
    EncodedHeaderAt(pre, f, post);
    EncodedContentAt(pre, f, post);
    ScanReadsBack(archive, |pre|, f, restFiles);
  }

  /** Reading a written archive from the start of any of its entries visits the remaining entries with their exact contents. */
  lemma {:induction false} ScanEncoded(pre: seq<byte>, fs: seq<ArchiveFile>)
    requires AllStorable(fs)
    ensures var archive := pre + EncodeArchive(fs);
      && Scan(archive, |pre|).Success?
      && Files(archive, Scan(archive, |pre|).value) == fs
    decreases |fs|
  {
    if fs == [] {
      ScanEncodedEnd(pre);
    } else {
      ScanEncoded(pre + EncodeEntry(fs[0]), fs[1..]);
      ScanEncodedCons(pre, fs);
    }
  }

  /** Reading back the first written entry, given that the rest reads back. */
  lemma ScanEncodedCons(pre: seq<byte>, fs: seq<ArchiveFile>)
    requires fs != [] && AllStorable(fs)
    requires var pre' := pre + EncodeEntry(fs[0]);
      var archive := pre' + EncodeArchive(fs[1..]);
      && Scan(archive, |pre'|).Success?
      && Files(archive, Scan(archive, |pre'|).value) == fs[1..]
    ensures var archive := pre + EncodeArchive(fs);
      && Scan(archive, |pre|).Success?
      && Files(archive, Scan(archive, |pre|).value) == fs
  {
    EncodeArchiveCons(pre, fs);
    ScanEncodedEntry(pre + EncodeArchive(fs), pre, fs[0], EncodeArchive(fs[1..]), fs[1..]);
    assert fs == [fs[0]] + fs[1..];
  }

  /** The end of a written archive: the scan visits nothing more. */
  lemma ScanEncodedEnd(pre: seq<byte>)
    ensures var archive := pre + EncodeArchive([]);
      && Scan(archive, |pre|).Success?
      && Files(archive, Scan(archive, |pre|).value) == []
  {
    EncodedEnd(pre);
  }

  /** A written archive is its first entry followed by the rest. */
  lemma EncodeArchiveCons(pre: seq<byte>, fs: seq<ArchiveFile>)
    requires fs != [] && AllStorable(fs)
    ensures pre + EncodeArchive(fs) == (pre + EncodeEntry(fs[0])) + EncodeArchive(fs[1..])
  {
    ConcatAssoc(pre, EncodeEntry(fs[0]), EncodeArchive(fs[1..]));
  }

  lemma ConcatAssoc<T>(a: seq<T>, b: seq<T>, c: seq<T>)
    ensures a + (b + c) == (a + b) + c
  {
  }

  lemma FilesCons(archive: seq<byte>, e: TarEntry, rest: seq<TarEntry>)
    ensures Files(archive, [e] + rest) == [ArchiveFile(e.fileName, Content(archive, e))] + Files(archive, rest)
  {
    var files := Files(archive, [e] + rest);
    var tail := Files(archive, rest);
    forall i | 0 <= i < |files|
      ensures files[i] == ([ArchiveFile(e.fileName, Content(archive, e))] + tail)[i]
    {
      if i > 0 {
        assert ([e] + rest)[i] == rest[i - 1];
      }
    }
  }

  /** Parsing a written archive is the entry step applied to the files it was written from, in order. */
  lemma WalkEncoded<T>(h: Handlers<T>, fs: seq<ArchiveFile>)
    requires AllStorable(fs)
    ensures Walk(h, EncodeArchive(fs), 0, Initial()) == Apply(h, fs, Initial())
  {
    ScanEncoded([], fs);
    assert [] + EncodeArchive(fs) == EncodeArchive(fs);
    WalkIsApply(h, EncodeArchive(fs), 0, Initial());
  }
}
