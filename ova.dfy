/**
 * The OVA walker: reads an OVA archive (a tar file) header by header, hands
 * the `.ovf` descriptor to the normaliser and the `.vmdk` disks to the grain
 * table reader, and skips each entry's content rounded up to whole blocks.
 * The archive is the byte sequence the byte source reads ranges of; the XML
 * parser and the grain table reader are parameters.
 */
module Ova {
  import opened Wrappers
  import opened Bytes
  import opened Strings
  import opened Tar
  import opened Xml
  import opened Ovf

  /** `readFile(start, end)`: range reads scoped to one entry's content. */
  datatype Reader = Reader(view: seq<byte>)

  function Read(r: Reader, start: nat, end: nat): seq<byte> {
    Slice(r.view, start, end)
  }

  /** What the walker is given besides the archive. */
  datatype Handlers<T> = Handlers(
    /** Decoding a descriptor's bytes and building the xml2js tree; None when the parser reports an error. */
    parseXml: seq<byte> -> Option<XValue>,
    /** `readVmdkGrainTable`; None when it rejects. */
    readGrainTable: Reader -> Option<T>,
    skipVmdk: bool)

  /** `data`: the grain tables by entry name and the fields the last descriptor spread into it. */
  datatype Parsed<T> = Parsed(tables: map<string, T>, descriptor: Option<Vm>)

  function Initial<T>(): Parsed<T> {
    Parsed(map[], None)
  }

  /** Why the walk rejects. */
  datatype Error =
    | MalformedSize(offset: nat)
    | XmlSyntaxError(fileName: string)
    | DescriptorError(fileName: string, error: TypeError)
    | GrainTableFailed(fileName: string)

  /**
   * `{ ...data, ...res }`: every field the descriptor sets replaces the old one;
   * `nCpus` and `memory`, which only a handler sets, survive from an earlier
   * descriptor when the new one lacks them.
   */
  function Merge(prior: Option<Vm>, res: Vm): (r: Vm)
    ensures r.nameLabel == res.nameLabel && r.descriptionLabel == res.descriptionLabel
    ensures r.networks == res.networks && r.disks == res.disks
    ensures r.nCpus == if res.nCpus.Some? || prior.None? then res.nCpus else prior.value.nCpus
    ensures r.memory == if res.memory.Some? || prior.None? then res.memory else prior.value.memory
  {
    match prior
    case None => res
    case Some(o) =>
      res.(nCpus := if res.nCpus.Some? then res.nCpus else o.nCpus,
           memory := if res.memory.Some? then res.memory else o.memory)
  }

  predicate IsOvf(name: string) {
    EndsWith(LowerAscii(name), ".ovf")
  }

  predicate IsVmdk(name: string) {
    EndsWith(LowerAscii(name), ".vmdk")
  }

  /** `Math.ceil(size / 512) * 512`: the content rounded up to whole blocks. */
  function Padded(size: nat): (r: nat)
    ensures r % HEADER_SIZE == 0 && size <= r < size + HEADER_SIZE
  {
    var blocks := (size + 511) / 512;
    assert HEADER_SIZE == 512;
    blocks * 512
  }

  /** A descriptor entry: parse, normalise and spread into `data`. */
  function OvfEntry<T>(h: Handlers<T>, data: Parsed<T>, name: string, content: seq<byte>): Result<Parsed<T>, Error> {
    match h.parseXml(content)
    case None => Failure(XmlSyntaxError(name))
    case Some(res) =>
      match Normalise(res)
      case Failure(e) => Failure(DescriptorError(name, e))
      case Success(a) => Success(data.(descriptor := Some(Merge(data.descriptor, a.vm))))
  }

  /** A disk entry, unless disks are skipped: its grain table is stored under its name. */
  function DiskEntry<T>(h: Handlers<T>, data: Parsed<T>, name: string, content: seq<byte>): (r: Result<Parsed<T>, Error>)
    ensures r.Success? ==> r.value.descriptor == data.descriptor
  {
    if !h.skipVmdk && IsVmdk(name) then
      match h.readGrainTable(Reader(content))
      case Some(t) => Success(data.(tables := data.tables[name := t]))
      case None => Failure(GrainTableFailed(name))
    else Success(data)
  }

  /** What one entry does to `data`: a descriptor is spread in, a disk's grain table is stored under its name. */
  function EntryStep<T>(h: Handlers<T>, data: Parsed<T>, name: string, content: seq<byte>): Result<Parsed<T>, Error> {
    var afterOvf :- if IsOvf(name) then OvfEntry(h, data, name, content) else Success(data);
    DiskEntry(h, afterOvf, name, content)
  }

  /** An entry's name and the bytes of its content. */
  datatype ArchiveFile = ArchiveFile(name: string, content: seq<byte>)

  /** The entry step over a list of entries in order, stopping at the first that rejects. */
  function Apply<T>(h: Handlers<T>, fs: seq<ArchiveFile>, data: Parsed<T>): Result<Parsed<T>, Error>
    decreases |fs|
  {
    if fs == [] then Success(data)
    else
      var next :- EntryStep(h, data, fs[0].name, fs[0].content);
      Apply(h, fs[1..], next)
  }

  /** The header block at `offset`, as a 512-byte range read returns it. */
  function HeaderAt(archive: seq<byte>, offset: nat): HeaderResult {
    DecodeHeader(Slice(archive, offset, offset + HEADER_SIZE))
  }

  /** A header that is not the end marker was read from inside the archive. */
  lemma HeaderInside(archive: seq<byte>, offset: nat)
    ensures !HeaderAt(archive, offset).EndOfArchive? ==> offset < |archive|
  {
    EndOfArchiveIff(Slice(archive, offset, offset + HEADER_SIZE));
  }

  /** The entry whose header is at `offset` and whose content is read from `offset + 512`. */
  datatype TarEntry = TarEntry(offset: nat, fileName: string, fileSize: nat)

  /** `file.slice(offset, offset + fileSize)` with `offset` just past the header: the bytes handed to the entry. */
  function Content(archive: seq<byte>, e: TarEntry): seq<byte> {
    Slice(archive, e.offset + HEADER_SIZE, e.offset + HEADER_SIZE + e.fileSize)
  }

  /** Where the header after `e` is read. */
  function NextOffset(e: TarEntry): nat {
    e.offset + HEADER_SIZE + Padded(e.fileSize)
  }

  /** The walk over `archive` from `offset`, as the loop of `parseOVAFile` performs it. */
  function Walk<T>(h: Handlers<T>, archive: seq<byte>, offset: nat, data: Parsed<T>): Result<Parsed<T>, Error>
    decreases if offset < |archive| then |archive| - offset else 0
  {
    HeaderInside(archive, offset);
    match HeaderAt(archive, offset)
    case EndOfArchive => Success(data)
    case BadSize => Failure(MalformedSize(offset))
    case Entry(name, size) =>
      var e := TarEntry(offset, name, size);
      var next :- EntryStep(h, data, name, Content(archive, e));
      Walk(h, archive, NextOffset(e), next)
  }

  /** One step of the walk, by the header found at `offset`. */
  lemma WalkStep<T>(h: Handlers<T>, archive: seq<byte>, offset: nat, data: Parsed<T>)
    ensures HeaderAt(archive, offset).EndOfArchive? ==> Walk(h, archive, offset, data) == Success(data)
    ensures HeaderAt(archive, offset).BadSize? ==> Walk(h, archive, offset, data) == Failure(MalformedSize(offset))
    ensures HeaderAt(archive, offset).Entry? ==>
      var e := TarEntry(offset, HeaderAt(archive, offset).fileName, HeaderAt(archive, offset).fileSize);
      Walk(h, archive, offset, data)
        == (var next :- EntryStep(h, data, e.fileName, Content(archive, e)); Walk(h, archive, NextOffset(e), next))
  {
  }

  /** The body of the loop for one entry: the descriptor branch, then the disk branch. */
  method HandleEntry<T>(h: Handlers<T>, data: Parsed<T>, name: string, content: seq<byte>) returns (r: Result<Parsed<T>, Error>)
    ensures r == EntryStep(h, data, name, content)
  {
    var afterOvf := data;
    if IsOvf(name) {
      var res := h.parseXml(content);
      if res.None? {
        return Failure(XmlSyntaxError(name));
      }
      var normalised := ParseOvf(res.value);
      if normalised.Failure? {
        return Failure(DescriptorError(name, normalised.error));
      }
      afterOvf := data.(descriptor := Some(Merge(data.descriptor, normalised.value.vm)));
    }
    if !h.skipVmdk && IsVmdk(name) {
      var table := h.readGrainTable(Reader(content));
      if table.None? {
        return Failure(GrainTableFailed(name));
      }
      afterOvf := afterOvf.(tables := afterOvf.tables[name := table.value]);
    }
    return Success(afterOvf);
  }

  /** `parseOVAFile`: the loop over the headers, with the normaliser and the grain reader per entry. */
  method ParseOvaFile<T>(h: Handlers<T>, archive: seq<byte>) returns (r: Result<Parsed<T>, Error>)
    ensures r == Walk(h, archive, 0, Initial())
  {
    var offset: nat := 0;
    var data: Parsed<T> := Initial();
    while true
      invariant Walk(h, archive, 0, Initial()) == Walk(h, archive, offset, data)
      decreases if offset < |archive| then |archive| - offset else 0
    {
      var header := ParseTarHeader(Slice(archive, offset, offset + HEADER_SIZE));
      var start := offset;
      assert header == HeaderAt(archive, start);
      offset := offset + HEADER_SIZE;
      if header.EndOfArchive? || header.BadSize? {
        WalkStep(h, archive, start, data);
        return if header.EndOfArchive? then Success(data) else Failure(MalformedSize(start));
      }
      var entry := TarEntry(start, header.fileName, header.fileSize);
      var content := Content(archive, entry);
      var step := HandleEntry(h, data, entry.fileName, content);
      WalkEntry(h, archive, entry, data, step);
      if step.Failure? {
        return Failure(step.error);
      }
      data := step.value;
      offset := offset + Padded(header.fileSize);
      assert offset == NextOffset(entry);
    }
  }

  /** An entry's step, then the walk from the next header; a rejection by the step ends the walk. */
  lemma WalkEntry<T>(h: Handlers<T>, archive: seq<byte>, e: TarEntry, data: Parsed<T>, step: Result<Parsed<T>, Error>)
    requires HeaderAt(archive, e.offset) == Entry(e.fileName, e.fileSize)
    requires step == EntryStep(h, data, e.fileName, Content(archive, e))
    ensures e.offset < |archive|
    ensures step.Failure? ==> Walk(h, archive, e.offset, data) == Failure(step.error)
    ensures step.Success? ==> Walk(h, archive, e.offset, data) == Walk(h, archive, NextOffset(e), step.value)
  {
    HeaderInside(archive, e.offset);
    WalkStep(h, archive, e.offset, data);
  }
}
