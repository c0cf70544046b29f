# OVA import: tar walker and OVF descriptor normaliser

This project models the OVA reader of the `xo-vmdk-to-vhd` package. The
reader is in `packages/xo-vmdk-to-vhd/src/ova.js`. It has three parts:

- **The tar header decoder** (`parseTarHeader`). It reads a 512-byte ustar
  header. The entry name is the Latin-1 text before the first NUL. An empty
  name marks the end of the archive. The size is either the GNU base-256 form
  (first byte 0x80, then the other eleven bytes big-endian) or an octal
  string read by `parseInt(…, 8)`.
- **The OVA walker** (`parseOVAFile`). It reads the archive header by header.
  It hands every `.ovf` entry to the descriptor normaliser and spreads the
  result into `data`. It hands every `.vmdk` entry (unless `skipVmdk`) to
  the grain table reader and stores the table under the entry name. Then it
  skips the content, rounded up to whole 512-byte blocks.
- **The OVF descriptor normaliser** (the body of `parseOVF` after xml2js has
  built the tree).
  - It picks the DiskSection, References and VirtualSystem out of the
    Envelope (DMTF DSP0243).
  - It registers every declared disk with its capacity in bytes and its file
    path.
  - It dispatches every hardware item on its ResourceType: 3 is CPUs, 4 is
    memory, 10 is a network, 17 is a disk drive.
  - Finally it drops the disks that no item gave a position.

The Dafny modules follow that structure:

| module | file | what it holds |
|---|---|---|
| `Wrappers` | `wrappers.dfy` | `Option` and `Result` |
| `Bytes` | `bytes.dfy` | bytes, `Blob.slice` clamping, Latin-1 decoding, powers |
| `Strings` | `strings.dfy` | digits, JavaScript white space, `trimStart`, ASCII lower case |
| `Units` | `units.dfy` | `MEMORY_UNIT_TO_FACTOR` and `allocationUnitsToFactor` |
| `Xml` | `xml.dfy` | the xml2js tree, `ensureArray`, truthiness, `String()` and `+` |
| `Tar` | `tar.dfy` | the header decoder as a function and as the method with its loop, plus a header encoder for round trips |
| `Ovf` | `ovf.dfy` | the normaliser: the spec functions, the `VmData` class whose methods update `data` in place, and `ParseOvf` |
| `Ova` | `ova.dfy` | the walker: the `Walk` spec function and the `ParseOvaFile` method with its loop |
| `OvfFacts`, `OvaFacts` | `ovf_facts.dfy`, `ova_facts.dfy` | what the normaliser and the walker guarantee |

Some JavaScript values are modelled explicitly:

- Numbers are `Num`: a natural or `NaN`.
- Reading a key of `undefined` throws a `TypeError`. This is a `Failure` of
  the step that reads it, and the walker rejects with `DescriptorError`.
- The diagnostics written with `console.error` are a multiset of
  `Diagnostic` values. It is a multiset because the order of a `for…in` loop
  is not modelled.

## Model

| member | source | states |
|---|---|---|
| `Bytes.Slice` | packages/xo-vmdk-to-vhd/src/ova.js:216 | definition of the clamped range read; its properties are in `Bytes.SliceOfSlice`, `OvaFacts.ReaderReadsEntry` and `OvaFacts.EncodedContentAt` |
| `Bytes.Latin1` | packages/xo-vmdk-to-vhd/src/ova.js:64 | definition of the `'ascii'` deserializer; its properties are in `Tar.Latin1Bijective` |
| `Tar.Latin1Bijective` | packages/xo-vmdk-to-vhd/src/ova.js:64 | decoding is the inverse of writing a string of codes below 256 as bytes: it yields a string exactly when the bytes are that string written out, and writing the decoded string back gives the bytes |
| `Bytes.SliceOfSlice` | packages/xo-vmdk-to-vhd/src/ova.js:231-232 | a range of a range of the archive is the archive bytes at the summed offsets |
| `Strings.TrimStart` | packages/xo-vmdk-to-vhd/src/ova.js:82 | `parseInt` skips exactly the leading white space: the result is a suffix, it does not start with white space, and everything removed is white space |
| `Strings.LowerAscii` | packages/xo-vmdk-to-vhd/src/ova.js:223 | definition of `toLowerCase`; its properties are in `Strings.LowerAsciiSuffix`, `Strings.LowerAsciiIdempotent`, `OvaFacts.OvfExtension` and `OvaFacts.VmdkExtension` |
| `Strings.LowerAsciiSuffix` | packages/xo-vmdk-to-vhd/src/ova.js:223 | lower-casing commutes with taking a suffix, so the extension test reads only the end of the name |
| `Strings.LowerAsciiIdempotent` | packages/xo-vmdk-to-vhd/src/ova.js:223 | lower-casing twice is lower-casing once, and its result holds no upper-case letter |
| `Units.PowerSuffixMatches` | packages/xo-vmdk-to-vhd/src/ova.js:110 | `/\^([0-9]+)$/` matches exactly when the unit ends in `^` followed by one or more digits, and the group is those digits |
| `Units.FactorOfPowerSuffix` | packages/xo-vmdk-to-vhd/src/ova.js:110-112 | any unit ending in `^d` has the factor `2^d` |
| `Units.FactorOfPrefix` | packages/xo-vmdk-to-vhd/src/ova.js:113 | a unit without a power suffix has the factor its first letter names in any case (k, m, g, t), and none otherwise |
| `Units.FactorOfByteTimes2To20` | packages/xo-vmdk-to-vhd/src/ova.js:109-114 | `byte * 2^20` has the factor 1048576 |
| `Units.FactorOfNamedUnits` | packages/xo-vmdk-to-vhd/src/ova.js:17-22 | `MegaBytes` is 1048576 and `GB` is 1073741824, by the first letter |
| `Xml.Get` | packages/xo-vmdk-to-vhd/src/ova.js:143-158 | definition of a key read that throws on `undefined`; its properties are in `OvfFacts.PreludeFails`, `OvfFacts.ItemStepFails` and `OvfFacts.NormaliseFails` |
| `Xml.EnsureArrayUndoesCollapse` | packages/xo-vmdk-to-vhd/src/ova.js:101-107 | `ensureArray` gives back the repeated children, in order, of whatever xml2js collapsed |
| `Xml.CollapseUndoesEnsureArray` | packages/xo-vmdk-to-vhd/src/ova.js:101-107 | on every field xml2js can build, collapsing the `ensureArray` result gives the field back |
| `Xml.Mul` | packages/xo-vmdk-to-vhd/src/ova.js:30 | definition of `*` on numbers or NaN; its properties are in `OvfFacts.MemoryValue` |
| `Xml.NumberRoundTrip` | packages/xo-vmdk-to-vhd/src/ova.js:26 | the unary plus reads back any natural written in decimal |
| `Xml.MissingIsNaN` | packages/xo-vmdk-to-vhd/src/ova.js:55 | `+undefined` is NaN, so a missing quantity or position is NaN and never `null` |
| `Tar.BeforeNul` | packages/xo-vmdk-to-vhd/src/ova.js:64-66 | `split('\0')[0]`: the longest NUL-free prefix |
| `Tar.OctalPrefix` | packages/xo-vmdk-to-vhd/src/ova.js:82 | the digits `parseInt(…, 8)` consumes: the longest prefix of octal digits |
| `Tar.ParseTarHeader` | packages/xo-vmdk-to-vhd/src/ova.js:63-86 | the header loop (base-256 accumulation) computes exactly the decoded header |
| `Tar.EndOfArchiveIff` | packages/xo-vmdk-to-vhd/src/ova.js:67-69 | a header ends the archive exactly when it is empty or its first byte is NUL |
| `Tar.ZeroBlockEndsArchive` | packages/xo-vmdk-to-vhd/src/ova.js:67-69 | a block of zeros ends the archive |
| `Tar.EntryName` | packages/xo-vmdk-to-vhd/src/ova.js:64-66 | an entry's name is 1 to 100 non-NUL header bytes read as Latin-1, followed by a NUL or the end of the field |
| `Tar.BigEndianBound` | packages/xo-vmdk-to-vhd/src/ova.js:76-80 | the base-256 value of `n` bytes is below `256^n` |
| `Tar.Base256Size` | packages/xo-vmdk-to-vhd/src/ova.js:76-80 | with the 0x80 mark the size is the big-endian value of the other eleven size bytes, below `256^11` |
| `Tar.OctalValueBound` | packages/xo-vmdk-to-vhd/src/ova.js:82 | an octal string of `n` digits is below `8^n` |
| `Tar.OctalDigitsValue` | packages/xo-vmdk-to-vhd/src/ova.js:82 | writing a number as `w` octal digits and reading it back gives the number |
| `Tar.OctalValueDigits` | packages/xo-vmdk-to-vhd/src/ova.js:82 | reading octal digits and writing them back at the same width gives the digits |
| `Tar.BigEndianBytesValue` | packages/xo-vmdk-to-vhd/src/ova.js:76-80 | writing a number big-endian and reading it back gives the number |
| `Tar.BigEndianValueBytes` | packages/xo-vmdk-to-vhd/src/ova.js:76-80 | reading bytes big-endian and writing them back gives the bytes |
| `Tar.ParseOctalDigits` | packages/xo-vmdk-to-vhd/src/ova.js:82 | `parseInt(d, 8)` of a non-empty digit string is its octal value |
| `Tar.OctalFieldRoundTrip` | packages/xo-vmdk-to-vhd/src/ova.js:82 | an 11-digit octal size field is parsed, and writing the value back gives the field |
| `Tar.SizeRoundTrip` | packages/xo-vmdk-to-vhd/src/ova.js:70-83 | every size below `256^11`, written as GNU tar writes it (11 octal digits while they suffice, base-256 beyond), decodes to itself |
| `Tar.BeforeNulOfPadded` | packages/xo-vmdk-to-vhd/src/ova.js:64-66 | a NUL-padded name reads back as the name |
| `Tar.NameRoundTrip` | packages/xo-vmdk-to-vhd/src/ova.js:64-66 | a name written into the name field reads back as that name |
| `Tar.HeaderRoundTrip` | packages/xo-vmdk-to-vhd/src/ova.js:63-86 | every header a tar writer produces for a valid name and a size below `256^11` decodes to that name and size |
| `Ovf.FindFile` | packages/xo-vmdk-to-vhd/src/ova.js:166-169 | lodash `find`: no file when none has the disk's `fileRef` as `id`, otherwise the first one that has it |
| `Ovf.KeepPositioned` | packages/xo-vmdk-to-vhd/src/ova.js:116-124 | definition of the disks `filterDisks` keeps; its properties are in `Ovf.FilterPositioned`, `OvfFacts.FilterSplits` and `OvfFacts.FilterIdempotent` |
| `Ovf.VmData.RegisterDisks` | packages/xo-vmdk-to-vhd/src/ova.js:165-177 | the disk loop's state is the disk-registration function of the declarations, and nothing but `disks` changes |
| `Ovf.VmData.HandleCpu` | packages/xo-vmdk-to-vhd/src/ova.js:25-27 | type 3 sets `nCpus` to `+VirtualQuantity` and nothing else |
| `Ovf.VmData.HandleMemory` | packages/xo-vmdk-to-vhd/src/ova.js:29-31 | type 4 sets `memory` to quantity times unit factor, or throws without change when the unit is not a string |
| `Ovf.VmData.HandleNetwork` | packages/xo-vmdk-to-vhd/src/ova.js:33-37 | type 10 appends its connection exactly when enabled |
| `Ovf.VmData.HandleDisk` | packages/xo-vmdk-to-vhd/src/ova.js:39-60 | type 17 sets the labels and position of the disk its HostResource names, or reports that there is none |
| `Ovf.VmData.HandleItem` | packages/xo-vmdk-to-vhd/src/ova.js:180-186 | `handleItem` runs the handler of the item's code, or nothing for any other code |
| `Ovf.VmData.HandleItems` | packages/xo-vmdk-to-vhd/src/ova.js:187-189 | the item loop's state is the item-step function folded over the items, stopping at the first that throws |
| `Ovf.VmData.FilterDisks` | packages/xo-vmdk-to-vhd/src/ova.js:116-124 | after `filterDisks`, `data` holds the positioned disks and one more report per dropped disk |
| `Ovf.FilterPositioned` | packages/xo-vmdk-to-vhd/src/ova.js:116-124 | the deletion loop, visiting each key once, leaves exactly the positioned disks and reports exactly the others |
| `Ovf.ParseOvf` | packages/xo-vmdk-to-vhd/src/ova.js:137-194 | the callback resolves with the normalised record, or rejects with the TypeError the normaliser throws |
| `Ova.Merge` | packages/xo-vmdk-to-vhd/src/ova.js:228 | definition of `{...data, ...res}`; its properties are in `OvaFacts.MergeIdempotent` and `OvaFacts.MergeAssociative` |
| `Ova.Padded` | packages/xo-vmdk-to-vhd/src/ova.js:235 | the skip is a whole number of blocks, at least the content and less than one block more |
| `Ova.DiskEntry` | packages/xo-vmdk-to-vhd/src/ova.js:230-234 | a disk entry never touches the spread descriptor |
| `Ova.HeaderInside` | packages/xo-vmdk-to-vhd/src/ova.js:215-222 | a header that does not end the archive was read from inside it |
| `Ova.HandleEntry` | packages/xo-vmdk-to-vhd/src/ova.js:223-234 | the loop body computes exactly the entry step: the descriptor branch, then the disk branch |
| `Ova.ParseOvaFile` | packages/xo-vmdk-to-vhd/src/ova.js:206-238 | the loop over the headers computes exactly the walk from offset 0 |
| `OvaFacts.ReaderReadsEntry` | packages/xo-vmdk-to-vhd/src/ova.js:231-232 | `readFile(start, end)` reads the archive bytes at those positions of the entry's content |
| `OvaFacts.ExtensionExamples` | packages/xo-vmdk-to-vhd/src/ova.js:223 | on example names only: `vm.OVF` and `Disk-1.Vmdk` pass the test, `disk1.vmdk.gz` and `vm.mf` do not; the all-names statements are `OvaFacts.OvfExtension` and `OvaFacts.VmdkExtension` |
| `OvaFacts.OvfExtension` | packages/xo-vmdk-to-vhd/src/ova.js:223 | a name is a descriptor exactly when it has at least four characters and its last four, lower-cased, are `.ovf` |
| `OvaFacts.VmdkExtension` | packages/xo-vmdk-to-vhd/src/ova.js:230 | a name is a disk exactly when it has at least five characters and its last five, lower-cased, are `.vmdk` |
| `OvaFacts.MergeIdempotent` | packages/xo-vmdk-to-vhd/src/ova.js:228 | spreading the same descriptor twice changes nothing |
| `OvaFacts.MergeAssociative` | packages/xo-vmdk-to-vhd/src/ova.js:228 | spreading two descriptors in turn is spreading their spread |
| `OvaFacts.ScanChain` | packages/xo-vmdk-to-vhd/src/ova.js:214-236 | the visited headers start at the given offset, each next one right after the previous padded content, each decoding to its entry |
| `OvaFacts.ScanInside` | packages/xo-vmdk-to-vhd/src/ova.js:215-222 | every visited header lies inside the archive |
| `OvaFacts.ScanAligned` | packages/xo-vmdk-to-vhd/src/ova.js:235 | every visited header is block-aligned with the start |
| `OvaFacts.ScanCount` | packages/xo-vmdk-to-vhd/src/ova.js:219 | every entry takes at least one block, so there are at most as many entries as blocks |
| `OvaFacts.NextAligned` | packages/xo-vmdk-to-vhd/src/ova.js:235 | skipping an entry keeps the offset's alignment to 512 |
| `OvaFacts.WalkIsApply` | packages/xo-vmdk-to-vhd/src/ova.js:214-236 | the walk is the entry step applied to the visited entries in order |
| `OvaFacts.WalkFailsOnBadSize` | packages/xo-vmdk-to-vhd/src/ova.js:70-83 | a header whose size does not parse makes the walk reject, at that header or earlier |
| `OvaFacts.EntryStepFails` | packages/xo-vmdk-to-vhd/src/ova.js:223-234 | an entry rejects exactly when it is a descriptor that does not parse or normalise, or a read disk the grain reader refuses |
| `OvaFacts.ApplyFails` | packages/xo-vmdk-to-vhd/src/ova.js:214-236 | the walk rejects exactly when one of its entries does |
| `OvaFacts.DiskNamesCons` | packages/xo-vmdk-to-vhd/src/ova.js:230 | the read disk names are the first entry's name, if it is a read disk, plus those of the rest |
| `OvaFacts.ApplyTables` | packages/xo-vmdk-to-vhd/src/ova.js:230-234 | `tables` gains exactly one key per read disk entry name; the table under it is the one the reader returned for the last entry of that name, since a later entry overwrites an earlier one; every other key keeps its table, and nothing changes with `skipVmdk` |
| `OvaFacts.ApplyTableLast` | packages/xo-vmdk-to-vhd/src/ova.js:230-234 | for one disk entry that no later entry shares a name with, the table under its name is the one the reader returned for it |
| `OvaFacts.EntryStepTables` | packages/xo-vmdk-to-vhd/src/ova.js:230-234 | one entry stores the reader's table under its name when it is a read disk, and leaves the tables alone otherwise |
| `OvaFacts.EntryStepDescriptor` | packages/xo-vmdk-to-vhd/src/ova.js:223-229 | after an entry a descriptor is present exactly when it was before or the entry is a `.ovf` |
| `OvaFacts.ApplyDescriptor` | packages/xo-vmdk-to-vhd/src/ova.js:223-229 | the result holds a descriptor exactly when some entry is a `.ovf` |
| `OvaFacts.OtherEntryUnchanged` | packages/xo-vmdk-to-vhd/src/ova.js:223-234 | an entry that is neither a `.ovf` nor a read `.vmdk` leaves `data` exactly as it was |
| `OvaFacts.EntryStepDescriptorValue` | packages/xo-vmdk-to-vhd/src/ova.js:223-229 | one entry spreads its normalised record into the descriptor when it is a `.ovf`, and leaves the descriptor alone otherwise |
| `OvaFacts.ApplyDescriptorValue` | packages/xo-vmdk-to-vhd/src/ova.js:223-229 | the descriptor after the walk's steps is the normalised records of the `.ovf` entries, in archive order, spread one after another into the one before |
| `OvaFacts.MergeAllLast` | packages/xo-vmdk-to-vhd/src/ova.js:228 | once at least one record is spread in, the name, description, networks and disks are those of the last record |
| `OvaFacts.ApplyLastDescriptor` | packages/xo-vmdk-to-vhd/src/ova.js:223-229 | the last `.ovf` entry normalises, and the result's name, description, networks and disks are those of its record |
| `OvaFacts.EncodeEntry` | packages/xo-vmdk-to-vhd/src/ova.js:235 | a written entry is one header block plus its content padded to whole blocks |
| `OvaFacts.EncodedHeaderAt` | packages/xo-vmdk-to-vhd/src/ova.js:215-218 | the header of a written entry decodes to its name and size wherever it sits in the archive |
| `OvaFacts.EncodedContentAt` | packages/xo-vmdk-to-vhd/src/ova.js:225 | the content read for a written entry is exactly the entry's content |
| `OvaFacts.EncodedEnd` | packages/xo-vmdk-to-vhd/src/ova.js:220-222 | the two zero blocks that end a written archive stop the walk |
| `OvaFacts.ScanEncoded` | packages/xo-vmdk-to-vhd/src/ova.js:214-236 | reading a written archive visits its entries in order, with their exact names and contents |
| `OvaFacts.WalkEncoded` | packages/xo-vmdk-to-vhd/src/ova.js:206-238 | parsing a written archive is the entry step applied to the files it was written from |
| `OvfFacts.DiskIdOfSound` | packages/xo-vmdk-to-vhd/src/ova.js:50 | a match of the HostResource pattern is one of the two prefixes followed by a non-empty one-line group |
| `OvfFacts.DiskIdOfComplete` | packages/xo-vmdk-to-vhd/src/ova.js:50 | either prefix followed by a non-empty one-line id matches, with that id as the group |
| `OvfFacts.OtherResourcesNameNoDisk` | packages/xo-vmdk-to-vhd/src/ova.js:50 | a file resource, an empty id and a two-line id name no disk |
| `OvfFacts.FactorPositive` | packages/xo-vmdk-to-vhd/src/ova.js:109-114 | every unit with a factor has a positive one |
| `OvfFacts.CapacityFactorCases` | packages/xo-vmdk-to-vhd/src/ova.js:174 | `(unit && allocationUnitsToFactor(unit)) \|\| 1` throws exactly for a truthy non-string unit, and is otherwise a factor of at least 1, which is 1 for a missing, empty or unknown unit |
| `OvfFacts.CapacityInMebibytes` | packages/xo-vmdk-to-vhd/src/ova.js:172-176 | a capacity of 4 in `byte * 2^20` registers 4194304 bytes |
| `OvfFacts.DeclaredCons` | packages/xo-vmdk-to-vhd/src/ova.js:172 | the declared keys are the first declaration's key plus those of the rest |
| `OvfFacts.RegisterFails` | packages/xo-vmdk-to-vhd/src/ova.js:165-177 | the disk loop throws exactly when a declaration's unit is truthy and not a string |
| `OvfFacts.RegisterKeys` | packages/xo-vmdk-to-vhd/src/ova.js:165-177 | after the disk loop the keys are the old ones plus the declared ones, a declared disk has no position, an undeclared key is untouched, and the disk under a key is the record built from the last declaration with that key (a later `diskId` overwrites an earlier one) |
| `OvfFacts.ItemStepFails` | packages/xo-vmdk-to-vhd/src/ova.js:23-61 | one item throws exactly when its handler reads a missing or non-text unit or resource |
| `OvfFacts.ItemStepKeeps` | packages/xo-vmdk-to-vhd/src/ova.js:23-61 | an item keeps the disk keys, capacities, paths and the VM labels; an item that is not type 3 keeps `nCpus`, and one that is not type 4 keeps `memory` |
| `OvfFacts.ItemStepPositions` | packages/xo-vmdk-to-vhd/src/ova.js:39-60 | an item gives a position exactly to the declared disk its HostResource names; that disk takes the item's description, caption and position, and every other disk record is unchanged |
| `OvfFacts.ItemStepNetworks` | packages/xo-vmdk-to-vhd/src/ova.js:33-37 | an item appends its own connection when it is an enabled network, and nothing otherwise |
| `OvfFacts.ItemStepLog` | packages/xo-vmdk-to-vhd/src/ova.js:57-58 | an item reports exactly when it is a disk item naming no declared disk |
| `OvfFacts.ItemsFail` | packages/xo-vmdk-to-vhd/src/ova.js:187-189 | the item loop throws exactly when one of the items does |
| `OvfFacts.ItemsKeep` | packages/xo-vmdk-to-vhd/src/ova.js:187-189 | the item loop keeps the disk keys, capacities, paths and the VM labels |
| `OvfFacts.ItemsNetworks` | packages/xo-vmdk-to-vhd/src/ova.js:187-189 | the item loop appends the enabled connections in document order |
| `OvfFacts.ItemsLog` | packages/xo-vmdk-to-vhd/src/ova.js:187-189 | the item loop reports exactly the disk items that name no declared disk |
| `OvfFacts.ItemsPositions` | packages/xo-vmdk-to-vhd/src/ova.js:187-189 | after the item loop a disk has a position exactly when it had one or some item names it |
| `OvfFacts.SomeItemNames` | packages/xo-vmdk-to-vhd/src/ova.js:187-189 | some item names a disk exactly when the first does or a later one does |
| `OvfFacts.ItemsAppend` | packages/xo-vmdk-to-vhd/src/ova.js:187-189 | the loop over two lists in turn is the loop over the two lists joined |
| `OvfFacts.DropLogCounts` | packages/xo-vmdk-to-vhd/src/ova.js:118-120 | `filterDisks` reports each positionless disk once and nothing else |
| `OvfFacts.FilterSplits` | packages/xo-vmdk-to-vhd/src/ova.js:116-124 | `filterDisks` splits the disks: each one is kept or reported, never both |
| `OvfFacts.NormaliseItems` | packages/xo-vmdk-to-vhd/src/ova.js:187-192 | the three item loops are one loop over Item, StorageItem and EthernetPortItem in that order |
| `OvfFacts.NormaliseParts` | packages/xo-vmdk-to-vhd/src/ova.js:143-193 | an accepted descriptor has its sections, its declarations pass, its items pass, and the record is the filtered loop state |
| `OvfFacts.FilteredDisks` | packages/xo-vmdk-to-vhd/src/ova.js:187-192 | after the loops and the filter the disks left are the declared ones some item names, each with a position |
| `OvfFacts.FilteredLog` | packages/xo-vmdk-to-vhd/src/ova.js:187-192 | after the loops and the filter the log holds the unmatched disk items and the disks no item names |
| `OvfFacts.RegisteredFresh` | packages/xo-vmdk-to-vhd/src/ova.js:151-177 | the registered disks are exactly the declared keys, none with a position yet |
| `OvfFacts.NormalisedDisks` | packages/xo-vmdk-to-vhd/src/ova.js:143-193 | the resolved record holds exactly the declared disks some hardware item names, each with a position; the disk under the key of a last declaration is that declaration's record (capacity, path) with the labels and position of the last item naming it |
| `OvfFacts.NormalisedRecord` | packages/xo-vmdk-to-vhd/src/ova.js:143-193 | for one last declaration and the last item naming its key, the resolved disk is the declaration's record with that item's labels and position |
| `OvfFacts.NormalisedVm` | packages/xo-vmdk-to-vhd/src/ova.js:155-193 | the resolved record keeps the VM name and description, lists the enabled connections in document order, has `+VirtualQuantity` of the last type-3 item as `nCpus` and quantity times unit factor of the last type-4 item as `memory`, and neither key when there is no such item |
| `OvfFacts.ItemsCpus` | packages/xo-vmdk-to-vhd/src/ova.js:25-27 | after the item loop `nCpus` is `+VirtualQuantity` of the last type-3 item, and unchanged when there is none (187-189) |
| `OvfFacts.ItemsMemory` | packages/xo-vmdk-to-vhd/src/ova.js:29-31 | after the item loop `memory` is quantity times unit factor of the last type-4 item, whose unit is a string, and unchanged when there is none (187-189) |
| `OvfFacts.DropLogOf` | packages/xo-vmdk-to-vhd/src/ova.js:116-124 | when exactly the disks outside a set lack a position, those are the ones reported |
| `OvfFacts.NormalisedLog` | packages/xo-vmdk-to-vhd/src/ova.js:57-58 | the normaliser reports one `No disk found` per disk item naming no declared disk, and one `No position specified` per declared disk no item names |
| `OvfFacts.NormaliseFails` | packages/xo-vmdk-to-vhd/src/ova.js:143-189 | once its sections exist, a descriptor is rejected exactly when a declaration or an item throws |
| `OvfFacts.PreludeFails` | packages/xo-vmdk-to-vhd/src/ova.js:143-158 | the destructuring and the name read throw exactly when the Envelope, its DiskSection, References or VirtualSystem, the VirtualHardwareSection or its System is missing |
| `OvfFacts.MemoryValue` | packages/xo-vmdk-to-vhd/src/ova.js:29-31 | a type-4 item sets `memory`; it is NaN exactly when the quantity is not a number or the unit has no factor, and otherwise quantity times factor |
| `OvfFacts.CpuCount` | packages/xo-vmdk-to-vhd/src/ova.js:25-27 | a type-3 item whose quantity is a decimal number sets `nCpus` to that number and changes nothing else |
| `OvfFacts.FilterIdempotent` | packages/xo-vmdk-to-vhd/src/ova.js:116-124 | filtering a second time keeps every disk and reports nothing more |
| `OvfFacts.NewDiskValues` | packages/xo-vmdk-to-vhd/src/ova.js:165-177 | a declared disk's record has the capacity times the unit factor, the `href` of the first file whose `id` is its `fileRef` (undefined when there is none), and no labels or position |
| `OvfFacts.AssociateOverrides` | packages/xo-vmdk-to-vhd/src/ova.js:52-55 | a later disk item's labels and position replace an earlier one's |
| `OvfFacts.ItemsDiskAt` | packages/xo-vmdk-to-vhd/src/ova.js:187-189 | after the item loop a disk record is the one before when no item names it, and otherwise takes the labels and position of the last item naming it |
| `OvfFacts.FilteredRecord` | packages/xo-vmdk-to-vhd/src/ova.js:187-192 | after the loops and the filter, the disk under the key of a last declaration named by an item is that declaration's record with the last naming item's labels and position |
| `Units.PrefixFactor` | packages/xo-vmdk-to-vhd/src/ova.js:17-22 | definition of `MEMORY_UNIT_TO_FACTOR`; its properties are in `Units.FactorOfPrefix`, `Units.FactorOfNamedUnits` and `OvfFacts.FactorPositive` |
| `Units.AllocationUnitsToFactor` | packages/xo-vmdk-to-vhd/src/ova.js:109-114 | definition of `allocationUnitsToFactor`; its properties are in `Units.PowerSuffixMatches`, `Units.FactorOfPowerSuffix`, `Units.FactorOfPrefix`, `Units.FactorOfByteTimes2To20` and `OvfFacts.FactorPositive` |
| `Xml.EnsureArray` | packages/xo-vmdk-to-vhd/src/ova.js:101-107 | definition of `ensureArray`; its properties are in `Xml.EnsureArrayUndoesCollapse` and `Xml.CollapseUndoesEnsureArray` |
| `Tar.DecodeHeader` | packages/xo-vmdk-to-vhd/src/ova.js:63-86 | definition of `parseTarHeader`; its properties are in `Tar.ParseTarHeader`, `Tar.EndOfArchiveIff`, `Tar.EntryName`, `Tar.Base256Size`, `Tar.SizeRoundTrip` and `Tar.HeaderRoundTrip` |
| `Ovf.CpuStep` | packages/xo-vmdk-to-vhd/src/ova.js:25-27 | definition of handler 3; its properties are in `Ovf.VmData.HandleCpu`, `OvfFacts.CpuCount` and `OvfFacts.ItemsCpus` |
| `Ovf.MemoryStep` | packages/xo-vmdk-to-vhd/src/ova.js:29-31 | definition of handler 4; its properties are in `Ovf.VmData.HandleMemory`, `OvfFacts.MemoryValue` and `OvfFacts.ItemsMemory` |
| `Ovf.NetworkStep` | packages/xo-vmdk-to-vhd/src/ova.js:33-37 | definition of handler 10; its properties are in `Ovf.VmData.HandleNetwork` and `OvfFacts.ItemStepNetworks` |
| `Ovf.DiskStep` | packages/xo-vmdk-to-vhd/src/ova.js:39-60 | definition of handler 17; its properties are in `Ovf.VmData.HandleDisk`, `OvfFacts.ItemStepPositions` and `OvfFacts.ItemStepLog` |
| `Ovf.ItemStep` | packages/xo-vmdk-to-vhd/src/ova.js:180-186 | definition of `handleItem`; its properties are in `Ovf.VmData.HandleItem`, `OvfFacts.ItemStepFails` and `OvfFacts.ItemStepKeeps` |
| `Ovf.NewDisk` | packages/xo-vmdk-to-vhd/src/ova.js:166-176 | definition of one declared disk's record; its properties are in `OvfFacts.NewDiskValues`, `OvfFacts.CapacityFactorCases` and `OvfFacts.CapacityInMebibytes` |
| `Ovf.RegisterStep` | packages/xo-vmdk-to-vhd/src/ova.js:165-177 | definition of the disk loop; its properties are in `Ovf.VmData.RegisterDisks`, `OvfFacts.RegisterFails` and `OvfFacts.RegisterKeys` |
| `Ovf.Normalise` | packages/xo-vmdk-to-vhd/src/ova.js:143-193 | definition of the normaliser; its properties are in `OvfFacts.NormaliseParts`, `OvfFacts.PreludeFails`, `OvfFacts.NormaliseFails`, `OvfFacts.NormalisedDisks`, `OvfFacts.NormalisedVm` and `OvfFacts.NormalisedLog` |
| `Ova.EntryStep` | packages/xo-vmdk-to-vhd/src/ova.js:223-234 | definition of one entry's step; its properties are in `Ova.HandleEntry`, `OvaFacts.EntryStepFails`, `OvaFacts.OtherEntryUnchanged`, `OvaFacts.EntryStepTables`, `OvaFacts.EntryStepDescriptorValue` and `OvaFacts.ApplyTables` |
| `Ova.Walk` | packages/xo-vmdk-to-vhd/src/ova.js:214-236 | definition of the header loop; its properties are in `Ova.ParseOvaFile`, `OvaFacts.WalkIsApply`, `OvaFacts.ApplyFails` and `OvaFacts.WalkEncoded` |

## Left out

- XML parsing (xml2js with merged attributes, stripped prefixes and `explicitArray: false`) is the `parseXml` parameter. A parser error is `None` and rejects with `XmlSyntaxError`. The tree it builds is the `Xml.XValue` datatype.
- The `utf-8` string deserializer used for the descriptor is part of that same parameter. The `'ascii'` deserializer used for headers is fixed to Latin-1, one character per byte.
- `readVmdkGrainTable` is the `readGrainTable` parameter, applied to a reader over the entry's content. A rejection is `None`.
- Asynchronous I/O is not modelled: the awaits, promises and the `ParsableFile` interface. The archive is a byte sequence, and every `slice(...).read()` is a clamped slice of it (`Bytes.Slice`).
- Numbers are not IEEE doubles. `Num` is a natural or NaN; there are no negatives, fractions, Infinity or rounding of large products. `Number()` of a string is modelled for the empty string and decimal digits only; any other string is NaN.
- Property reads do not model the JavaScript prototype chain. An inherited key such as `toString` used as a `ResourceType` is not modelled.
- The order of the `for…in` loop in `filterDisks` is not modelled, so the log is a multiset.
- `Ovf.DiskStep`: the `No disk found` diagnostic records the HostResource string, not the text of the message, which prints the match result.
- `Tar.DecodeHeader`: `parseInt` of a size field with no octal digits is NaN, and the loop would then carry NaN into `offset`. A leading `-` gives a negative size, or `-0`, which behaves as 0. The model rejects all of these with `MalformedSize` instead of following NaN or negative offsets.
- `Strings.LowerAscii`: `toLowerCase` is modelled on ASCII letters only. This also limits `Units.AllocationUnitsToFactor`, which lower-cases the first letter of the unit: in JavaScript the Kelvin sign (U+212A) lower-cases to `k` and so has the factor 1024, while the model gives it none.
- `Ova.ParseOvaFile` returns the grain tables and the spread descriptor fields. The diagnostics of the normaliser are not part of its result, because the source only writes them to the console.
- `Ovf.ParseOvf`: a TypeError thrown inside the xml2js callback is modelled as a rejection of `parseOVF`, which the walker reports as `DescriptorError`.
- `Ova.Merge`: the presence of the `nCpus` and `memory` keys is an `Option`. The other keys of `data` and `res` are fixed fields.
