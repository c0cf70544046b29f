/**
 * The OVF descriptor normaliser: what `parseOVF` does once xml2js has built
 * the tree. It reads the DiskSection, References and VirtualHardwareSection
 * of the descriptor (DMTF DSP0243, sections 8 and 9.1) into a VM record,
 * dispatching every hardware item on its resource type code, and finally
 * drops the disks that no hardware item gave a position.
 */
module Ovf {
  import opened Wrappers
  import opened Strings
  import opened Units
  import opened Xml

  /** A declared disk; the labels and position arrive with its type-17 hardware item. */
  datatype Disk = Disk(
    capacity: Num,
    path: XField,
    descriptionLabel: XField,
    nameLabel: XField,
    position: Option<Num>)

  /** The `data` object `parseOVF` resolves with. `nCpus` and `memory` are keys only a handler sets. */
  datatype Vm = Vm(
    nameLabel: XField,
    descriptionLabel: XField,
    nCpus: Option<Num>,
    memory: Option<Num>,
    networks: seq<XField>,
    disks: map<string, Disk>)

  /** The non-fatal conditions the normaliser reports on its diagnostic channel. */
  datatype Diagnostic = NoDiskFound(hostResource: string) | NoPosition(diskId: string)

  /** The record under construction and the diagnostics reported so far. */
  datatype Acc = Acc(vm: Vm, log: multiset<Diagnostic>)

  const NO_DESCRIPTION: string := "No description"
  const DISK_PREFIX: string := "/disk/"
  const OVF_DISK_PREFIX: string := "ovf:/disk/"

  // ----- allocation units -----

  /** `(unit && allocationUnitsToFactor(unit)) || 1`, the factor of a disk capacity. */
  function CapacityFactor(unit: XField): Result<nat, TypeError> {
    if !Truthy(unit) then Success(1)
    else match unit
      case One(Text(u)) => Success(match AllocationUnitsToFactor(u) case Some(f) => f case None => 1)
      case _ => Failure(TypeError("capacityAllocationUnits"))
  }

  /** The factor as a number: `undefined` multiplies to NaN. */
  function FactorNum(f: Option<nat>): Num {
    match f
    case Some(n) => Nat(n)
    case None => NaN
  }

  // ----- the resource type dispatch table -----

  datatype ResourceKind = Processor | Memory | Ethernet | DiskDrive | Unhandled

  /** `RESOURCE_TYPE_TO_HANDLER[item.ResourceType]`: the key is the code as a string. */
  function ResourceKindOf(item: XValue): ResourceKind {
    var code := JsString(Field(item, "ResourceType"));
    if code == "3" then Processor
    else if code == "4" then Memory
    else if code == "10" then Ethernet
    else if code == "17" then DiskDrive
    else Unhandled
  }

  /** Type 3: the number of virtual CPUs. */
  function CpuStep(vm: Vm, item: XValue): Vm {
    vm.(nCpus := Some(ToNumber(Field(item, "VirtualQuantity"))))
  }

  /** Type 4: the memory size, quantity times unit factor; a unit that is not a string throws. */
  function MemoryStep(vm: Vm, item: XValue): Result<Vm, TypeError> {
    match Field(item, "AllocationUnits")
    case One(Text(unit)) =>
      Success(vm.(memory := Some(Mul(ToNumber(Field(item, "VirtualQuantity")), FactorNum(AllocationUnitsToFactor(unit))))))
    case _ => Failure(TypeError("AllocationUnits"))
  }

  /** Type 10: the connection is appended when `AutomaticAllocation` is truthy. */
  function NetworkStep(vm: Vm, item: XValue): Vm {
    if Truthy(Field(item, "AutomaticAllocation")) then vm.(networks := vm.networks + [Field(item, "Connection")])
    else vm
  }

  predicate IsLineTerminator(c: char) {
    c == '\n' || c == '\r' || c as int == 0x2028 || c as int == 0x2029
  }

  /** What `(.+)` matches: one or more characters, none of them a line terminator. */
  predicate IsDiskId(s: string) {
    s != [] && forall i :: 0 <= i < |s| ==> !IsLineTerminator(s[i])
  }

  /** The group of `/^(?:ovf:)?\/disk\/(.+)$/` matched against a HostResource. */
  function DiskIdOf(resource: string): Option<string> {
    if |OVF_DISK_PREFIX| <= |resource| && resource[..|OVF_DISK_PREFIX|] == OVF_DISK_PREFIX
       && IsDiskId(resource[|OVF_DISK_PREFIX|..])
    then Some(resource[|OVF_DISK_PREFIX|..])
    else if |DISK_PREFIX| <= |resource| && resource[..|DISK_PREFIX|] == DISK_PREFIX
       && IsDiskId(resource[|DISK_PREFIX|..])
    then Some(resource[|DISK_PREFIX|..])
    else None
  }

  /** The labels and position a type-17 item gives its disk; defaults apply to missing keys only. */
  function Associate(disk: Disk, item: XValue): Disk {
    var description := Field(item, "Description");
    var caption := Field(item, "Caption");
    disk.(
      descriptionLabel := if description.Absent? then One(Text(NO_DESCRIPTION)) else description,
      nameLabel := if caption.Absent? then Field(item, "ElementName") else caption,
      position := Some(ToNumber(Field(item, "AddressOnParent"))))
  }

  /** Type 17: associate the disk named by `HostResource`, or report that there is none. */
  function DiskStep(a: Acc, item: XValue): Result<Acc, TypeError> {
    match Field(item, "HostResource")
    case One(Text(resource)) =>
      var id := DiskIdOf(resource);
      if id.Some? && id.value in a.vm.disks then
        Success(a.(vm := a.vm.(disks := a.vm.disks[id.value := Associate(a.vm.disks[id.value], item)])))
      else
        Success(a.(log := a.log + multiset{NoDiskFound(resource)}))
    case _ => Failure(TypeError("HostResource"))
  }

  /** `handleItem`: the handler of the item's code, or nothing for any other code. */
  function ItemStep(a: Acc, item: XValue): Result<Acc, TypeError> {
    match ResourceKindOf(item)
    case Processor => Success(a.(vm := CpuStep(a.vm, item)))
    case Memory => var vm :- MemoryStep(a.vm, item); Success(a.(vm := vm))
    case Ethernet => Success(a.(vm := NetworkStep(a.vm, item)))
    case DiskDrive => DiskStep(a, item)
    case Unhandled => Success(a)
  }

  /** `forEach(items, handleItem)`: the items in order, stopping at the first that throws. */
  function ItemsStep(a: Acc, items: seq<XValue>): Result<Acc, TypeError>
    decreases |items|
  {
    if items == [] then Success(a)
    else
      var b :- ItemStep(a, items[0]);
      ItemsStep(b, items[1..])
  }

  // ----- disks -----

  predicate RefersTo(file: XValue, fileRef: XField) {
    StrictEquals(Field(file, "id"), fileRef)
  }

  /** lodash `find`: the first file whose `id` is the disk's `fileRef`. */
  function FindFile(files: seq<XValue>, fileRef: XField): (r: Option<XValue>)
    ensures r.None? <==> forall i :: 0 <= i < |files| ==> !RefersTo(files[i], fileRef)
    ensures r.Some? ==> exists i :: (0 <= i < |files| && files[i] == r.value && RefersTo(files[i], fileRef)
      && forall j :: 0 <= j < i ==> !RefersTo(files[j], fileRef))
  {
    if files == [] then None
    else if RefersTo(files[0], fileRef) then Some(files[0])
    else
      var r := FindFile(files[1..], fileRef);
      assert forall j :: 1 <= j < |files| ==> files[j] == files[1..][j - 1];
      r
  }

  /** `file && file.href`. */
  function PathOf(file: Option<XValue>): XField {
    match file
    case None => Absent
    case Some(f) => if Truthy(One(f)) then Field(f, "href") else One(f)
  }

  /** The key a disk is registered under: `String(disk.diskId)`. */
  function DiskKey(disk: XValue): string {
    JsString(Field(disk, "diskId"))
  }

  /** The record a `<Disk>` declares: capacity in bytes and the path of its file; no position yet. */
  function NewDisk(disk: XValue, files: seq<XValue>): Result<Disk, TypeError> {
    var file := FindFile(files, Field(disk, "fileRef"));
    var factor :- CapacityFactor(Field(disk, "capacityAllocationUnits"));
    Success(Disk(Mul(ToNumber(Field(disk, "capacity")), Nat(factor)), PathOf(file), Absent, Absent, None))
  }

  /** The disk loop: every declaration in order, a later one replacing an earlier one with the same key. */
  function RegisterStep(disks: map<string, Disk>, ds: seq<XValue>, files: seq<XValue>): Result<map<string, Disk>, TypeError>
    decreases |ds|
  {
    if ds == [] then Success(disks)
    else
      var d :- NewDisk(ds[0], files);
      RegisterStep(disks[DiskKey(ds[0]) := d], ds[1..], files)
  }

  /** `filterDisks`: the disks that were given a position, unchanged. */
  function KeepPositioned(disks: map<string, Disk>): (r: map<string, Disk>)
    ensures forall k :: k in r <==> k in disks && disks[k].position.Some?
    ensures forall k :: k in r ==> r[k] == disks[k]
  {
    map k | k in disks && disks[k].position.Some? :: disks[k]
  }

  /** One `No position specified` diagnostic per disk without a position. */
  function DropLog(disks: map<string, Disk>): multiset<Diagnostic> {
    multiset(set k | k in disks && disks[k].position.None? :: NoPosition(k))
  }

  function FilterStep(a: Acc): Acc {
    a.(vm := a.vm.(disks := KeepPositioned(a.vm.disks)), log := a.log + DropLog(a.vm.disks))
  }

  // ----- the descriptor as a whole -----

  /** The parts of the tree the destructuring at the head of the normaliser picks out. */
  datatype Shape = Shape(disks: XField, files: XField, hardware: XField, vm: Vm)

  /** `AnnotationSection.Annotation || OperatingSystemSection.Description`, with their guards. */
  function Description(system: XField): XField {
    var annotationSection := Member(system, "AnnotationSection");
    var annotation := if Truthy(annotationSection) then Member(annotationSection, "Annotation") else annotationSection;
    if Truthy(annotation) then annotation
    else
      var osSection := Member(system, "OperatingSystemSection");
      if Truthy(osSection) then Member(osSection, "Description") else osSection
  }

  /**
   * Destructuring `Envelope`, then reading the VM name and description. Reading a
   * key of a missing `Envelope`, `DiskSection`, `References`, `VirtualSystem`,
   * `VirtualHardwareSection` or `System` throws.
   */
  function Prelude(res: XValue): Result<Shape, TypeError> {
    var envelope := Field(res, "Envelope");
    var diskSection :- Get(envelope, "DiskSection");
    var disks :- Get(diskSection, "Disk");
    var references := Member(envelope, "References");
    var files :- Get(references, "File");
    var system := Member(envelope, "VirtualSystem");
    var hardware :- Get(system, "VirtualHardwareSection");
    var hardwareSystem :- Get(hardware, "System");
    var name :- Get(hardwareSystem, "VirtualSystemIdentifier");
    Success(Shape(disks, files, hardware, Vm(name, Description(system), None, None, [], map[])))
  }

  /** The whole normaliser on one parsed descriptor. */
  function Normalise(res: XValue): Result<Acc, TypeError> {
    var shape :- Prelude(res);
    var disks :- RegisterStep(map[], EnsureArray(shape.disks), EnsureArray(shape.files));
    var a0 := Acc(shape.vm.(disks := disks), multiset{});
    var a1 :- ItemsStep(a0, EnsureArray(Member(shape.hardware, "Item")));
    var a2 :- ItemsStep(a1, EnsureArray(Member(shape.hardware, "StorageItem")));
    var a3 :- ItemsStep(a2, EnsureArray(Member(shape.hardware, "EthernetPortItem")));
    Success(FilterStep(a3))
  }

  // ----- the `data` object, updated in place by the handlers -----

  class VmData {
    var nameLabel: XField
    var descriptionLabel: XField
    var nCpus: Option<Num>
    var memory: Option<Num>
    var networks: seq<XField>
    var disks: map<string, Disk>
    /** The diagnostic channel the source writes to with `console.error`. */
    var log: multiset<Diagnostic>

    function Value(): Acc
      reads this
    {
      Acc(Vm(nameLabel, descriptionLabel, nCpus, memory, networks, disks), log)
    }

    constructor (vm: Vm)
      ensures Value() == Acc(vm, multiset{})
    {
      nameLabel, descriptionLabel := vm.nameLabel, vm.descriptionLabel;
      nCpus, memory := vm.nCpus, vm.memory;
      networks, disks := vm.networks, vm.disks;
      log := multiset{};
    }

    /** `forEach(ensureArray(disks), ...)`: registers each declared disk under its key. */
    method RegisterDisks(ds: seq<XValue>, files: seq<XValue>) returns (r: Result<map<string, Disk>, TypeError>)
      modifies this
      ensures r == RegisterStep(old(disks), ds, files)
      ensures r.Success? ==> Value() == old(Value()).(vm := old(Value()).vm.(disks := r.value))
    {
      for i := 0 to |ds|
        invariant RegisterStep(old(disks), ds, files) == RegisterStep(disks, ds[i..], files)
        invariant Value() == old(Value()).(vm := old(Value()).vm.(disks := disks))
      {
        assert ds[i..][1..] == ds[i + 1..];
        var disk := NewDisk(ds[i], files);
        if disk.Failure? {
          return Failure(disk.error);
        }
        disks := disks[DiskKey(ds[i]) := disk.value];
      }
      return Success(disks);
    }

    /** RESOURCE_TYPE_TO_HANDLER['3']. */
    method HandleCpu(item: XValue)
      modifies this
      ensures Value() == old(Value()).(vm := CpuStep(old(Value()).vm, item))
    {
      nCpus := Some(ToNumber(Field(item, "VirtualQuantity")));
    }

    /** RESOURCE_TYPE_TO_HANDLER['4']; throws, changing nothing, when the unit is not a string. */
    method HandleMemory(item: XValue) returns (r: Result<Vm, TypeError>)
      modifies this
      ensures r == MemoryStep(old(Value()).vm, item)
      ensures Value() == if r.Success? then old(Value()).(vm := r.value) else old(Value())
    {
      var unit := Field(item, "AllocationUnits");
      if !(unit.One? && unit.value.Text?) {
        return Failure(TypeError("AllocationUnits"));
      }
      memory := Some(Mul(ToNumber(Field(item, "VirtualQuantity")), FactorNum(AllocationUnitsToFactor(unit.value.text))));
      return Success(Value().vm);
    }

    /** RESOURCE_TYPE_TO_HANDLER['10']: `networks.push(name)` when enabled. */
    method HandleNetwork(item: XValue)
      modifies this
      ensures Value() == old(Value()).(vm := NetworkStep(old(Value()).vm, item))
    {
      if Truthy(Field(item, "AutomaticAllocation")) {
        networks := networks + [Field(item, "Connection")];
      }
    }

    /** RESOURCE_TYPE_TO_HANDLER['17']: sets the labels and position of the named disk. */
    method HandleDisk(item: XValue) returns (r: Result<Acc, TypeError>)
      modifies this
      ensures r == DiskStep(old(Value()), item)
      ensures Value() == if r.Success? then r.value else old(Value())
    {
      var resource := Field(item, "HostResource");
      if !(resource.One? && resource.value.Text?) {
        return Failure(TypeError("HostResource"));
      }
      var id := DiskIdOf(resource.value.text);
      if id.Some? && id.value in disks {
        disks := disks[id.value := Associate(disks[id.value], item)];
      } else {
        log := log + multiset{NoDiskFound(resource.value.text)};
      }
      return Success(Value());
    }

    /** `handleItem`: looks the code up in the dispatch table and runs its handler. */
    method HandleItem(item: XValue) returns (r: Result<Acc, TypeError>)
      modifies this
      ensures r == ItemStep(old(Value()), item)
      ensures r.Success? ==> Value() == r.value
    {
      match ResourceKindOf(item)
      case Processor =>
        HandleCpu(item);
        r := Success(Value());
      case Memory =>
        var vm := HandleMemory(item);
        r := if vm.Success? then Success(Value()) else Failure(vm.error);
      case Ethernet =>
        HandleNetwork(item);
        r := Success(Value());
      case DiskDrive =>
        r := HandleDisk(item);
      case Unhandled =>
        r := Success(Value());
    }

    /** `forEach(ensureArray(items), handleItem)`. */
    method HandleItems(items: seq<XValue>) returns (r: Result<Acc, TypeError>)
      modifies this
      ensures r == ItemsStep(old(Value()), items)
      ensures r.Success? ==> Value() == r.value
    {
      for i := 0 to |items|
        invariant ItemsStep(old(Value()), items) == ItemsStep(Value(), items[i..])
      {
        assert items[i..][1..] == items[i + 1..];
        var step := HandleItem(items[i]);
        if step.Failure? {
          return Failure(step.error);
        }
      }
      return Success(Value());
    }

    /** `filterDisks`: deletes, key by key, every disk that has no position, reporting each. */
    method FilterDisks()
      modifies this
      ensures Value() == FilterStep(old(Value()))
    {
      var kept, dropped := FilterPositioned(disks);
      disks := kept;
      log := log + dropped;
    }
  }

  /** The loop of `filterDisks` on the disk map: visits each key once, deleting and reporting. */
  method FilterPositioned(original: map<string, Disk>) returns (disks: map<string, Disk>, dropped: multiset<Diagnostic>)
    ensures disks == KeepPositioned(original)
    ensures dropped == DropLog(original)
  {
    ghost var handled: set<string> := {};
    ghost var reported: set<Diagnostic> := {};
    disks, dropped := original, multiset{};
    var pending := original.Keys;
    while pending != {}
      invariant pending !! handled && pending + handled == original.Keys
      invariant disks == Pending(original, pending)
      invariant reported == Reported(original, handled)
      invariant dropped == multiset(reported)
      decreases pending
    {
      var id :| id in pending;
      ReportOneMore(original, handled, id);
      PendingOneLess(original, pending, id);
      if disks[id].position.None? {
        AddFresh(reported, NoPosition(id));
        dropped := dropped + multiset{NoPosition(id)};
        disks := disks - {id};
        reported := reported + {NoPosition(id)};
      }
      pending, handled := pending - {id}, handled + {id};
    }
    FilterDone(original);
  }

  /** The disks while `filterDisks` runs: those still to visit, and those visited that have a position. */
  function Pending(disks: map<string, Disk>, pending: set<string>): map<string, Disk> {
    map k | k in disks && (k in pending || disks[k].position.Some?) :: disks[k]
  }

  /** The diagnostics `filterDisks` has reported after visiting `handled`. */
  function Reported(disks: map<string, Disk>, handled: set<string>): set<Diagnostic> {
    set k | k in handled && k in disks && disks[k].position.None? :: NoPosition(k)
  }

  lemma FilterDone(disks: map<string, Disk>)
    ensures Pending(disks, {}) == KeepPositioned(disks)
    ensures multiset(Reported(disks, disks.Keys)) == DropLog(disks)
  {
    assert Reported(disks, disks.Keys) == set k | k in disks && disks[k].position.None? :: NoPosition(k);
  }

  lemma AddFresh(s: set<Diagnostic>, d: Diagnostic)
    requires d !in s
    ensures multiset(s + {d}) == multiset(s) + multiset{d}
  {
  }

  lemma PendingOneLess(disks: map<string, Disk>, pending: set<string>, id: string)
    requires id in pending && pending <= disks.Keys
    ensures Pending(disks, pending - {id})
      == if disks[id].position.None? then Pending(disks, pending) - {id} else Pending(disks, pending)
  {
  }

  lemma ReportOneMore(disks: map<string, Disk>, handled: set<string>, id: string)
    requires id in disks && id !in handled
    ensures NoPosition(id) !in Reported(disks, handled)
    ensures Reported(disks, handled + {id})
      == if disks[id].position.None? then Reported(disks, handled) + {NoPosition(id)} else Reported(disks, handled)
  {
  }

  /** `parseOVF` after xml2js: the destructuring, the disk loop, the three item loops, `filterDisks`. */
  method ParseOvf(res: XValue) returns (r: Result<Acc, TypeError>)
    ensures r == Normalise(res)
  {
    var shape := Prelude(res);
    if shape.Failure? {
      return Failure(shape.error);
    }
    var data := new VmData(shape.value.vm);
    var registered := data.RegisterDisks(EnsureArray(shape.value.disks), EnsureArray(shape.value.files));
    if registered.Failure? {
      return Failure(registered.error);
    }
    var hardware := shape.value.hardware;
    ghost var a0 := Acc(shape.value.vm.(disks := registered.value), multiset{});
    assert data.Value() == a0;
    var handled := data.HandleItems(EnsureArray(Member(hardware, "Item")));
    if handled.Failure? {
      return Failure(handled.error);
    }
    handled := data.HandleItems(EnsureArray(Member(hardware, "StorageItem")));
    if handled.Failure? {
      return Failure(handled.error);
    }
    handled := data.HandleItems(EnsureArray(Member(hardware, "EthernetPortItem")));
    if handled.Failure? {
      return Failure(handled.error);
    }
    ghost var a3 := handled.value;
    data.FilterDisks();
    assert data.Value() == FilterStep(a3);
    return Success(data.Value());
  }
}
