/**
 * What the descriptor normaliser guarantees about the record it builds:
 * which HostResource strings name a disk, which items throw, which disks
 * survive with a position, which networks are listed and what is reported.
 */
module OvfFacts {
  import opened Wrappers
  import opened Bytes
  import opened Strings
  import opened Units
  import opened Xml
  import opened Ovf

  // ----- the HostResource pattern -----

  /** A match of `^(?:ovf:)?\/disk\/(.+)$` is one of the two prefixes followed by its group. */
  lemma DiskIdOfSound(resource: string)
    ensures DiskIdOf(resource).Some? ==>
      var id := DiskIdOf(resource).value;
      IsDiskId(id) && (resource == OVF_DISK_PREFIX + id || resource == DISK_PREFIX + id)
  {
    if DiskIdOf(resource).Some? {
      if |OVF_DISK_PREFIX| <= |resource| && resource[..|OVF_DISK_PREFIX|] == OVF_DISK_PREFIX
         && IsDiskId(resource[|OVF_DISK_PREFIX|..]) {
        assert resource == resource[..|OVF_DISK_PREFIX|] + resource[|OVF_DISK_PREFIX|..];
      } else {
        assert resource == resource[..|DISK_PREFIX|] + resource[|DISK_PREFIX|..];
      }
    }
  }

  /** ... and either prefix followed by a one-line, non-empty id matches, with that id as group. */
  lemma DiskIdOfComplete(id: string)
    requires IsDiskId(id)
    ensures DiskIdOf(OVF_DISK_PREFIX + id) == Some(id)
    ensures DiskIdOf(DISK_PREFIX + id) == Some(id)
  {
    var ovf := OVF_DISK_PREFIX + id;
    assert ovf[..|OVF_DISK_PREFIX|] == OVF_DISK_PREFIX && ovf[|OVF_DISK_PREFIX|..] == id;
    var plain := DISK_PREFIX + id;
    assert plain[0] == '/';
    assert plain[..|DISK_PREFIX|] == DISK_PREFIX && plain[|DISK_PREFIX|..] == id;
  }

  /** A resource outside the `/disk/` namespace names no disk. */
  lemma OtherResourcesNameNoDisk()
    ensures DiskIdOf("ovf:/file/file1") == None
    ensures DiskIdOf("/disk/") == None
    ensures DiskIdOf("/disk/vmdisk1\n") == None
  {
    var file := "ovf:/file/file1";
    assert file[..|OVF_DISK_PREFIX|][5] != OVF_DISK_PREFIX[5] && file[0] != DISK_PREFIX[0];
    var line := "/disk/vmdisk1\n";
    assert line[|DISK_PREFIX|..][7] == '\n';
  }

  // ----- capacity units -----

  /** Every allocation unit the table or the caret form knows has a positive factor. */
  lemma {:induction false} FactorPositive(unit: string)
    ensures AllocationUnitsToFactor(unit).Some? ==> AllocationUnitsToFactor(unit).value > 0
  {
  }

  /**
   * `(unit && allocationUnitsToFactor(unit)) || 1` throws only for a truthy unit
   * that is not a string, and is otherwise a positive factor: 1 for a missing,
   * empty or unknown unit.
   */
  lemma CapacityFactorCases(unit: XField)
    ensures CapacityFactor(unit).Failure? <==> Truthy(unit) && !(unit.One? && unit.value.Text?)
    ensures CapacityFactor(unit).Success? ==> CapacityFactor(unit).value >= 1
    ensures !Truthy(unit) ==> CapacityFactor(unit) == Success(1)
    ensures unit.One? && unit.value.Text? && AllocationUnitsToFactor(unit.value.text).None?
      ==> CapacityFactor(unit) == Success(1)
  {
    if unit.One? && unit.value.Text? {
      FactorPositive(unit.value.text);
    }
  }

  /** A capacity of 4 in "byte * 2^20" is four mebibytes. */
  lemma CapacityInMebibytes(disk: XValue, files: seq<XValue>)
    requires Field(disk, "capacity") == One(Text("4"))
    requires Field(disk, "capacityAllocationUnits") == One(Text("byte * 2^20"))
    ensures NewDisk(disk, files).Success? && NewDisk(disk, files).value.capacity == Nat(4194304)
  {
    MebibyteFactor();
    CapacityFour();
    var file := FindFile(files, Field(disk, "fileRef"));
    assert Mul(Nat(4), Nat(1048576)) == Nat(4194304);
    assert NewDisk(disk, files) == Success(Disk(Nat(4194304), PathOf(file), Absent, Absent, None));
  }

  lemma CapacityFour()
    ensures ToNumber(One(Text("4"))) == Nat(4)
  {
    assert "4"[..0] == "";
  }

  lemma MebibyteFactor()
    ensures CapacityFactor(One(Text("byte * 2^20"))) == Success(1048576)
  {
    FactorOfByteTimes2To20();
  }

  // ----- the disk loop -----

  /** The keys the `<Disk>` declarations register. */
  function Declared(ds: seq<XValue>): (r: set<string>)
    ensures forall i :: 0 <= i < |ds| ==> DiskKey(ds[i]) in r
  {
    set i | 0 <= i < |ds| :: DiskKey(ds[i])
  }

  lemma DeclaredCons(ds: seq<XValue>)
    requires ds != []
    ensures Declared(ds) == {DiskKey(ds[0])} + Declared(ds[1..])
  {
    forall k | k in Declared(ds) ensures k in {DiskKey(ds[0])} + Declared(ds[1..]) {
      var i :| 0 <= i < |ds| && DiskKey(ds[i]) == k;
      if i > 0 {
        assert ds[1..][i - 1] == ds[i];
      }
    }
  }

  /** A declaration throws exactly when its unit is truthy and not a string. */
  predicate BadUnit(d: XValue) {
    CapacityFactor(Field(d, "capacityAllocationUnits")).Failure?
  }

  /** The disk loop throws exactly when one of the declarations has a bad unit. */
  lemma {:induction false} RegisterFails(m: map<string, Disk>, ds: seq<XValue>, files: seq<XValue>)
    ensures RegisterStep(m, ds, files).Failure? <==> exists i :: 0 <= i < |ds| && BadUnit(ds[i])
    decreases |ds|
  {
    if ds != [] {
      if !BadUnit(ds[0]) {
        var d := NewDisk(ds[0], files).value;
        RegisterFails(m[DiskKey(ds[0]) := d], ds[1..], files);
        if exists i :: 0 <= i < |ds| && BadUnit(ds[i]) {
          var i :| 0 <= i < |ds| && BadUnit(ds[i]);
          assert ds[1..][i - 1] == ds[i];
        }
      }
    }
  }

  /**
   * After the disk loop the keys are the old ones plus one per declaration; a
   * declared disk has no position yet, and a key nobody declared is untouched.
   */
  lemma {:induction false} RegisterKeys(m: map<string, Disk>, ds: seq<XValue>, files: seq<XValue>)
    requires RegisterStep(m, ds, files).Success?
    ensures var r := RegisterStep(m, ds, files).value;
      && r.Keys == m.Keys + Declared(ds)
      && (forall k :: k in Declared(ds) ==> r[k].position.None?)
      && (forall k :: k in m && k !in Declared(ds) ==> r[k] == m[k])
      && (forall j :: LastDeclaration(ds, j) ==> NewDisk(ds[j], files) == Success(r[DiskKey(ds[j])]))
    decreases |ds|
  {
    if ds != [] {
      var d := NewDisk(ds[0], files).value;
      var m1 := m[DiskKey(ds[0]) := d];
      RegisterKeys(m1, ds[1..], files);
      DeclaredCons(ds);
      var r := RegisterStep(m, ds, files).value;
      assert r == RegisterStep(m1, ds[1..], files).value;
      forall j | LastDeclaration(ds, j) ensures NewDisk(ds[j], files) == Success(r[DiskKey(ds[j])]) {
        if j == 0 {
          LastIsUndeclaredLater(ds);
        } else {
          LaterDeclaration(ds, j);
        }
      }
    }
  }

  /** Declaration `j` is the last one with its key: a later one would replace it. */
  predicate LastDeclaration(ds: seq<XValue>, j: int) {
    0 <= j < |ds| && forall j' :: j < j' < |ds| ==> DiskKey(ds[j']) != DiskKey(ds[j])
  }

  lemma LastIsUndeclaredLater(ds: seq<XValue>)
    requires LastDeclaration(ds, 0)
    ensures DiskKey(ds[0]) !in Declared(ds[1..])
  {
  }

  lemma LaterDeclaration(ds: seq<XValue>, j: int)
    requires 0 < j && LastDeclaration(ds, j)
    ensures ds[1..][j - 1] == ds[j] && LastDeclaration(ds[1..], j - 1)
  {
    forall j' | j - 1 < j' < |ds[1..]| ensures DiskKey(ds[1..][j']) != DiskKey(ds[1..][j - 1]) {
      assert ds[1..][j'] == ds[j' + 1];
    }
  }

  // ----- the item loops -----

  /** The items whose handler throws: memory with a unit that is not a string, a disk item without a string resource. */
  predicate Throws(item: XValue) {
    match ResourceKindOf(item)
    case Memory => !(Field(item, "AllocationUnits").One? && Field(item, "AllocationUnits").value.Text?)
    case DiskDrive => !(Field(item, "HostResource").One? && Field(item, "HostResource").value.Text?)
    case _ => false
  }

  /** A type-17 item whose HostResource matches the pattern with group `k`. */
  predicate NamesDisk(item: XValue, k: string) {
    && ResourceKindOf(item) == DiskDrive
    && Field(item, "HostResource").One? && Field(item, "HostResource").value.Text?
    && DiskIdOf(Field(item, "HostResource").value.text) == Some(k)
  }

  /** The connection a type-10 item adds when its AutomaticAllocation is truthy. */
  function OwnConnection(item: XValue): seq<XField> {
    if ResourceKindOf(item) == Ethernet && Truthy(Field(item, "AutomaticAllocation")) then [Field(item, "Connection")] else []
  }

  /** The connections of the enabled type-10 items, in document order. */
  function EnabledConnections(items: seq<XValue>): seq<XField> {
    if items == [] then [] else OwnConnection(items[0]) + EnabledConnections(items[1..])
  }

  /** The `No disk found` report of a type-17 item that names none of `keys`. */
  function OwnReport(keys: set<string>, item: XValue): multiset<Diagnostic> {
    var resource := Field(item, "HostResource");
    if ResourceKindOf(item) == DiskDrive && resource.One? && resource.value.Text?
       && !(DiskIdOf(resource.value.text).Some? && DiskIdOf(resource.value.text).value in keys)
    then multiset{NoDiskFound(resource.value.text)} else multiset{}
  }

  /** The reports of all the disk items that name none of `keys`. */
  function Unmatched(keys: set<string>, items: seq<XValue>): multiset<Diagnostic> {
    if items == [] then multiset{} else OwnReport(keys, items[0]) + Unmatched(keys, items[1..])
  }

  /** One item throws exactly when its handler reads a missing or non-text field. */
  lemma ItemStepFails(a: Acc, item: XValue)
    ensures ItemStep(a, item).Failure? <==> Throws(item)
  {
  }

  /** One item keeps the declared disks, their capacities and paths, and the VM labels; only a type-3 item sets `nCpus` and only a type-4 item `memory`. */
  lemma ItemStepKeeps(a: Acc, item: XValue)
    requires ItemStep(a, item).Success?
    ensures var b := ItemStep(a, item).value;
      && b.vm.disks.Keys == a.vm.disks.Keys
      && (forall k :: k in a.vm.disks ==>
            b.vm.disks[k].capacity == a.vm.disks[k].capacity && b.vm.disks[k].path == a.vm.disks[k].path)
      && b.vm.nameLabel == a.vm.nameLabel && b.vm.descriptionLabel == a.vm.descriptionLabel
      && (ResourceKindOf(item) != Processor ==> b.vm.nCpus == a.vm.nCpus)
      && (ResourceKindOf(item) != Memory ==> b.vm.memory == a.vm.memory)
  {
    var resource := Field(item, "HostResource");
    if ResourceKindOf(item) == DiskDrive {
      var id := DiskIdOf(resource.value.text);
      if id.Some? && id.value in a.vm.disks {
        assert ItemStep(a, item).value.vm.disks == a.vm.disks[id.value := Associate(a.vm.disks[id.value], item)];
      }
    }
  }

  /**
   * One item sets the labels and position of exactly the disk its HostResource
   * names, if that disk is declared; every other disk keeps its record.
   */
  lemma ItemStepPositions(a: Acc, item: XValue)
    requires ItemStep(a, item).Success?
    ensures var b := ItemStep(a, item).value;
      forall k :: k in a.vm.disks ==>
        && k in b.vm.disks
        && b.vm.disks[k] == (if NamesDisk(item, k) then Associate(a.vm.disks[k], item) else a.vm.disks[k])
        && (b.vm.disks[k].position.Some? <==> a.vm.disks[k].position.Some? || NamesDisk(item, k))
  {
    var resource := Field(item, "HostResource");
    if ResourceKindOf(item) == DiskDrive {
      var id := DiskIdOf(resource.value.text);
      var b := ItemStep(a, item).value;
      if id.Some? && id.value in a.vm.disks {
        assert b.vm.disks == a.vm.disks[id.value := Associate(a.vm.disks[id.value], item)];
        assert forall k :: NamesDisk(item, k) <==> k == id.value;
      } else {
        assert b.vm == a.vm;
        assert forall k :: k in a.vm.disks ==> !NamesDisk(item, k);
      }
    }
  }

  /** One item adds its own connection, if it is an enabled network item. */
  lemma ItemStepNetworks(a: Acc, item: XValue)
    requires ItemStep(a, item).Success?
    ensures ItemStep(a, item).value.vm.networks == a.vm.networks + OwnConnection(item)
  {
  }

  /** One item adds its own `No disk found` report, if it is a disk item naming no declared disk. */
  lemma ItemStepLog(a: Acc, item: XValue)
    requires ItemStep(a, item).Success?
    ensures ItemStep(a, item).value.log == a.log + OwnReport(a.vm.disks.Keys, item)
  {
  }

  /** The item loop throws exactly when one of the items throws, whatever the state. */
  lemma {:induction false} ItemsFail(a: Acc, items: seq<XValue>)
    ensures ItemsStep(a, items).Failure? <==> exists i :: 0 <= i < |items| && Throws(items[i])
    decreases |items|
  {
    if items != [] {
      ItemStepFails(a, items[0]);
      if !Throws(items[0]) {
        ItemsFail(ItemStep(a, items[0]).value, items[1..]);
        if exists i :: 0 <= i < |items| && Throws(items[i]) {
          var i :| 0 <= i < |items| && Throws(items[i]);
          assert items[1..][i - 1] == items[i];
        }
      }
    }
  }

  /** The item loop keeps the declared disks, their capacities and paths, and the VM labels. */
  lemma {:induction false} ItemsKeep(a: Acc, items: seq<XValue>)
    requires ItemsStep(a, items).Success?
    ensures var b := ItemsStep(a, items).value;
      && b.vm.disks.Keys == a.vm.disks.Keys
      && (forall k :: k in a.vm.disks ==>
            b.vm.disks[k].capacity == a.vm.disks[k].capacity && b.vm.disks[k].path == a.vm.disks[k].path)
      && b.vm.nameLabel == a.vm.nameLabel && b.vm.descriptionLabel == a.vm.descriptionLabel
    decreases |items|
  {
    if items != [] {
      ItemStepKeeps(a, items[0]);
      ItemsKeep(ItemStep(a, items[0]).value, items[1..]);
    }
  }

  /** The item loop appends the enabled connections to the networks, in document order. */
  lemma {:induction false} ItemsNetworks(a: Acc, items: seq<XValue>)
    requires ItemsStep(a, items).Success?
    ensures ItemsStep(a, items).value.vm.networks == a.vm.networks + EnabledConnections(items)
    decreases |items|
  {
    if items != [] {
      var b1 := ItemStep(a, items[0]).value;
      ItemStepNetworks(a, items[0]);
      ItemsNetworks(b1, items[1..]);
      assert a.vm.networks + OwnConnection(items[0]) + EnabledConnections(items[1..])
        == a.vm.networks + EnabledConnections(items);
    }
  }

  /** The item loop reports one `No disk found` per disk item that names no disk, and nothing else. */
  lemma {:induction false} ItemsLog(a: Acc, items: seq<XValue>)
    requires ItemsStep(a, items).Success?
    ensures ItemsStep(a, items).value.log == a.log + Unmatched(a.vm.disks.Keys, items)
    decreases |items|
  {
    if items != [] {
      var b1 := ItemStep(a, items[0]).value;
      ItemStepLog(a, items[0]);
      ItemStepKeeps(a, items[0]);
      ItemsLog(b1, items[1..]);
      assert a.log + OwnReport(a.vm.disks.Keys, items[0]) + Unmatched(a.vm.disks.Keys, items[1..])
        == a.log + Unmatched(a.vm.disks.Keys, items);
    }
  }

  /** After the item loop a disk has a position exactly when it had one or some item names it. */
  lemma {:induction false} ItemsPositions(a: Acc, items: seq<XValue>)
    requires ItemsStep(a, items).Success?
    ensures var b := ItemsStep(a, items).value;
      forall k :: k in a.vm.disks ==>
        && k in b.vm.disks
        && (b.vm.disks[k].position.Some? <==>
              a.vm.disks[k].position.Some? || exists i :: 0 <= i < |items| && NamesDisk(items[i], k))
    decreases |items|
  {
    if items != [] {
      var b1 := ItemStep(a, items[0]).value;
      ItemStepPositions(a, items[0]);
      ItemsPositions(b1, items[1..]);
      forall k | k in a.vm.disks {
        SomeItemNames(items, k);
      }
    }
  }

  /** Item `i` is the last of `items` to name disk `k`. */
  predicate LastNaming(items: seq<XValue>, i: int, k: string) {
    0 <= i < |items| && NamesDisk(items[i], k) && forall j :: i < j < |items| ==> !NamesDisk(items[j], k)
  }

  /** A later disk item overrides everything an earlier one set on the same disk. */
  lemma AssociateOverrides(d: Disk, first: XValue, second: XValue)
    ensures Associate(Associate(d, first), second) == Associate(d, second)
  {
  }

  /**
   * After the item loop a declared disk keeps its record when no item names it,
   * and otherwise holds the labels and position the last item naming it sets.
   */
  lemma {:induction false} ItemsDiskAt(a: Acc, items: seq<XValue>, k: string)
    requires ItemsStep(a, items).Success? && k in a.vm.disks
    ensures var b := ItemsStep(a, items).value;
      && k in b.vm.disks
      && ((forall i :: 0 <= i < |items| ==> !NamesDisk(items[i], k)) ==> b.vm.disks[k] == a.vm.disks[k])
      && (forall i :: LastNaming(items, i, k) ==> b.vm.disks[k] == Associate(a.vm.disks[k], items[i]))
    decreases |items|
  {
    if items != [] {
      var a1 := ItemStep(a, items[0]).value;
      ItemStepPositions(a, items[0]);
      ItemsDiskAt(a1, items[1..], k);
      var b := ItemsStep(a, items).value;
      assert b == ItemsStep(a1, items[1..]).value;
      if forall i :: 0 <= i < |items| ==> !NamesDisk(items[i], k) {
        forall i | 0 <= i < |items[1..]| ensures !NamesDisk(items[1..][i], k) {
          assert items[1..][i] == items[i + 1];
        }
      }
      forall i | LastNaming(items, i, k) ensures b.vm.disks[k] == Associate(a.vm.disks[k], items[i]) {
        if i == 0 {
          forall j | 0 <= j < |items[1..]| ensures !NamesDisk(items[1..][j], k) {
            assert items[1..][j] == items[j + 1];
          }
        } else {
          LaterNaming(items, i, k);
          AssociateOverrides(a.vm.disks[k], items[0], items[i]);
        }
      }
    }
  }

  lemma LaterNaming(items: seq<XValue>, i: int, k: string)
    requires 0 < i && LastNaming(items, i, k)
    ensures items[1..][i - 1] == items[i] && LastNaming(items[1..], i - 1, k)
  {
    forall j | i - 1 < j < |items[1..]| ensures !NamesDisk(items[1..][j], k) {
      assert items[1..][j] == items[j + 1];
    }
  }

  // ----- CPUs and memory -----

  /** No item of `items` has the resource type `kind`. */
  predicate NoneOfKind(items: seq<XValue>, kind: ResourceKind) {
    forall i :: 0 <= i < |items| ==> ResourceKindOf(items[i]) != kind
  }

  /** Item `i` is the last item of `items` with the resource type `kind`. */
  predicate LastOfKind(items: seq<XValue>, i: int, kind: ResourceKind) {
    0 <= i < |items| && ResourceKindOf(items[i]) == kind && NoneOfKind(items[i + 1..], kind)
  }

  /** The unit of a type-4 item is a string, so `unit.match` does not throw. */
  predicate HasTextUnit(item: XValue) {
    Field(item, "AllocationUnits").One? && Field(item, "AllocationUnits").value.Text?
  }

  /** `quantity * allocationUnitsToFactor(unit)` of a type-4 item. */
  function ItemMemory(item: XValue): Num
    requires HasTextUnit(item)
  {
    Mul(ToNumber(Field(item, "VirtualQuantity")), FactorNum(AllocationUnitsToFactor(Field(item, "AllocationUnits").value.text)))
  }

  lemma NoneOfKindTail(items: seq<XValue>, kind: ResourceKind)
    requires items != [] && NoneOfKind(items, kind)
    ensures NoneOfKind(items[1..], kind)
  {
    forall j | 0 <= j < |items[1..]| ensures ResourceKindOf(items[1..][j]) != kind {
      assert items[1..][j] == items[j + 1];
    }
  }

  lemma LaterOfKind(items: seq<XValue>, i: int, kind: ResourceKind)
    requires 0 < i && LastOfKind(items, i, kind)
    ensures items[1..][i - 1] == items[i] && LastOfKind(items[1..], i - 1, kind)
  {
    assert items[1..][i - 1 + 1..] == items[i + 1..];
  }

  /**
   * After the item loop `nCpus` is `+VirtualQuantity` of the last type-3 item,
   * and what it was before when there is none.
   */
  lemma {:induction false} ItemsCpus(a: Acc, items: seq<XValue>)
    requires ItemsStep(a, items).Success?
    ensures var b := ItemsStep(a, items).value;
      && (NoneOfKind(items, Processor) ==> b.vm.nCpus == a.vm.nCpus)
      && (forall i :: LastOfKind(items, i, Processor) ==> b.vm.nCpus == Some(ToNumber(Field(items[i], "VirtualQuantity"))))
    decreases |items|
  {
    if items != [] {
      var b1 := ItemStep(a, items[0]).value;
      ItemStepKeeps(a, items[0]);
      ItemsCpus(b1, items[1..]);
      if NoneOfKind(items, Processor) {
        NoneOfKindTail(items, Processor);
      }
      forall i | LastOfKind(items, i, Processor)
        ensures ItemsStep(a, items).value.vm.nCpus == Some(ToNumber(Field(items[i], "VirtualQuantity")))
      {
        if i > 0 {
          LaterOfKind(items, i, Processor);
        }
      }
    }
  }

  /**
   * After the item loop `memory` is quantity times unit factor of the last
   * type-4 item, and what it was before when there is none.
   */
  lemma {:induction false} ItemsMemory(a: Acc, items: seq<XValue>)
    requires ItemsStep(a, items).Success?
    ensures var b := ItemsStep(a, items).value;
      && (NoneOfKind(items, Memory) ==> b.vm.memory == a.vm.memory)
      && (forall i :: LastOfKind(items, i, Memory) ==> HasTextUnit(items[i]) && b.vm.memory == Some(ItemMemory(items[i])))
    decreases |items|
  {
    if items != [] {
      var b1 := ItemStep(a, items[0]).value;
      ItemStepKeeps(a, items[0]);
      ItemsMemory(b1, items[1..]);
      if NoneOfKind(items, Memory) {
        NoneOfKindTail(items, Memory);
      }
      forall i | LastOfKind(items, i, Memory)
        ensures HasTextUnit(items[i]) && ItemsStep(a, items).value.vm.memory == Some(ItemMemory(items[i]))
      {
        if i > 0 {
          LaterOfKind(items, i, Memory);
        }
      }
    }
  }

  /** Some item names `k` exactly when the first does or some later one does. */
  lemma SomeItemNames(items: seq<XValue>, k: string)
    requires items != []
    ensures (exists i :: 0 <= i < |items| && NamesDisk(items[i], k))
        <==> NamesDisk(items[0], k) || exists i :: 0 <= i < |items[1..]| && NamesDisk(items[1..][i], k)
  {
    if exists i :: 1 <= i < |items| && NamesDisk(items[i], k) {
      var i :| 1 <= i < |items| && NamesDisk(items[i], k);
      assert items[1..][i - 1] == items[i];
    }
    if exists i :: 0 <= i < |items[1..]| && NamesDisk(items[1..][i], k) {
      var i :| 0 <= i < |items[1..]| && NamesDisk(items[1..][i], k);
      assert items[1..][i] == items[i + 1];
    }
  }

  /** The three item loops in a row are one loop over the three lists in document order. */
  lemma {:induction false} ItemsAppend(a: Acc, s: seq<XValue>, t: seq<XValue>)
    ensures ItemsStep(a, s + t) == (var b :- ItemsStep(a, s); ItemsStep(b, t))
    decreases |s|
  {
    if s == [] {
      assert s + t == t;
    } else {
      assert (s + t)[0] == s[0] && (s + t)[1..] == s[1..] + t;
      var b1 := ItemStep(a, s[0]);
      if b1.Success? {
        ItemsAppend(b1.value, s[1..], t);
      }
    }
  }

  // ----- filterDisks -----

  /** `filterDisks` reports each positionless disk once and nothing else. */
  lemma DropLogCounts(disks: map<string, Disk>)
    ensures forall d :: DropLog(disks)[d] == if d.NoPosition? && d.diskId in disks && disks[d.diskId].position.None? then 1 else 0
  {
  }

  /** `filterDisks` splits the disks: a disk is kept or reported, never both. */
  lemma FilterSplits(a: Acc)
    ensures var b := FilterStep(a);
      forall k :: k in a.vm.disks ==>
        (k in b.vm.disks <==> NoPosition(k) !in b.log - a.log)
  {
    DropLogCounts(a.vm.disks);
  }

  // ----- the descriptor as a whole -----

  /** Every hardware item of the descriptor, in the order the three loops visit them. */
  function AllItems(hardware: XField): seq<XValue> {
    EnsureArray(Member(hardware, "Item")) + EnsureArray(Member(hardware, "StorageItem"))
      + EnsureArray(Member(hardware, "EthernetPortItem"))
  }

  /** The three loops of the normaliser are the item loop over all items. */
  lemma NormaliseItems(res: XValue)
    requires Prelude(res).Success?
    requires RegisterStep(map[], EnsureArray(Prelude(res).value.disks), EnsureArray(Prelude(res).value.files)).Success?
    ensures var shape := Prelude(res).value;
      var disks := RegisterStep(map[], EnsureArray(shape.disks), EnsureArray(shape.files)).value;
      var a0 := Acc(shape.vm.(disks := disks), multiset{});
      Normalise(res) == (var a3 :- ItemsStep(a0, AllItems(shape.hardware)); Success(FilterStep(a3)))
  {
    var shape := Prelude(res).value;
    var items := EnsureArray(Member(shape.hardware, "Item"));
    var storage := EnsureArray(Member(shape.hardware, "StorageItem"));
    var ethernet := EnsureArray(Member(shape.hardware, "EthernetPortItem"));
    var disks := RegisterStep(map[], EnsureArray(shape.disks), EnsureArray(shape.files)).value;
    var a0 := Acc(shape.vm.(disks := disks), multiset{});
    ItemsAppend(a0, items + storage, ethernet);
    ItemsAppend(a0, items, storage);
  }

  /** A descriptor the normaliser accepts: its sections exist, its declarations and its items pass, and the result is the filtered loop state. */
  lemma NormaliseParts(res: XValue)
    requires Normalise(res).Success?
    ensures Prelude(res).Success?
    ensures var shape := Prelude(res).value;
      var registered := RegisterStep(map[], EnsureArray(shape.disks), EnsureArray(shape.files));
      && registered.Success?
      && var a0 := Acc(shape.vm.(disks := registered.value), multiset{});
      && ItemsStep(a0, AllItems(shape.hardware)).Success?
      && Normalise(res).value == FilterStep(ItemsStep(a0, AllItems(shape.hardware)).value)
  {
    NormaliseItems(res);
  }

  /** The declared keys some item names. */
  function Named(keys: set<string>, items: seq<XValue>): set<string> {
    set k | k in keys && exists i :: 0 <= i < |items| && NamesDisk(items[i], k)
  }

  /** After the item loop and the filter, the disks left are the declared ones some item names, each with a position. */
  lemma FilteredDisks(a0: Acc, items: seq<XValue>)
    requires ItemsStep(a0, items).Success?
    requires forall k :: k in a0.vm.disks ==> a0.vm.disks[k].position.None?
    ensures var disks := FilterStep(ItemsStep(a0, items).value).vm.disks;
      && disks.Keys == Named(a0.vm.disks.Keys, items)
      && (forall k :: k in disks ==> disks[k].position.Some?)
  {
    ItemsKeep(a0, items);
    ItemsPositions(a0, items);
  }

  /** After the item loop and the filter, the log holds the unmatched disk items, then the disks no item names. */
  lemma FilteredLog(a0: Acc, items: seq<XValue>)
    requires ItemsStep(a0, items).Success? && a0.log == multiset{}
    requires forall k :: k in a0.vm.disks ==> a0.vm.disks[k].position.None?
    ensures var keys := a0.vm.disks.Keys;
      FilterStep(ItemsStep(a0, items).value).log
        == Unmatched(keys, items) + multiset(set k | k in keys - Named(keys, items) :: NoPosition(k))
  {
    var keys := a0.vm.disks.Keys;
    ItemsKeep(a0, items);
    ItemsLog(a0, items);
    ItemsPositions(a0, items);
    var a3 := ItemsStep(a0, items).value;
    assert a3.vm.disks.Keys == keys;
    DropLogOf(a3.vm.disks, Named(keys, items));
  }

  /** The disks the declarations register: exactly the declared keys, none with a position yet. */
  lemma RegisteredFresh(ds: seq<XValue>, files: seq<XValue>)
    requires RegisterStep(map[], ds, files).Success?
    ensures var disks := RegisterStep(map[], ds, files).value;
      && disks.Keys == Declared(ds)
      && (forall k :: k in disks ==> disks[k].position.None?)
  {
    RegisterKeys(map[], ds, files);
  }

  /**
   * The record `parseOVF` resolves with holds exactly the declared disks that
   * some hardware item names, each with a position; the disk under the key of
   * a last declaration is that declaration's record (capacity, path) with the
   * labels and position of the last item naming it.
   */
  lemma NormalisedDisks(res: XValue)
    requires Normalise(res).Success?
    ensures var shape := Prelude(res).value;
      var declared := EnsureArray(shape.disks);
      var items := AllItems(shape.hardware);
      var disks := Normalise(res).value.vm.disks;
      && disks.Keys == Named(Declared(declared), items)
      && (forall k :: k in disks ==> disks[k].position.Some?)
      && (forall j, i {:trigger LastNaming(items, i, DiskKey(declared[j])), LastDeclaration(declared, j)} :: LastDeclaration(declared, j) && LastNaming(items, i, DiskKey(declared[j])) ==>
            && DiskKey(declared[j]) in disks
            && NewDisk(declared[j], EnsureArray(shape.files)).Success?
            && disks[DiskKey(declared[j])] == Associate(NewDisk(declared[j], EnsureArray(shape.files)).value, items[i]))
  {
    NormaliseParts(res);
    var shape := Prelude(res).value;
    var declared := EnsureArray(shape.disks);
    var files := EnsureArray(shape.files);
    var items := AllItems(shape.hardware);
    RegisteredFresh(declared, files);
    var a0 := Acc(shape.vm.(disks := RegisterStep(map[], declared, files).value), multiset{});
    FilteredDisks(a0, items);
    forall j, i {:trigger LastNaming(items, i, DiskKey(declared[j])), LastDeclaration(declared, j)} | LastDeclaration(declared, j) && LastNaming(items, i, DiskKey(declared[j])) {
      NormalisedRecord(res, j, i);
    }
  }

  /** One declaration and one item of `NormalisedDisks`' record clause. */
  lemma NormalisedRecord(res: XValue, j: int, i: int)
    requires Normalise(res).Success?
    requires Prelude(res).Success?
    requires LastDeclaration(EnsureArray(Prelude(res).value.disks), j)
    requires LastNaming(AllItems(Prelude(res).value.hardware), i, DiskKey(EnsureArray(Prelude(res).value.disks)[j]))
    ensures var shape := Prelude(res).value;
      var declared := EnsureArray(shape.disks);
      var files := EnsureArray(shape.files);
      var disks := Normalise(res).value.vm.disks;
      && DiskKey(declared[j]) in disks
      && NewDisk(declared[j], files).Success?
      && disks[DiskKey(declared[j])] == Associate(NewDisk(declared[j], files).value, AllItems(shape.hardware)[i])
  {
    NormaliseParts(res);
    var shape := Prelude(res).value;
    var declared := EnsureArray(shape.disks);
    var files := EnsureArray(shape.files);
    var items := AllItems(shape.hardware);
    var a0 := Acc(shape.vm.(disks := RegisterStep(map[], declared, files).value), multiset{});
    FilteredRecord(a0, declared, files, items, j, i);
  }

  /**
   * After the item loop and the filter, the disk under the key of a last
   * declaration that some item names is that declaration's record with the
   * labels and position of the last item naming it.
   */
  lemma FilteredRecord(a0: Acc, declared: seq<XValue>, files: seq<XValue>, items: seq<XValue>, j: int, i: int)
    requires RegisterStep(map[], declared, files).Success?
    requires a0.vm.disks == RegisterStep(map[], declared, files).value
    requires ItemsStep(a0, items).Success?
    requires LastDeclaration(declared, j) && LastNaming(items, i, DiskKey(declared[j]))
    ensures var disks := FilterStep(ItemsStep(a0, items).value).vm.disks;
      && DiskKey(declared[j]) in disks
      && NewDisk(declared[j], files).Success?
      && disks[DiskKey(declared[j])] == Associate(NewDisk(declared[j], files).value, items[i])
  {
    RegisterKeys(map[], declared, files);
    var k := DiskKey(declared[j]);
    ItemsDiskAt(a0, items, k);
  }

  /**
   * The VM keeps its name and description, lists the enabled connections in
   * document order, and has the `nCpus` of the last type-3 item and the
   * `memory` of the last type-4 item, neither key when there is no such item.
   */
  lemma NormalisedVm(res: XValue)
    requires Normalise(res).Success?
    ensures var shape := Prelude(res).value;
      var items := AllItems(shape.hardware);
      var vm := Normalise(res).value.vm;
      && vm.nameLabel == shape.vm.nameLabel && vm.descriptionLabel == shape.vm.descriptionLabel
      && vm.networks == EnabledConnections(items)
      && (NoneOfKind(items, Processor) ==> vm.nCpus == None)
      && (forall i :: LastOfKind(items, i, Processor) ==> vm.nCpus == Some(ToNumber(Field(items[i], "VirtualQuantity"))))
      && (NoneOfKind(items, Memory) ==> vm.memory == None)
      && (forall i :: LastOfKind(items, i, Memory) ==> HasTextUnit(items[i]) && vm.memory == Some(ItemMemory(items[i])))
  {
    NormaliseParts(res);
    var shape := Prelude(res).value;
    var files := EnsureArray(shape.files);
    var disks := RegisterStep(map[], EnsureArray(shape.disks), files).value;
    FilteredVm(Acc(shape.vm.(disks := disks), multiset{}), AllItems(shape.hardware));
  }

  /** `NormalisedVm` for the loop state the registered disks start. */
  lemma FilteredVm(a0: Acc, items: seq<XValue>)
    requires ItemsStep(a0, items).Success?
    requires a0.vm.networks == [] && a0.vm.nCpus == None && a0.vm.memory == None
    ensures var vm := FilterStep(ItemsStep(a0, items).value).vm;
      && vm.nameLabel == a0.vm.nameLabel && vm.descriptionLabel == a0.vm.descriptionLabel
      && vm.networks == EnabledConnections(items)
      && (NoneOfKind(items, Processor) ==> vm.nCpus == None)
      && (forall i :: LastOfKind(items, i, Processor) ==> vm.nCpus == Some(ToNumber(Field(items[i], "VirtualQuantity"))))
      && (NoneOfKind(items, Memory) ==> vm.memory == None)
      && (forall i :: LastOfKind(items, i, Memory) ==> HasTextUnit(items[i]) && vm.memory == Some(ItemMemory(items[i])))
  {
    ItemsKeep(a0, items);
    ItemsNetworks(a0, items);
    ItemsCpus(a0, items);
    ItemsMemory(a0, items);
  }

  /** The positionless disks, when exactly those outside `kept` lack a position. */
  lemma DropLogOf(disks: map<string, Disk>, kept: set<string>)
    requires forall k :: k in disks ==> (disks[k].position.Some? <==> k in kept)
    ensures DropLog(disks) == multiset(set k | k in disks.Keys - kept :: NoPosition(k))
  {
    assert (set k | k in disks && disks[k].position.None? :: NoPosition(k))
      == (set k | k in disks.Keys - kept :: NoPosition(k));
  }

  /**
   * What `parseOVF` reports: one `No disk found` per disk item naming no
   * declared disk, and one `No position specified` per declared disk no item names.
   */
  lemma NormalisedLog(res: XValue)
    requires Normalise(res).Success?
    ensures var shape := Prelude(res).value;
      var keys := Declared(EnsureArray(shape.disks));
      var items := AllItems(shape.hardware);
      Normalise(res).value.log
        == Unmatched(keys, items) + multiset(set k | k in keys - Named(keys, items) :: NoPosition(k))
  {
    NormaliseParts(res);
    var shape := Prelude(res).value;
    var declared := EnsureArray(shape.disks);
    var files := EnsureArray(shape.files);
    RegisteredFresh(declared, files);
    var a0 := Acc(shape.vm.(disks := RegisterStep(map[], declared, files).value), multiset{});
    FilteredLog(a0, AllItems(shape.hardware));
  }

  /** The normaliser throws exactly when a declaration or an item does, once the sections it reads exist. */
  lemma NormaliseFails(res: XValue)
    requires Prelude(res).Success?
    ensures var shape := Prelude(res).value;
      var declared := EnsureArray(shape.disks);
      var items := AllItems(shape.hardware);
      Normalise(res).Failure? <==>
        (exists i :: 0 <= i < |declared| && BadUnit(declared[i])) || (exists i :: 0 <= i < |items| && Throws(items[i]))
  {
    var shape := Prelude(res).value;
    var declared := EnsureArray(shape.disks);
    var files := EnsureArray(shape.files);
    RegisterFails(map[], declared, files);
    var r := RegisterStep(map[], declared, files);
    if r.Success? {
      NormaliseItems(res);
      ItemsFail(Acc(shape.vm.(disks := r.value), multiset{}), AllItems(shape.hardware));
    }
  }

  // ----- partners of single operations -----

  /**
   * The destructuring and the name read throw exactly when the Envelope, its
   * DiskSection, References or VirtualSystem, the VirtualHardwareSection or its
   * System is missing; a missing AnnotationSection or Disk list does not throw.
   */
  lemma PreludeFails(res: XValue)
    ensures var envelope := Field(res, "Envelope");
      var system := Member(envelope, "VirtualSystem");
      var hardware := Member(system, "VirtualHardwareSection");
      Prelude(res).Failure? <==>
        || envelope.Absent? || Member(envelope, "DiskSection").Absent? || Member(envelope, "References").Absent?
        || system.Absent? || hardware.Absent? || Member(hardware, "System").Absent?
  {
  }

  /**
   * A type-4 item sets the memory to quantity times unit factor: NaN exactly
   * when the quantity is not a number or the unit has no factor.
   */
  lemma MemoryValue(vm: Vm, item: XValue)
    requires MemoryStep(vm, item).Success?
    ensures var memory := MemoryStep(vm, item).value.memory;
      var quantity := ToNumber(Field(item, "VirtualQuantity"));
      var factor := AllocationUnitsToFactor(Field(item, "AllocationUnits").value.text);
      && memory.Some?
      && (memory.value.NaN? <==> quantity.NaN? || factor.None?)
      && (quantity.Nat? && factor.Some? ==> memory.value == Nat(quantity.n * factor.value))
  {
  }

  /** A type-3 item whose quantity is written in decimal sets `nCpus` to that number, and nothing else. */
  lemma CpuCount(a: Acc, item: XValue, n: nat)
    requires ResourceKindOf(item) == Processor
    requires Field(item, "VirtualQuantity") == One(Text(DecimalString(n)))
    ensures ItemStep(a, item) == Success(a.(vm := a.vm.(nCpus := Some(Nat(n)))))
  {
    NumberRoundTrip(n);
  }

  /** Filtering the disks a second time keeps them all and reports nothing more. */
  lemma FilterIdempotent(a: Acc)
    ensures FilterStep(FilterStep(a)) == FilterStep(a)
  {
    var kept := KeepPositioned(a.vm.disks);
    assert (set k | k in kept && kept[k].position.None? :: NoPosition(k)) == {};
    assert KeepPositioned(kept) == kept;
  }

  /**
   * A declared disk's record: its capacity is the number times the unit factor,
   * its path the `href` of the first file whose `id` is its `fileRef`, or
   * undefined when there is none; it has no labels and no position yet.
   */
  lemma NewDiskValues(disk: XValue, files: seq<XValue>)
    requires NewDisk(disk, files).Success?
    ensures var d := NewDisk(disk, files).value;
      var fileRef := Field(disk, "fileRef");
      && CapacityFactor(Field(disk, "capacityAllocationUnits")).Success?
      && d.capacity == Mul(ToNumber(Field(disk, "capacity")), Nat(CapacityFactor(Field(disk, "capacityAllocationUnits")).value))
      && ((forall i :: 0 <= i < |files| ==> !RefersTo(files[i], fileRef)) ==> d.path == Absent)
      && (forall i :: FirstReferring(files, i, fileRef) ==> d.path == PathOf(Some(files[i])))
      && d.descriptionLabel == Absent && d.nameLabel == Absent && d.position == None
  {
    var fileRef := Field(disk, "fileRef");
    var file := FindFile(files, fileRef);
    forall i | FirstReferring(files, i, fileRef) ensures file == Some(files[i]) {
      var i0 :| 0 <= i0 < |files| && files[i0] == file.value && RefersTo(files[i0], fileRef)
        && forall j :: 0 <= j < i0 ==> !RefersTo(files[j], fileRef);
      assert i0 == i;
    }
  }

  /** File `i` is the first whose `id` is `fileRef`. */
  predicate FirstReferring(files: seq<XValue>, i: int, fileRef: XField) {
    0 <= i < |files| && RefersTo(files[i], fileRef) && forall j :: 0 <= j < i ==> !RefersTo(files[j], fileRef)
  }
}
