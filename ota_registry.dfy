/**
 * The storage-device registry of the OTA manager and the rule by which kernel hotplug events
 * change it: which block devices are admitted, and what adding and deleting a device does.
 */
module OtaRegistry {
  import opened Common
  import opened CText

  /** A registered storage device: its kernel name, device node and mount point. */
  datatype StorageDev = StorageDev(name: string, devName: string, mountPoint: string)

  /** The registry, in registration order. */
  type Registry = seq<StorageDev>

  const DevPrefix: string := "/dev"
  const MountPrefix: string := "/recovery-mount"

  /** The device built for a name: `<DevPrefix>/<name>` and `<MountPrefix>/<name>`. */
  function NewDev(name: string): (d: StorageDev)
    ensures d.name == name
    ensures d.devName == DevPrefix + "/" + name && d.mountPoint == MountPrefix + "/" + name
  {
    StorageDev(name, DevPrefix + "/" + name, MountPrefix + "/" + name)
  }

  predicate HasName(reg: Registry, name: string)
  {
    exists i :: 0 <= i < |reg| && reg[i].name == name
  }

  /** No two registered devices share a name. */
  predicate Unique(reg: Registry)
  {
    forall i, j :: 0 <= i < j < |reg| ==> reg[i].name != reg[j].name
  }

  /**
   * `add_storage_dev`: a name already registered leaves the registry as it is; otherwise a new
   * device is appended at the tail, every existing entry keeping its place.
   */
  function AddDev(reg: Registry, name: string): (r: Registry)
    ensures HasName(r, name)
    ensures HasName(reg, name) ==> r == reg
    ensures !HasName(reg, name) ==> r == reg + [NewDev(name)]
  {
    if HasName(reg, name) then reg
    else
      var r := reg + [NewDev(name)];
      assert r[|reg|].name == name;
      r
  }

  /** Adding keeps the registry free of duplicate names. */
  lemma AddDevKeepsUnique(reg: Registry, name: string)
    requires Unique(reg)
    ensures Unique(AddDev(reg, name))
  {
  }

  /**
   * `del_storage_dev`: every entry with the name is unlinked; the others stay, in order. It is
   * specified by filtering, last entry last.
   */
  function DelDev(reg: Registry, name: string): (r: Registry)
    ensures !HasName(r, name)
    ensures |r| <= |reg|
    ensures forall d :: d in r <==> d in reg && d.name != name
  {
    if |reg| == 0 then []
    else
      var last := reg[|reg| - 1];
      DelDev(reg[..|reg| - 1], name) + (if last.name == name then [] else [last])
  }

  /** Deleting a name that is not registered changes nothing. */
  lemma {:induction false} DelDevUnknown(reg: Registry, name: string)
    requires !HasName(reg, name)
    ensures DelDev(reg, name) == reg
  {
    if |reg| > 0 {
      var init, last := reg[..|reg| - 1], reg[|reg| - 1];
      assert !HasName(init, name) by {
        forall i | 0 <= i < |init|
          ensures init[i].name != name
        {
          assert init[i] == reg[i];
        }
      }
      DelDevUnknown(init, name);
      assert last.name != name;
      assert DelDev(reg, name) == DelDev(init, name) + [last];
      assert init + [last] == reg;
    }
  }

  /** Deleting from two lists joined is deleting from each: the survivors keep their order. */
  lemma {:induction false} DelDevAppend(a: Registry, b: Registry, name: string)
    ensures DelDev(a + b, name) == DelDev(a, name) + DelDev(b, name)
    decreases |b|
  {
    if |b| == 0 {
      assert a + b == a;
    } else {
      var init := b[..|b| - 1];
      assert (a + b)[..|a + b| - 1] == a + init;
      assert (a + b)[|a + b| - 1] == b[|b| - 1];
      DelDevAppend(a, init, name);
    }
  }

  /** In a registry without duplicates, no entry before or after entry `i` carries its name. */
  lemma UniqueAround(reg: Registry, i: nat)
    requires Unique(reg) && i < |reg|
    ensures !HasName(reg[..i], reg[i].name) && !HasName(reg[i + 1..], reg[i].name)
  {
    var before, after := reg[..i], reg[i + 1..];
    forall k | 0 <= k < |before|
      ensures before[k].name != reg[i].name
    {
      assert before[k] == reg[k];
    }
    forall k | 0 <= k < |after|
      ensures after[k].name != reg[i].name
    {
      assert after[k] == reg[i + 1 + k];
    }
  }

  /**
   * In a registry without duplicates, deleting the name of entry `i` unlinks that entry alone:
   * the entries before it and after it remain, in their order.
   */
  lemma DelDevAt(reg: Registry, name: string, i: nat)
    requires Unique(reg) && i < |reg| && reg[i].name == name
    ensures DelDev(reg, name) == reg[..i] + reg[i + 1..]
  {
    UniqueAround(reg, i);
    var before, rest, after := reg[..i], reg[i..], reg[i + 1..];
    calc {
      DelDev(reg, name);
      { assert reg == before + rest; }
      DelDev(before + rest, name);
      { DelDevAppend(before, rest, name); DelDevUnknown(before, name); }
      before + DelDev(rest, name);
      { assert rest == [reg[i]] + after; DelDevAppend([reg[i]], after, name); }
      before + (DelDev([reg[i]], name) + DelDev(after, name));
      { assert DelDev([reg[i]], name) == []; DelDevUnknown(after, name); }
      before + after;
    }
  }

  /** Deleting twice is deleting once. */
  lemma DelDevIdempotent(reg: Registry, name: string)
    ensures DelDev(DelDev(reg, name), name) == DelDev(reg, name)
  {
    DelDevUnknown(DelDev(reg, name), name);
  }

  /** Deleting keeps the registry free of duplicate names. */
  lemma {:induction false} DelDevKeepsUnique(reg: Registry, name: string)
    requires Unique(reg)
    ensures Unique(DelDev(reg, name))
  {
    if |reg| > 0 {
      var init := reg[..|reg| - 1];
      DelDevKeepsUnique(init, name);
      var last := reg[|reg| - 1];
      forall d | d in DelDev(init, name)
        ensures d.name != last.name
      {
        var i :| 0 <= i < |init| && init[i] == d;
      }
    }
  }

  /** In a registry without duplicates, deleting a registered name removes exactly one entry. */
  lemma {:induction false} DelDevRemovesOne(reg: Registry, name: string)
    requires Unique(reg) && HasName(reg, name)
    ensures |DelDev(reg, name)| == |reg| - 1
  {
    var init := reg[..|reg| - 1];
    var last := reg[|reg| - 1];
    if last.name == name {
      assert !HasName(init, name) by {
        forall i | 0 <= i < |init|
          ensures init[i].name != name
        {
          assert reg[i] == init[i];
        }
      }
      DelDevUnknown(init, name);
    } else {
      var i :| 0 <= i < |reg| && reg[i].name == name;
      assert init[i].name == name;
      DelDevRemovesOne(init, name);
    }
  }

  /** Kernel event actions. */
  datatype Action = Add | Remove | Change | Unknown

  /**
   * A kernel event: its subsystem, action and the attributes the handler looks up, each
   * absent when the event does not carry it.
   */
  datatype Event = Event(subsystem: string, action: Action, devType: Option<string>,
                         devName: Option<string>, nparts: Option<string>)

  /** The partition count the handler reads: `NPARTS` through `atoi`, -1 when absent. */
  function NParts(e: Event): (n: int)
    ensures e.nparts.None? ==> n == -1
    ensures e.nparts.Some? ==> n == Atoi(e.nparts.value)
  {
    match e.nparts
    case None => -1
    case Some(s) => Atoi(s)
  }

  /** Only `sd*` and `mmcblk*` devices are storage. */
  predicate IsStorageName(name: string)
  {
    IsPrefix("sd", name) || IsPrefix("mmcblk", name)
  }

  /** The device-type filter: a whole disk without partitions, or any partition. */
  predicate Selected(devType: string, nparts: int)
  {
    (devType == "disk" && nparts == 0) || devType == "partition"
  }

  /**
   * What the handler needs of a block event to look at it safely: the device name always, the
   * device type for an add or remove of a storage device.
   */
  predicate BlockEventReady(e: Event)
  {
    e.devName.Some?
    && (IsStorageName(e.devName.value) && (e.action == Add || e.action == Remove) ==> e.devType.Some?)
  }

  predicate EventReady(e: Event)
  {
    e.subsystem == "block" ==> BlockEventReady(e)
  }

  /** An add or remove of a storage device that passes the type filter. */
  predicate Admitted(e: Event)
  {
    e.devName.Some? && e.devType.Some?
    && IsStorageName(e.devName.value)
    && (e.action == Add || e.action == Remove)
    && Selected(e.devType.value, NParts(e))
  }

  /**
   * `handle_block_event` on the registry: a non-storage name is ignored; an admitted add adds
   * the device, an admitted remove deletes it; every other event leaves the registry alone.
   */
  function BlockEffect(reg: Registry, e: Event): (r: Registry)
    requires BlockEventReady(e)
  {
    var name := e.devName.value;
    if !IsStorageName(name) then reg
    else if e.action == Add then
      if Selected(e.devType.value, NParts(e)) then AddDev(reg, name) else reg
    else if e.action == Remove then
      if Selected(e.devType.value, NParts(e)) then DelDev(reg, name) else reg
    else reg
  }

  /** `handle_event` on the registry: block events go to the block handler, others change nothing. */
  function EventEffect(reg: Registry, e: Event): (r: Registry)
    requires EventReady(e)
    ensures e.subsystem != "block" ==> r == reg
  {
    if e.subsystem == "block" then BlockEffect(reg, e) else reg
  }

  /**
   * The admission rule in one place: an admitted add registers the device, an admitted remove
   * unregisters it, and an event that is not admitted leaves the registry unchanged.
   */
  lemma BlockEffectAdmission(reg: Registry, e: Event)
    requires BlockEventReady(e)
    ensures Admitted(e) && e.action == Add ==> HasName(BlockEffect(reg, e), e.devName.value)
    ensures Admitted(e) && e.action == Remove ==> !HasName(BlockEffect(reg, e), e.devName.value)
    ensures !Admitted(e) ==> BlockEffect(reg, e) == reg
  {
  }

  /** Every event keeps the registry free of duplicate names. */
  lemma EventKeepsUnique(reg: Registry, e: Event)
    requires EventReady(e) && Unique(reg)
    ensures Unique(EventEffect(reg, e))
  {
    if e.subsystem == "block" && IsStorageName(e.devName.value) {
      if e.action == Add {
        AddDevKeepsUnique(reg, e.devName.value);
      } else if e.action == Remove {
        DelDevKeepsUnique(reg, e.devName.value);
      }
    }
  }

  /**
   * A whole disk is admitted exactly when it carries `NPARTS` and `atoi` reads it as 0; in
   * particular a disk event without `NPARTS` is never admitted.
   */
  lemma DiskAdmission(e: Event)
    requires e.devType == Some("disk")
    ensures Admitted(e) <==> e.devName.Some? && IsStorageName(e.devName.value)
                             && (e.action == Add || e.action == Remove)
                             && e.nparts.Some? && Atoi(e.nparts.value) == 0
    ensures e.nparts.None? ==> !Admitted(e)
  {
  }

  /** A partition of a storage device is admitted on add and remove whatever its `NPARTS`. */
  lemma PartitionAdmission(e: Event)
    requires e.devType == Some("partition") && e.devName.Some? && IsStorageName(e.devName.value)
    ensures Admitted(e) <==> e.action == Add || e.action == Remove
  {
  }

  /**
   * `NPARTS` is read with `atoi`, so a value with no leading digits, and one whose low 32 bits
   * are zero, count as zero partitions: such disks are admitted.
   */
  lemma DiskNpartsReadAsZero(e: Event, n: nat)
    requires e.devType == Some("disk") && e.devName.Some? && IsStorageName(e.devName.value)
    requires e.action == Add || e.action == Remove
    requires n <= LongMax && n % TwoTo32 == 0
    ensures e.nparts == Some("") ==> Admitted(e)
    ensures e.nparts == Some("none") ==> Admitted(e)
    ensures e.nparts == Some(Decimal(n)) ==> Admitted(e)
  {
    AtoiReadsZero(n);
    DiskAdmission(e);
  }
}
