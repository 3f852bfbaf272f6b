/**
 * The OTA manager: it keeps the registry of storage devices up to date from kernel hotplug
 * events, mounts and unmounts them through the mount manager, and runs the recovery session
 * (mount everything, update, unmount everything, then reboot or power off).
 */
module Ota {
  import opened Common
  import opened CText
  import opened OtaRegistry
  import opened Mounts

  /** How the session ends: `reboot(RB_AUTOBOOT)` or `reboot(RB_POWER_OFF)`. */
  datatype Finish = Reboot | PowerOff

  /** `recovery_finish`: a negative session result powers the machine off, any other reboots it. */
  function RecoveryFinish(error: int): (f: Finish)
    ensures f == PowerOff <==> error < 0
  {
    if error < 0 then PowerOff else Reboot
  }

  /** The session result: the storage update's, or the network update's when storage failed. */
  function UpdateResult(storage: int, network: int): (r: int)
    ensures r < 0 <==> storage < 0 && network < 0
    ensures storage >= 0 ==> r == storage
    ensures storage < 0 ==> r == network
  {
    if storage < 0 then network else storage
  }

  /**
   * The session ends in power-off exactly when both updates fail; a storage update that
   * succeeds reboots whatever the network would have returned.
   */
  lemma SessionDecision(storage: int, network: int)
    ensures RecoveryFinish(UpdateResult(storage, network)) == PowerOff <==> storage < 0 && network < 0
    ensures storage >= 0 ==> RecoveryFinish(UpdateResult(storage, network)) == Reboot
  {
  }

  /** The steps of a session, in the order they ran. */
  datatype Step = Mounting | StorageUpdate | NetworkUpdate | Unmounting | Finished(decision: Finish)

  /**
   * The calls `ensure_volume_mounted` makes for `dev`: one mount per filesystem type, strictly
   * in list order, each failing but possibly the last, ending at the first success or after
   * the last type.
   */
  predicate MountTrace(dev: StorageDev, fss: seq<string>, calls: seq<Call>)
  {
    |calls| <= |fss|
    && (forall j :: 0 <= j < |calls| ==> calls[j] == Mount(dev.devName, dev.mountPoint, fss[j], calls[j].ok))
    && (forall j :: 0 <= j < |calls| - 1 ==> !calls[j].ok)
    && (|calls| == |fss| || (|calls| > 0 && calls[|calls| - 1].ok))
  }

  /** Whether the last call of a trace succeeded. */
  predicate Succeeded(calls: seq<Call>)
  {
    |calls| > 0 && calls[|calls| - 1].ok
  }

  /**
   * What a mount trace means: it succeeded iff some type mounted, and then the volume is the
   * device on its mount point with that type; it failed iff every type was tried and failed,
   * which is always the case for an empty list.
   */
  lemma {:induction false} MountTraceOutcome(dev: StorageDev, fss: seq<string>, calls: seq<Call>)
    requires MountTrace(dev, fss, calls)
    ensures Succeeded(calls) <==> exists j :: 0 <= j < |calls| && calls[j].ok
    ensures !Succeeded(calls) <==> |calls| == |fss| && forall j :: 0 <= j < |calls| ==> !calls[j].ok
    ensures Succeeded(calls) ==> MountedBy(calls) == [Volume(dev.devName, dev.mountPoint, fss[|calls| - 1])]
    ensures !Succeeded(calls) ==> MountedBy(calls) == []
    ensures |fss| == 0 ==> !Succeeded(calls)
  {
    if |calls| > 0 {
      var n := |calls| - 1;
      assert calls[n] == Mount(dev.devName, dev.mountPoint, fss[n], calls[n].ok);
      MountedByFailures(calls[..n]);
    } else {
      assert calls == [];
    }
  }

  /** A run of failed calls mounts nothing. */
  lemma {:induction false} MountedByFailures(calls: seq<Call>)
    requires forall j :: 0 <= j < |calls| ==> !calls[j].ok
    ensures MountedBy(calls) == []
  {
    if |calls| > 0 {
      MountedByFailures(calls[..|calls| - 1]);
    }
  }

  /** `traces[k]` is a mount trace of `devs[k]`, for every device. */
  predicate MountTraces(devs: seq<StorageDev>, fss: seq<string>, traces: seq<seq<Call>>)
  {
    |traces| == |devs| && forall k :: 0 <= k < |devs| ==> MountTrace(devs[k], fss, traces[k])
  }

  lemma MountTracesSnoc(devs: seq<StorageDev>, fss: seq<string>, traces: seq<seq<Call>>, i: nat, t: seq<Call>)
    requires i < |devs| && MountTraces(devs[..i], fss, traces) && MountTrace(devs[i], fss, t)
    ensures MountTraces(devs[..i + 1], fss, traces + [t])
  {
  }

  /**
   * The log and table after a run of calls, one group of calls per device: the log grew by the
   * calls, in order, and the table by the volumes they mounted.
   */
  predicate Replayed(log: seq<Call>, mounted: seq<Volume>, log0: seq<Call>, mounted0: seq<Volume>,
                     traces: seq<seq<Call>>)
  {
    log == log0 + Concat(traces) && mounted == mounted0 + MountedBy(Concat(traces))
  }

  /** Appending one device's calls to a replayed log. */
  lemma ReplayStep(log: seq<Call>, mounted: seq<Volume>, log0: seq<Call>, mounted0: seq<Volume>,
                   traces: seq<seq<Call>>, t: seq<Call>)
    requires Replayed(log, mounted, log0, mounted0, traces)
    ensures Replayed(log + t, mounted + MountedBy(t), log0, mounted0, traces + [t])
  {
    ConcatSnoc(traces, t);
    MountedByAppend(Concat(traces), t);
    Assoc(log0, Concat(traces), t);
    Assoc(mounted0, MountedBy(Concat(traces)), MountedBy(t));
  }

  /**
   * One `ensure_volume_unmounted(dev)` on the table `tbl`, making the calls `calls` and leaving
   * the table `tbl'`: with no volume of the device mounted, no call and the table unchanged;
   * otherwise exactly one unmount of the device, which removes its volume when it succeeds.
   */
  predicate UmountStep(dev: StorageDev, tbl: seq<Volume>, calls: seq<Call>, tbl': seq<Volume>)
  {
    match FindByDevice(tbl, dev.devName)
    case None => calls == [] && tbl' == tbl
    case Some(v) =>
      |calls| == 1 && calls[0] == Umount(dev.devName, calls[0].ok)
      && tbl' == (if calls[0].ok then Without(tbl, v) else tbl)
  }

  /**
   * `traces[k]` are the calls made for `devs[k]`, one device after another, and `tables[k]` is
   * the table before device `k`: `tables[0]` the table at the start, the last one the table at
   * the end.
   */
  predicate UmountsReplayed(devs: seq<StorageDev>, traces: seq<seq<Call>>, tables: seq<seq<Volume>>)
  {
    |traces| == |devs| && |tables| == |devs| + 1
    && forall k :: 0 <= k < |devs| ==> UmountStep(devs[k], tables[k], traces[k], tables[k + 1])
  }

  lemma UmountsReplayedSnoc(devs: seq<StorageDev>, traces: seq<seq<Call>>, tables: seq<seq<Volume>>,
                            i: nat, t: seq<Call>, tbl: seq<Volume>)
    requires i < |devs| && UmountsReplayed(devs[..i], traces, tables)
    requires UmountStep(devs[i], tables[i], t, tbl)
    ensures UmountsReplayed(devs[..i + 1], traces + [t], tables + [tbl])
  {
  }

  /**
   * A step that finds a volume of the device and unmounts it removes exactly one copy of it from
   * the table; a step that finds none leaves the device with no volume; a failed unmount leaves
   * the table as it was.
   */
  lemma UmountStepOutcome(dev: StorageDev, tbl: seq<Volume>, calls: seq<Call>, tbl': seq<Volume>)
    requires UmountStep(dev, tbl, calls, tbl')
    ensures calls == [] <==> forall v :: v in tbl ==> v.device != dev.devName
    ensures calls != [] && calls[0].ok ==>
      exists v :: v in tbl && v.device == dev.devName && multiset(tbl') == multiset(tbl) - multiset{v}
    ensures calls != [] && !calls[0].ok ==> tbl' == tbl
  {
    var found := FindByDevice(tbl, dev.devName);
    if found.Some? && calls[0].ok {
      var v := found.value;
      assert v in tbl && v.device == dev.devName && multiset(tbl') == multiset(tbl) - multiset{v};
    }
  }

  class OtaManager {
    /** `storage_dev_list`. */
    var registry: Registry
    /** The mount manager, `this->mm`. */
    const mm: MountManager
    /** The steps the session has run. */
    ghost var history: seq<Step>

    ghost predicate Valid()
      reads this
    {
      Unique(registry)
    }

    /** The list starts empty. */
    constructor (mm: MountManager)
      ensures Valid() && registry == [] && history == [] && this.mm == mm
    {
      registry := [];
      this.mm := mm;
      history := [];
    }

    /** `add_storage_dev`: look for the name along the list; append a new device if absent. */
    method AddStorageDev(name: string)
      modifies this
      ensures registry == AddDev(old(registry), name)
      ensures history == old(history)
    {
      var i := 0;
      while i < |registry|
        invariant 0 <= i <= |registry|
        invariant forall k :: 0 <= k < i ==> registry[k].name != name
      {
        if registry[i].name == name {
          return;
        }
        i := i + 1;
      }
      registry := registry + [NewDev(name)];
    }

    /** `del_storage_dev`: walk the list, unlinking every entry with the name. */
    method DelStorageDev(name: string)
      modifies this
      ensures registry == DelDev(old(registry), name)
      ensures history == old(history)
    {
      var kept := [];
      var i := 0;
      while i < |registry|
        invariant 0 <= i <= |registry|
        invariant kept == DelDev(registry[..i], name)
      {
        assert registry[..i + 1][..i] == registry[..i];
        if registry[i].name != name {
          kept := kept + [registry[i]];
        }
        i := i + 1;
      }
      assert registry[..i] == registry;
      registry := kept;
    }

    /**
     * `handle_block_event`: read `NPARTS` (-1 when absent), ignore non-storage names, and on an
     * add or remove that passes the type filter add or delete the device.
     */
    method HandleBlockEvent(e: Event)
      requires BlockEventReady(e)
      modifies this
      ensures registry == BlockEffect(old(registry), e)
      ensures history == old(history)
    {
      var nparts := -1;
      if e.nparts.Some? {
        nparts := Atoi(e.nparts.value);
      }
      var name := e.devName.value;
      if !IsStorageName(name) {
        return;
      }
      if e.action == Add {
        if (e.devType.value == "disk" && nparts == 0) || e.devType.value == "partition" {
          AddStorageDev(name);
        }
      } else if e.action == Remove {
        if (e.devType.value == "disk" && nparts == 0) || e.devType.value == "partition" {
          DelStorageDev(name);
        }
      }
    }

    /** `handle_event`: block events go to the block handler; the net handler does nothing. */
    method HandleEvent(e: Event)
      requires EventReady(e) && Valid()
      modifies this
      ensures registry == EventEffect(old(registry), e)
      ensures Valid() && history == old(history)
    {
      if e.subsystem == "block" {
        HandleBlockEvent(e);
      }
      EventKeepsUnique(old(registry), e);
    }

    /**
     * `ensure_volume_mounted`: try the supported filesystem types in order, stopping at the
     * first that mounts; 0 if one did, -1 if none did. `calls` are the calls it made.
     */
    method EnsureVolumeMounted(dev: StorageDev) returns (rc: int, ghost calls: seq<Call>)
      modifies mm
      ensures mm.log == old(mm.log) + calls
      ensures MountTrace(dev, mm.filesystems, calls)
      ensures rc == (if Succeeded(calls) then 0 else -1)
      ensures mm.mounted == old(mm.mounted) + MountedBy(calls)
    {
      var fss := mm.filesystems;
      calls := [];
      var i := 0;
      var mounted := false;
      while i < |fss|
        invariant 0 <= i <= |fss| && |calls| == i
        invariant mm.log == old(mm.log) + calls
        invariant forall j :: 0 <= j < i ==> calls[j] == Mount(dev.devName, dev.mountPoint, fss[j], false)
        invariant mm.mounted == old(mm.mounted) && MountedBy(calls) == []
      {
        var error := mm.MountVolume(dev.devName, dev.mountPoint, fss[i]);
        var c := Mount(dev.devName, dev.mountPoint, fss[i], error == 0);
        assert (calls + [c])[..i] == calls;
        calls := calls + [c];
        if error == 0 {
          mounted := true;
          break;
        }
        i := i + 1;
      }
      rc := if mounted then 0 else -1;
    }

    /**
     * `ensure_volume_unmounted`: a device with no mounted volume is already unmounted (0);
     * otherwise unmount its volume, -1 if that fails and 0 if it succeeds.
     */
    method EnsureVolumeUnmounted(dev: StorageDev) returns (rc: int, ghost calls: seq<Call>)
      modifies mm
      ensures mm.log == old(mm.log) + calls && UmountStep(dev, old(mm.mounted), calls, mm.mounted)
      ensures var found := FindByDevice(old(mm.mounted), dev.devName);
        if found.None? then
          rc == 0 && calls == [] && mm.mounted == old(mm.mounted)
        else
          (rc == 0 || rc == -1)
          && calls == [Umount(dev.devName, rc == 0)]
          && mm.mounted == (if rc == 0 then Without(old(mm.mounted), found.value) else old(mm.mounted))
    {
      var volume := FindByDevice(mm.mounted, dev.devName);
      if volume.None? {
        return 0, [];
      }
      var error := mm.UmountVolume(volume.value);
      calls := [Umount(dev.devName, error >= 0)];
      if error < 0 {
        return -1, calls;
      }
      return 0, calls;
    }

    /**
     * `mount_all`: run `ensure_volume_mounted` on every registered device in list order,
     * ignoring failures; `traces[k]` are the calls made for the k-th device.
     */
    method MountAll() returns (ghost traces: seq<seq<Call>>)
      modifies this, mm
      ensures registry == old(registry) && history == old(history) + [Mounting]
      ensures MountTraces(registry, mm.filesystems, traces)
      ensures Replayed(mm.log, mm.mounted, old(mm.log), old(mm.mounted), traces)
    {
      history := history + [Mounting];
      var devs, fss := registry, mm.filesystems;
      traces := [];
      var i := 0;
      while i < |devs|
        invariant 0 <= i <= |devs| && MountTraces(devs[..i], fss, traces)
        invariant Replayed(mm.log, mm.mounted, old(mm.log), old(mm.mounted), traces)
        invariant registry == devs && history == old(history) + [Mounting]
      {
        ghost var log, mounted := mm.log, mm.mounted;
        var rc;
        ghost var t;
        rc, t := EnsureVolumeMounted(devs[i]);
        MountTracesSnoc(devs, fss, traces, i, t);
        ReplayStep(log, mounted, old(mm.log), old(mm.mounted), traces, t);
        traces := traces + [t];
        i := i + 1;
      }
      assert devs[..i] == devs;
    }

    /**
     * `umount_all`: walk the list, running `ensure_volume_unmounted` on each device whatever
     * it returns and unlinking the device; the list ends empty. `traces[k]` are the calls made
     * for the k-th device and `tables[k]` the mounted table before it.
     */
    method UmountAll() returns (ghost traces: seq<seq<Call>>, ghost tables: seq<seq<Volume>>)
      modifies this, mm
      ensures registry == [] && Valid() && history == old(history) + [Unmounting]
      ensures UmountsReplayed(old(registry), traces, tables)
      ensures tables[0] == old(mm.mounted) && mm.mounted == tables[|traces|]
      ensures mm.log == old(mm.log) + Concat(traces)
    {
      history := history + [Unmounting];
      ghost var orig := registry;
      traces, tables := [], [mm.mounted];
      while |registry| > 0
        invariant |traces| <= |orig| && registry == orig[|traces|..]
        invariant UmountsReplayed(orig[..|traces|], traces, tables)
        invariant tables[0] == old(mm.mounted) && mm.mounted == tables[|traces|]
        invariant mm.log == old(mm.log) + Concat(traces)
        invariant history == old(history) + [Unmounting]
        decreases |registry|
      {
        var rc;
        ghost var t;
        ghost var before := mm.mounted;
        assert registry[0] == orig[|traces|];
        rc, t := EnsureVolumeUnmounted(registry[0]);
        UmountsReplayedSnoc(orig, traces, tables, |traces|, t, mm.mounted);
        ConcatSnoc(traces, t);
        traces, tables := traces + [t], tables + [mm.mounted];
        registry := registry[1..];
      }
      assert orig[..|traces|] == orig;
    }

    /**
     * The update step of `main_task`: the storage update runs first, and the network update only
     * when storage failed; the session result is the last one that ran.
     */
    method Update(storage: int, network: int) returns (error: int)
      modifies this
      ensures registry == old(registry)
      ensures history == old(history) + [StorageUpdate] + (if storage < 0 then [NetworkUpdate] else [])
      ensures error == UpdateResult(storage, network)
    {
      history := history + [StorageUpdate];
      error := storage;
      if error < 0 {
        history := history + [NetworkUpdate];
        error := network;
      }
    }

    /**
     * `main_task` after cold boot: mount everything, update from storage, fall back to the
     * network only when storage failed, unmount everything, then finish on the result. The
     * mount manager's log holds every mount call of `mount_all` ahead of every unmount call of
     * `umount_all`, and the unmounts start from the table the mounts left.
     */
    method MainTask(storage: int, network: int)
      returns (decision: Finish, ghost mounts: seq<seq<Call>>, ghost unmounts: seq<seq<Call>>,
               ghost tables: seq<seq<Volume>>)
      modifies this, mm
      ensures registry == [] && Valid()
      ensures history == old(history) + [Mounting, StorageUpdate]
                         + (if storage < 0 then [NetworkUpdate] else [])
                         + [Unmounting, Finished(decision)]
      ensures MountTraces(old(registry), mm.filesystems, mounts)
      ensures UmountsReplayed(old(registry), unmounts, tables)
      ensures tables[0] == old(mm.mounted) + MountedBy(Concat(mounts)) && mm.mounted == tables[|unmounts|]
      ensures mm.log == old(mm.log) + Concat(mounts) + Concat(unmounts)
      ensures decision == RecoveryFinish(UpdateResult(storage, network))
    {
      mounts := MountAll();
      var error := Update(storage, network);
      unmounts, tables := UmountAll();
      decision := RecoveryFinish(error);
      history := history + [Finished(decision)];
    }
  }
}
