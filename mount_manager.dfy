/**
 * The mount manager the OTA manager drives. Its internals are not part of this model: it is a
 * table of mounted volumes whose mount and unmount calls succeed or fail nondeterministically,
 * and which records every call it receives, with its outcome, in `log`.
 */
module Mounts {
  import opened Common

  /** A mounted volume: device node, mount point and filesystem type. */
  datatype Volume = Volume(device: string, mountPoint: string, fsType: string)

  /** One call into the mount manager, with whether it succeeded. */
  datatype Call =
    | Mount(device: string, mountPoint: string, fsType: string, ok: bool)
    | Umount(device: string, ok: bool)

  /** `find_mounted_volume_by_device`: the first mounted volume of `device`, if any. */
  function FindByDevice(vols: seq<Volume>, device: string): (r: Option<Volume>)
    ensures r.Some? ==> r.value in vols && r.value.device == device
    ensures r.None? <==> forall v :: v in vols ==> v.device != device
  {
    if |vols| == 0 then None
    else if vols[0].device == device then Some(vols[0])
    else FindByDevice(vols[1..], device)
  }

  /** The table after unmounting `v`: its first entry goes, the others stay in order. */
  function Without(vols: seq<Volume>, v: Volume): (r: seq<Volume>)
    ensures v in vols ==> multiset(r) == multiset(vols) - multiset{v}
    ensures v !in vols ==> r == vols
  {
    if |vols| == 0 then []
    else
      assert vols == [vols[0]] + vols[1..];
      if vols[0] == v then vols[1..] else [vols[0]] + Without(vols[1..], v)
  }

  /** The volumes a sequence of calls mounted, in call order. */
  function MountedBy(calls: seq<Call>): (r: seq<Volume>)
    ensures |r| <= |calls|
  {
    if |calls| == 0 then []
    else
      var c := calls[|calls| - 1];
      MountedBy(calls[..|calls| - 1]) + (if c.Mount? && c.ok then [Volume(c.device, c.mountPoint, c.fsType)] else [])
  }

  /** Replaying a log piecewise gives the same volumes as replaying it whole. */
  lemma {:induction false} MountedByAppend(a: seq<Call>, b: seq<Call>)
    ensures MountedBy(a + b) == MountedBy(a) + MountedBy(b)
  {
    if |b| > 0 {
      var b0 := b[..|b| - 1];
      assert (a + b)[..|a + b| - 1] == a + b0;
      MountedByAppend(a, b0);
    } else {
      assert a + b == a;
    }
  }

  /** The elements of a sequence of sequences, in order. */
  function Concat<T>(parts: seq<seq<T>>): (r: seq<T>)
  {
    if |parts| == 0 then [] else Concat(parts[..|parts| - 1]) + parts[|parts| - 1]
  }

  lemma Assoc<T>(a: seq<T>, b: seq<T>, c: seq<T>)
    ensures (a + b) + c == a + (b + c)
  {
  }

  lemma ConcatSnoc<T>(parts: seq<seq<T>>, last: seq<T>)
    ensures Concat(parts + [last]) == Concat(parts) + last
  {
    assert (parts + [last])[..|parts|] == parts;
  }

  class MountManager {
    /** `supported_filesystem_list`, the entries before its terminating NULL. */
    const filesystems: seq<string>
    /** The mounted-volume table. */
    var mounted: seq<Volume>
    /** Every call received, with its outcome. */
    var log: seq<Call>

    constructor (filesystems: seq<string>)
      ensures this.filesystems == filesystems && mounted == [] && log == []
    {
      this.filesystems := filesystems;
      mounted := [];
      log := [];
    }

    /**
     * `mount_volume`: 0 on success, when the volume joins the table; nonzero on failure, when
     * the table is unchanged. Which of the two happens is not determined.
     */
    method MountVolume(device: string, mountPoint: string, fsType: string) returns (error: int)
      modifies this
      ensures log == old(log) + [Mount(device, mountPoint, fsType, error == 0)]
      ensures mounted == old(mounted) + (if error == 0 then [Volume(device, mountPoint, fsType)] else [])
    {
      var ok: bool :| true;
      if ok {
        mounted := mounted + [Volume(device, mountPoint, fsType)];
        error := 0;
      } else {
        error := -1;
      }
      log := log + [Mount(device, mountPoint, fsType, ok)];
    }

    /**
     * `umount_volume`: nonnegative on success, when the volume leaves the table; negative on
     * failure, when the table is unchanged. Which of the two happens is not determined.
     */
    method UmountVolume(v: Volume) returns (error: int)
      modifies this
      ensures log == old(log) + [Umount(v.device, error >= 0)]
      ensures mounted == if error >= 0 then Without(old(mounted), v) else old(mounted)
    {
      var ok: bool :| true;
      if ok {
        mounted := Without(mounted, v);
        error := 0;
      } else {
        error := -1;
      }
      log := log + [Umount(v.device, ok)];
    }
  }
}
