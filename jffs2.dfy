/** JFFS2 cleanmarker placement (jffs2.c): where in a flash block the "clean" marker goes and how long it is. */
module Jffs2 {
  import opened Common
  import opened FsFlags

  /** `sizeof(struct jffs2_unknown_node)`: magic (2) + nodetype (2) + totlen (4) + hdr_crc (4). */
  const UnknownNodeSize: nat := 12
  /** Header constants of the JFFS2 on-flash format. */
  const MagicBitmask: nat := 0x1985
  const NodetypeCleanmarker: nat := 0x2003
  /** `MTD_NANDECC_AUTOPLACE` of the MTD user ABI. */
  const NandEccAutoplace: nat := 2
  /** The filesystem name that selects the JFFS2 branch (`BM_FILE_TYPE_JFFS2`). */
  const Jffs2TypeName: string := "jffs2"

  /** The answer of the `MEMGETOOBSEL` query: ECC mode and the free OOB regions as (offset, length) pairs. */
  datatype NandOobInfo = NandOobInfo(useecc: nat, oobfree: seq<(nat, nat)>)

  /** The `uint32_t oobfree[8][2]` layout of `struct nand_oobinfo`. */
  predicate ValidOobInfo(info: NandOobInfo)
  {
    |info.oobfree| == 8 &&
    forall k :: 0 <= k < 8 ==> info.oobfree[k].0 < TwoTo32 && info.oobfree[k].1 < TwoTo32
  }

  /**
   * The cleanmarker node header the function fills in. `Uninitialised` stands for the
   * stack buffer that the code copies out without writing when the name is not JFFS2.
   */
  datatype MarkerHeader = Uninitialised | Header(magic: nat, nodetype: nat, totlen: nat)

  /**
   * `jffs2_init_cleanmarker`: the device facts it queries are parameters. `isNand` is
   * `mtd_type_is_nand`, `oobQuery` the `MEMGETOOBSEL` ioctl (None when it fails), `oobSize`
   * the device's OOB size. Returns the C result (true/false) and the `*pos` / `*len` values;
   * on failure the out-parameters are not written, which the model shows as `(0, 0)`.
   */
  method InitCleanmarker(fs: Filesystem, isNand: bool, oobQuery: Option<NandOobInfo>, oobSize: int)
    returns (ok: bool, pos: int, len: int, marker: MarkerHeader)
    requires oobQuery.Some? ==> ValidOobInfo(oobQuery.value)
    // a filesystem that is not JFFS2 gets the defaults and an untouched header
    ensures fs.name != Jffs2TypeName ==> ok && pos == 0 && len == 8 && marker == Uninitialised
    // NOR and other non-NAND flash: defaults, and the marker is a whole node
    ensures fs.name == Jffs2TypeName && !isNand ==>
      ok && pos == 0 && len == 8 && marker == Header(MagicBitmask, NodetypeCleanmarker, UnknownNodeSize)
    // NAND: the OOB query must succeed
    ensures fs.name == Jffs2TypeName && isNand && oobQuery.None? ==> !ok
    // NAND with autoplacement: the first free OOB region, length capped at 8; no free space fails
    ensures fs.name == Jffs2TypeName && isNand && oobQuery.Some? && oobQuery.value.useecc == NandEccAutoplace ==>
      var free := oobQuery.value.oobfree[0];
      && (ok <==> free.1 != 0)
      && (ok ==> pos == Int32Of(free.0) && len == (if Int32Of(free.1) > 8 then 8 else Int32Of(free.1)))
    // NAND legacy placement, by OOB size; other sizes keep the defaults
    ensures fs.name == Jffs2TypeName && isNand && oobQuery.Some? && oobQuery.value.useecc != NandEccAutoplace ==>
      && ok
      && (oobSize == 8 ==> pos == 6 && len == 2)
      && (oobSize == 16 ==> pos == 8 && len == 8)
      && (oobSize == 64 ==> pos == 16 && len == 8)
      && (oobSize !in {8, 16, 64} ==> pos == 0 && len == 8)
    // every NAND marker reports a total length of 8, and no placement is longer than 8 bytes
    ensures fs.name == Jffs2TypeName && isNand && ok ==> marker == Header(MagicBitmask, NodetypeCleanmarker, 8)
    ensures ok ==> len <= 8
    ensures !ok ==> pos == 0 && len == 0
  {
    var clmpos, clmlen := 0, 8;
    marker := Uninitialised;
    if fs.name == Jffs2TypeName {
      if !isNand {
        marker := Header(MagicBitmask, NodetypeCleanmarker, UnknownNodeSize);
      } else {
        if oobQuery.None? {
          return false, 0, 0, marker;
        }
        var oobinfo := oobQuery.value;
        if oobinfo.useecc == NandEccAutoplace {
          if oobinfo.oobfree[0].1 == 0 {
            return false, 0, 0, marker;
          }
          clmpos := Int32Of(oobinfo.oobfree[0].0);
          clmlen := Int32Of(oobinfo.oobfree[0].1);
          if clmlen > 8 {
            clmlen := 8;
          }
        } else {
          if oobSize == 8 {
            clmpos, clmlen := 6, 2;
          } else if oobSize == 16 {
            clmpos, clmlen := 8, 8;
          } else if oobSize == 64 {
            clmpos, clmlen := 16, 8;
          }
        }
        marker := Header(MagicBitmask, NodetypeCleanmarker, 8);
      }
    }
    ok, pos, len := true, clmpos, clmlen;
  }

  /** `jffs2_init`: sets the PAD and MARKBAD flags, leaves the others, and reports success. */
  method Jffs2Init(fs: Filesystem) returns (ok: bool)
    modifies fs
    ensures ok
    ensures fs.flag == Set(Set(old(fs.flag), Pad), MarkBad)
    ensures IsSet(fs.flag, Pad) && IsSet(fs.flag, MarkBad)
    ensures forall g :: g != Pad && g != MarkBad ==> IsSet(fs.flag, g) == IsSet(old(fs.flag), g)
  {
    fs.SetFlag(Pad);
    fs.SetFlag(MarkBad);
    ok := true;
  }
}
