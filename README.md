# linux-recovery: OTA manager, framebuffer drawer and flash-filesystem flags in Dafny

This project models the core of the recovery image of an embedded Linux device.

- **The OTA manager** (`client/recovery/ota/ota_manager.c`) keeps a registry of storage devices. Kernel block
  hotplug events fill and drain it.
  - It mounts every registered device, trying the supported filesystem types in order.
  - It runs an update from storage and falls back to the network.
  - It unmounts and forgets every device.
  - It ends the session with a reboot or a power-off.
- **The framebuffer drawer** (`client/recovery/graphics/gr_drawer.c`):
  - the screen bounds test;
  - pixel packing from the framebuffer's channel layout;
  - the screen fill;
  - alpha blending of glyphs into 4-byte pixels and the glyph loop of text drawing;
  - the clipping of image drawing;
  - the run-length decoding of the built-in font.
- **The filesystem layer:**
  - the `FS_FLAG_*` bitset of `client/recovery/include/block/fs/fs_manager.h`;
  - where `client/recovery/block/fs/jffs2.c` puts the JFFS2 cleanmarker;
  - which flags `jffs2_init` sets.

Modules and files:

| file | module | what it holds |
|---|---|---|
| `common.dfy` | `Common` | 32-bit conversions, powers of two, `Option`, `Byte`, small arithmetic lemmas |
| `ctext.dfy` | `CText` | C `strtol`/`atoi` (64-bit `long`, conversion to 32-bit `int`), the prefix test |
| `ota_registry.dfy` | `OtaRegistry` | the device registry as a sequence, the add/delete rules, the admission rule for block events |
| `mount_manager.dfy` | `Mounts` | the mount manager as a class with a mounted-volume table and a call log; its calls succeed or fail nondeterministically |
| `ota_manager.dfy` | `Ota` | class `OtaManager`: one method per C function, proved against the registry functions and the call log; the session order and the finish decision |
| `gr_pixel.dfy` | `GrPixel` | `outside`, `make_pixel`, the bytes written per pixel, the fill pattern, `draw_png` clipping |
| `gr_blend.dfy` | `GrBlend` | what `text_blend` does to every byte, as functions over the framebuffer bytes |
| `gr_font.dfy` | `GrFont` | run-length font decoding, an encoder as its partner, and the in-place decode loop on an array |
| `gr_drawer.dfy` | `GrDrawer` | class `Drawer` over the framebuffer `array`: `init`, `set_color`, `fill_screen`, `text_blend`, the glyph loop of `draw_text` |
| `fs_flags.dfy` | `FsFlags` | the flag enumeration, `FS_FLAG_BITS` / `FS_FLAG_IS_SET` / `FS_FLAG_SET`, a filesystem object with its `flag` field |
| `jffs2.dfy` | `Jffs2` | the cleanmarker decision table and `jffs2_init` |

How the model works:

- **The mount manager** records every call it receives, with its outcome, in `log`.
  - The OTA manager's methods return the calls they made as ghost traces.
  - Each method is specified by what those traces must look like and by how they change the log and the
    mounted table.
- **The update results** are parameters of `MainTask`. The OTA manager holds the mount manager it drives in a
  constant field set by its constructor.
- **The session order** is kept in a ghost `history`; `MountAll` and `UmountAll` each add their own step to it.

Three behaviours of the code that a reader might not expect:

- **Whole disks without `NPARTS`** are not registered, because `nparts` starts at -1 and only `nparts == 0` admits a
  disk (`ota_manager.c:133-150`, `OtaRegistry.DiskAdmission`).
- **The finish decision** has two outcomes: power-off exactly when the final result is negative, reboot otherwise
  (`ota_manager.c:231-236`, `Ota.RecoveryFinish`).
- **Failed unmounts.** `umount_all` empties the device list whatever `ensure_volume_unmounted` returns, so a volume
  whose unmount failed stays in the mounted table (`ota_manager.c:214-223`, `Ota.OtaManager.UmountAll`).

## Model

| member | source | states |
|---|---|---|
| Ota.OtaManager.AddStorageDev | client/recovery/ota/ota_manager.c:89-106 | the list after the scan and tail append is `AddDev` of the old list |
| OtaRegistry.AddDev | client/recovery/ota/ota_manager.c:89-106 | the name is registered afterwards; a name already present leaves the list as it was; otherwise the old list is kept in order and the new device is appended at the tail |
| OtaRegistry.NewDev | client/recovery/ota/ota_manager.c:98-103 | a new device keeps its name, with device node `/dev/<name>` and mount point `/recovery-mount/<name>` |
| OtaRegistry.AddDevKeepsUnique | client/recovery/ota/ota_manager.c:89-96 | adding never creates a second entry with the same name |
| Ota.OtaManager.DelStorageDev | client/recovery/ota/ota_manager.c:108-121 | the list after unlinking every entry with the name is `DelDev` of the old list |
| OtaRegistry.DelDev | client/recovery/ota/ota_manager.c:108-121 | no entry with the name survives; a device is in the result iff it was in the list under another name; the list never grows; the order of the survivors is stated by `DelDevAppend` and `DelDevAt` |
| OtaRegistry.DelDevAppend | client/recovery/ota/ota_manager.c:111-119 | deleting from two lists joined is deleting from each and joining the results, so the survivors keep their relative order |
| OtaRegistry.DelDevAt | client/recovery/ota/ota_manager.c:108-121 | in a list with distinct names, deleting the name of entry `i` leaves exactly the entries before it followed by the entries after it |
| OtaRegistry.DelDevUnknown | client/recovery/ota/ota_manager.c:108-121 | deleting a name that is not registered leaves the list unchanged |
| OtaRegistry.DelDevIdempotent | client/recovery/ota/ota_manager.c:108-121 | deleting the same name twice is the same as deleting it once |
| OtaRegistry.DelDevKeepsUnique | client/recovery/ota/ota_manager.c:108-121 | deleting keeps the names in the list distinct |
| OtaRegistry.DelDevRemovesOne | client/recovery/ota/ota_manager.c:108-121 | in a list with distinct names, deleting a registered name removes exactly one entry |
| CText.IsPrefix | client/recovery/ota/ota_manager.c:142 | `is_prefixed_with(name, p)`: `name` starts with `p` |
| OtaRegistry.Admitted | client/recovery/ota/ota_manager.c:142-150 | the admission rule as the handler writes it: a storage name, an add or remove, and type `partition` or type `disk` with partition count 0; its meaning is stated by `DiskAdmission` and `PartitionAdmission` |
| OtaRegistry.BlockEffect | client/recovery/ota/ota_manager.c:128-153 | the list after a block event, branch by branch as the handler decides; its meaning is stated by `BlockEffectAdmission` |
| OtaRegistry.NParts | client/recovery/ota/ota_manager.c:133-140 | the partition count is -1 when `NPARTS` is absent and `atoi` of it otherwise |
| CText.Strtol | client/recovery/ota/ota_manager.c:140 | the conversion inside `atoi` saturates at the 64-bit `long` range |
| CText.Atoi | client/recovery/ota/ota_manager.c:140 | `atoi` always yields a 32-bit `int` |
| CText.AtoiDecimal | client/recovery/ota/ota_manager.c:140 | `atoi` reads back a decimal number reduced to 32 bits; numbers below 2^31 come back unchanged |
| CText.StrtolDecimal | client/recovery/ota/ota_manager.c:140 | the `long` conversion reads back any decimal number that fits a `long` |
| CText.AtoiNoDigits | client/recovery/ota/ota_manager.c:140 | text with no digit after the white space and sign reads as 0 |
| CText.AtoiReadsZero | client/recovery/ota/ota_manager.c:140 | `""`, `"none"` and a number whose low 32 bits are zero all read as 0 |
| Ota.OtaManager.HandleBlockEvent | client/recovery/ota/ota_manager.c:128-153 | the list after a block event is `BlockEffect` of the old list |
| OtaRegistry.BlockEffectAdmission | client/recovery/ota/ota_manager.c:142-152 | an admitted add registers the device; an admitted remove unregisters it; any other event leaves the list unchanged |
| OtaRegistry.DiskAdmission | client/recovery/ota/ota_manager.c:133-152 | a whole disk is admitted iff it is a storage name, the action is add or remove, and `NPARTS` is present and reads as 0; without `NPARTS` it is never admitted |
| OtaRegistry.PartitionAdmission | client/recovery/ota/ota_manager.c:145-152 | a storage partition is admitted iff the action is add or remove, whatever its `NPARTS` |
| OtaRegistry.DiskNpartsReadAsZero | client/recovery/ota/ota_manager.c:139-146 | a disk whose `NPARTS` is `""`, `"none"` or a decimal number with 32 zero low bits is admitted, because `atoi` reads each as 0 |
| Ota.OtaManager.HandleEvent | client/recovery/ota/ota_manager.c:155-168 | the list after any event is `EventEffect` of the old list, and names stay distinct |
| OtaRegistry.EventEffect | client/recovery/ota/ota_manager.c:155-168 | an event outside the block subsystem (net included) never changes the list |
| OtaRegistry.EventKeepsUnique | client/recovery/ota/ota_manager.c:128-168 | no event ever makes two entries share a name |
| Mounts.FindByDevice | client/recovery/ota/ota_manager.c:71-72 | a volume that is found is mounted and belongs to the device; none is found iff no mounted volume belongs to it |
| Mounts.MountManager.MountVolume | client/recovery/ota/ota_manager.c:52-53 | one mount call is logged with its outcome; on success (0) the volume joins the table, on failure the table is unchanged |
| Mounts.MountManager.UmountVolume | client/recovery/ota/ota_manager.c:79-80 | one unmount call is logged with its outcome; on success the volume leaves the table, on failure the table is unchanged |
| Mounts.Without | client/recovery/ota/ota_manager.c:79 | unmounting removes exactly one copy of the volume from the table; a volume that is not there leaves it unchanged |
| Ota.OtaManager.EnsureVolumeMounted | client/recovery/ota/ota_manager.c:40-64 | the calls made form a mount trace: one per type, in list order, all failing but the last; they are appended to the log; the table grows by what they mounted; the result is 0 iff the last call succeeded, else -1 |
| Ota.MountTraceOutcome | client/recovery/ota/ota_manager.c:47-63 | a trace succeeds iff some type mounted, and then exactly the device's volume with that type is added; it fails iff every type was tried and failed, and then nothing is mounted; an empty type list always fails |
| Ota.OtaManager.EnsureVolumeUnmounted | client/recovery/ota/ota_manager.c:66-87 | with no volume mounted for the device: 0, no call, table unchanged; otherwise exactly one unmount call, 0 on success with the volume removed, -1 on failure with the table unchanged; this is one `UmountStep` |
| Ota.UmountStepOutcome | client/recovery/ota/ota_manager.c:71-86 | a step makes no call iff no volume of the device is mounted; a successful unmount removes exactly one volume of the device from the table; a failed one leaves the table as it was |
| Ota.OtaManager.MountAll | client/recovery/ota/ota_manager.c:196-208 | every registered device gets one mount trace, in list order, whatever the earlier ones returned; the log and table grow by exactly these calls and volumes; the list is unchanged |
| Ota.OtaManager.UmountAll | client/recovery/ota/ota_manager.c:210-224 | every device of the old list, in order, gets one `UmountStep` on the table the previous devices left, whatever the earlier ones returned: an unmount call exactly when a volume of it is mounted; the log grows by exactly these calls; the final table is the one the last step leaves; the list ends empty |
| Ota.RecoveryFinish | client/recovery/ota/ota_manager.c:226-242 | power-off iff the result is negative, reboot otherwise |
| Ota.SessionDecision | client/recovery/ota/ota_manager.c:263-269 | the session powers off iff both updates fail; a storage update that succeeds reboots whatever the network would return |
| Ota.UpdateResult | client/recovery/ota/ota_manager.c:262-264 | the session result is the storage update's when that is not negative, else the network update's; it is negative iff both are |
| Ota.OtaManager.Update | client/recovery/ota/ota_manager.c:262-264 | the storage update is recorded first, the network update only when storage failed, and the result is `UpdateResult` of the two; the list is unchanged |
| Ota.OtaManager.MainTask | client/recovery/ota/ota_manager.c:253-272 | the mount manager's log grows by one mount trace per registered device followed by one unmount step per device, starting from the table the mounts left; the network update runs only when storage failed; the list ends empty; the decision is `recovery_finish` of the storage result, or of the network result when storage failed |
| GrPixel.Outside | client/recovery/graphics/gr_drawer.c:47-52 | the bounds test: true when `y >= fb_height` or `x >= fb_width`; its meaning is stated by `InsideIffIndexOnScreen` |
| GrPixel.MakePixel | client/recovery/graphics/gr_drawer.c:54-74 | the OR over the four channels of `(c >> (8 - len)) << off`; what it keeps of each component is stated by `FieldInOwnChannel`, `ExtractOwnField` and the three layout lemmas |
| GrPixel.InsideIffIndexOnScreen | client/recovery/graphics/gr_drawer.c:47-52 | a position passes `outside` iff its column is inside the row and its row-major index is a pixel of the screen |
| GrPixel.FieldInOwnChannel | client/recovery/graphics/gr_drawer.c:68-71 | each term of `make_pixel` occupies only its own channel's bits when the channel fits the word |
| GrPixel.ExtractOwnField | client/recovery/graphics/gr_drawer.c:68-71 | shifting a channel term back down yields the top `len` bits of the component, unchanged |
| GrPixel.ZeroField | client/recovery/graphics/gr_drawer.c:129 | a zero component contributes no bits, so the fill pixel has an empty alpha channel |
| GrPixel.Argb8888Channels | client/recovery/graphics/gr_drawer.c:54-74 | in the ARGB 8888 layout each of the four components is recovered whole from its own byte |
| GrPixel.Abgr8888Channels | client/recovery/graphics/gr_drawer.c:54-74 | in the ABGR 8888 layout each of the four components is recovered whole from its own byte |
| GrPixel.Rgb565Channels | client/recovery/graphics/gr_drawer.c:54-74 | in RGB 565 each channel holds the top 5, 6 or 5 bits of its component and the pixel fits 16 bits |
| GrPixel.PixelBytes | client/recovery/graphics/gr_drawer.c:135-137 | a pixel is written as `bytes_per_pixel` bytes |
| GrPixel.PixelBytesAreLittleEndian | client/recovery/graphics/gr_drawer.c:135-137 | the bytes are the pixel above its `bits % 8` low bits, least significant byte first |
| GrPixel.PixelBytesRoundTrip | client/recovery/graphics/gr_drawer.c:135-137 | for 8, 16, 24 and 32 bits per pixel the bytes read back little-endian give exactly the pixel's low `bits_per_pixel` bits |
| GrPixel.RepeatAt | client/recovery/graphics/gr_drawer.c:131-137 | in the repeated pattern, byte `x` of pixel `p` is byte `x` of the pattern, inside the filled length |
| GrPixel.PngClipLetsLastRowThrough | client/recovery/graphics/gr_drawer.c:78-98 | as written: on a 1 x 2 screen, drawing at (0, 1) passes the entry check, and the loop writes surface row 1 at pixel index 2, past the screen |
| GrPixel.PngWritesAsWritten | client/recovery/graphics/gr_drawer.c:85-91 | the loop's clipping tests as written: a surface pixel is written unless its row or column index reaches the screen size or, added to the position, exceeds it |
| GrPixel.PngWrites | client/recovery/graphics/gr_drawer.c:85-91 | the clipping tests with `>=` against the screen size, as `outside` uses; what they admit is stated by `PngWritesOnScreen` and `PngWritesIffOnScreen` |
| GrPixel.PngWritesOnScreen | client/recovery/graphics/gr_drawer.c:78-98 | with `>=` in the clipping tests, every pixel written is on screen and its index lies inside the screen |
| GrPixel.PngWritesIffOnScreen | client/recovery/graphics/gr_drawer.c:85-91 | with `>=`, a surface pixel is written iff its screen position passes `outside` |
| Ota.OtaManager.constructor | client/recovery/ota/ota_manager.c:281-300 | the device list starts empty and the manager drives the given mount manager |
| GrDrawer.Drawer.SetColor | client/recovery/graphics/gr_drawer.c:117-124 | the current colour becomes exactly the four given components |
| GrDrawer.Drawer.WritePixel | client/recovery/graphics/gr_drawer.c:133-137 | pixel `pos` gets the bytes of the pixel value; every other byte is unchanged |
| GrDrawer.Drawer.FillScreen | client/recovery/graphics/gr_drawer.c:126-142 | the first `fb_width * fb_height` pixels all hold the bytes of the current colour with alpha 0; the memory after them is unchanged |
| GrDrawer.FillPattern | client/recovery/graphics/gr_drawer.c:129-137 | the fill pattern is one pixel, `bytes_per_pixel` bytes long |
| GrDrawer.FillPixel | client/recovery/graphics/gr_drawer.c:129 | the pixel `make_pixel(r, g, b, 0)` of the current colour, an unsigned 32-bit word |
| GrDrawer.FillFits | client/recovery/graphics/gr_drawer.c:131-137 | the filled pixels fit in framebuffer memory |
| GrBlend.Coverage | client/recovery/graphics/gr_drawer.c:152-155 | the coverage never exceeds the sample or the current alpha, and equals the sample when the alpha is 255 |
| GrBlend.CoverageExtremes | client/recovery/graphics/gr_drawer.c:152-155 | a full sample gives the current alpha; an empty sample or a transparent colour gives 0 |
| GrBlend.BlendByte | client/recovery/graphics/gr_drawer.c:163-170 | a partly covered byte always lies between its old value and the current colour byte, so it fits 0..255 |
| GrBlend.BlendPixel | client/recovery/graphics/gr_drawer.c:157-174 | one pixel of the blend leaves the buffer length unchanged; byte by byte it is stated by `BlendPixelAt` |
| GrBlend.BlendPixelAt | client/recovery/graphics/gr_drawer.c:157-174 | one pixel step: full coverage paints r, g, b; zero coverage skips; partial coverage mixes; byte 3 and every byte outside the pixel are unchanged |
| GrDrawer.Drawer.BlendPixelBytes | client/recovery/graphics/gr_drawer.c:157-174 | the pixel's bytes in memory become `BlendPixel` of the old memory |
| GrBlend.BlendRow | client/recovery/graphics/gr_drawer.c:151-175 | one row of the blend, pixel after pixel, keeps the buffer length; byte by byte it is stated by `BlendRowAt` |
| GrBlend.BlendRowAt | client/recovery/graphics/gr_drawer.c:151-175 | after a row, each byte of pixel `i` is blended with sample `i`; bytes outside the row are unchanged |
| GrDrawer.Drawer.BlendRowPixels | client/recovery/graphics/gr_drawer.c:151-175 | memory after one row of the pixel loop is `BlendRow` of the old memory |
| GrDrawer.Drawer.TextBlend | client/recovery/graphics/gr_drawer.c:144-180 | memory after the blend is `BlendRegion` of the old memory |
| GrBlend.BlendRegion | client/recovery/graphics/gr_drawer.c:147-179 | the whole blend, row after row, keeps the buffer length; byte by byte it is stated by `BlendRegionAt` and `BlendRegionUnchanged` |
| GrBlend.BlendRegionAt | client/recovery/graphics/gr_drawer.c:147-179 | when destination rows do not overlap, byte `c` of pixel `i` in row `j` is blended from its old value with sample `i` of source row `j` |
| GrBlend.BlendRegionUnchanged | client/recovery/graphics/gr_drawer.c:147-179 | a byte in none of the region's rows keeps its old value |
| GrDrawer.GlyphOffsetPrintable | client/recovery/graphics/gr_drawer.c:192-198 | a character has a glyph iff it lies in 32..127, and its glyph is number `c - 32` |
| GrDrawer.GlyphOutsideIff | client/recovery/graphics/gr_drawer.c:194-196 | the bounds test passes iff the whole glyph box is on screen |
| GrDrawer.GlyphSourceFits | client/recovery/graphics/gr_drawer.c:200-201 | a glyph, bold or not, is read inside the texture |
| GrDrawer.GlyphTargetFits | client/recovery/graphics/gr_drawer.c:203-204 | a glyph that passes the bounds test writes its last row inside framebuffer memory |
| GrDrawer.GlyphRegionFits | client/recovery/graphics/gr_drawer.c:200-208 | a glyph that passes the bounds test reads and writes inside both buffers |
| GrDrawer.DrawGlyph | client/recovery/graphics/gr_drawer.c:192-212 | one pass of the glyph loop keeps the framebuffer length: give up when the glyph box is off screen, else blend the glyph if the character has one and advance one cell |
| GrDrawer.DrawGlyphs | client/recovery/graphics/gr_drawer.c:192-213 | the glyph loop over the text keeps the framebuffer length; when it fails and how far it advances is stated by `DrawTextFailsIff` and `FailureSticks` |
| GrDrawer.Drawer.DrawGlyphAt | client/recovery/graphics/gr_drawer.c:192-212 | one pass of the glyph loop leaves memory, `pos_x` and the give-up flag as `DrawGlyph` says |
| GrDrawer.FailureSticks | client/recovery/graphics/gr_drawer.c:194-196 | once a glyph is off screen, later characters change nothing |
| GrDrawer.DrawTextFailsIff | client/recovery/graphics/gr_drawer.c:192-213 | the text fails iff it is non-empty and its last glyph would end past the right edge or the line past the bottom; on success `pos_x` advances one cell per character |
| GrDrawer.Drawer.DrawText | client/recovery/graphics/gr_drawer.c:182-218 | the result is -1 exactly when the glyph loop gave up and 0 otherwise; memory is what `DrawGlyphs` leaves |
| GrFont.Run | client/recovery/graphics/gr_drawer.c:244-245 | a run byte expands to `data & 0x7f` pixels |
| GrFont.Decode | client/recovery/graphics/gr_drawer.c:243-246 | the decoded texture is as long as the sum of the run lengths before the first zero byte |
| GrFont.DecodeOnOff | client/recovery/graphics/gr_drawer.c:244 | every decoded pixel is 0x00 or 0xff |
| GrFont.DecodeStopsAtZero | client/recovery/graphics/gr_drawer.c:243 | decoding stops at the first zero byte: what follows is never read |
| GrFont.DecodeEncode | client/recovery/graphics/gr_drawer.c:243-246 | decoding undoes run-length encoding of any on/off bitmap |
| GrFont.EncodedFontDecodes | client/recovery/graphics/gr_drawer.c:242-246 | a bitmap stored encoded and zero-terminated decodes back to itself |
| GrFont.Memset | client/recovery/graphics/gr_drawer.c:244 | the `n` bytes from `start` become the value; every other byte is unchanged |
| GrFont.WriteRun | client/recovery/graphics/gr_drawer.c:244-245 | after one loop body, the decoded prefix has grown by one run and the bytes after it are unchanged |
| GrFont.DecodeRuns | client/recovery/graphics/gr_drawer.c:238-246 | the texture's first bytes are the decoded runs; the bytes after them are unchanged |
| GrDrawer.Drawer.Init | client/recovery/graphics/gr_drawer.c:220-252 | the geometry comes from the framebuffer, with `bytes_per_pixel = bits_per_pixel / 8`; the colour is white and opaque; the texture holds the decoded font |
| FsFlags.Index | client/recovery/include/block/fs/fs_manager.h:12-21 | every flag number is below 8 |
| FsFlags.Bits | client/recovery/include/block/fs/fs_manager.h:23 | `FS_FLAG_BITS(N)` has exactly one bit set |
| FsFlags.BitsIsShift | client/recovery/include/block/fs/fs_manager.h:23 | `FS_FLAG_BITS(N)` is `1 << FS_FLAG_N` |
| FsFlags.BitsDisjoint | client/recovery/include/block/fs/fs_manager.h:12-23 | distinct members map to distinct bits that do not overlap |
| FsFlags.Set | client/recovery/include/block/fs/fs_manager.h:25 | after `FS_FLAG_SET(fs, N)`, `FS_FLAG_IS_SET(fs, N)` holds |
| FsFlags.SetKeepsOtherFlags | client/recovery/include/block/fs/fs_manager.h:24-25 | setting N leaves `FS_FLAG_IS_SET` of every other member as it was |
| FsFlags.SetKeepsOtherBits | client/recovery/include/block/fs/fs_manager.h:25 | setting N leaves every bit of the word other than bit N as it was |
| FsFlags.SetTwice | client/recovery/include/block/fs/fs_manager.h:25 | setting the same flag twice is setting it once |
| FsFlags.SetWhenSetIsNoop | client/recovery/include/block/fs/fs_manager.h:24-25 | setting a flag that is already set leaves the word unchanged |
| FsFlags.IsSetIsBit | client/recovery/include/block/fs/fs_manager.h:24 | `FS_FLAG_IS_SET(fs, N)` holds iff bit N of the word is 1 |
| FsFlags.IsSet | client/recovery/include/block/fs/fs_manager.h:24 | `FS_FLAG_IS_SET(fs, N)`: the flag word ANDed with `1 << N` is non-zero; `IsSetIsBit` states what that means |
| FsFlags.IsSetDependsOnlyOnBit | client/recovery/include/block/fs/fs_manager.h:24 | two words that agree on bit N agree on `FS_FLAG_IS_SET(_, N)` |
| FsFlags.Filesystem.SetFlag | client/recovery/include/block/fs/fs_manager.h:25 | the word gains bit N, flag N is set, and every other flag keeps its value |
| Jffs2.InitCleanmarker | client/recovery/block/fs/jffs2.c:46-111 | not JFFS2: (0, 8), header untouched; non-NAND: (0, 8) and a whole-node total length; failed OOB query: false; autoplacement: (oobfree[0][0], min(oobfree[0][1], 8)), false when that length is 0; legacy: OOB size 8 gives (6, 2), 16 gives (8, 8), 64 gives (16, 8), any other size (0, 8); NAND total length 8; every success has length at most 8 |
| Jffs2.Jffs2Init | client/recovery/block/fs/jffs2.c:137-141 | the PAD and MARKBAD flags are set, every other flag is unchanged, and the result is true |

## Left out

- Threads, the netlink listener, `start`/`stop`, `load_configure` and the rest of the construct/destruct wiring
  (`ota_manager.c:170-194`, `274-334`); the constructor keeps only the empty list and the mount manager. Hotplug events are a sequential stream of calls to `HandleEvent`.
- Event decoding (`find_param`, `get_action`, `dump`) is foreign code. An event is a value whose attributes are
  optional strings. A missing `DEVNAME`, or a missing `DEVTYPE` on an add or remove of a storage name, would be a
  NULL dereference in C, so those are preconditions.
- `cold_boot`, `dir_delete`, `msleep`, `sync`, the `reboot` system call and the diagnostic `for(;;)` loop are OS
  effects. `recovery_finish` is a decision value.
- Ota.OtaManager.MainTask: the update calls are not calls into a collaborator, so the order of the updates relative
  to the mount and unmount calls is stated only through the ghost `history`, not through the mount manager's log.
- The mount manager's internals (`scan_mounted_volumes`, `mount_volume`, `umount_volume`) are not part of this
  model.
  - Mounts and unmounts succeed or fail nondeterministically.
  - `scan_mounted_volumes` is not modelled: the table persists between calls and changes only through
    `MountVolume` and `UmountVolume`.
  - A failed mount is reported as -1 (any nonzero value fails in the code).
- `update_from_storage` and `update_from_network` are stubs returning 0. Their results are parameters of `MainTask`.
- `is_prefixed_with` is not part of this model; it is taken to be a prefix test.
- `atoi` is modelled as the C library computes it: `(int) strtol(s, NULL, 10)` with a 64-bit `long`.
- The fixed-size name buffers of `struct storage_dev` and the unchecked `strcpy`/`sprintf` into them are not
  modelled. Names are unbounded strings.
- `calloc`/`malloc`/`free` are not modelled. A freshly allocated texture is zero-filled in the model, while C
  leaves its tail uninitialised.
- The `fb_manager` calls (`init`, `deinit`, `display`, `blank`) and the setup and teardown of the global pointers
  are framebuffer device calls. The geometry and channel layout are parameters of `Drawer.Init`.
- GrPixel.MakePixel: `make_pixel` is proved to keep every component in its own channel only for channels that fit
  the word (`FieldInOwnChannel`, `ExtractOwnField`) and for three concrete layouts. Overlapping channels are not
  characterised.
- The pixel loop of `draw_png` (reading the surface, writing bytes) is not modelled as a method. Only its entry
  check and clipping tests are modelled, with the defect listed under Findings.
- GrFont.DecodeRuns: requires the runs to fit the texture and a zero byte to end them. The C loop checks neither.
- GrDrawer.Drawer.Init: requires the decoded runs to fit `font.width * font.height` bytes, for the same reason.
- GrDrawer.Drawer.DrawText: requires the following, which the C code silently assumes:
  - 4 bytes per pixel, because `text_blend` hard-codes 4;
  - a font texture laid out as 96 glyphs side by side, with the bold set below;
  - glyph boxes that do not wrap around 32 bits;
  - text without a zero byte: the string is the characters before its terminator.
- `jffs2_write_cleanmarker`, the `ioctl` itself, `local_crc32`, the `mtd_basic_*` calls and the logging in
  `jffs2.c` are device I/O and an external checksum.
  - The OOB answer and the device type are parameters of `InitCleanmarker`.
  - The header checksum is not modelled.
- Jffs2.InitCleanmarker: on failure the C code does not write `*pos`/`*len`, and the model reports (0, 0).
- `ubifs.c` delegates every operation to `mtd_basic_*`. `minizip.h` only declares `unzip`. The other functions
  declared in `fs_manager.h` have no bodies here.

## Findings

| source | as written | input that shows it | evidently intended | confidence | as-written member | corrected member |
|---|---|---|---|---|---|---|
| client/recovery/graphics/gr_drawer.c:85-91 | `draw_png` stops at `i + pos_y > fb_height` and `j + pos_x > fb_width` | 1 x 2 screen, 1 x 2 surface drawn at (0, 1): the entry check passes, and surface row 1 is written at pixel index 2, one past the screen | `>=` in both tests, so that only on-screen pixels are written | not executed | GrPixel.PngClipLetsLastRowThrough | GrPixel.PngWritesOnScreen |
