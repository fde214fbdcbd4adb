# Ceph RBD driver helpers

A Dafny model of the helpers of the Ceph RBD storage driver
(`internal/server/storage/drivers/driver_ceph_utils.go`). The driver keeps every storage
volume as an RBD image in one OSD pool, and these helpers do four things:

- **Names.** They encode a volume as an image name, `[zombie_]<type>_<name>[_<fs>][.block|.iso][@<snap>]`,
  and decode the `pool/image@snap` strings that `rbd info` and `rbd children` print back into
  volumes (`parseParent`, `parseClone`, `getRBDVolumeName`). The encoder itself,
  `CephGetRBDImageName`, is not part of this model. `Naming.ImageName` is the model's own
  encoder, written in the shape the decoder expects. It puts the filesystem token before
  `.block`, because `parseParent` strips `.block` first and only then splits off the last `_`
  token. The round-trip lemmas are stated against this encoder.
- **Exit codes.** They interpret the exit codes of `rbd` commands: `unmap` retries on
  EBUSY (16) with a busy counter, and `unmap` of a snapshot does not; protect accepts EBUSY,
  unprotect accepts EINVAL (22), and the pool probe reads ENOENT (2) as "absent". A command's
  behaviour is a script of outcomes, and a run consumes it from the front.
- **Command output.** They parse command output (`rbd children`, `rbd snap ls`, `rbd info`,
  `rbd map`). They also look for an existing mapping among the `/sys/devices/rbd` entries, taken
  here as an input list.
- **Deletion.** They delete an image or snapshot that other images may still be cloned
  from (`deleteVolume`, `deleteVolumeSnapshot`). What cannot go yet is renamed to a zombie
  (`zombie_…`); it is removed when the last clone depending on it goes. The pool is a
  `Deletion.Cluster` whose images are a map, and every `rbd` command is a method of the class.
  The two procedures are mutually recursive methods with a fuel bound, and they return the
  code's -1/0/1 results.

The model follows the code in the places where it differs from what the code's own comments
and names promise:

- The comment above `deleteVolumeSnapshot` (lines 767-770) says it returns 1 "if the RBD storage
  volume has been marked as a zombie". The code returns 1 whenever the snapshot had clones, even
  when they were all zombies and were deleted, so the snapshot went too
  (`Deletion.Cluster.DeleteSnapshot`: 1 exactly when the clone set was non-empty).
- The cascade from a snapshot back to a zombie image calls `deleteVolume` again. That call
  re-lists the image's snapshots. On a zombie image with two clone-free snapshots, that inner
  call deletes the other snapshot and the image, so the outer loop's next snapshot is gone
  and it returns -1. The model has the same control flow. `DeleteSnapshot`'s contract states
  the step this rests on: a missing snapshot gives -1 and leaves the pool unchanged.
- `receiveVolume` reports the copy goroutine's error only when `rbd import-diff` itself failed.
  A copy error after a successful import is dropped (`Commands.CopyErrorIgnored`).
- `rbdGetVolumeParent` takes the text after `parent: ` up to the next newline, after trimming
  the whole output. A parent on the last line therefore has no newline after it and is a parse
  error (`Listing.ParentOnLastLine`).
- `parseClone` keeps the type as raw text. `deleteVolumeSnapshot` turns it into a volume of
  that literal type with the parent's content type. So a clone of a block image, encoded
  again, gets a second `.block` (`NameCodec.CloneReencoding`).

## Model

| member | source | states |
|---|---|---|
| Naming.ImageName | internal/server/storage/drivers/driver_ceph_utils.go:1175-1176 | the image name of a deleted volume starts with `zombie_`; that of a live volume of a known type does not |
| Naming.RBDVolumeName | internal/server/storage/drivers/driver_ceph_utils.go:1175-1185 | without the pool flag the result is the image name; with it (and no `/` in the pool), splitting at the first `/` gives back exactly the pool and the image name |
| Naming.SplitSnapshot | internal/server/storage/drivers/driver_ceph_utils.go:898-908 | the snapshot is the text after the last `@` (empty without one) and contains no `@`; name and snapshot re-join to the input |
| Naming.DecodeContent | internal/server/storage/drivers/driver_ceph_utils.go:913-964 | block exactly when the name ends in `.block`; ISO exactly for custom volumes ending in `.iso` and not `.block`; the stripped name plus the suffix is the input |
| Naming.DecodeFilesystem | internal/server/storage/drivers/driver_ceph_utils.go:921-930 | a filesystem is split off exactly for images with a `_` left; it is the last `_`-token and name + `_` + filesystem is the input |
| Naming.AfterTag | internal/server/storage/drivers/driver_ceph_utils.go:895-911 | the text after the (optional `zombie_`) type prefix, such that prefix + result is the input |
| Naming.DecodeName | internal/server/storage/drivers/driver_ceph_utils.go:910-932 | ISO only for custom volumes, a filesystem only for images; the pieces re-join to the input |
| Naming.DecodeTyped | internal/server/storage/drivers/driver_ceph_utils.go:895-934 | the decoded volume has the given pool and type, is deleted exactly when the name starts with `zombie_`, and its pieces (zombie prefix, type prefix, name, `_<fs>` token, content suffix) re-join to the text before `@`; this is a reassembly, not `Naming.ImageName`, which adds a filesystem token of its own for images |
| Naming.ParseParent | internal/server/storage/drivers/driver_ceph_utils.go:882-1033 | no `/` is an error; a remainder with no known type prefix is an error; on success the pool is the text before the first `/` and the volume is decoded from the rest |
| Naming.TagIndex | internal/server/storage/drivers/driver_ceph_utils.go:895-911 | the type prefix is found at 0, or right after `zombie_` when the name has that prefix |
| Naming.ParseClone | internal/server/storage/drivers/driver_ceph_utils.go:1040-1062 | error exactly when there is no `/`, or no `_` after stripping one `zombie_`; otherwise pool, type (before the first `_`), name (the rest) and the zombie flag re-join to the input |
| Naming.CloneVolume | internal/server/storage/drivers/driver_ceph_utils.go:820-821 | the clone volume has the clone's literal type and name, the parent's content type, no filesystem, and the zombie flag |
| Naming.RenamedVolume | internal/server/storage/drivers/driver_ceph_utils.go:448-466 | the renamed volume keeps type, content and filesystem, takes the new name and is live, as every volume `NewVolume` builds |
| Naming.ZombieVolume | internal/server/storage/drivers/driver_ceph_utils.go:421-441 | the zombie is the renamed volume with the zombie flag set |
| NameCodec.ParentRoundTrip | internal/server/storage/drivers/driver_ceph_utils.go:882-1033 | `parseParent` of `pool/` + an encoded name gives back the volume (pool, type, name, content, zombie flag, filesystem for images) and the snapshot |
| NameCodec.EncodedShape | internal/server/storage/drivers/driver_ceph_utils.go:890-908 | an encoded name starts with its type prefix, is a zombie name exactly for deleted volumes, and splits at `@` into core and snapshot |
| NameCodec.DecodeNameOf | internal/server/storage/drivers/driver_ceph_utils.go:910-932 | decoding the core of an encoded name gives back name, content type and filesystem |
| NameCodec.DecodeContentOf | internal/server/storage/drivers/driver_ceph_utils.go:913-964 | stripping the content suffix undoes adding it |
| NameCodec.DecodeFilesystemOf | internal/server/storage/drivers/driver_ceph_utils.go:921-930 | splitting off the filesystem undoes appending `_<fs>` for images and does nothing for other types |
| NameCodec.TagsExclusive | internal/server/storage/drivers/driver_ceph_utils.go:894-1030 | a name starts with at most one of the four type prefixes, so the decoder's branches never overlap |
| NameCodec.CloneOfImageName | internal/server/storage/drivers/driver_ceph_utils.go:1040-1062 | `parseClone` of an encoded image name gives the pool, the type prefix, the rest of the name and the zombie flag |
| NameCodec.CloneReencoding | internal/server/storage/drivers/driver_ceph_utils.go:809-823 | re-encoding the volume built from a parsed clone name gives back the clone's image name followed by one more content suffix |
| NameCodec.MarkDeletedDecodes | internal/server/storage/drivers/driver_ceph_utils.go:421-441 | the target of `rbdMarkVolumeDeleted` decodes to the renamed volume as a zombie |
| NameCodec.RenameDecodes | internal/server/storage/drivers/driver_ceph_utils.go:448-466 | the target of `rbdRenameVolume` decodes to the renamed volume, which is live |
| ExitCodes.UnmapVolume | internal/server/storage/drivers/driver_ceph_utils.go:192-245 | the retry loop's result is the unmap run of the outcome script, using at most the script's outcomes |
| ExitCodes.BusyLimit | internal/server/storage/drivers/driver_ceph_utils.go:206-234 | nine EBUSY then EINVAL succeeds; ten EBUSY in a row fail with EBUSY |
| ExitCodes.BusyNeverReset | internal/server/storage/drivers/driver_ceph_utils.go:193-240 | in until-EINVAL mode, successes between two runs of EBUSY do not reset the busy count: the run fails exactly when the EBUSY total reaches ten |
| ExitCodes.UnmapAll | internal/server/storage/drivers/driver_ceph_utils.go:237-244 | in until-EINVAL mode, any number of successes followed by EINVAL pass; otherwise one success passes |
| ExitCodes.OtherCodesFail | internal/server/storage/drivers/driver_ceph_utils.go:206-234 | any exit code other than EBUSY and EINVAL fails at once with that code |
| ExitCodes.UnmapVolumeSnapshot | internal/server/storage/drivers/driver_ceph_utils.go:249-278 | the loop's result is the snapshot unmap run of the script, using at most the script's outcomes |
| ExitCodes.SnapshotBusyNotRetried | internal/server/storage/drivers/driver_ceph_utils.go:249-278 | a snapshot unmap fails on the first EBUSY, where a volume unmap would retry |
| ExitCodes.SnapUnmapAll | internal/server/storage/drivers/driver_ceph_utils.go:258-277 | successes followed by EINVAL pass in until-EINVAL mode |
| ExitCodes.ProtectResult | internal/server/storage/drivers/driver_ceph_utils.go:300-326 | success exactly on exit 0 or EBUSY; any other outcome fails with that outcome |
| ExitCodes.UnprotectResult | internal/server/storage/drivers/driver_ceph_utils.go:331-357 | success exactly on exit 0 or EINVAL; any other outcome fails with that outcome |
| ExitCodes.ProtectUnprotectAsymmetry | internal/server/storage/drivers/driver_ceph_utils.go:315-349 | EBUSY passes for protect but fails for unprotect; EINVAL the other way round |
| ExitCodes.PoolExists | internal/server/storage/drivers/driver_ceph_utils.go:63-76 | true exactly on success, false exactly on ENOENT, an error carrying the outcome otherwise |
| ExitCodes.PlainResult | internal/server/storage/drivers/driver_ceph_utils.go:154-160 | a plain `rbd` command passes exactly on exit 0 and otherwise fails with its outcome |
| Listing.SnapshotClones | internal/server/storage/drivers/driver_ceph_utils.go:392-412 | a command error is passed on; blank output is NotFound, and only blank output is; otherwise exactly `strings.Fields` of the output (trimming first changes nothing), each word non-empty and free of whitespace |
| Listing.FieldsOfSpace | internal/server/storage/drivers/driver_ceph_utils.go:405-406 | white space in front of the text adds no clone name |
| Listing.FieldsOfSeparated | internal/server/storage/drivers/driver_ceph_utils.go:405-406 | a word followed by any non-empty run of white space is the first clone name, and the rest of the text gives the others; with `FieldsOfSpace` and the blank case this fixes the result on every output |
| Listing.TrimSpaceKeepsFields | internal/server/storage/drivers/driver_ceph_utils.go:405 | trimming the output before splitting it changes no name |
| Listing.ClonesOfLines | internal/server/storage/drivers/driver_ceph_utils.go:405-411 | one clone per output line is read back as the same list |
| Listing.SnapshotNames | internal/server/storage/drivers/driver_ceph_utils.go:573-587 | on success one name per record; a failure is the missing-name or the not-a-string error |
| Listing.NamesOfListing | internal/server/storage/drivers/driver_ceph_utils.go:573-587 | when the names are read, every record had a string `name`, and the names are the trimmed ones in record order |
| Listing.NamesOfGoodRecords | internal/server/storage/drivers/driver_ceph_utils.go:573-587 | when every record has a string `name`, reading succeeds with their trimmed names in order |
| Listing.FirstBadRecord | internal/server/storage/drivers/driver_ceph_utils.go:574-583 | the error reported is that of the first record without a string name |
| Listing.VolumeSnapshots | internal/server/storage/drivers/driver_ceph_utils.go:553-594 | a command error is passed on; an empty list is NotFound; otherwise the names of the records |
| Listing.ListVolumeSnapshots | internal/server/storage/drivers/driver_ceph_utils.go:553-594 | the append loop computes the snapshot listing |
| Listing.VolumeParent | internal/server/storage/drivers/driver_ceph_utils.go:497-526 | a command error is passed on; NotFound exactly when `parent: ` does not occur; a parent found has no newline and no surrounding whitespace |
| Listing.ParentOfInfo | internal/server/storage/drivers/driver_ceph_utils.go:509-525 | the parent is the word after the first `parent: ` when another non-blank line follows it |
| Listing.ParentOnLastLine | internal/server/storage/drivers/driver_ceph_utils.go:509-525 | a parent on the output's last line is a parse error |
| Listing.MapDevicePath | internal/server/storage/drivers/driver_ceph_utils.go:166-188 | a command error is passed on; no device path exactly when `/dev/rbd` does not occur; a path found starts with `/dev/rbd` |
| Listing.DeviceOfMap | internal/server/storage/drivers/driver_ceph_utils.go:179-184 | the device on `rbd map`'s output line is what is returned |
| Devices.NameParts | internal/server/storage/drivers/driver_ceph_utils.go:1117-1118 | the RBD name splits at the first `@` into image and snapshot, and re-joins to the input |
| Devices.EntryVerdict | internal/server/storage/drivers/driver_ceph_utils.go:1083-1086 | a match carries the device number parsed from the entry's name |
| Devices.VerdictOf | internal/server/storage/drivers/driver_ceph_utils.go:1075-1143 | an entry matches exactly when it is a numbered directory whose `pool` and `name` files show the pool and image and whose `current_snap` is readable (or missing) and fits the snapshot; it aborts exactly when, checking `pool`, then `name`, then `current_snap` in that order, a read fails before a mismatch skips it, and the abort carries the error of the first failing read |
| Devices.FirstDecision | internal/server/storage/drivers/driver_ceph_utils.go:1073-1144 | nothing is decided exactly when every entry is skipped |
| Devices.DecidedAt | internal/server/storage/drivers/driver_ceph_utils.go:1073-1144 | the first entry that is not skipped decides the search |
| Devices.DevicePath | internal/server/storage/drivers/driver_ceph_utils.go:1136-1140 | the device path is `/dev/rbd` followed by the index, which parses back |
| Devices.MappedDevPath | internal/server/storage/drivers/driver_ceph_utils.go:1066-1157 | a directory error is passed on; a path returned starts with `/dev/rbd`; a newly mapped one comes from `rbd map` and only when mapping is allowed; without the sysfs directory the result is the map result or NotMapped |
| Devices.FoundIsFirstMatch | internal/server/storage/drivers/driver_ceph_utils.go:1073-1144 | an existing device returned is the first matching entry, and every earlier entry is skipped |
| Devices.NoMatchFallsBack | internal/server/storage/drivers/driver_ceph_utils.go:1146-1157 | when every entry is skipped, the result is `rbd map`'s device when mapping is allowed and NotMapped otherwise |
| Devices.FirstAbortFails | internal/server/storage/drivers/driver_ceph_utils.go:1089-1129 | when the first device directory that is not passed over has a file that cannot be read (other than a missing one), the lookup fails with that read error, whether or not mapping is allowed |
| Devices.MappedOnlyWhenAllSkipped | internal/server/storage/drivers/driver_ceph_utils.go:1146-1157 | the image is mapped only when the sysfs directory was read and every device directory in it was passed over |
| Devices.FirstMatchIsFound | internal/server/storage/drivers/driver_ceph_utils.go:1073-1144 | when entry k matches and all earlier ones are skipped, its device is returned, unmapped-flag false |
| Devices.CheckEntry | internal/server/storage/drivers/driver_ceph_utils.go:1075-1143 | the loop body's early returns compute the entry's verdict |
| Devices.ScanEntries | internal/server/storage/drivers/driver_ceph_utils.go:1073-1144 | the early-return loop computes the first decision over the entries |
| Devices.GetMappedDevPath | internal/server/storage/drivers/driver_ceph_utils.go:1066-1157 | the method computes the mapped-device lookup |
| Commands.Features | internal/server/storage/drivers/driver_ceph_utils.go:122-128 | no configured features means `layering`; the list is never empty |
| Commands.CreateArgs | internal/server/storage/drivers/driver_ceph_utils.go:110-141 | `rbd create` ends with `create` and the image name |
| Commands.CreateFeatures | internal/server/storage/drivers/driver_ceph_utils.go:122-128 | the `--image-feature` values passed are exactly the configured features, or `layering` |
| Commands.CreateDataPool | internal/server/storage/drivers/driver_ceph_utils.go:130-132 | `--data-pool` is passed exactly when a data pool is configured |
| Commands.CloneArgs | internal/server/storage/drivers/driver_ceph_utils.go:360-389 | `rbd clone` ends with the pool-qualified source snapshot and target image |
| Commands.CloneNamesDecode | internal/server/storage/drivers/driver_ceph_utils.go:360-389 | both clone arguments decode back to the source volume with its snapshot and to the target volume |
| Commands.ResizeArgs | internal/server/storage/drivers/driver_ceph_utils.go:1316-1337 | `rbd resize` starts with `resize` and ends with the image name |
| Commands.ResizeShrink | internal/server/storage/drivers/driver_ceph_utils.go:1321-1323 | `--allow-shrink` is passed exactly when shrinking is allowed |
| Commands.ExportArgs | internal/server/storage/drivers/driver_ceph_utils.go:1206-1221 | `rbd export-diff` starts with `export-diff` and writes to `-` |
| Commands.ExportFromSnap | internal/server/storage/drivers/driver_ceph_utils.go:1214-1218 | `--from-snap` is passed, with the parent snapshot, exactly when a parent is named |
| Commands.ImportArgs | internal/server/storage/drivers/driver_ceph_utils.go:1257-1264 | `rbd import-diff` reads `-` into the named image |
| Commands.ImportErrors | internal/server/storage/drivers/driver_ceph_utils.go:1296-1306 | no errors when the import exited cleanly; otherwise its error first, then the copy error if there is one |
| Commands.ReceiveResult | internal/server/storage/drivers/driver_ceph_utils.go:1296-1310 | fails exactly when the import failed, with the collected errors and stderr |
| Commands.CopyErrorIgnored | internal/server/storage/drivers/driver_ceph_utils.go:1299-1310 | a copy error alone does not fail the receive |
| Deletion.Cluster.SnapListing | internal/server/storage/drivers/driver_ceph_utils.go:553-565 | `rbd snap ls` fails with ENOENT exactly for a missing image, and otherwise lists one record per snapshot |
| Deletion.Cluster.ListChildren | internal/server/storage/drivers/driver_ceph_utils.go:392-404 | `rbd children` fails with ENOENT for a missing snapshot; otherwise it prints one `<pool>/<image>` line per clone, each clone once, in some order, so the output is blank exactly when there are none |
| Deletion.Cluster.Info | internal/server/storage/drivers/driver_ceph_utils.go:497-507 | `rbd info` fails with ENOENT exactly for a missing image; otherwise it prints a header, with no `parent:` line for an image that is not a clone, and any `parent:` line names an image and snapshot the image was cloned from |
| Deletion.Cluster.UnprotectSnapshot | internal/server/storage/drivers/driver_ceph_utils.go:331-357 | the result is the unprotect reading of the backend's exit status; the snapshot is unprotected only on exit 0; live data is kept |
| Deletion.Cluster.UnmapImage | internal/server/storage/drivers/driver_ceph_utils.go:192-245 | the retry loop runs over the image's mappings and then EINVAL; the image ends up unmapped |
| Deletion.Cluster.UnmapSnapshot | internal/server/storage/drivers/driver_ceph_utils.go:249-278 | the same for a snapshot's mappings; nothing else changes |
| Deletion.Cluster.RemoveImage | internal/server/storage/drivers/driver_ceph_utils.go:148-161 | `rbd rm` exits 0 for a missing image, fails with ENOTEMPTY or EBUSY for an image with snapshots or mappings, and otherwise removes it |
| Deletion.Cluster.RemoveSnapshot | internal/server/storage/drivers/driver_ceph_utils.go:531-545 | `rbd snap rm` removes the snapshot exactly when it exists, is unprotected and has no clones; afterwards no snapshot of that name is left on the image, and snapshot names stay unique per image |
| Deletion.Cluster.Move | internal/server/storage/drivers/driver_ceph_utils.go:428-438 | `rbd mv` renames an image that exists to a name that is free, and otherwise changes nothing |
| Deletion.Cluster.MarkVolumeDeleted | internal/server/storage/drivers/driver_ceph_utils.go:421-441 | moves the volume's image to the zombie name of the renamed volume; no live image is lost or created |
| Deletion.Cluster.RenameVolume | internal/server/storage/drivers/driver_ceph_utils.go:448-466 | moves the volume's image to the name of the renamed volume |
| Deletion.Cluster.RenameSnapshot | internal/server/storage/drivers/driver_ceph_utils.go:474-488 | `rbd snap rename` renames an existing snapshot to a free name and otherwise changes nothing; on success the old name is gone and the new one is there, and no other snapshot name appears |
| Deletion.Cluster.DeleteVolume | internal/server/storage/drivers/driver_ceph_utils.go:662-753 | returns -1 exactly with an error, 0 only once the image is gone, 1 only for an image with snapshots, and then a live image has been moved to a fresh zombie name; a missing image is -1 with nothing changed; no live image other than the volume's own is lost, and none is created; a zombie volume's image that is kept with code 1, if still there, is unmapped; for a zombie volume the pool only shrinks: no image is added or moved, and no snapshot appears except under a fresh zombie name |
| Deletion.Cluster.DeleteListed | internal/server/storage/drivers/driver_ceph_utils.go:663-699 | the snapshot loop: 0 when the image is then removed; 1 when some snapshot had clones, and then a live volume has been moved to a fresh zombie name, while a zombie volume's image, if still there, is left in place unmapped; for a zombie volume the pool only shrinks |
| Deletion.Cluster.Zombify | internal/server/storage/drivers/driver_ceph_utils.go:675-692 | the image is unmapped and, unless already a zombie, moved to `<name>_<uuid>` as a zombie; returns 1; for an image that is already a zombie the new pool is exactly the old one with that image unmapped, and no uuid is drawn |
| Deletion.Cluster.DeleteUnlisted | internal/server/storage/drivers/driver_ceph_utils.go:700-749 | an image without snapshots is unmapped and removed, returning 0 or -1; the parent it cascades to is the one `rbd info` named; with no parent, or a live parent, exactly that image is gone and nothing else changes; with a zombie parent the parent snapshot is gone too, unless its name is itself a zombie name; no snapshot appears except under a fresh zombie name |
| Deletion.Cluster.UnmapAndRemove | internal/server/storage/drivers/driver_ceph_utils.go:738-748 | unmap then `rbd rm`; on success exactly that image is gone and nothing else changes |
| Deletion.Cluster.DeleteSnapshot | internal/server/storage/drivers/driver_ceph_utils.go:772-877 | returns -1 exactly with an error; a missing snapshot is -1 with nothing changed; 0 exactly for a snapshot without clones, and then the snapshot is gone (its name can only come back as a fresh `zombie_snapshot_<uuid>`); 1 for a snapshot that had clones, even when they were all zombies and the snapshot went too, and then a snapshot with a non-zombie name is no longer there under that name; when code 0 deletes the only snapshot of a zombie image, that image is gone too; no image is added or moved, no snapshot appears except under a fresh zombie name, and no live data besides the snapshot is lost |
| Deletion.Cluster.Purge | internal/server/storage/drivers/driver_ceph_utils.go:779-805 | unprotect, unmap and delete the snapshot, then delete a zombie image; on success the snapshot existed and is gone (unless a fresh zombie name coincides with it), and a zombie image whose only snapshot it was is gone too; live data besides the snapshot is kept |
| Deletion.Cluster.DropSnapshot | internal/server/storage/drivers/driver_ceph_utils.go:779-795 | unprotect, unmap and `snap rm`; on success the new pool is the old one without exactly that snapshot; the set of images does not change and no snapshot name appears |
| Deletion.Cluster.MarkSnapshotDeleted | internal/server/storage/drivers/driver_ceph_utils.go:864-873 | unmap and rename the snapshot to `zombie_snapshot_<uuid>`, drawing one fresh uuid; on success the new pool is the old one with exactly that snapshot renamed and unmapped, and the old name is gone |
| Deletion.UnmapSucceeds | internal/server/storage/drivers/driver_ceph_utils.go:237-240 | the backend's unmap script, one success per mapping then EINVAL, always passes |
| Deletion.WithoutSnapKeeps | internal/server/storage/drivers/driver_ceph_utils.go:531-545 | deleting one snapshot keeps every other image and snapshot |
| Deletion.WithoutSnapUnique | internal/server/storage/drivers/driver_ceph_utils.go:531-545 | removing a snapshot keeps snapshot names unique and leaves no snapshot of that name on the image |
| Deletion.ShrunkTrans | internal/server/storage/drivers/driver_ceph_utils.go:772-877 | steps that only remove images and snapshots, or rename snapshots to fresh zombie names, compose across the recursion |
| Deletion.MovedKeeps | internal/server/storage/drivers/driver_ceph_utils.go:421-441 | moving an image to a zombie name keeps every other image and creates no live one |

## Left out

- Running processes: `subprocess.RunCommand` and `exec.Command` are replaced by a scripted outcome
  for the exit-code helpers and by the methods of `Deletion.Cluster` for the deletion code.
- The streaming in `sendVolume`, `receiveVolume` and `copyWithSnapshots` (pipes, the goroutine and
  channel, progress tracking) is I/O and concurrency. Only their argument lists and the
  receive error merge are modelled. `copyWithSnapshots` builds the same `export-diff` and
  `import-diff` lists that `Commands.ExportArgs` and `Commands.ImportArgs` describe.
- `time.Sleep` between unmap retries and all logging are left out; they change no result.
- `json.Unmarshal` of `rbd snap ls --format json` is not modelled. Its output is an input list of
  records, and each record keeps only its `name` property, the one property the driver reads
  (`Listing.SnapRecord`).
- The reads of `/sys/devices/rbd` are an input list of entries with their file contents or read
  errors (`Devices.DeviceDir`).
- `Deletion.Cluster.Valid`: the cluster is taken to keep snapshot names unique per image, as
  `rbd` does; every command requires and preserves it.
- The backend's unmap never fails: `Deletion.UnmapScript` is one success per mapping and then
  EINVAL, and `Deletion.UnmapSucceeds` proves that every unmap passes. So the unmap-failure
  branches of `Zombify`, `UnmapAndRemove`, `DropSnapshot` and `MarkSnapshotDeleted` are
  modelled but cannot be reached, and EBUSY from an unmap is only studied in `ExitCodes`.
- `ExitCodes.UnmapVolume`: a script that runs out before the loop stops gives `ScriptExhausted`.
  The source's `goto again` loop (lines 198-239) would keep running the command instead. The
  same holds for `ExitCodes.UnmapVolumeSnapshot` and its loop (lines 256-277).
- `Deletion.Cluster.DeleteSnapshot`: for code 0, a snapshot whose name is itself a fresh
  `zombie_snapshot_<uuid>` may be there again under that name if a later identifier coincides
  with it, because identifiers are not assumed distinct. For code 1 it states only that a
  snapshot with a non-zombie name is gone. Whether it was removed or renamed is stated by
  `DropSnapshot` and `MarkSnapshotDeleted`.
- DeleteListed: for a zombie volume with code 1 it is not stated that the image is still there.
  The snapshot loop can cascade through a zombie clone back to this image and remove it (a
  clone's deletion deletes its zombie parent snapshot, and then the zombie image once it has no
  snapshots left). Ruling that out would need reasoning about the clone graph.
  `Deletion.Cluster.Zombify` states the final step exactly.
- `Deletion.Cluster.DeleteVolume`: it is not stated end to end that a live clone keeps its
  parent from being removed. This shows only step by step: `RemoveSnapshot` refuses a snapshot
  with clones, and `RemoveImage` refuses an image with snapshots.
- `uuid.New` is a function `uuid: nat -> string` of the cluster, and `issued` counts the names
  drawn. Nothing states that the names are distinct.
- `Deletion.Cluster.DeleteVolume`: recursion through clones is bounded by a `fuel` argument. Running
  out gives -1 with `OutOfFuel`. No lemma states that fuel at least the clone depth suffices,
  because acyclicity of the clone graph is not modelled.
- The backend's own behaviour is a modelling choice, not taken from the source:
  - `rbd rm` of a missing image exits 0, as the comment at lines 143-147 says.
  - No command but unmap ever returns EBUSY because of activity elsewhere.
  - `rbd children` lists clones in an arbitrary order.
- `CephGetRBDImageName`, `units.ParseByteSizeString`, `util.SplitNTrimSpace`, `NewVolume` and
  `response.IsNotFoundError` are not part of this model. The model uses its own
  `Naming.ImageName`, sizes as integers, `Commands.SplitTrim`, a `Volume` datatype and the
  `NotFound` error. `NewVolume` builds a live volume, and so does the model
  (`Naming.RenamedVolume`). `Naming.CloneVolume` takes the clone's zombie flag, because the
  source sets `isDeleted` right after `NewVolume` (line 821).
- `Commands.SplitTrim`: the last argument of `util.SplitNTrimSpace` (`true` at lines 123 and
  367) is not modelled. A `ceph.rbd.features` value of only spaces therefore gives one empty
  feature, `--image-feature ""`, in the model.
- `osdDeletePool` (86-102), `rbdCreateVolumeSnapshot` (281-296), `rbdProtectVolumeSnapshot`'s
  command line, `generateUUID` (1160-1173) and `regenerateFilesystemUUID` are not modelled. They
  only run a command, and their results are read as in `ExitCodes.PlainResult` and
  `ExitCodes.ProtectResult`.
- `Deletion.Cluster.DeleteVolume`, re-list quirk: the -1 that the second snapshot of a zombie image
  gets after the cascade has deleted it is described above. It is not proved as a concrete
  scenario.
