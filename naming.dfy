/** The naming scheme that flattens an Incus volume into an RBD image name:
    `[pool/][zombie_]<type>_<name>[_<filesystem>][.block|.iso][@<snapshot>]`,
    the decoders `parseParent` and `parseClone`, and `getRBDVolumeName`. */
module Naming {
  import opened Outcomes
  import opened Strings

  /** Incus volume types. `Named` is a type made from an arbitrary string, as Go's
      `VolumeType(cloneType)` conversion does: `VolumeType("container")` is not the
      container type, and the encoder uses its text as the prefix. */
  datatype VolumeType = Container | VirtualMachine | Image | Custom | Named(text: string)

  datatype ContentType = Filesystem | Block | ISO

  /** The fields of Go's `Volume` that the Ceph helpers read. `filesystem` is the
      `block.filesystem` config key; a snapshot volume is named `<parent>/<snapshot>`. */
  datatype Volume = Volume(
    pool: string,
    volType: VolumeType,
    contentType: ContentType,
    name: string,
    filesystem: Option<string>,
    isDeleted: bool)
  {
    predicate IsSnapshot() { '/' in name }
  }

  const ZombiePrefix: string := "zombie_"
  const BlockSuffix: string := ".block"
  const IsoSuffix: string := ".iso"
  const DefaultFilesystem: string := "ext4"

  const PoolDelimiterMissing: Error := Malformed("Pool delimiter not found")
  const UnrecognizedParent: Error := Malformed("Unrecognized parent")
  const CloneParseError: Error := Malformed("Unexpected parsing error")

  predicate IsZombieName(imageName: string)
  {
    HasPrefix(imageName, ZombiePrefix)
  }

  /** The storage-volume prefix of a type (`cephVolTypePrefixes`, or the type's own text). */
  function TypePrefix(t: VolumeType): string
  {
    match t
    case Container => "container"
    case VirtualMachine => "virtual-machine"
    case Image => "image"
    case Custom => "custom"
    case Named(text) => text
  }

  predicate KnownType(t: VolumeType)
  {
    t.Container? || t.VirtualMachine? || t.Image? || t.Custom?
  }

  function ContentSuffix(c: ContentType): string
  {
    match c
    case Filesystem => ""
    case Block => BlockSuffix
    case ISO => IsoSuffix
  }

  /** The filesystem an image volume's name carries: its `block.filesystem`, or the default. */
  function EffectiveFilesystem(vol: Volume): (fs: string)
    ensures fs != ""
  {
    if vol.filesystem.Some? && vol.filesystem.value != "" then vol.filesystem.value else DefaultFilesystem
  }

  function ZombiePart(deleted: bool): string
  {
    if deleted then ZombiePrefix else ""
  }

  /** The volume's own name, without the snapshot part of `<parent>/<snapshot>`. */
  function BaseName(vol: Volume): string
  {
    if vol.IsSnapshot() then SplitFirst(vol.name, '/').value.0 else vol.name
  }

  /** The filesystem token images carry: `_<filesystem>`. */
  function FsToken(vol: Volume): string
  {
    if vol.volType == Image then "_" + EffectiveFilesystem(vol) else ""
  }

  /** `@<snapName>`, or for an unnamed snapshot of a `<parent>/<snap>` volume `@snapshot_<snap>`. */
  function SnapshotPart(vol: Volume, snapName: string): string
  {
    if snapName != "" then "@" + snapName
    else if vol.IsSnapshot() then "@snapshot_" + SplitFirst(vol.name, '/').value.1
    else ""
  }

  /** The name of the image a volume is stored in, with an optional snapshot part.
      `CephGetRBDImageName` is not part of this model; this is the encoder this model
      uses in its place: the filesystem token (images only) precedes the content suffix,
      an unnamed snapshot of a `<parent>/<snap>` volume is written `@snapshot_<snap>`,
      and a zombie gets the `zombie_` prefix. */
  function ImageName(vol: Volume, snapName: string): (r: string)
    ensures vol.isDeleted ==> IsZombieName(r)
    ensures !vol.isDeleted && KnownType(vol.volType) ==> !IsZombieName(r)
  {
    var head := ZombiePart(vol.isDeleted) + Tag(vol.volType);
    var r := head + BaseName(vol) + FsToken(vol) + ContentSuffix(vol.contentType) + SnapshotPart(vol, snapName);
    assert r[..|head|] == head;
    assert !vol.isDeleted && KnownType(vol.volType) ==> r[0] == Tag(vol.volType)[0] != 'z' && !IsZombieName(r);
    r
  }

  /** `getRBDVolumeName`: the image name, prefixed with the driver's OSD pool when asked. */
  function RBDVolumeName(osdPool: string, vol: Volume, snapName: string, withPoolName: bool): (r: string)
    ensures !withPoolName ==> r == ImageName(vol, snapName)
    ensures withPoolName && '/' !in osdPool ==> SplitFirst(r, '/') == Some((osdPool, ImageName(vol, snapName)))
  {
    var n := ImageName(vol, snapName);
    if !withPoolName then n
    else
      assert '/' !in osdPool ==> SplitFirst(osdPool + "/" + n, '/') == Some((osdPool, n)) by {
        if '/' !in osdPool {
          SplitFirstOf(osdPool, '/', n);
        }
      }
      osdPool + "/" + n
  }

  /** The text `parseParent` looks for: `<type>_`. */
  function Tag(t: VolumeType): string
  {
    TypePrefix(t) + "_"
  }

  predicate StartsWithType(rest: string, t: VolumeType)
  {
    HasPrefix(rest, Tag(t)) || HasPrefix(rest, ZombiePrefix + Tag(t))
  }

  /** The filesystem token `_<fs>` of a decoded image name, if it has one. */
  function FsPart(vol: Volume): string
  {
    if vol.filesystem.Some? then "_" + vol.filesystem.value else ""
  }

  /** `strings.SplitN(s, sep, 2)[1]` where `sep` is known to occur in `s`. */
  function AfterFirst(s: string, sep: string): string
    requires IndexOf(s, sep) >= 0
  {
    s[IndexOf(s, sep) + |sep|..]
  }

  /** In `zombie_<type>_…` the first `<type>_` is the one after `zombie_`. */
  lemma FirstTagAfterZombie(t: VolumeType, s: string)
    requires KnownType(t) && HasPrefix(s, ZombiePrefix + Tag(t))
    ensures IndexOf(s, Tag(t)) == |ZombiePrefix|
  {
    var tag := Tag(t);
    assert s[..|ZombiePrefix + tag|] == ZombiePrefix + tag;
    assert OccursAt(s, tag, 7) by {
      assert s[7..7 + |tag|] == (ZombiePrefix + tag)[7..];
    }
    assert s[0] == 'z' && s[1] == 'o' && s[2] == 'm' && s[3] == 'b' && s[4] == 'i' && s[5] == 'e' && s[6] == '_';
    assert tag[0] in "icv" && tag[1] in "moui";
    forall j | 0 <= j < 7 ensures !OccursAt(s, tag, j) {
      NoTagAt(s, tag, j);
    }
    IndexOfIs(s, tag, 7);
  }

  lemma NoTagAt(s: string, tag: string, j: int)
    requires 0 <= j < 7 && |tag| >= 2 && |s| >= 8
    requires s[0] == 'z' && s[1] == 'o' && s[2] == 'm' && s[3] == 'b' && s[4] == 'i' && s[5] == 'e' && s[6] == '_'
    requires tag[0] in "icv" && tag[1] in "moui"
    ensures !OccursAt(s, tag, j)
  {
  }

  /** Where a string starts with a type tag, the tag is found at the start or after `zombie_`. */
  lemma TagIndex(t: VolumeType, s: string)
    requires KnownType(t) && StartsWithType(s, t)
    ensures IndexOf(s, Tag(t)) == if HasPrefix(s, ZombiePrefix) then |ZombiePrefix| else 0
    ensures HasPrefix(s, ZombiePrefix) <==> HasPrefix(s, ZombiePrefix + Tag(t))
  {
    if HasPrefix(s, ZombiePrefix + Tag(t)) {
      FirstTagAfterZombie(t, s);
      assert s[..7] == (s[..|ZombiePrefix + Tag(t)|])[..7];
    } else {
      assert s[0] == Tag(t)[0];
      IndexOfIs(s, Tag(t), 0);
    }
  }

  /** `strings.Split(name, "@")`: the last piece is the snapshot, and the name is what
      precedes `"@" + snapshot`. */
  function SplitSnapshot(parentName: string): (r: (string, string))
    ensures '@' !in r.1
    ensures '@' in parentName ==> HasSuffix(parentName, "@" + r.1)
    ensures '@' !in parentName ==> r.1 == ""
    ensures r.0 + (if '@' in parentName then "@" + r.1 else "") == parentName
  {
    if '@' in parentName then
      var snapName := SplitLast(parentName, '@').value.1;
      (TrimSuffix(parentName, "@" + snapName), snapName)
    else (parentName, "")
  }

  /** Cutting the snapshot part off keeps any prefix free of `@`. */
  lemma SplitSnapshotKeepsPrefix(parentName: string, p: string)
    requires HasPrefix(parentName, p) && '@' !in p
    ensures HasPrefix(SplitSnapshot(parentName).0, p)
  {
    var name0 := SplitSnapshot(parentName).0;
    if '@' in parentName {
      var k := |name0|;
      assert parentName[k] == '@';
      assert k >= |p|;
      assert name0[..|p|] == parentName[..|p|];
    }
  }

  /** The block indicator, or for custom volumes the ISO one. */
  function DecodeContent(name: string, t: VolumeType): (r: (string, ContentType))
    ensures r.0 + ContentSuffix(r.1) == name
    ensures r.1 == Block <==> HasSuffix(name, BlockSuffix)
    ensures r.1 == ISO <==> t == Custom && !HasSuffix(name, BlockSuffix) && HasSuffix(name, IsoSuffix)
  {
    if HasSuffix(name, BlockSuffix) then (TrimSuffix(name, BlockSuffix), Block)
    else if t == Custom && HasSuffix(name, IsoSuffix) then (TrimSuffix(name, IsoSuffix), ISO)
    else (name, Filesystem)
  }

  /** The filesystem indicator of image names: the last `_`-separated token. */
  function DecodeFilesystem(name: string, t: VolumeType): (r: (string, Option<string>))
    ensures r.1.Some? <==> t == Image && '_' in name
    ensures r.1.Some? ==> '_' !in r.1.value && r.0 + "_" + r.1.value == name
    ensures r.1.None? ==> r.0 == name
  {
    if t == Image && '_' in name then
      var filesystem := SplitLast(name, '_').value.1;
      (TrimSuffix(name, "_" + filesystem), Some(filesystem))
    else (name, None)
  }

  /** What `strings.SplitN(name, "<type>_", 2)[1]` leaves of a name that starts with the tag. */
  function AfterTag(t: VolumeType, name: string): (r: string)
    requires KnownType(t) && StartsWithType(name, t)
    ensures (if IsZombieName(name) then ZombiePrefix else "") + Tag(t) + r == name
  {
    TagIndex(t, name);
    if IsZombieName(name) then
      assert name[..|ZombiePrefix + Tag(t)|] == ZombiePrefix + Tag(t);
      AfterFirst(name, Tag(t))
    else
      assert name[..|Tag(t)|] == Tag(t);
      AfterFirst(name, Tag(t))
  }

  /** The part of a `parseParent` branch after the snapshot is cut off: the tag, the
      content suffix and (for images) the filesystem token come off the image name. */
  function DecodeName(name0: string, t: VolumeType): (r: (string, ContentType, Option<string>))
    requires KnownType(t) && StartsWithType(name0, t)
    ensures r.1 == ISO ==> t == Custom
    ensures r.2.Some? ==> t == Image && '_' !in r.2.value
    ensures (if IsZombieName(name0) then ZombiePrefix else "") + Tag(t) + r.0
              + (if r.2.Some? then "_" + r.2.value else "") + ContentSuffix(r.1) == name0
  {
    var z := if IsZombieName(name0) then ZombiePrefix else "";
    var name1 := AfterTag(t, name0);
    var content := DecodeContent(name1, t);
    var filesystem := DecodeFilesystem(content.0, t);
    var fsPart := if filesystem.1.Some? then "_" + filesystem.1.value else "";
    Reassemble(z + Tag(t), filesystem.0, fsPart, ContentSuffix(content.1), content.0, name1, name0);
    (filesystem.0, content.1, filesystem.1)
  }

  lemma Reassemble(p: string, a: string, b: string, c: string, ab: string, abc: string, s: string)
    requires a + b == ab && ab + c == abc && p + abc == s
    ensures p + a + b + c == s
  {
    assert p + a + b + c == p + (a + b + c);
  }

  /** One branch of `parseParent` (the branches for images, custom, container and VM
      volumes differ only in their tag, in `.iso` for custom volumes and in the
      filesystem token for images). */
  function DecodeTyped(pool: string, parentName: string, t: VolumeType): (r: (Volume, string))
    requires KnownType(t) && StartsWithType(parentName, t)
    ensures r.0.pool == pool && r.0.volType == t && r.0.isDeleted == IsZombieName(parentName)
    ensures r.1 == SplitSnapshot(parentName).1
    ensures r.0.contentType == ISO ==> t == Custom
    ensures r.0.filesystem.Some? ==> t == Image && '_' !in r.0.filesystem.value
    ensures (if r.0.isDeleted then ZombiePrefix else "") + Tag(t) + r.0.name + FsPart(r.0)
              + ContentSuffix(r.0.contentType) == SplitSnapshot(parentName).0
  {
    var split := SplitSnapshot(parentName);
    SameTagAfterSplit(t, parentName);
    var d := DecodeName(split.0, t);
    (Volume(pool, t, d.1, d.0, d.2, IsZombieName(parentName)), split.1)
  }

  /** The name before the snapshot part starts with the same tag, zombie or not. */
  lemma SameTagAfterSplit(t: VolumeType, parentName: string)
    requires KnownType(t) && StartsWithType(parentName, t)
    ensures StartsWithType(SplitSnapshot(parentName).0, t)
    ensures IsZombieName(SplitSnapshot(parentName).0) == IsZombieName(parentName)
  {
    TagShape(t, parentName);
    var p := (if IsZombieName(parentName) then ZombiePrefix else "") + Tag(t);
    TagHasNoAt(t);
    SplitSnapshotKeepsPrefix(parentName, p);
    SameShape(t, parentName, SplitSnapshot(parentName).0);
  }

  lemma TagHasNoAt(t: VolumeType)
    requires KnownType(t)
    ensures '@' !in Tag(t) && '@' !in ZombiePrefix + Tag(t)
  {
  }

  /** Two strings that start with the same (zombie or live) tag agree on both facts. */
  lemma SameShape(t: VolumeType, s: string, s': string)
    requires KnownType(t) && StartsWithType(s, t)
    requires HasPrefix(s', (if IsZombieName(s) then ZombiePrefix else "") + Tag(t))
    ensures StartsWithType(s', t) && IsZombieName(s') == IsZombieName(s)
  {
    if IsZombieName(s) {
      PrefixOfPrefix(s', ZombiePrefix, Tag(t));
    } else {
      assert Tag(t)[0] != 'z';
      NotZombieByFirstChar(s');
    }
  }

  /** A string that starts with a type tag starts with `zombie_<type>_` exactly when it is
      a zombie name. */
  lemma TagShape(t: VolumeType, s: string)
    requires KnownType(t) && StartsWithType(s, t)
    ensures HasPrefix(s, (if IsZombieName(s) then ZombiePrefix else "") + Tag(t))
  {
    if HasPrefix(s, ZombiePrefix + Tag(t)) {
      PrefixOfPrefix(s, ZombiePrefix, Tag(t));
    } else {
      assert HasPrefix(s, Tag(t));
      NotZombieByFirstChar(s);
    }
  }

  lemma PrefixOfPrefix(s: string, a: string, b: string)
    requires HasPrefix(s, a + b)
    ensures HasPrefix(s, a)
  {
    assert s[..|a|] == (s[..|a + b|])[..|a|];
  }

  lemma NotZombieByFirstChar(s: string)
    requires s != [] && s[0] != 'z'
    ensures !IsZombieName(s)
  {
    assert ZombiePrefix[0] == 'z';
  }

  /** `parseParent`: split `pool/[zombie_]<type>_<name>[_<fs>][.block|.iso][@<snap>]` into a
      volume and a snapshot name. */
  function ParseParent(parent: string): (r: Result<(Volume, string)>)
    ensures '/' !in parent ==> r == Err(PoolDelimiterMissing)
    ensures ('/' in parent && forall t :: KnownType(t) ==> !StartsWithType(SplitFirst(parent, '/').value.1, t))
            ==> r == Err(UnrecognizedParent)
    ensures r.Err? ==> r == Err(PoolDelimiterMissing) || r == Err(UnrecognizedParent)
    ensures r.Ok? ==>
              var (vol, snap) := r.value;
              && '/' !in vol.pool && HasPrefix(parent, vol.pool + "/")
              && var rest := parent[|vol.pool| + 1..];
              && KnownType(vol.volType) && StartsWithType(rest, vol.volType)
              && vol.isDeleted == IsZombieName(rest)
              && '@' !in snap
              && ('@' in rest ==> HasSuffix(rest, "@" + snap))
              && ('@' !in rest ==> snap == "")
  {
    match SplitFirst(parent, '/')
    case None => Err(PoolDelimiterMissing)
    case Some((pool, parentName)) =>
      assert parent[|pool| + 1..] == parentName;
      if StartsWithType(parentName, Image) then Ok(DecodeTyped(pool, parentName, Image))
      else if StartsWithType(parentName, Custom) then Ok(DecodeTyped(pool, parentName, Custom))
      else if StartsWithType(parentName, Container) then Ok(DecodeTyped(pool, parentName, Container))
      else if StartsWithType(parentName, VirtualMachine) then Ok(DecodeTyped(pool, parentName, VirtualMachine))
      else Err(UnrecognizedParent)
  }

  /** `parseClone`: split `pool/[zombie_]<type>_<name>` into the pool, the type text, the
      name and the zombie flag. Nothing after the first `_` is decoded further. */
  function ParseClone(clone: string): (r: Result<(string, string, string, bool)>)
    ensures r == Err(PoolDelimiterMissing) <==> '/' !in clone
    ensures r.Err? ==> r == Err(PoolDelimiterMissing) || r == Err(CloneParseError)
    ensures '/' in clone ==>
              var (pool, volumeName) := SplitFirst(clone, '/').value;
              && (r == Err(CloneParseError) <==> '_' !in TrimPrefix(volumeName, ZombiePrefix))
              && (r.Ok? ==> r.value.0 == pool && r.value.3 == IsZombieName(volumeName))
    ensures r.Ok? ==>
              var (pool, cloneType, cloneName, deleted) := r.value;
              && '/' !in pool && '_' !in cloneType
              && pool + "/" + (if deleted then ZombiePrefix else "") + cloneType + "_" + cloneName == clone
  {
    match SplitFirst(clone, '/')
    case None => Err(PoolDelimiterMissing)
    case Some((pool, volumeName)) =>
      var deleted := IsZombieName(volumeName);
      var stripped := TrimPrefix(volumeName, ZombiePrefix);
      match SplitFirst(stripped, '_')
      case None => Err(CloneParseError)
      case Some((cloneType, cloneName)) =>
        var z := if deleted then ZombiePrefix else "";
        assert z + stripped == volumeName;
        CloneJoin(pool, z, cloneType, cloneName, stripped, volumeName, clone);
        Ok((pool, cloneType, cloneName, deleted))
  }

  lemma CloneJoin(pool: string, z: string, cloneType: string, cloneName: string, stripped: string,
                  volumeName: string, clone: string)
    requires cloneType + ['_'] + cloneName == stripped && z + stripped == volumeName
    requires pool + ['/'] + volumeName == clone
    ensures pool + "/" + z + cloneType + "_" + cloneName == clone
  {
    assert pool + "/" + z + cloneType + "_" + cloneName == pool + ['/'] + (z + (cloneType + ['_'] + cloneName));
  }

  /** The volume `deleteVolumeSnapshot` builds for a clone it found: the clone's type text
      becomes the type, the parent's content type and no configuration are used. */
  function CloneVolume(incusPool: string, cloneType: string, cloneName: string, parentContent: ContentType,
                       deleted: bool): (r: Volume)
    ensures r.volType == Named(cloneType) && r.name == cloneName && r.isDeleted == deleted
    ensures r.contentType == parentContent && r.filesystem.None?
  {
    Volume(incusPool, Named(cloneType), parentContent, cloneName, None, deleted)
  }

  /** The volume `rbdRenameVolume` moves an image to: same type, content and filesystem
      configuration, a new name. Like every volume `NewVolume` builds, it is live, whatever
      the state of the volume it is built from. */
  function RenamedVolume(vol: Volume, newName: string): (r: Volume)
    ensures r.volType == vol.volType && r.contentType == vol.contentType
    ensures r.filesystem == vol.filesystem && r.name == newName
    ensures !r.isDeleted
  {
    vol.(name := newName, isDeleted := false)
  }

  /** The volume `rbdMarkVolumeDeleted` moves an image to: renamed and marked as a zombie. */
  function ZombieVolume(vol: Volume, newName: string): (r: Volume)
    ensures r == RenamedVolume(vol, newName).(isDeleted := true)
  {
    vol.(name := newName, isDeleted := true)
  }
}
