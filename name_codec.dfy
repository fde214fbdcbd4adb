/** What the decoders recover from the names the encoder builds: `parseParent` inverts
    `getRBDVolumeName` with the pool prefix, `parseClone` splits off the type text, and
    the names `rbdMarkVolumeDeleted` and `rbdRenameVolume` move an image to decode back
    to the renamed volume. */
module NameCodec {
  import opened Outcomes
  import opened Strings
  import opened Naming

  /** The volumes and snapshot names whose encoded form `parseParent` can take apart
      unambiguously: a live (non-snapshot) volume of one of the four types, no `@` or `/`
      where the decoder splits on them, no content suffix that the decoder would strip
      from a filesystem volume's own name, `.iso` only on custom volumes, and a
      filesystem token without `_`, `.` or `@` on images. */
  predicate Decodable(pool: string, v: Volume, snap: string)
  {
    && KnownType(v.volType)
    && '/' !in pool && '/' !in v.name && '@' !in v.name && '@' !in snap
    && (v.contentType == ISO ==> v.volType == Custom)
    && (v.contentType == Filesystem && v.volType != Image ==> !HasSuffix(v.name, BlockSuffix))
    && (v.contentType == Filesystem && v.volType == Custom ==> !HasSuffix(v.name, IsoSuffix))
    && (v.volType == Image ==>
          var fs := EffectiveFilesystem(v);
          '_' !in fs && '.' !in fs && '@' !in fs)
  }

  /** The volume `parseParent` reports for `v`: the pool it was found in, and for images
      the filesystem the name carries; other configuration is not in the name. */
  function Decoded(pool: string, v: Volume): (r: Volume)
    ensures r.volType == v.volType && r.contentType == v.contentType && r.name == v.name
    ensures r.isDeleted == v.isDeleted && r.pool == pool
    ensures r.filesystem.Some? <==> v.volType == Image
  {
    var fs := if v.volType == Image then Some(EffectiveFilesystem(v)) else None;
    Volume(pool, v.volType, v.contentType, v.name, fs, v.isDeleted)
  }

  /** A string carries at most one of the four type tags. */
  lemma TagsExclusive(s: string, t: VolumeType, u: VolumeType)
    requires KnownType(t) && KnownType(u) && t != u && StartsWithType(s, t)
    ensures !StartsWithType(s, u)
  {
    TagShape(t, s);
    var z := if IsZombieName(s) then ZombiePrefix else "";
    PrefixChars(s, z, Tag(t));
    TagsDiffer(t, u);
    if StartsWithType(s, u) {
      TagShape(u, s);
      PrefixChars(s, z, Tag(u));
    }
  }

  lemma PrefixChars(s: string, z: string, tag: string)
    requires |tag| >= 2 && HasPrefix(s, z + tag)
    ensures s[|z|] == tag[0] && s[|z| + 1] == tag[1]
  {
    assert s[|z|] == (z + tag)[|z|];
    assert s[|z| + 1] == (z + tag)[|z| + 1];
  }

  lemma TagsDiffer(t: VolumeType, u: VolumeType)
    requires KnownType(t) && KnownType(u) && t != u
    ensures Tag(t)[0] != Tag(u)[0] || Tag(t)[1] != Tag(u)[1]
  {
  }

  /** Cutting the snapshot part off an encoded name gives back both pieces. */
  lemma SplitSnapshotOf(core: string, snap: string)
    requires '@' !in core && '@' !in snap
    ensures SplitSnapshot(core + (if snap != "" then "@" + snap else "")) == (core, snap)
  {
    if snap != "" {
      var s := core + "@" + snap;
      assert s == core + ['@'] + snap;
      SplitLastOf(core, '@', snap);
      assert '@' in s by { assert s[|core|] == '@'; }
      SuffixOfJoin(core, "@" + snap);
      assert TrimSuffix(s, "@" + snap) == core by {
        CancelSuffix(TrimSuffix(s, "@" + snap), core, "@" + snap);
      }
    } else {
      assert core + "" == core;
    }
  }

  /** The text after the tag of `[zombie_]<type>_<w>` is `w`. */
  lemma AfterTagOf(t: VolumeType, deleted: bool, w: string)
    requires KnownType(t)
    ensures StartsWithType(ZombiePart(deleted) + Tag(t) + w, t)
    ensures IsZombieName(ZombiePart(deleted) + Tag(t) + w) == deleted
    ensures AfterTag(t, ZombiePart(deleted) + Tag(t) + w) == w
  {
    var s := ZombiePart(deleted) + Tag(t) + w;
    var z := ZombiePart(deleted);
    assert s[..|z + Tag(t)|] == z + Tag(t);
    if deleted {
      PrefixOfPrefix(s, ZombiePrefix, Tag(t));
    } else {
      assert s[0] == Tag(t)[0];
      NotZombieByFirstChar(s);
    }
    assert z + Tag(t) + AfterTag(t, s) == z + Tag(t) + w;
    CancelPrefix(z + Tag(t), AfterTag(t, s), w);
  }

  /** The content suffix comes off again, unless the name itself would be mistaken for one. */
  lemma DecodeContentOf(w: string, c: ContentType, t: VolumeType)
    requires c == ISO ==> t == Custom
    requires c == Filesystem ==> !HasSuffix(w, BlockSuffix) && (t == Custom ==> !HasSuffix(w, IsoSuffix))
    ensures DecodeContent(w + ContentSuffix(c), t) == (w, c)
  {
    var s := w + ContentSuffix(c);
    var r := DecodeContent(s, t);
    SuffixOfJoin(w, ContentSuffix(c));
    match c
    case Filesystem =>
      assert s == w;
    case Block =>
      CancelSuffix(r.0, w, BlockSuffix);
    case ISO =>
      assert s[|s| - 1] == 'o';
      CancelSuffix(r.0, w, IsoSuffix);
  }

  /** An image's filesystem token is the last `_`-separated piece when it has no `_`. */
  lemma DecodeFilesystemOf(name: string, fs: string, t: VolumeType)
    requires '_' !in fs
    ensures t == Image ==> DecodeFilesystem(name + ("_" + fs), t) == (name, Some(fs))
    ensures t != Image ==> DecodeFilesystem(name, t) == (name, None)
  {
    if t == Image {
      var s := name + ("_" + fs);
      assert s == name + ['_'] + fs;
      SplitLastOf(name, '_', fs);
      assert '_' in s by { assert s[|name|] == '_'; }
      var r := DecodeFilesystem(s, t);
      CancelSuffix(r.0, name, "_" + fs);
    }
  }

  /** A name followed by `_<fs>` with no `.` in `fs` does not end in `.block`. */
  lemma NoBlockAfterToken(name: string, fs: string)
    requires '.' !in fs
    ensures !HasSuffix(name + ("_" + fs), BlockSuffix)
  {
    var s := name + ("_" + fs);
    assert s[|name|] == '_';
    assert forall i :: |name| < i < |s| ==> s[i] == fs[i - |name| - 1];
    assert '_' !in BlockSuffix && BlockSuffix[0] == '.';
  }

  /** The encoded name of a live volume without its pool and snapshot parts. */
  function Core(v: Volume): string
  {
    ZombiePart(v.isDeleted) + Tag(v.volType) + BaseName(v) + FsToken(v) + ContentSuffix(v.contentType)
  }

  /** `parseParent` inverts the pool-qualified encoder on every decodable volume. */
  lemma ParentRoundTrip(pool: string, v: Volume, snap: string)
    requires Decodable(pool, v, snap)
    ensures ParseParent(pool + "/" + ImageName(v, snap)) == Ok((Decoded(pool, v), snap))
  {
    var t := v.volType;
    var body := ImageName(v, snap);
    EncodedShape(v, snap);
    assert pool + "/" + body == pool + ['/'] + body;
    SplitFirstOf(pool, '/', body);
    DecodeNameOf(v);
    assert DecodeTyped(pool, body, t) == (Decoded(pool, v), snap);
    if t != Image { TagsExclusive(body, t, Image); }
    if t != Custom { TagsExclusive(body, t, Custom); }
    if t != Container { TagsExclusive(body, t, Container); }
  }

  /** What the branch of `parseParent` sees in an encoded name. */
  lemma EncodedShape(v: Volume, snap: string)
    requires KnownType(v.volType) && '/' !in v.name && '@' !in v.name && '@' !in snap
    requires v.volType == Image ==> '@' !in EffectiveFilesystem(v)
    ensures ImageName(v, snap) == Core(v) + (if snap != "" then "@" + snap else "")
    ensures StartsWithType(ImageName(v, snap), v.volType)
    ensures IsZombieName(ImageName(v, snap)) == v.isDeleted
    ensures SplitSnapshot(ImageName(v, snap)) == (Core(v), snap)
  {
    var body := ImageName(v, snap);
    assert body == Core(v) + SnapshotPart(v, snap);
    CoreShape(v);
    CoreHasNoAt(v);
    SplitSnapshotOf(Core(v), snap);
    var head := ZombiePart(v.isDeleted) + Tag(v.volType);
    PrefixOfJoin(Core(v), SnapshotPart(v, snap), head);
  }

  /** The core starts with the zombie part and the tag, followed by the name, token and suffix. */
  lemma CoreShape(v: Volume)
    requires KnownType(v.volType)
    ensures Core(v) == ZombiePart(v.isDeleted) + Tag(v.volType) + (BaseName(v) + FsToken(v) + ContentSuffix(v.contentType))
    ensures HasPrefix(Core(v), ZombiePart(v.isDeleted) + Tag(v.volType))
  {
    var head := ZombiePart(v.isDeleted) + Tag(v.volType);
    var w := BaseName(v) + FsToken(v) + ContentSuffix(v.contentType);
    Reassemble(head, BaseName(v), FsToken(v), ContentSuffix(v.contentType),
               BaseName(v) + FsToken(v), w, head + w);
    assert (head + w)[..|head|] == head;
  }

  lemma PrefixOfJoin(a: string, b: string, p: string)
    requires HasPrefix(a, p)
    ensures HasPrefix(a + b, p)
  {
    assert (a + b)[..|p|] == a[..|p|];
  }

  /** The tag, content suffix and filesystem token come off the core exactly. */
  lemma DecodeNameOf(v: Volume)
    requires KnownType(v.volType) && '/' !in v.name
    requires v.contentType == ISO ==> v.volType == Custom
    requires v.contentType == Filesystem && v.volType != Image ==> !HasSuffix(v.name, BlockSuffix)
    requires v.contentType == Filesystem && v.volType == Custom ==> !HasSuffix(v.name, IsoSuffix)
    requires v.volType == Image ==> '_' !in EffectiveFilesystem(v) && '.' !in EffectiveFilesystem(v)
    ensures StartsWithType(Core(v), v.volType) && IsZombieName(Core(v)) == v.isDeleted
    ensures DecodeName(Core(v), v.volType) == (v.name, v.contentType, Decoded("", v).filesystem)
  {
    var t := v.volType;
    assert BaseName(v) == v.name;
    var stem := v.name + FsToken(v);
    if t != Image {
      assert FsToken(v) == "" && stem == v.name;
    }
    var w := stem + ContentSuffix(v.contentType);
    CoreShape(v);
    AfterTagOf(t, v.isDeleted, w);
    assert AfterTag(t, Core(v)) == w;
    if t == Image && v.contentType == Filesystem {
      NoBlockAfterToken(v.name, EffectiveFilesystem(v));
    }
    DecodeContentOf(stem, v.contentType, t);
    assert DecodeContent(w, t) == (stem, v.contentType);
    if t == Image {
      DecodeFilesystemOf(v.name, EffectiveFilesystem(v), t);
    } else {
      DecodeFilesystemOf(v.name, "", t);
    }
    assert DecodeFilesystem(stem, t) == (v.name, Decoded("", v).filesystem);
  }

  lemma CoreHasNoAt(v: Volume)
    requires KnownType(v.volType) && '@' !in v.name && '/' !in v.name
    requires v.volType == Image ==> '@' !in EffectiveFilesystem(v)
    ensures '@' !in Core(v)
  {
    TagHasNoAt(v.volType);
    assert '@' !in ContentSuffix(v.contentType);
    assert '@' !in FsToken(v);
    assert '@' !in ZombiePart(v.isDeleted) + Tag(v.volType);
  }

  /** `parseClone` splits an encoded live name into its pool, its type prefix, the rest of
      the name (filesystem token and content suffix included) and the zombie flag. */
  lemma CloneOfImageName(pool: string, v: Volume)
    requires '/' !in pool && KnownType(v.volType) && '/' !in v.name
    ensures ParseClone(pool + "/" + ImageName(v, "")) ==
              Ok((pool, TypePrefix(v.volType), CloneName(v), v.isDeleted))
  {
    var t := v.volType;
    var w := CloneName(v);
    var body := ImageName(v, "");
    LiveImageName(v);
    assert pool + "/" + body == pool + ['/'] + body;
    SplitFirstOf(pool, '/', body);
    ZombieTrim(v.isDeleted, Tag(t), w);
    SplitAfterType(t, w);
  }

  /** The first `_` of `<type>_<w>` is the one after the type prefix. */
  lemma SplitAfterType(t: VolumeType, w: string)
    requires KnownType(t)
    ensures SplitFirst(Tag(t) + w, '_') == Some((TypePrefix(t), w))
  {
    var p := TypePrefix(t);
    assert '_' !in p;
    assert Tag(t) == p + ['_'];
    SplitFirstOf(p, '_', w);
  }

  /** What `parseClone` leaves as the name: everything after the type tag. */
  function CloneName(v: Volume): string
  {
    v.name + FsToken(v) + ContentSuffix(v.contentType)
  }

  /** The encoded name of a live volume without a snapshot part. */
  lemma LiveImageName(v: Volume)
    requires KnownType(v.volType) && '/' !in v.name
    ensures ImageName(v, "") == ZombiePart(v.isDeleted) + Tag(v.volType) + CloneName(v)
    ensures v.isDeleted || Tag(v.volType)[0] != 'z'
  {
    assert BaseName(v) == v.name && SnapshotPart(v, "") == "";
    CoreShape(v);
  }

  lemma ZombieTrim(deleted: bool, tag: string, w: string)
    requires deleted || (tag != [] && tag[0] != 'z')
    ensures IsZombieName(ZombiePart(deleted) + tag + w) == deleted
    ensures TrimPrefix(ZombiePart(deleted) + tag + w, ZombiePrefix) == tag + w
  {
    var s := ZombiePart(deleted) + tag + w;
    if deleted {
      assert s == ZombiePrefix + (tag + w);
      assert s[..|ZombiePrefix|] == ZombiePrefix;
      CancelPrefix(ZombiePrefix, TrimPrefix(s, ZombiePrefix), tag + w);
    } else {
      assert s == tag + w;
      NotZombieByFirstChar(s);
    }
  }

  /** Re-encoding the volume `deleteVolumeSnapshot` builds from a clone's name gives the
      clone's image name with the parent's content suffix added once more: the same name
      only when the parent holds a filesystem, and `….block.block` for clones of block
      volumes, because `parseClone` leaves the suffix in the name. */
  lemma CloneReencoding(v: Volume, incusPool: string, parentContent: ContentType)
    requires KnownType(v.volType) && '/' !in v.name
    requires v.volType == Image ==> '/' !in EffectiveFilesystem(v)
    ensures ImageName(CloneVolume(incusPool, TypePrefix(v.volType), CloneName(v), parentContent, v.isDeleted), "")
              == ImageName(v, "") + ContentSuffix(parentContent)
  {
    var t := v.volType;
    var w := CloneName(v);
    var c := CloneVolume(incusPool, TypePrefix(t), w, parentContent, v.isDeleted);
    assert '/' !in FsToken(v) && '/' !in ContentSuffix(v.contentType);
    assert '/' !in w;
    assert BaseName(c) == w && FsToken(c) == "" && SnapshotPart(c, "") == "";
    assert Tag(c.volType) == Tag(t);
    LiveImageName(v);
  }

  /** The zombie name `rbdMarkVolumeDeleted` moves an image to decodes to the renamed
      volume, marked deleted, with its type, content and filesystem kept. */
  lemma MarkDeletedDecodes(osdPool: string, vol: Volume, newName: string)
    requires Decodable(osdPool, RenamedVolume(vol, newName), "")
    ensures var r := ParseParent(RBDVolumeName(osdPool, ZombieVolume(vol, newName), "", true));
            && r.Ok? && r.value.1 == ""
            && r.value.0 == Decoded(osdPool, RenamedVolume(vol, newName)).(isDeleted := true)
  {
    ParentRoundTrip(osdPool, ZombieVolume(vol, newName), "");
  }

  /** The name `rbdRenameVolume` moves an image to decodes to the renamed volume. */
  lemma RenameDecodes(osdPool: string, vol: Volume, newName: string)
    requires Decodable(osdPool, RenamedVolume(vol, newName), "")
    ensures var r := ParseParent(RBDVolumeName(osdPool, RenamedVolume(vol, newName), "", true));
            && r == Ok((Decoded(osdPool, RenamedVolume(vol, newName)), ""))
            && !r.value.0.isDeleted
  {
    ParentRoundTrip(osdPool, RenamedVolume(vol, newName), "");
  }
}
