/** `deleteVolume` and `deleteVolumeSnapshot`: deleting an image, or a snapshot, while
    other images may still be clones of it. What cannot go yet is renamed to a zombie
    (`zombie_…`) and deleted later, when the last image depending on it goes.
    The RBD images of the driver's OSD pool are the state of a `Cluster`; every `rbd`
    command the helpers run is a method of it. */
module Deletion {
  import opened Outcomes
  import opened Strings
  import opened Naming
  import opened Listing
  import ExitCodes

  const EEXIST: int := 17
  const ENOTEMPTY: int := 39
  const ZombieSnapshotPrefix: string := "zombie_snapshot_"

  // ---------------------------------------------------------------- the images of a pool

  /** An RBD snapshot: the id clones refer to, its name, whether it is protected, and how
      many times it is mapped on this host. */
  datatype Snap = Snap(id: nat, name: string, protected: bool, mapped: nat)

  /** The snapshot an image was cloned from, by image id and snapshot id, so that renaming
      either one keeps the relation (as RBD does). */
  datatype ParentRef = ParentRef(image: nat, snap: nat)

  /** An RBD image: its id, its snapshots in creation order, the snapshot it was cloned
      from, and how many times it is mapped on this host. */
  datatype Image = Image(id: nat, snaps: seq<Snap>, parent: Option<ParentRef>, mapped: nat)

  /** The images of the OSD pool, by image name. */
  type Images = map<string, Image>

  predicate HasSnap(img: Image, name: string)
  {
    exists i :: 0 <= i < |img.snaps| && img.snaps[i].name == name
  }

  /** The position of the first snapshot called `name`, or -1. */
  function SnapIndex(snaps: seq<Snap>, name: string): (k: int)
    ensures -1 <= k < |snaps|
    ensures k >= 0 ==> snaps[k].name == name
    ensures k < 0 <==> forall i :: 0 <= i < |snaps| ==> snaps[i].name != name
  {
    if snaps == [] then -1
    else if snaps[0].name == name then 0
    else
      var k := SnapIndex(snaps[1..], name);
      if k < 0 then -1 else k + 1
  }

  predicate SnapExists(imgs: Images, x: string, name: string)
  {
    x in imgs && SnapIndex(imgs[x].snaps, name) >= 0
  }

  /** The images cloned from snapshot `name` of image `x`. */
  function Clones(imgs: Images, x: string, name: string): set<string>
    requires SnapExists(imgs, x, name)
  {
    var origin := ParentRef(imgs[x].id, imgs[x].snaps[SnapIndex(imgs[x].snaps, name)].id);
    set n | n in imgs && imgs[n].parent == Some(origin)
  }

  // ---------------------------------------------------------------- what the commands answer

  /** `rbd snap unprotect`: EINVAL for a snapshot that is not protected, EBUSY for one
      that still has clones. */
  function UnprotectStatus(imgs: Images, x: string, name: string): RunOutcome
  {
    if !SnapExists(imgs, x, name) then Exit(ExitCodes.ENOENT)
    else if !imgs[x].snaps[SnapIndex(imgs[x].snaps, name)].protected then Exit(ExitCodes.EINVAL)
    else if Clones(imgs, x, name) != {} then Exit(ExitCodes.EBUSY)
    else Success
  }

  /** `rbd rm`: exits 0 for an image that does not exist; refuses an image that has
      snapshots or is mapped. */
  function RemoveStatus(imgs: Images, x: string): RunOutcome
  {
    if x !in imgs then Success
    else if imgs[x].snaps != [] then Exit(ENOTEMPTY)
    else if imgs[x].mapped > 0 then Exit(ExitCodes.EBUSY)
    else Success
  }

  /** `rbd snap rm`: refuses a snapshot that is protected or has clones. */
  function SnapRemoveStatus(imgs: Images, x: string, name: string): RunOutcome
  {
    if !SnapExists(imgs, x, name) then Exit(ExitCodes.ENOENT)
    else if imgs[x].snaps[SnapIndex(imgs[x].snaps, name)].protected || Clones(imgs, x, name) != {} then Exit(ExitCodes.EBUSY)
    else Success
  }

  /** `rbd mv`: the source must exist and the target must not. */
  function MoveStatus(imgs: Images, x: string, y: string): RunOutcome
  {
    if x !in imgs then Exit(ExitCodes.ENOENT) else if y in imgs then Exit(EEXIST) else Success
  }

  /** `rbd snap rename`: the snapshot must exist and the new name be free. */
  function SnapRenameStatus(imgs: Images, x: string, name: string, newName: string): RunOutcome
  {
    if !SnapExists(imgs, x, name) then Exit(ExitCodes.ENOENT)
    else if SnapIndex(imgs[x].snaps, newName) >= 0 then Exit(EEXIST)
    else Success
  }

  // ---------------------------------------------------------------- what the commands change

  function WithSnap(imgs: Images, x: string, k: nat, s: Snap): Images
    requires x in imgs && k < |imgs[x].snaps|
  {
    imgs[x := imgs[x].(snaps := imgs[x].snaps[k := s])]
  }

  function WithoutSnap(imgs: Images, x: string, k: nat): Images
    requires x in imgs && k < |imgs[x].snaps|
  {
    imgs[x := imgs[x].(snaps := imgs[x].snaps[..k] + imgs[x].snaps[k + 1..])]
  }

  function Unmapped(imgs: Images, x: string): Images
  {
    if x in imgs then imgs[x := imgs[x].(mapped := 0)] else imgs
  }

  function SnapUnmapped(imgs: Images, x: string, name: string): Images
  {
    if !SnapExists(imgs, x, name) then imgs
    else
      var k := SnapIndex(imgs[x].snaps, name);
      WithSnap(imgs, x, k, imgs[x].snaps[k].(mapped := 0))
  }

  function ImageMappings(imgs: Images, x: string): nat
  {
    if x in imgs then imgs[x].mapped else 0
  }

  function SnapMappings(imgs: Images, x: string, name: string): nat
  {
    if SnapExists(imgs, x, name) then imgs[x].snaps[SnapIndex(imgs[x].snaps, name)].mapped else 0
  }

  /** What `rbd unmap` answers, call after call, for something mapped `m` times: success
      while a mapping is left, then EINVAL. */
  function UnmapScript(m: nat): seq<RunOutcome>
  {
    ExitCodes.Repeat(Success, m) + [Exit(ExitCodes.EINVAL)]
  }

  /** Unmapping until EINVAL always succeeds against these answers: EBUSY never comes. */
  lemma UnmapSucceeds(m: nat)
    ensures ExitCodes.UnmapRun(UnmapScript(m), true, 0) == Pass
    ensures ExitCodes.SnapUnmapRun(UnmapScript(m), true) == Pass
  {
    ExitCodes.UnmapAll(m, []);
    ExitCodes.SnapUnmapAll(m);
  }

  function Moved(imgs: Images, x: string, y: string): Images
    requires x in imgs
  {
    (imgs - {x})[y := imgs[x]]
  }

  // ---------------------------------------------------------------- what deletion keeps

  /** Every live (not `zombie_`) image of `a` is still in `b` with all its live snapshots. */
  ghost predicate AllKept(a: Images, b: Images)
  {
    && (forall n :: n in a && !IsZombieName(n) ==> n in b)
    && (forall n, t :: n in a && !IsZombieName(n) && !IsZombieName(t) && HasSnap(a[n], t) ==>
          n in b && HasSnap(b[n], t))
  }

  /** As `AllKept`, except that image `x` may be gone. */
  ghost predicate ImagesKept(a: Images, b: Images, x: string)
  {
    && (forall n :: n in a && !IsZombieName(n) && n != x ==> n in b)
    && (forall n, t :: n in a && !IsZombieName(n) && n != x && !IsZombieName(t) && HasSnap(a[n], t) ==>
          n in b && HasSnap(b[n], t))
  }

  /** As `AllKept`, except that snapshot `s` of image `x` may be gone. */
  ghost predicate SnapKept(a: Images, b: Images, x: string, s: string)
  {
    && (forall n :: n in a && !IsZombieName(n) ==> n in b)
    && (forall n, t :: n in a && !IsZombieName(n) && !IsZombieName(t) && HasSnap(a[n], t) && (n != x || t != s) ==>
          n in b && HasSnap(b[n], t))
  }

  /** No image other than zombies appears. */
  ghost predicate NoNewLive(a: Images, b: Images)
  {
    forall n :: n in b && n !in a ==> IsZombieName(n)
  }

  lemma AllKeptWeakens(a: Images, b: Images, x: string, s: string)
    requires AllKept(a, b)
    ensures ImagesKept(a, b, x) && SnapKept(a, b, x, s)
  {
  }

  /** When what may go is a zombie anyway, nothing live goes. */
  lemma ZombieExempt(a: Images, b: Images, x: string, s: string)
    requires IsZombieName(x) || IsZombieName(s)
    ensures IsZombieName(x) && ImagesKept(a, b, x) ==> AllKept(a, b)
    ensures SnapKept(a, b, x, s) ==> AllKept(a, b)
  {
  }

  lemma SnapKeptImages(a: Images, b: Images, x: string, s: string)
    requires SnapKept(a, b, x, s)
    ensures ImagesKept(a, b, x)
  {
  }

  lemma AllKeptTrans(a: Images, b: Images, c: Images)
    requires AllKept(a, b) && AllKept(b, c)
    ensures AllKept(a, c)
  {
  }

  lemma ImagesKeptTrans(a: Images, b: Images, c: Images, x: string)
    requires ImagesKept(a, b, x) && ImagesKept(b, c, x)
    ensures ImagesKept(a, c, x)
  {
  }

  lemma SnapKeptTrans(a: Images, b: Images, c: Images, x: string, s: string)
    requires SnapKept(a, b, x, s) && SnapKept(b, c, x, s)
    ensures SnapKept(a, c, x, s)
  {
  }

  /** Replacing one snapshot keeps every other; with the same name, it keeps them all. */
  lemma WithSnapKeeps(imgs: Images, x: string, k: nat, s: Snap)
    requires x in imgs && k < |imgs[x].snaps|
    ensures SnapKept(imgs, WithSnap(imgs, x, k, s), x, imgs[x].snaps[k].name)
    ensures s.name == imgs[x].snaps[k].name ==> AllKept(imgs, WithSnap(imgs, x, k, s))
  {
    var b := WithSnap(imgs, x, k, s);
    forall n, t | n in imgs && HasSnap(imgs[n], t) && (n != x || t != imgs[x].snaps[k].name || s.name == t)
      ensures n in b && HasSnap(b[n], t)
    {
      var i :| 0 <= i < |imgs[n].snaps| && imgs[n].snaps[i].name == t;
      assert b[n].snaps[i].name == t;
    }
  }

  lemma WithoutSnapKeeps(imgs: Images, x: string, k: nat)
    requires x in imgs && k < |imgs[x].snaps|
    ensures SnapKept(imgs, WithoutSnap(imgs, x, k), x, imgs[x].snaps[k].name)
  {
    var b := WithoutSnap(imgs, x, k);
    var rest := imgs[x].snaps[..k] + imgs[x].snaps[k + 1..];
    forall n, t | n in imgs && HasSnap(imgs[n], t) && (n != x || t != imgs[x].snaps[k].name)
      ensures n in b && HasSnap(b[n], t)
    {
      var i :| 0 <= i < |imgs[n].snaps| && imgs[n].snaps[i].name == t;
      if n == x {
        if i < k {
          assert rest[i] == imgs[x].snaps[i];
        } else {
          assert i != k;
          assert rest[i - 1] == imgs[x].snaps[i];
        }
      }
    }
  }

  lemma MovedKeeps(imgs: Images, x: string, y: string)
    requires x in imgs && y !in imgs && IsZombieName(y)
    ensures ImagesKept(imgs, Moved(imgs, x, y), x) && NoNewLive(imgs, Moved(imgs, x, y))
  {
  }

  // ---------------------------------------------------------------- snapshot names

  /** RBD keeps the snapshot names of one image distinct. */
  predicate UniqueSnaps(imgs: Images)
  {
    forall n, i, j :: n in imgs && 0 <= i < j < |imgs[n].snaps| ==> imgs[n].snaps[i].name != imgs[n].snaps[j].name
  }

  lemma SnapExistsHas(imgs: Images, x: string, name: string)
    ensures SnapExists(imgs, x, name) <==> x in imgs && HasSnap(imgs[x], name)
  {
  }

  /** Replacing a snapshot by one with its own name, or with a name the image does not use,
      keeps the names distinct; a name given up is then gone. */
  lemma WithSnapUnique(imgs: Images, x: string, k: nat, s: Snap)
    requires UniqueSnaps(imgs) && x in imgs && k < |imgs[x].snaps|
    requires s.name == imgs[x].snaps[k].name || SnapIndex(imgs[x].snaps, s.name) < 0
    ensures UniqueSnaps(WithSnap(imgs, x, k, s))
    ensures s.name != imgs[x].snaps[k].name ==> !SnapExists(WithSnap(imgs, x, k, s), x, imgs[x].snaps[k].name)
  {
    var b := WithSnap(imgs, x, k, s);
    var was := imgs[x].snaps[k].name;
    if s.name != was {
      forall i | 0 <= i < |b[x].snaps| ensures b[x].snaps[i].name != was {
        if i != k {
          assert b[x].snaps[i] == imgs[x].snaps[i];
        }
      }
    }
  }

  /** Removing the snapshot called `name` keeps the names distinct and leaves none called
      `name`. */
  lemma WithoutSnapUnique(imgs: Images, x: string, name: string)
    requires UniqueSnaps(imgs) && SnapExists(imgs, x, name)
    ensures UniqueSnaps(WithoutSnap(imgs, x, SnapIndex(imgs[x].snaps, name)))
    ensures !SnapExists(WithoutSnap(imgs, x, SnapIndex(imgs[x].snaps, name)), x, name)
  {
    var k := SnapIndex(imgs[x].snaps, name);
    var a := imgs[x].snaps;
    var rest := a[..k] + a[k + 1..];
    var b := WithoutSnap(imgs, x, k);
    assert b[x].snaps == rest;
    forall i | 0 <= i < |rest| ensures rest[i] == a[if i < k then i else i + 1] {
    }
    forall i | 0 <= i < |rest| ensures rest[i].name != name {
      assert rest[i] == a[if i < k then i else i + 1];
    }
  }

  /** With distinct names, the snapshot called `name` is wherever a snapshot has that name. */
  lemma UniqueIndex(imgs: Images, x: string, k: nat, name: string)
    requires UniqueSnaps(imgs) && x in imgs && k < |imgs[x].snaps| && imgs[x].snaps[k].name == name
    ensures SnapIndex(imgs[x].snaps, name) == k
  {
  }

  /** Updating the same snapshot twice keeps only the second update. */
  lemma WithSnapTwice(imgs: Images, x: string, k: nat, s1: Snap, s2: Snap)
    requires x in imgs && k < |imgs[x].snaps|
    ensures WithSnap(WithSnap(imgs, x, k, s1), x, k, s2) == WithSnap(imgs, x, k, s2)
  {
    assert imgs[x].snaps[k := s1][k := s2] == imgs[x].snaps[k := s2];
  }

  /** Removing a snapshot forgets any update made to it before. */
  lemma WithoutWithSnap(imgs: Images, x: string, k: nat, s: Snap)
    requires x in imgs && k < |imgs[x].snaps|
    ensures WithoutSnap(WithSnap(imgs, x, k, s), x, k) == WithoutSnap(imgs, x, k)
  {
    var a := imgs[x].snaps;
    assert a[k := s][..k] == a[..k] && a[k := s][k + 1..] == a[k + 1..];
  }

  /** From `a` to `b` images were only removed, never added or moved, and no snapshot name
      appeared. */
  ghost predicate NoNewSnaps(a: Images, b: Images)
  {
    && b.Keys <= a.Keys
    && forall n, t :: n in b && HasSnap(b[n], t) ==> HasSnap(a[n], t)
  }

  /** Replacing one snapshot brings in its new name and no other. */
  lemma WithSnapNames(imgs: Images, x: string, k: nat, s: Snap)
    requires x in imgs && k < |imgs[x].snaps|
    ensures var b := WithSnap(imgs, x, k, s);
            forall n, t :: n in b && HasSnap(b[n], t) ==> HasSnap(imgs[n], t) || t == s.name
    ensures s.name == imgs[x].snaps[k].name ==> NoNewSnaps(imgs, WithSnap(imgs, x, k, s))
  {
    var b := WithSnap(imgs, x, k, s);
    forall n, t | n in b && HasSnap(b[n], t) && t != s.name ensures HasSnap(imgs[n], t) {
      var i :| 0 <= i < |b[n].snaps| && b[n].snaps[i].name == t;
      assert imgs[n].snaps[i].name == t;
    }
  }

  lemma WithoutSnapNames(imgs: Images, x: string, k: nat)
    requires x in imgs && k < |imgs[x].snaps|
    ensures NoNewSnaps(imgs, WithoutSnap(imgs, x, k))
  {
    var b := WithoutSnap(imgs, x, k);
    var a := imgs[x].snaps;
    forall n, t | n in b && HasSnap(b[n], t) ensures HasSnap(imgs[n], t) {
      var i :| 0 <= i < |b[n].snaps| && b[n].snaps[i].name == t;
      if n == x {
        assert b[x].snaps[i] == a[if i < k then i else i + 1];
      }
    }
  }

  /** Writing a snapshot back unchanged changes nothing. */
  lemma WithSnapSame(imgs: Images, x: string, k: nat)
    requires x in imgs && k < |imgs[x].snaps|
    ensures WithSnap(imgs, x, k, imgs[x].snaps[k]) == imgs
  {
    assert imgs[x].snaps[k := imgs[x].snaps[k]] == imgs[x].snaps;
    assert imgs[x].(snaps := imgs[x].snaps) == imgs[x];
  }

  lemma NoNewSnapsTrans(a: Images, b: Images, c: Images)
    requires NoNewSnaps(a, b) && NoNewSnaps(b, c)
    ensures NoNewSnaps(a, c)
  {
  }

  lemma MovedUnique(imgs: Images, x: string, y: string)
    requires UniqueSnaps(imgs) && x in imgs
    ensures UniqueSnaps(Moved(imgs, x, y))
  {
  }

  /** The name a snapshot kept as a zombie gets from the `j`-th identifier, for some `j`
      handed out between `lo` and `hi`. */
  ghost predicate FreshSnapName(uuid: nat -> string, t: string, lo: nat, hi: nat)
  {
    exists j :: lo <= j < hi && t == ZombieSnapshotPrefix + uuid(j)
  }

  lemma FreshIsZombie(uuid: nat -> string, t: string, lo: nat, hi: nat)
    requires FreshSnapName(uuid, t, lo, hi)
    ensures IsZombieName(t)
  {
    var j :| lo <= j < hi && t == ZombieSnapshotPrefix + uuid(j);
    assert t[..|ZombiePrefix|] == ZombieSnapshotPrefix[..|ZombiePrefix|];
  }

  /** From `a` to `b` images were only removed, never added or moved, and every snapshot of
      `b` was already in `a` or got a fresh zombie name. */
  ghost predicate Shrunk(uuid: nat -> string, a: Images, b: Images, lo: nat, hi: nat)
  {
    && b.Keys <= a.Keys
    && forall n, t :: n in b && HasSnap(b[n], t) ==> HasSnap(a[n], t) || FreshSnapName(uuid, t, lo, hi)
  }

  lemma NoNewSnapsShrunk(uuid: nat -> string, a: Images, b: Images, lo: nat, hi: nat)
    requires NoNewSnaps(a, b)
    ensures Shrunk(uuid, a, b, lo, hi)
  {
  }

  lemma {:induction false} ShrunkTrans(uuid: nat -> string, a: Images, b: Images, c: Images, lo: nat, mid: nat, hi: nat)
    requires lo <= mid <= hi
    requires Shrunk(uuid, a, b, lo, mid) && Shrunk(uuid, b, c, mid, hi)
    ensures Shrunk(uuid, a, c, lo, hi)
  {
    forall n, t | n in c && HasSnap(c[n], t) ensures HasSnap(a[n], t) || FreshSnapName(uuid, t, lo, hi) {
      if FreshSnapName(uuid, t, mid, hi) {
        var j :| mid <= j < hi && t == ZombieSnapshotPrefix + uuid(j);
      } else if FreshSnapName(uuid, t, lo, mid) {
        var j :| lo <= j < mid && t == ZombieSnapshotPrefix + uuid(j);
      }
    }
  }

  lemma FreshWiden(uuid: nat -> string, t: string, lo: nat, mid: nat, hi: nat)
    requires lo <= mid && FreshSnapName(uuid, t, mid, hi)
    ensures FreshSnapName(uuid, t, lo, hi)
  {
    var j :| mid <= j < hi && t == ZombieSnapshotPrefix + uuid(j);
  }

  /** A snapshot that is not there stays away while the pool only shrinks, unless a fresh
      zombie name brings the name back. */
  lemma StaysGone(uuid: nat -> string, a: Images, b: Images, lo: nat, hi: nat, x: string, name: string)
    requires Shrunk(uuid, a, b, lo, hi) && !SnapExists(a, x, name)
    ensures !SnapExists(b, x, name) || FreshSnapName(uuid, name, lo, hi)
  {
    SnapExistsHas(a, x, name);
    SnapExistsHas(b, x, name);
  }

  /** Blank lines list nothing: the `rbd children` listing is blank exactly when there are
      no clones, since every line names one. */
  lemma LinesBlank(lines: seq<string>)
    requires forall k :: 0 <= k < |lines| ==> '/' in lines[k]
    ensures AllSpace(Lines(lines)) <==> lines == []
  {
    if lines != [] {
      var j :| 0 <= j < |lines[0]| && lines[0][j] == '/';
      assert Lines(lines)[j] == '/';
    }
  }

  /** `<pool>/<image>` for every image, as `rbd children` prints them. */
  function Qualified(pool: string, names: seq<string>): (r: seq<string>)
    ensures |r| == |names|
    ensures forall k :: 0 <= k < |r| ==> r[k] == pool + "/" + names[k]
  {
    if names == [] then [] else [pool + "/" + names[0]] + Qualified(pool, names[1..])
  }

  /** One `{"name": …}` record per snapshot, as `rbd snap ls --format json` prints them. */
  function Records(snaps: seq<Snap>): (r: seq<SnapRecord>)
    ensures |r| == |snaps|
    ensures forall k :: 0 <= k < |r| ==> r[k] == SnapRecord(Some(JString(snaps[k].name)))
  {
    if snaps == [] then [] else [SnapRecord(Some(JString(snaps[0].name)))] + Records(snaps[1..])
  }

  /** The first lines `rbd info` prints for image `x`. */
  function InfoHeader(x: string): string
  {
    "rbd image '" + x + "':\n\tsize 0 B in 0 objects\n"
  }

  /** The lines `rbd info` prints for a clone of snapshot `s` of image `n`. */
  function ParentLine(pool: string, n: string, s: string): string
  {
    "\tparent: " + pool + "/" + n + "@" + s + "\n\toverlap: 0 B\n"
  }

  /** What `rbd info x` may print: the header, followed by a `parent:` line naming the
      image and snapshot `x` was cloned from when that snapshot is still there; no such
      line for an image that is not a clone. */
  ghost predicate InfoText(imgs: Images, pool: string, x: string, text: string)
  {
    && x in imgs
    && (imgs[x].parent.None? ==> text == InfoHeader(x))
    && (|| text == InfoHeader(x)
        || exists n, k :: && n in imgs && 0 <= k < |imgs[n].snaps|
                          && imgs[x].parent == Some(ParentRef(imgs[n].id, imgs[n].snaps[k].id))
                          && text == InfoHeader(x) + ParentLine(pool, n, imgs[n].snaps[k].name))
  }

  /** The parent `deleteVolume` cascades to: a zombie volume, or a zombie snapshot. */
  predicate ZombieParent(parent: (Volume, string))
  {
    parent.0.isDeleted || HasPrefix(parent.1, ZombiePrefix)
  }

  lemma UnmappedRemoved(imgs: Images, x: string)
    ensures Unmapped(imgs, x) - {x} == imgs - {x}
  {
  }

  // ---------------------------------------------------------------- the cluster

  class Cluster {
    /** The driver's OSD pool (`ceph.osd.pool_name`). */
    const osdPool: string
    /** `uuid.New()`: the identifier handed out the n-th time. */
    const uuid: nat -> string
    var images: Images
    /** How many identifiers have been handed out. */
    var issued: nat

    /** The pool as RBD keeps it: the snapshot names of each image are distinct. */
    ghost predicate Valid()
      reads this
    {
      UniqueSnaps(images)
    }

    constructor (osdPool: string, uuid: nat -> string, images: Images)
      requires UniqueSnaps(images)
      ensures this.osdPool == osdPool && this.uuid == uuid && this.images == images && issued == 0
      ensures Valid()
    {
      this.osdPool := osdPool;
      this.uuid := uuid;
      this.images := images;
      issued := 0;
    }

    /** `rbd snap ls --format json` on image `x`, decoded. */
    function SnapListing(x: string): (r: Result<seq<SnapRecord>>)
      reads this
      ensures r.Err? <==> x !in images
      ensures r.Err? ==> r.error == Command(Exit(ExitCodes.ENOENT))
      ensures r.Ok? ==> |r.value| == |images[x].snaps|
    {
      if x !in images then Err(Command(Exit(ExitCodes.ENOENT))) else Ok(Records(images[x].snaps))
    }

    /** `rbd children --image x --snap name`: one `<pool>/<clone>` line per clone. */
    method ListChildren(x: string, name: string) returns (out: Result<string>)
      ensures !SnapExists(images, x, name) ==> out == Err(Command(Exit(ExitCodes.ENOENT)))
      ensures out.Err? ==> out.error == Command(Exit(ExitCodes.ENOENT))
      ensures out.Ok? ==> SnapExists(images, x, name) && (AllSpace(out.value) <==> Clones(images, x, name) == {})
      ensures out.Ok? ==> exists order: seq<string> ::
                && |order| == |Clones(images, x, name)|
                && (forall n :: n in order <==> n in Clones(images, x, name))
                && out.value == Lines(Qualified(osdPool, order))
    {
      if !SnapExists(images, x, name) {
        return Err(Command(Exit(ExitCodes.ENOENT)));
      }
      var all := Clones(images, x, name);
      var rest := all;
      var order: seq<string> := [];
      while rest != {}
        invariant rest <= all
        invariant |order| + |rest| == |all|
        invariant forall n :: n in order <==> n in all && n !in rest
        decreases |rest|
      {
        var n :| n in rest;
        order := order + [n];
        rest := rest - {n};
      }
      var lines := Qualified(osdPool, order);
      forall k | 0 <= k < |lines| ensures '/' in lines[k] {
        assert lines[k][|osdPool|] == '/';
      }
      LinesBlank(lines);
      return Ok(Lines(lines));
    }

    /** `rbd info x`: a header, and for a clone whose origin is still there a
        `parent: <pool>/<image>@<snapshot>` line. */
    method Info(x: string) returns (out: Result<string>)
      ensures out.Err? <==> x !in images
      ensures out.Err? ==> out.error == Command(Exit(ExitCodes.ENOENT))
      ensures out.Ok? ==> InfoText(images, osdPool, x, out.value)
    {
      if x !in images {
        return Err(Command(Exit(ExitCodes.ENOENT)));
      }
      var text := InfoHeader(x);
      var p := images[x].parent;
      if p.Some? {
        var owners := set n | n in images && images[n].id == p.value.image;
        if owners != {} {
          var n :| n in owners;
          var k := 0;
          while k < |images[n].snaps| && images[n].snaps[k].id != p.value.snap
            invariant 0 <= k <= |images[n].snaps|
          {
            k := k + 1;
          }
          if k < |images[n].snaps| {
            text := text + ParentLine(osdPool, n, images[n].snaps[k].name);
          }
        }
      }
      return Ok(text);
    }

    /** `rbdUnprotectVolumeSnapshot`: EINVAL, "not protected", counts as success. */
    method UnprotectSnapshot(x: string, name: string) returns (o: Outcome)
      requires Valid()
      modifies this`images
      ensures Valid() && NoNewSnaps(old(images), images)
      ensures o == ExitCodes.UnprotectResult(UnprotectStatus(old(images), x, name))
      ensures images == if UnprotectStatus(old(images), x, name) != Success then old(images)
                        else var k := SnapIndex(old(images)[x].snaps, name);
                             WithSnap(old(images), x, k, old(images)[x].snaps[k].(protected := false))
      ensures AllKept(old(images), images)
      ensures images.Keys == old(images).Keys
    {
      var status := UnprotectStatus(images, x, name);
      if status == Success {
        var k := SnapIndex(images[x].snaps, name);
        WithSnapKeeps(images, x, k, images[x].snaps[k].(protected := false));
        WithSnapUnique(images, x, k, images[x].snaps[k].(protected := false));
        WithSnapNames(images, x, k, images[x].snaps[k].(protected := false));
        images := WithSnap(images, x, k, images[x].snaps[k].(protected := false));
      }
      o := ExitCodes.UnprotectResult(status);
    }

    /** `rbdUnmapVolume(vol, true)`: `rbd unmap` until it answers EINVAL. */
    method UnmapImage(x: string) returns (o: Outcome)
      requires Valid()
      modifies this`images
      ensures Valid() && NoNewSnaps(old(images), images)
      ensures o == ExitCodes.UnmapRun(UnmapScript(ImageMappings(old(images), x)), true, 0)
      ensures images == Unmapped(old(images), x)
      ensures AllKept(old(images), images)
    {
      var calls;
      o, calls := ExitCodes.UnmapVolume(UnmapScript(ImageMappings(images, x)), true);
      images := Unmapped(images, x);
    }

    /** `rbdUnmapVolumeSnapshot(vol, name, true)`: `rbd unmap` of `x@name` until it answers
        EINVAL. */
    method UnmapSnapshot(x: string, name: string) returns (o: Outcome)
      requires Valid()
      modifies this`images
      ensures Valid() && NoNewSnaps(old(images), images)
      ensures o == ExitCodes.SnapUnmapRun(UnmapScript(SnapMappings(old(images), x, name)), true)
      ensures images == SnapUnmapped(old(images), x, name)
      ensures AllKept(old(images), images)
      ensures images.Keys == old(images).Keys
    {
      var calls;
      o, calls := ExitCodes.UnmapVolumeSnapshot(UnmapScript(SnapMappings(images, x, name)), true);
      if SnapExists(images, x, name) {
        var k := SnapIndex(images[x].snaps, name);
        WithSnapKeeps(images, x, k, images[x].snaps[k].(mapped := 0));
        WithSnapUnique(images, x, k, images[x].snaps[k].(mapped := 0));
        WithSnapNames(images, x, k, images[x].snaps[k].(mapped := 0));
      }
      images := SnapUnmapped(images, x, name);
    }

    /** `rbdDeleteVolume`: `rbd rm`, which also succeeds when there is no such image. */
    method RemoveImage(x: string) returns (o: Outcome)
      requires Valid()
      modifies this`images
      ensures Valid() && NoNewSnaps(old(images), images)
      ensures o == ExitCodes.PlainResult(RemoveStatus(old(images), x))
      ensures images == if o == Pass then old(images) - {x} else old(images)
      ensures o == Pass ==> x !in images
      ensures ImagesKept(old(images), images, x)
    {
      o := ExitCodes.PlainResult(RemoveStatus(images, x));
      if o == Pass {
        images := images - {x};
      }
    }

    /** `rbdDeleteVolumeSnapshot`: `rbd snap rm`. */
    method RemoveSnapshot(x: string, name: string) returns (o: Outcome)
      requires Valid()
      modifies this`images
      ensures Valid() && NoNewSnaps(old(images), images)
      ensures o == Pass ==> !SnapExists(images, x, name)
      ensures o == ExitCodes.PlainResult(SnapRemoveStatus(old(images), x, name))
      ensures images == if o == Pass then WithoutSnap(old(images), x, SnapIndex(old(images)[x].snaps, name))
                        else old(images)
      ensures SnapKept(old(images), images, x, name)
      ensures images.Keys == old(images).Keys
    {
      o := ExitCodes.PlainResult(SnapRemoveStatus(images, x, name));
      if o == Pass {
        var k := SnapIndex(images[x].snaps, name);
        WithoutSnapKeeps(images, x, k);
        WithoutSnapUnique(images, x, name);
        WithoutSnapNames(images, x, k);
        images := WithoutSnap(images, x, k);
      }
    }

    /** `rbd mv x y`. */
    method Move(x: string, y: string) returns (o: Outcome)
      requires Valid()
      modifies this`images
      ensures Valid()
      ensures o == ExitCodes.PlainResult(MoveStatus(old(images), x, y))
      ensures images == if o == Pass then Moved(old(images), x, y) else old(images)
    {
      o := ExitCodes.PlainResult(MoveStatus(images, x, y));
      if o == Pass {
        MovedUnique(images, x, y);
        images := Moved(images, x, y);
      }
    }

    /** `rbdMarkVolumeDeleted`: move the volume's image to the zombie image of a volume
        called `newName` with the same type, content type and configuration. */
    method MarkVolumeDeleted(vol: Volume, newName: string) returns (o: Outcome)
      requires Valid()
      modifies this`images
      ensures Valid()
      ensures var x, y := ImageName(vol, ""), ImageName(ZombieVolume(vol, newName), "");
              && o == ExitCodes.PlainResult(MoveStatus(old(images), x, y))
              && images == (if o == Pass then Moved(old(images), x, y) else old(images))
      ensures ImagesKept(old(images), images, ImageName(vol, "")) && NoNewLive(old(images), images)
    {
      var x, y := ImageName(vol, ""), ImageName(ZombieVolume(vol, newName), "");
      if MoveStatus(images, x, y) == Success {
        MovedKeeps(images, x, y);
      }
      o := Move(x, y);
    }

    /** `rbdRenameVolume`: move the volume's image to that of a volume called `newName`
        with the same type, content type, configuration and zombie state. */
    method RenameVolume(vol: Volume, newName: string) returns (o: Outcome)
      requires Valid()
      modifies this`images
      ensures Valid()
      ensures var x, y := ImageName(vol, ""), ImageName(RenamedVolume(vol, newName), "");
              && o == ExitCodes.PlainResult(MoveStatus(old(images), x, y))
              && images == (if o == Pass then Moved(old(images), x, y) else old(images))
    {
      o := Move(ImageName(vol, ""), ImageName(RenamedVolume(vol, newName), ""));
    }

    /** `rbdRenameVolumeSnapshot`: `rbd snap rename`. */
    method RenameSnapshot(x: string, name: string, newName: string) returns (o: Outcome)
      requires Valid()
      modifies this`images
      ensures Valid()
      ensures o == Pass ==> !SnapExists(images, x, name) && SnapExists(images, x, newName)
      ensures forall n, t :: n in images && HasSnap(images[n], t) ==>
                n in old(images) && (HasSnap(old(images)[n], t) || t == newName)
      ensures o == ExitCodes.PlainResult(SnapRenameStatus(old(images), x, name, newName))
      ensures images == if o != Pass then old(images)
                        else var k := SnapIndex(old(images)[x].snaps, name);
                             WithSnap(old(images), x, k, old(images)[x].snaps[k].(name := newName))
      ensures SnapKept(old(images), images, x, name)
      ensures images.Keys == old(images).Keys
    {
      o := ExitCodes.PlainResult(SnapRenameStatus(images, x, name, newName));
      if o == Pass {
        var k := SnapIndex(images[x].snaps, name);
        WithSnapKeeps(images, x, k, images[x].snaps[k].(name := newName));
        WithSnapUnique(images, x, k, images[x].snaps[k].(name := newName));
        WithSnapNames(images, x, k, images[x].snaps[k].(name := newName));
        images := WithSnap(images, x, k, images[x].snaps[k].(name := newName));
        assert images[x].snaps[k].name == newName;
      }
    }

    // -------------------------------------------------------------- deletion

    /** `deleteVolume`: -1 on error, 0 when the image is gone, 1 when it was kept as a
        zombie because some of its snapshots still have clones. `fuel` bounds the depth
        of the recursion through `deleteVolumeSnapshot`. */
    method DeleteVolume(vol: Volume, fuel: nat) returns (code: int, err: Option<Error>)
      requires Valid()
      modifies this
      decreases fuel, 3
      ensures Valid()
      ensures code == -1 || code == 0 || code == 1
      ensures code == -1 <==> err.Some?
      ensures ImagesKept(old(images), images, ImageName(vol, ""))
      ensures NoNewLive(old(images), images)
      ensures vol.isDeleted ==> Shrunk(uuid, old(images), images, old(issued), issued)
      ensures ImageName(vol, "") !in old(images) ==> code == -1 && images == old(images)
      ensures code == 0 ==> ImageName(vol, "") !in images
      ensures code == 1 ==> ImageName(vol, "") in old(images) && old(images)[ImageName(vol, "")].snaps != []
      ensures code == 1 && vol.isDeleted && ImageName(vol, "") in images ==> images[ImageName(vol, "")].mapped == 0
      ensures code == 1 && !vol.isDeleted ==>
                && ImageName(vol, "") !in images
                && exists k :: old(issued) <= k < issued && ImageName(ZombieVolume(vol, vol.name + "_" + uuid(k)), "") in images
      ensures old(issued) <= issued
    {
      if fuel == 0 {
        return -1, Some(OutOfFuel);
      }
      var snaps := ListVolumeSnapshots(SnapListing(ImageName(vol, "")));
      if snaps.Ok? {
        code, err := DeleteListed(vol, snaps.value, fuel);
      } else if !snaps.error.IsNotFound() {
        code, err := -1, Some(snaps.error);
      } else {
        ghost var parent;
        code, err, parent := DeleteUnlisted(vol, fuel);
      }
    }

    /** `deleteVolume` for an image with snapshots: delete each snapshot; if any of them
        had clones, keep the image as a zombie, otherwise delete it. */
    method DeleteListed(vol: Volume, snaps: seq<string>, fuel: nat) returns (code: int, err: Option<Error>)
      requires fuel > 0 && Valid()
      modifies this
      decreases fuel, 2
      ensures Valid()
      ensures code == -1 || code == 0 || code == 1
      ensures code == -1 <==> err.Some?
      ensures ImagesKept(old(images), images, ImageName(vol, ""))
      ensures NoNewLive(old(images), images)
      ensures vol.isDeleted ==> Shrunk(uuid, old(images), images, old(issued), issued)
      ensures code == 0 ==> ImageName(vol, "") !in images
      ensures code == 1 && !vol.isDeleted ==>
                && ImageName(vol, "") !in images
                && exists k :: old(issued) <= k < issued && ImageName(ZombieVolume(vol, vol.name + "_" + uuid(k)), "") in images
      ensures code == 1 && vol.isDeleted && ImageName(vol, "") in images ==> images[ImageName(vol, "")].mapped == 0
      ensures old(issued) <= issued
    {
      var x := ImageName(vol, "");
      var zombies := 0;
      for i := 0 to |snaps|
        invariant Valid()
        invariant ImagesKept(old(images), images, x)
        invariant Shrunk(uuid, old(images), images, old(issued), issued)
        invariant old(issued) <= issued
      {
        ghost var before, from := images, issued;
        var ret, e := DeleteSnapshot(vol, snaps[i], fuel - 1);
        SnapKeptImages(before, images, x, snaps[i]);
        ImagesKeptTrans(old(images), before, images, x);
        ShrunkTrans(uuid, old(images), before, images, old(issued), from, issued);
        if ret < 0 {
          return -1, e;
        } else if ret == 1 {
          zombies := zombies + 1;
        }
      }
      ghost var before, from := images, issued;
      if zombies > 0 {
        code, err := Zombify(vol);
      } else {
        var o := RemoveImage(x);
        NoNewSnapsShrunk(uuid, before, images, from, issued);
        if o.Fail? {
          code, err := -1, Some(o.error);
        } else {
          code, err := 0, None;
        }
      }
      ImagesKeptTrans(old(images), before, images, x);
      if vol.isDeleted {
        ShrunkTrans(uuid, old(images), before, images, old(issued), from, issued);
      }
    }

    /** The end of `deleteVolume` when some snapshot had clones: unmap the image and, unless
        it already is one, rename it to the zombie `<name>_<uuid>`. */
    method Zombify(vol: Volume) returns (code: int, err: Option<Error>)
      requires Valid()
      modifies this
      ensures Valid()
      ensures code == -1 || code == 1
      ensures code == -1 <==> err.Some?
      ensures ImagesKept(old(images), images, ImageName(vol, ""))
      ensures NoNewLive(old(images), images)
      ensures vol.isDeleted ==> Shrunk(uuid, old(images), images, old(issued), issued)
      ensures code == 1 && !vol.isDeleted ==>
                && ImageName(vol, "") !in images
                && exists k :: old(issued) <= k < issued && ImageName(ZombieVolume(vol, vol.name + "_" + uuid(k)), "") in images
      ensures code == 1 && vol.isDeleted ==>
                images == Unmapped(old(images), ImageName(vol, "")) && issued == old(issued)
      ensures old(issued) <= issued
    {
      var x := ImageName(vol, "");
      var o := UnmapImage(x);
      AllKeptWeakens(old(images), images, x, "");
      NoNewSnapsShrunk(uuid, old(images), images, issued, issued);
      if o.Fail? {
        return -1, Some(o.error);
      }
      if vol.isDeleted {
        return 1, None;
      }
      ghost var k := issued;
      var newName := vol.name + "_" + uuid(issued);
      issued := issued + 1;
      ghost var before := images;
      o := MarkVolumeDeleted(vol, newName);
      ImagesKeptTrans(old(images), before, images, x);
      if o.Fail? {
        return -1, Some(o.error);
      }
      assert ImageName(ZombieVolume(vol, vol.name + "_" + uuid(k)), "") in images;
      return 1, None;
    }

    /** `deleteVolume` for an image without snapshots: unmap and delete it, then, for a
        clone of a zombie snapshot or of a snapshot of a zombie, delete that snapshot.
        `parent` is the origin read from the `parent:` line of `rbd info`, if there is one. */
    method DeleteUnlisted(vol: Volume, fuel: nat) returns (code: int, err: Option<Error>, ghost parent: Option<(Volume, string)>)
      requires fuel > 0 && Valid()
      modifies this
      decreases fuel, 2
      ensures Valid()
      ensures code == -1 || code == 0
      ensures code == -1 <==> err.Some?
      ensures ImagesKept(old(images), images, ImageName(vol, ""))
      ensures Shrunk(uuid, old(images), images, old(issued), issued)
      ensures code == 0 ==> ImageName(vol, "") !in images
      ensures parent.Some? ==> exists text :: && InfoText(old(images), osdPool, ImageName(vol, ""), text)
                                              && VolumeParent(Ok(text)).Ok?
                                              && ParseParent(VolumeParent(Ok(text)).value) == Ok(parent.value)
      ensures code == 0 && (parent.None? || !ZombieParent(parent.value)) ==> images == old(images) - {ImageName(vol, "")}
      ensures code == 0 && parent.Some? && ZombieParent(parent.value) ==>
                !SnapExists(images, ImageName(parent.value.0, ""), parent.value.1) || IsZombieName(parent.value.1)
      ensures old(issued) <= issued
    {
      parent := None;
      var x := ImageName(vol, "");
      var info := Info(x);
      var line := VolumeParent(info);
      if line.Err? {
        if !line.error.IsNotFound() {
          return -1, Some(line.error), None;
        }
        var o := UnmapAndRemove(x);
        NoNewSnapsShrunk(uuid, old(images), images, issued, issued);
        if o.Fail? {
          return -1, Some(o.error), None;
        }
        return 0, None, None;
      }
      var parsed := ParseParent(line.value);
      if parsed.Err? {
        return -1, Some(parsed.error), None;
      }
      var (parentVol, parentSnap) := parsed.value;
      parent := Some(parsed.value);
      assert InfoText(old(images), osdPool, x, info.value);
      var o := UnmapAndRemove(x);
      NoNewSnapsShrunk(uuid, old(images), images, issued, issued);
      if o.Fail? {
        return -1, Some(o.error), parent;
      }
      if parentVol.isDeleted || HasPrefix(parentSnap, ZombiePrefix) {
        ghost var removed, from := images, issued;
        var ret, e := DeleteSnapshot(parentVol, parentSnap, fuel - 1);
        ZombieExempt(removed, images, ImageName(parentVol, ""), parentSnap);
        AllKeptWeakens(removed, images, x, "");
        ImagesKeptTrans(old(images), removed, images, x);
        ShrunkTrans(uuid, old(images), removed, images, old(issued), from, issued);
        if ret < 0 {
          return -1, e, parent;
        }
        if FreshSnapName(uuid, parentSnap, from, issued) {
          FreshIsZombie(uuid, parentSnap, from, issued);
        }
      }
      return 0, None, parent;
    }

    /** `rbdUnmapVolume(vol, true)` followed by `rbdDeleteVolume`. */
    method UnmapAndRemove(x: string) returns (o: Outcome)
      requires Valid()
      modifies this`images
      ensures Valid() && NoNewSnaps(old(images), images)
      ensures ImagesKept(old(images), images, x)
      ensures o == Pass ==> images == old(images) - {x}
    {
      o := UnmapImage(x);
      AllKeptWeakens(old(images), images, x, "");
      if o.Fail? {
        return;
      }
      ghost var unmapped := images;
      o := RemoveImage(x);
      ImagesKeptTrans(old(images), unmapped, images, x);
      NoNewSnapsTrans(old(images), unmapped, images);
      UnmappedRemoved(old(images), x);
    }

    /** `deleteVolumeSnapshot`: -1 on error, 0 when the snapshot had no clone (it is then
        deleted), 1 when it had clones. Zombie clones are deleted first; the snapshot
        goes if none of its clones remains, and is renamed `zombie_snapshot_<uuid>`
        otherwise. Deleting the last snapshot of a zombie image deletes the image. */
    method DeleteSnapshot(vol: Volume, name: string, fuel: nat) returns (code: int, err: Option<Error>)
      requires Valid()
      modifies this
      decreases fuel, 1
      ensures Valid()
      ensures code == -1 || code == 0 || code == 1
      ensures code == -1 <==> err.Some?
      ensures SnapKept(old(images), images, ImageName(vol, ""), name)
      ensures Shrunk(uuid, old(images), images, old(issued), issued)
      ensures !SnapExists(old(images), ImageName(vol, ""), name) ==> code == -1 && images == old(images)
      ensures code == 0 ==> SnapExists(old(images), ImageName(vol, ""), name)
                            && Clones(old(images), ImageName(vol, ""), name) == {}
      ensures code == 1 ==> SnapExists(old(images), ImageName(vol, ""), name)
                            && Clones(old(images), ImageName(vol, ""), name) != {}
      ensures code == 0 ==> !SnapExists(images, ImageName(vol, ""), name)
                            || FreshSnapName(uuid, name, old(issued), issued)
      ensures code == 1 && !IsZombieName(name) ==> !SnapExists(images, ImageName(vol, ""), name)
      ensures (code == 0 && vol.isDeleted && ImageName(vol, "") in old(images)
               && |old(images)[ImageName(vol, "")].snaps| == 1)
              ==> ImageName(vol, "") !in images
      ensures old(issued) <= issued
    {
      if fuel == 0 {
        return -1, Some(OutOfFuel);
      }
      var x := ImageName(vol, "");
      var out := ListChildren(x, name);
      var clones := SnapshotClones(out);
      if clones.Err? {
        if !clones.error.IsNotFound() {
          return -1, Some(clones.error);
        }
        err := Purge(vol, name, fuel);
        if err.Some? {
          return -1, err;
        }
        return 0, None;
      }
      var canDelete := true;
      for i := 0 to |clones.value|
        invariant Valid()
        invariant AllKept(old(images), images)
        invariant Shrunk(uuid, old(images), images, old(issued), issued)
        invariant old(issued) <= issued
      {
        var parsed := ParseClone(clones.value[i]);
        if parsed.Err? {
          return -1, Some(parsed.error);
        }
        var (_, cloneType, cloneName, isDeleted) := parsed.value;
        if !isDeleted {
          canDelete := false;
          continue;
        }
        var cloneVol := CloneVolume(vol.pool, cloneType, cloneName, vol.contentType, isDeleted);
        ghost var before, from := images, issued;
        var ret, e := DeleteVolume(cloneVol, fuel - 1);
        ZombieExempt(before, images, ImageName(cloneVol, ""), "");
        AllKeptTrans(old(images), before, images);
        ShrunkTrans(uuid, old(images), before, images, old(issued), from, issued);
        if ret < 0 {
          return -1, e;
        } else if ret == 1 {
          canDelete := false;
        }
      }
      ghost var before, from := images, issued;
      if canDelete {
        err := Purge(vol, name, fuel);
        AllKeptWeakens(old(images), before, x, name);
        SnapKeptTrans(old(images), before, images, x, name);
        ShrunkTrans(uuid, old(images), before, images, old(issued), from, issued);
        if err.Some? {
          return -1, err;
        }
        if FreshSnapName(uuid, name, from, issued) {
          FreshIsZombie(uuid, name, from, issued);
        }
      } else {
        if HasPrefix(name, ZombiePrefix) {
          return 1, None;
        }
        var o := MarkSnapshotDeleted(x, name);
        AllKeptWeakens(old(images), before, x, name);
        SnapKeptTrans(old(images), before, images, x, name);
        ShrunkTrans(uuid, old(images), before, images, old(issued), from, issued);
        if o.Fail? {
          return -1, Some(o.error);
        }
      }
      return 1, None;
    }

    /** What both branches of `deleteVolumeSnapshot` do once the snapshot may go: unprotect,
        unmap and delete it, then delete its image if that is a zombie. */
    method Purge(vol: Volume, name: string, fuel: nat) returns (err: Option<Error>)
      requires fuel > 0 && Valid()
      modifies this
      decreases fuel, 0
      ensures Valid()
      ensures SnapKept(old(images), images, ImageName(vol, ""), name)
      ensures Shrunk(uuid, old(images), images, old(issued), issued)
      ensures err.None? ==> SnapExists(old(images), ImageName(vol, ""), name)
      ensures err.None? ==> !SnapExists(images, ImageName(vol, ""), name)
                            || FreshSnapName(uuid, name, old(issued), issued)
      ensures (err.None? && vol.isDeleted && ImageName(vol, "") in old(images)
               && |old(images)[ImageName(vol, "")].snaps| == 1)
              ==> ImageName(vol, "") !in images
      ensures old(issued) <= issued
    {
      var x := ImageName(vol, "");
      var o := DropSnapshot(x, name);
      NoNewSnapsShrunk(uuid, old(images), images, issued, issued);
      if o.Fail? {
        return Some(o.error);
      }
      if vol.isDeleted {
        ghost var before := images;
        var ret, e := DeleteVolume(vol, fuel - 1);
        ZombieExempt(before, images, x, name);
        AllKeptWeakens(before, images, x, name);
        SnapKeptTrans(old(images), before, images, x, name);
        ShrunkTrans(uuid, old(images), before, images, old(issued), old(issued), issued);
        StaysGone(uuid, before, images, old(issued), issued, x, name);
        if ret < 0 {
          return e;
        }
      }
      return None;
    }

    /** `rbdUnprotectVolumeSnapshot`, `rbdUnmapVolumeSnapshot` and `rbdDeleteVolumeSnapshot`
        in turn, stopping at the first error. On success the snapshot is removed and the
        rest of the pool is as it was. */
    method DropSnapshot(x: string, name: string) returns (o: Outcome)
      requires Valid()
      modifies this`images
      ensures Valid() && NoNewSnaps(old(images), images)
      ensures o == Pass ==> && SnapExists(old(images), x, name)
                            && images == WithoutSnap(old(images), x, SnapIndex(old(images)[x].snaps, name))
      ensures o == Pass ==> !SnapExists(images, x, name)
      ensures SnapKept(old(images), images, x, name)
      ensures images.Keys == old(images).Keys
    {
      o := UnprotectSnapshot(x, name);
      AllKeptWeakens(old(images), images, x, name);
      if o.Fail? {
        return;
      }
      ghost var k := SnapIndex(old(images)[x].snaps, name);
      ghost var unprotected := images;
      ghost var s1 := images[x].snaps[k];
      if unprotected == old(images) {
        WithSnapSame(old(images), x, k);
      }
      assert unprotected == WithSnap(old(images), x, k, s1);
      UniqueIndex(images, x, k, name);
      o := UnmapSnapshot(x, name);
      AllKeptTrans(old(images), unprotected, images);
      AllKeptWeakens(old(images), images, x, name);
      NoNewSnapsTrans(old(images), unprotected, images);
      WithSnapTwice(old(images), x, k, s1, s1.(mapped := 0));
      if o.Fail? {
        return;
      }
      ghost var unmapped := images;
      UniqueIndex(images, x, k, name);
      o := RemoveSnapshot(x, name);
      SnapKeptTrans(old(images), unmapped, images, x, name);
      NoNewSnapsTrans(old(images), unmapped, images);
      WithoutWithSnap(old(images), x, k, s1.(mapped := 0));
    }

    /** The end of `deleteVolumeSnapshot` when clones remain: unmap the snapshot and rename
        it `zombie_snapshot_<uuid>`. */
    method MarkSnapshotDeleted(x: string, name: string) returns (o: Outcome)
      requires Valid()
      modifies this
      ensures Valid()
      ensures o == Pass ==>
                && issued == old(issued) + 1 && SnapExists(old(images), x, name)
                && var k := SnapIndex(old(images)[x].snaps, name);
                   images == WithSnap(old(images), x, k,
                                      old(images)[x].snaps[k].(name := ZombieSnapshotPrefix + uuid(old(issued)), mapped := 0))
      ensures o == Pass ==> !SnapExists(images, x, name)
      ensures Shrunk(uuid, old(images), images, old(issued), issued)
      ensures SnapKept(old(images), images, x, name)
      ensures images.Keys == old(images).Keys
      ensures issued == old(issued) + 1 || (issued == old(issued) && o.Fail?)
    {
      o := UnmapSnapshot(x, name);
      AllKeptWeakens(old(images), images, x, name);
      NoNewSnapsShrunk(uuid, old(images), images, issued, issued);
      if o.Fail? {
        return;
      }
      var newName := ZombieSnapshotPrefix + uuid(issued);
      issued := issued + 1;
      ghost var unmapped := images;
      o := RenameSnapshot(x, name, newName);
      SnapKeptTrans(old(images), unmapped, images, x, name);
      forall n, t | n in images && HasSnap(images[n], t)
        ensures HasSnap(old(images)[n], t) || FreshSnapName(uuid, t, old(issued), issued)
      {
        if t == newName {
          assert t == ZombieSnapshotPrefix + uuid(old(issued));
        }
      }
      if o == Pass {
        var k := SnapIndex(old(images)[x].snaps, name);
        UniqueIndex(unmapped, x, k, name);
        WithSnapTwice(old(images), x, k, old(images)[x].snaps[k].(mapped := 0),
                      old(images)[x].snaps[k].(mapped := 0).(name := newName));
      }
    }
  }
}
