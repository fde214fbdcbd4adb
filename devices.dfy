/** `getRBDMappedDevPath`: finding the `/dev/rbd<N>` device an image is mapped to by walking
    `/sys/devices/rbd`, and mapping the image when no device shows it. The directory listing,
    the attribute files and the output of `rbd map` are inputs. */
module Devices {
  import opened Outcomes
  import opened Strings
  import opened Naming
  import opened Listing

  /** Reading one attribute file of a device directory. A missing file is not an error. */
  datatype FileRead = Missing | ReadFailed(error: Error) | Content(text: string)

  /** An entry of `/sys/devices/rbd` with the `pool`, `name` and `current_snap` files
      found under it. */
  datatype DeviceEntry = DeviceEntry(
    name: string,
    isDir: bool,
    pool: FileRead,
    image: FileRead,
    currentSnap: FileRead)

  /** Listing `/sys/devices/rbd`; the directory is absent until a device is first mapped. */
  datatype DeviceDir = NoDeviceDir | DirFailed(error: Error) | Listed(entries: seq<DeviceEntry>)

  /** What the scan does with one entry: go on, stop with a device number, or stop with an error. */
  datatype Verdict = Skip | Found(index: nat) | Abort(error: Error)

  /** `strings.SplitN(rbdName, "@", 2)`: the image part, and the snapshot part if there is one. */
  function NameParts(rbdName: string): (r: (string, Option<string>))
    ensures r.1.None? <==> '@' !in rbdName
    ensures r.1.None? ==> r.0 == rbdName
    ensures r.1.Some? ==> r.0 + "@" + r.1.value == rbdName && '@' !in r.0
  {
    match SplitFirst(rbdName, '@')
    case None => (rbdName, None)
    case Some((image, snap)) => (image, Some(snap))
  }

  /** The snapshot a device maps: its trimmed `current_snap`, or empty when there is no such file. */
  function CurrentSnap(f: FileRead): string
  {
    if f.Content? then TrimSpace(f.text) else ""
  }

  /** A snapshot volume needs a device on its snapshot; any other volume a device on no
      snapshot (`current_snap` of `-` or empty). */
  predicate SnapMatches(isSnapshot: bool, snapPart: Option<string>, devSnap: string)
  {
    if isSnapshot then snapPart == Some(devSnap) else devSnap == "-" || devSnap == ""
  }

  /** A device directory: a directory whose name is a device number. */
  predicate IsDevice(e: DeviceEntry)
  {
    e.isDir && ParseUint(e.name).Some?
  }

  /** The attribute file was read and holds `want`, up to surrounding white space. */
  predicate Shows(f: FileRead, want: string)
  {
    f.Content? && TrimSpace(f.text) == want
  }

  /** The body of the scan loop of `getRBDMappedDevPath` for one entry. */
  function EntryVerdict(e: DeviceEntry, osdPool: string, rbdName: string, isSnapshot: bool): (r: Verdict)
    ensures r.Found? ==> ParseUint(e.name) == Some(r.index)
  {
    var parts := NameParts(rbdName);
    if !e.isDir || ParseUint(e.name).None? then Skip
    else if e.pool.Missing? then Skip
    else if e.pool.ReadFailed? then Abort(e.pool.error)
    else if TrimSpace(e.pool.text) != osdPool then Skip
    else if e.image.Missing? then Skip
    else if e.image.ReadFailed? then Abort(e.image.error)
    else if TrimSpace(e.image.text) != parts.0 then Skip
    else if e.currentSnap.ReadFailed? then Abort(e.currentSnap.error)
    else if SnapMatches(isSnapshot, parts.1, CurrentSnap(e.currentSnap)) then Found(ParseUint(e.name).value)
    else Skip
  }

  /** An entry is a match exactly when it is a device directory whose `pool` and `name`
      files show the driver's pool and the image, and whose `current_snap` shows the
      snapshot looked for (or none). The files are read in the order `pool`, `name`,
      `current_snap`, each only once the ones before it matched, so a read error aborts the
      scan only on a file that was reached. */
  lemma VerdictOf(e: DeviceEntry, osdPool: string, rbdName: string, isSnapshot: bool)
    ensures var r := EntryVerdict(e, osdPool, rbdName, isSnapshot);
      && (r.Found? <==> && IsDevice(e) && Shows(e.pool, osdPool) && Shows(e.image, NameParts(rbdName).0)
                        && !e.currentSnap.ReadFailed?
                        && SnapMatches(isSnapshot, NameParts(rbdName).1, CurrentSnap(e.currentSnap)))
      && (r.Abort? <==> && IsDevice(e)
                        && (|| e.pool.ReadFailed?
                            || (Shows(e.pool, osdPool) && e.image.ReadFailed?)
                            || (Shows(e.pool, osdPool) && Shows(e.image, NameParts(rbdName).0)
                                && e.currentSnap.ReadFailed?)))
      && (r.Found? ==> ParseUint(e.name) == Some(r.index))
      && (r.Abort? ==> r.error == if e.pool.ReadFailed? then e.pool.error
                                  else if e.image.ReadFailed? then e.image.error
                                  else e.currentSnap.error)
  {
  }

  /** What the scan makes of each entry, in listing order. */
  function Verdicts(entries: seq<DeviceEntry>, osdPool: string, rbdName: string, isSnapshot: bool): (vs: seq<Verdict>)
    ensures |vs| == |entries|
    decreases |entries|
  {
    if entries == [] then []
    else [EntryVerdict(entries[0], osdPool, rbdName, isSnapshot)] + Verdicts(entries[1..], osdPool, rbdName, isSnapshot)
  }

  lemma {:induction false} VerdictsAt(entries: seq<DeviceEntry>, osdPool: string, rbdName: string, isSnapshot: bool, k: nat)
    requires k < |entries|
    ensures Verdicts(entries, osdPool, rbdName, isSnapshot)[k] == EntryVerdict(entries[k], osdPool, rbdName, isSnapshot)
    decreases k
  {
    if k > 0 {
      VerdictsAt(entries[1..], osdPool, rbdName, isSnapshot, k - 1);
      assert entries[1..][k - 1] == entries[k];
    }
  }

  /** Entries the scan passes over give `Skip` verdicts. */
  lemma SkipsBefore(entries: seq<DeviceEntry>, osdPool: string, rbdName: string, isSnapshot: bool, k: nat)
    requires k <= |entries|
    requires forall j :: 0 <= j < k ==> EntryVerdict(entries[j], osdPool, rbdName, isSnapshot) == Skip
    ensures forall j :: 0 <= j < k ==> Verdicts(entries, osdPool, rbdName, isSnapshot)[j] == Skip
  {
    forall j | 0 <= j < k ensures Verdicts(entries, osdPool, rbdName, isSnapshot)[j] == Skip {
      VerdictsAt(entries, osdPool, rbdName, isSnapshot, j);
    }
  }

  /** The scan stops at the first entry found, with its device number. */
  lemma FirstFoundDecides(entries: seq<DeviceEntry>, osdPool: string, rbdName: string, isSnapshot: bool, k: nat)
    requires k < |entries|
    requires forall j :: 0 <= j < k ==> EntryVerdict(entries[j], osdPool, rbdName, isSnapshot) == Skip
    requires EntryVerdict(entries[k], osdPool, rbdName, isSnapshot).Found?
    ensures ParseUint(entries[k].name).Some?
    ensures FirstDecision(Verdicts(entries, osdPool, rbdName, isSnapshot)) == Ok(Some(ParseUint(entries[k].name).value))
  {
    var vs := Verdicts(entries, osdPool, rbdName, isSnapshot);
    SkipsBefore(entries, osdPool, rbdName, isSnapshot, k);
    VerdictsAt(entries, osdPool, rbdName, isSnapshot, k);
    DecidedAt(vs, k);
  }

  /** The outcome one verdict gives when the scan stops on it. */
  function Decided(v: Verdict): Result<Option<nat>>
  {
    match v
    case Skip => Ok(None)
    case Found(idx) => Ok(Some(idx))
    case Abort(e) => Err(e)
  }

  /** The scan: the first verdict that is not `Skip` decides; none at all finds nothing. */
  function FirstDecision(vs: seq<Verdict>): (r: Result<Option<nat>>)
    ensures r == Ok(None) <==> forall k :: 0 <= k < |vs| ==> vs[k] == Skip
  {
    if vs == [] then Ok(None)
    else if vs[0] == Skip then
      var r := FirstDecision(vs[1..]);
      assert forall k :: 1 <= k < |vs| ==> vs[k] == vs[1..][k - 1];
      r
    else Decided(vs[0])
  }

  /** When every verdict before `k` skips and verdict `k` does not, verdict `k` decides. */
  lemma {:induction false} DecidedAt(vs: seq<Verdict>, k: nat)
    requires k < |vs| && vs[k] != Skip
    requires forall j :: 0 <= j < k ==> vs[j] == Skip
    ensures FirstDecision(vs) == Decided(vs[k])
    decreases k
  {
    if k > 0 {
      assert vs[0] == Skip;
      assert forall j :: 0 <= j < k - 1 ==> vs[1..][j] == vs[j + 1];
      DecidedAt(vs[1..], k - 1);
    }
  }

  /** Conversely, a scan that found a device or failed stopped at some verdict, all before
      it skipping. */
  lemma {:induction false} DecidedSomewhere(vs: seq<Verdict>) returns (k: nat)
    requires FirstDecision(vs) != Ok(None)
    ensures k < |vs| && vs[k] != Skip
    ensures forall j :: 0 <= j < k ==> vs[j] == Skip
    ensures FirstDecision(vs) == Decided(vs[k])
    decreases |vs|
  {
    if vs[0] == Skip {
      var k' := DecidedSomewhere(vs[1..]);
      k := k' + 1;
      assert forall j :: 1 <= j < k ==> vs[j] == vs[1..][j - 1];
    } else {
      k := 0;
    }
  }

  /** `/dev/rbd<N>`. */
  function DevicePath(index: nat): (path: string)
    ensures HasPrefix(path, DevicePrefix)
    ensures index <= MaxUint64 ==> ParseUint(path[|DevicePrefix|..]) == Some(index)
  {
    var path := DevicePrefix + NatToString(index);
    assert path[..|DevicePrefix|] == DevicePrefix && path[|DevicePrefix|..] == NatToString(index);
    assert index <= MaxUint64 ==> ParseUint(NatToString(index)) == Some(index) by {
      if index <= MaxUint64 {
        ParseFormatted(index);
      }
    }
    path
  }

  /** `getRBDMappedDevPath`: whether the image had to be mapped, and its device path. The
      image looked for is the volume's own image name, without the pool. */
  function MappedDevPath(dir: DeviceDir, osdPool: string, vol: Volume, mapIfMissing: bool, mapOutput: Result<string>)
    : (r: Result<(bool, string)>)
    ensures dir.DirFailed? ==> r == Err(dir.error)
    ensures r.Ok? ==> HasPrefix(r.value.1, DevicePrefix)
    ensures r.Ok? && r.value.0 ==> mapIfMissing && MapDevicePath(mapOutput) == Ok(r.value.1)
    ensures dir.NoDeviceDir? ==> r == (if mapIfMissing then MapResult(mapOutput) else Err(NotMapped(vol.name)))
  {
    var rbdName := RBDVolumeName(osdPool, vol, "", false);
    match dir
    case DirFailed(e) => Err(e)
    case _ =>
      var entries := ListedEntries(dir);
      match FirstDecision(Verdicts(entries, osdPool, rbdName, vol.IsSnapshot()))
      case Err(e) => Err(e)
      case Ok(Some(idx)) => Ok((false, DevicePath(idx)))
      case Ok(None) => if mapIfMissing then MapResult(mapOutput) else Err(NotMapped(vol.name))
  }

  /** The device directories listed; none when `/sys/devices/rbd` does not exist. */
  function ListedEntries(dir: DeviceDir): seq<DeviceEntry>
  {
    match dir
    case Listed(entries) => entries
    case _ => []
  }

  /** Falling back to `rbdMapVolume`. */
  function MapResult(mapOutput: Result<string>): (r: Result<(bool, string)>)
    ensures r.Ok? <==> MapDevicePath(mapOutput).Ok?
    ensures r.Ok? ==> r.value == (true, MapDevicePath(mapOutput).value)
    ensures r.Err? ==> r.error == MapDevicePath(mapOutput).error
  {
    match MapDevicePath(mapOutput)
    case Ok(path) => Ok((true, path))
    case Err(e) => Err(e)
  }

  /** A device found in sysfs is the first device directory, in listing order, that belongs to
      the driver's pool and shows the image (and snapshot); every entry before it was passed
      over, and its path carries that directory's device number. */
  lemma FoundIsFirstMatch(dir: DeviceDir, osdPool: string, vol: Volume, mapIfMissing: bool, mapOutput: Result<string>)
    returns (k: nat)
    requires MappedDevPath(dir, osdPool, vol, mapIfMissing, mapOutput).Ok?
    requires !MappedDevPath(dir, osdPool, vol, mapIfMissing, mapOutput).value.0
    ensures dir.Listed? && k < |dir.entries|
    ensures var rbdName := RBDVolumeName(osdPool, vol, "", false);
      && (forall j :: 0 <= j < k ==> EntryVerdict(dir.entries[j], osdPool, rbdName, vol.IsSnapshot()) == Skip)
      && EntryVerdict(dir.entries[k], osdPool, rbdName, vol.IsSnapshot()).Found?
      && MappedDevPath(dir, osdPool, vol, mapIfMissing, mapOutput).value.1
         == DevicePath(ParseUint(dir.entries[k].name).value)
  {
    var rbdName := RBDVolumeName(osdPool, vol, "", false);
    assert dir.Listed?;
    var vs := Verdicts(dir.entries, osdPool, rbdName, vol.IsSnapshot());
    k := DecidedSomewhere(vs);
    forall j | 0 <= j < k ensures EntryVerdict(dir.entries[j], osdPool, rbdName, vol.IsSnapshot()) == Skip {
      VerdictsAt(dir.entries, osdPool, rbdName, vol.IsSnapshot(), j);
    }
    VerdictsAt(dir.entries, osdPool, rbdName, vol.IsSnapshot(), k);
  }

  /** Conversely, the first device directory that matches is the one reported, whether or
      not mapping was allowed. */
  lemma FirstMatchIsFound(entries: seq<DeviceEntry>, osdPool: string, vol: Volume, mapIfMissing: bool,
                          mapOutput: Result<string>, k: nat)
    requires k < |entries|
    requires var rbdName := RBDVolumeName(osdPool, vol, "", false);
      && (forall j :: 0 <= j < k ==> EntryVerdict(entries[j], osdPool, rbdName, vol.IsSnapshot()) == Skip)
      && EntryVerdict(entries[k], osdPool, rbdName, vol.IsSnapshot()).Found?
    ensures MappedDevPath(Listed(entries), osdPool, vol, mapIfMissing, mapOutput)
            == Ok((false, DevicePath(ParseUint(entries[k].name).value)))
  {
    FirstFoundDecides(entries, osdPool, RBDVolumeName(osdPool, vol, "", false), vol.IsSnapshot(), k);
  }

  /** When no device directory matches, the image is mapped if that is allowed, and
      otherwise the lookup fails with "not mapped". */
  lemma NoMatchFallsBack(entries: seq<DeviceEntry>, osdPool: string, vol: Volume, mapIfMissing: bool,
                         mapOutput: Result<string>)
    requires forall k :: 0 <= k < |entries| ==>
               EntryVerdict(entries[k], osdPool, RBDVolumeName(osdPool, vol, "", false), vol.IsSnapshot()) == Skip
    ensures MappedDevPath(Listed(entries), osdPool, vol, mapIfMissing, mapOutput)
            == if mapIfMissing then MapResult(mapOutput) else Err(NotMapped(vol.name))
  {
    var rbdName := RBDVolumeName(osdPool, vol, "", false);
    SkipsBefore(entries, osdPool, rbdName, vol.IsSnapshot(), |entries|);
  }

  /** The first device directory whose files cannot be read, before any match, ends the
      lookup with that read error: the image is not mapped then. */
  lemma FirstAbortFails(entries: seq<DeviceEntry>, osdPool: string, vol: Volume, mapIfMissing: bool,
                        mapOutput: Result<string>, k: nat)
    requires k < |entries|
    requires var rbdName := RBDVolumeName(osdPool, vol, "", false);
      && (forall j :: 0 <= j < k ==> EntryVerdict(entries[j], osdPool, rbdName, vol.IsSnapshot()) == Skip)
      && EntryVerdict(entries[k], osdPool, rbdName, vol.IsSnapshot()).Abort?
    ensures MappedDevPath(Listed(entries), osdPool, vol, mapIfMissing, mapOutput)
            == Err(EntryVerdict(entries[k], osdPool, RBDVolumeName(osdPool, vol, "", false), vol.IsSnapshot()).error)
  {
    var rbdName := RBDVolumeName(osdPool, vol, "", false);
    var vs := Verdicts(entries, osdPool, rbdName, vol.IsSnapshot());
    SkipsBefore(entries, osdPool, rbdName, vol.IsSnapshot(), k);
    VerdictsAt(entries, osdPool, rbdName, vol.IsSnapshot(), k);
    DecidedAt(vs, k);
  }

  /** The image is mapped only when the scan passed over every device directory. */
  lemma MappedOnlyWhenAllSkipped(dir: DeviceDir, osdPool: string, vol: Volume, mapIfMissing: bool,
                                 mapOutput: Result<string>)
    requires MappedDevPath(dir, osdPool, vol, mapIfMissing, mapOutput).Ok?
    requires MappedDevPath(dir, osdPool, vol, mapIfMissing, mapOutput).value.0
    ensures !dir.DirFailed?
    ensures forall k :: 0 <= k < |ListedEntries(dir)| ==>
              EntryVerdict(ListedEntries(dir)[k], osdPool, RBDVolumeName(osdPool, vol, "", false), vol.IsSnapshot()) == Skip
  {
    var rbdName := RBDVolumeName(osdPool, vol, "", false);
    var entries := ListedEntries(dir);
    var vs := Verdicts(entries, osdPool, rbdName, vol.IsSnapshot());
    assert FirstDecision(vs) == Ok(None);
    forall k | 0 <= k < |entries|
      ensures EntryVerdict(entries[k], osdPool, rbdName, vol.IsSnapshot()) == Skip
    {
      VerdictsAt(entries, osdPool, rbdName, vol.IsSnapshot(), k);
    }
  }

  /** One pass of the loop of `getRBDMappedDevPath`, with its early `continue`s (`Skip`) and
      `return`s. */
  method CheckEntry(f: DeviceEntry, osdPool: string, rbdName: string, isSnapshot: bool) returns (v: Verdict)
    ensures v == EntryVerdict(f, osdPool, rbdName, isSnapshot)
  {
    if !f.isDir {
      return Skip;
    }
    var idx := ParseUint(f.name);
    if idx.None? {
      return Skip;
    }
    if f.pool.Missing? {
      return Skip;
    } else if f.pool.ReadFailed? {
      return Abort(f.pool.error);
    }
    if TrimSpace(f.pool.text) != osdPool {
      return Skip;
    }
    if f.image.Missing? {
      return Skip;
    } else if f.image.ReadFailed? {
      return Abort(f.image.error);
    }
    var parts := NameParts(rbdName);
    if TrimSpace(f.image.text) != parts.0 {
      return Skip;
    }
    if f.currentSnap.ReadFailed? {
      return Abort(f.currentSnap.error);
    }
    var devSnapName := if f.currentSnap.Content? then TrimSpace(f.currentSnap.text) else "";
    if isSnapshot {
      if parts.1.Some? && parts.1.value == devSnapName {
        return Found(idx.value);
      }
    } else if devSnapName == "-" || devSnapName == "" {
      return Found(idx.value);
    }
    return Skip;
  }

  /** The loop of `getRBDMappedDevPath` over the directory entries. */
  method ScanEntries(files: seq<DeviceEntry>, osdPool: string, rbdName: string, isSnapshot: bool)
    returns (r: Result<Option<nat>>)
    ensures r == FirstDecision(Verdicts(files, osdPool, rbdName, isSnapshot))
  {
    ghost var vs := Verdicts(files, osdPool, rbdName, isSnapshot);
    assert |vs| == |files|;
    var i := 0;
    while i < |files|
      invariant 0 <= i <= |files|
      invariant forall j :: 0 <= j < i ==> vs[j] == Skip
    {
      var v := CheckEntry(files[i], osdPool, rbdName, isSnapshot);
      VerdictsAt(files, osdPool, rbdName, isSnapshot, i);
      if v != Skip {
        DecidedAt(vs, i);
        return Decided(v);
      }
      assert vs[i] == Skip;
      i := i + 1;
    }
    return Ok(None);
  }

  /** `getRBDMappedDevPath` as the Go code runs it: the scan of `/sys/devices/rbd`, then the
      mapping fallback. */
  method GetMappedDevPath(dir: DeviceDir, osdPool: string, vol: Volume, mapIfMissing: bool, mapOutput: Result<string>)
    returns (r: Result<(bool, string)>)
    ensures r == MappedDevPath(dir, osdPool, vol, mapIfMissing, mapOutput)
  {
    if dir.DirFailed? {
      return Err(dir.error);
    }
    var files := ListedEntries(dir);
    var found := ScanEntries(files, osdPool, RBDVolumeName(osdPool, vol, "", false), vol.IsSnapshot());
    match found
    case Err(e) =>
      return Err(e);
    case Ok(Some(idx)) =>
      return Ok((false, DevicePath(idx)));
    case Ok(None) =>
      if mapIfMissing {
        var devPath := MapDevicePath(mapOutput);
        if devPath.Err? {
          return Err(devPath.error);
        }
        return Ok((true, devPath.value));
      }
      return Err(NotMapped(vol.name));
  }
}
