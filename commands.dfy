/** The argument lists the driver hands to `rbd`: create, clone, resize, export-diff and
    import-diff, and how `receiveVolume` merges the errors of an import. Running the
    commands is not part of this model. */
module Commands {
  import opened Outcomes
  import opened Strings
  import opened Naming
  import opened NameCodec

  /** The driver configuration keys the command lines read. */
  datatype Config = Config(
    user: string,        // ceph.user.name
    cluster: string,     // ceph.cluster_name
    osdPool: string,     // ceph.osd.pool_name
    features: string,    // ceph.rbd.features
    dataPool: string)    // ceph.osd.data_pool_name

  const DefaultFeature: string := "layering"

  /** Options written as `flag value` pairs, in order. */
  function Flatten(opts: seq<(string, string)>): (args: seq<string>)
    ensures |args| == 2 * |opts|
  {
    if opts == [] then [] else [opts[0].0, opts[0].1] + Flatten(opts[1..])
  }

  /** The values given to `flag`, as a parser reading `flag value` pairs from the left sees them. */
  function OptionValues(args: seq<string>, flag: string): seq<string>
    decreases |args|
  {
    if |args| < 2 then []
    else if args[0] == flag then [args[1]] + OptionValues(args[2..], flag)
    else OptionValues(args[1..], flag)
  }

  /** The values of `flag` among some pairs. */
  function Lookup(opts: seq<(string, string)>, flag: string): (r: seq<string>)
    ensures |r| <= |opts|
  {
    if opts == [] then []
    else if opts[0].0 == flag then [opts[0].1] + Lookup(opts[1..], flag)
    else Lookup(opts[1..], flag)
  }

  /** Reading pairs back: a parser finds every value of `flag`, provided no value is
      itself spelled like the flag. */
  lemma {:induction false} OptionValuesOfPairs(opts: seq<(string, string)>, tail: seq<string>, flag: string)
    requires ValuesAvoid(opts, flag)
    ensures OptionValues(Flatten(opts) + tail, flag) == Lookup(opts, flag) + OptionValues(tail, flag)
    decreases |opts|
  {
    if opts != [] {
      var rest := Flatten(opts[1..]) + tail;
      assert Flatten(opts) + tail == [opts[0].0, opts[0].1] + rest;
      assert ValuesAvoid(opts[1..], flag) && opts[0].1 != flag;
      PairValues(opts[0].0, opts[0].1, rest, flag);
      OptionValuesOfPairs(opts[1..], tail, flag);
    } else {
      assert Flatten(opts) + tail == tail;
    }
  }

  /** One `flag value` pair in front of the rest, when the value is not the flag. */
  lemma PairValues(key: string, value: string, rest: seq<string>, flag: string)
    requires value != flag
    ensures OptionValues([key, value] + rest, flag)
            == (if key == flag then [value] else []) + OptionValues(rest, flag)
  {
    var args := [key, value] + rest;
    assert args[2..] == rest;
    if key != flag {
      assert args[1..] == [value] + rest;
      if rest != [] {
        assert ([value] + rest)[1..] == rest;
      }
    }
  }

  /** `util.SplitNTrimSpace(s, ",", -1, true)` as its name says: the comma-separated parts,
      each trimmed. */
  function SplitTrim(s: string): (parts: seq<string>)
    ensures |parts| >= 1
    decreases |s|
  {
    match SplitFirst(s, ',')
    case None => [TrimSpace(s)]
    case Some((head, rest)) => [TrimSpace(head)] + SplitTrim(rest)
  }

  /** The features a new image gets: the configured list, or `layering` alone. */
  function Features(features: string): (r: seq<string>)
    ensures features == "" ==> r == [DefaultFeature]
    ensures r != []
  {
    if features != "" then SplitTrim(features) else [DefaultFeature]
  }

  /** One `--image-feature` pair per feature. */
  function FeatureOptions(features: seq<string>): (opts: seq<(string, string)>)
    ensures |opts| == |features|
    ensures forall i :: 0 <= i < |features| ==> opts[i] == ("--image-feature", features[i])
    ensures Lookup(opts, "--image-feature") == features
  {
    if features == [] then [] else [("--image-feature", features[0])] + FeatureOptions(features[1..])
  }

  function DataPoolOptions(dataPool: string): (opts: seq<(string, string)>)
    ensures forall f :: Lookup(opts, f) == (if dataPool != "" && f == "--data-pool" then [dataPool] else [])
  {
    if dataPool != "" then [("--data-pool", dataPool)] else []
  }

  /** `fmt.Sprintf("%d", n)` for a signed integer. */
  function IntToString(n: int): (s: string)
    ensures n >= 0 ==> s == NatToString(n)
    ensures n < 0 ==> s == "-" + NatToString(-n)
  {
    if n >= 0 then NatToString(n) else "-" + NatToString(-n)
  }

  /** The `--size` value: the byte count with a `B` unit. */
  function SizeArg(sizeBytes: int): (s: string)
    ensures s != [] && s[|s| - 1] == 'B'
  {
    IntToString(sizeBytes) + "B"
  }

  /** The pairs every command against the pool starts with. */
  function PoolOptions(cfg: Config): seq<(string, string)>
  {
    [("--id", cfg.user), ("--cluster", cfg.cluster), ("--pool", cfg.osdPool)]
  }

  /** The pairs for commands that name the pool inside the image names. */
  function ClusterOptions(cfg: Config): seq<(string, string)>
  {
    [("--id", cfg.user), ("--cluster", cfg.cluster)]
  }

  /** No configured value, feature or size is spelled like `flag`. */
  predicate NoValueIs(cfg: Config, flag: string)
  {
    cfg.user != flag && cfg.cluster != flag && cfg.osdPool != flag && cfg.dataPool != flag
    && flag !in Features(cfg.features)
  }

  /** `rbdCreateVolume`: `rbd --id --cluster --pool --image-feature... [--data-pool] --size <n>B
      create <image>`. */
  function CreateArgs(cfg: Config, vol: Volume, sizeBytes: int): (args: seq<string>)
    ensures |args| >= 2 && args[|args| - 2..] == ["create", RBDVolumeName(cfg.osdPool, vol, "", false)]
  {
    Flatten(CreateOptions(cfg, sizeBytes)) + ["create", RBDVolumeName(cfg.osdPool, vol, "", false)]
  }

  /** The options of `rbdCreateVolume`, in the order it appends them. */
  function CreateOptions(cfg: Config, sizeBytes: int): seq<(string, string)>
  {
    PoolOptions(cfg) + FeatureOptions(Features(cfg.features)) + DataPoolOptions(cfg.dataPool)
    + [("--size", SizeArg(sizeBytes))]
  }

  /** `rbdCreateClone`: the same features and data pool, then the source snapshot and the
      target image, both with their pool. */
  function CloneArgs(cfg: Config, source: Volume, sourceSnapshot: string, target: Volume): (args: seq<string>)
    ensures |args| >= 3 && args[|args| - 3..] == ["clone", RBDVolumeName(cfg.osdPool, source, sourceSnapshot, true),
                                   RBDVolumeName(cfg.osdPool, target, "", true)]
  {
    var opts := ClusterOptions(cfg) + FeatureOptions(Features(cfg.features)) + DataPoolOptions(cfg.dataPool);
    Flatten(opts) + ["clone", RBDVolumeName(cfg.osdPool, source, sourceSnapshot, true),
                     RBDVolumeName(cfg.osdPool, target, "", true)]
  }

  /** `resizeVolume`: `rbd resize [--allow-shrink] --id --cluster --pool --size <n>B <image>`. */
  function ResizeArgs(cfg: Config, vol: Volume, sizeBytes: int, allowShrink: bool): (args: seq<string>)
    ensures |args| >= 2 && args[0] == "resize" && args[|args| - 1] == RBDVolumeName(cfg.osdPool, vol, "", false)
  {
    ["resize"] + (if allowShrink then ["--allow-shrink"] else [])
    + Flatten(PoolOptions(cfg) + [("--size", SizeArg(sizeBytes))]) + [RBDVolumeName(cfg.osdPool, vol, "", false)]
  }

  /** `rbd export-diff` as `sendVolume` and `copyWithSnapshots` run it: the image, the
      snapshot the diff starts from when there is one, and `-` for standard output. */
  function ExportArgs(cfg: Config, volumeName: string, fromSnap: string): (args: seq<string>)
    ensures |args| >= 2 && args[0] == "export-diff" && args[|args| - 1] == "-"
  {
    ["export-diff"] + Flatten(ClusterOptions(cfg)) + [volumeName]
    + Flatten(if fromSnap != "" then [("--from-snap", fromSnap)] else []) + ["-"]
  }

  /** `rbd import-diff` as `receiveVolume` and `copyWithSnapshots` run it: read the diff from
      standard input into `volumeName`. */
  function ImportArgs(cfg: Config, volumeName: string): (args: seq<string>)
    ensures |args| >= 3 && args[0] == "import-diff" && args[|args| - 2..] == ["-", volumeName]
  {
    ["import-diff"] + Flatten(ClusterOptions(cfg)) + ["-", volumeName]
  }

  // ---------------------------------------------------------------- what the lists say

  /** An image is created with exactly the configured features, or `layering` alone. */
  lemma CreateFeatures(cfg: Config, vol: Volume, sizeBytes: int)
    requires NoValueIs(cfg, "--image-feature")
    ensures OptionValues(CreateArgs(cfg, vol, sizeBytes), "--image-feature") == Features(cfg.features)
  {
    var flag := "--image-feature";
    CreateValues(cfg, vol, sizeBytes, flag);
    LookupAbsent(PoolOptions(cfg), flag);
    LookupAbsent(DataPoolOptions(cfg.dataPool), flag);
    LookupAbsent([("--size", SizeArg(sizeBytes))], flag);
  }

  /** The data pool is passed exactly when one is configured. */
  lemma CreateDataPool(cfg: Config, vol: Volume, sizeBytes: int)
    requires NoValueIs(cfg, "--data-pool")
    ensures OptionValues(CreateArgs(cfg, vol, sizeBytes), "--data-pool")
            == (if cfg.dataPool != "" then [cfg.dataPool] else [])
  {
    CreateValues(cfg, vol, sizeBytes, "--data-pool");
    DataPoolBlocks(cfg, sizeBytes);
  }

  /** Of the blocks of `rbd create`, only the data-pool block holds `--data-pool`. */
  lemma DataPoolBlocks(cfg: Config, sizeBytes: int)
    ensures Lookup(PoolOptions(cfg), "--data-pool") + Lookup(FeatureOptions(Features(cfg.features)), "--data-pool")
            + Lookup(DataPoolOptions(cfg.dataPool), "--data-pool") + Lookup([("--size", SizeArg(sizeBytes))], "--data-pool")
            == (if cfg.dataPool != "" then [cfg.dataPool] else [])
  {
    var flag := "--data-pool";
    LookupAbsent(PoolOptions(cfg), flag);
    FeaturesLack(Features(cfg.features), flag);
    LookupAbsent([("--size", SizeArg(sizeBytes))], flag);
  }

  lemma FeaturesLack(feats: seq<string>, flag: string)
    requires |flag| != |"--image-feature"|
    ensures Lookup(FeatureOptions(feats), flag) == []
  {
    var opts := FeatureOptions(feats);
    forall i | 0 <= i < |opts|
      ensures opts[i].0 != flag
    {
      assert opts[i].0 == "--image-feature";
    }
    LookupAbsent(opts, flag);
  }

  /** Reading a flag of `rbd create` back, block by block. */
  lemma CreateValues(cfg: Config, vol: Volume, sizeBytes: int, flag: string)
    requires NoValueIs(cfg, flag) && flag != "create" && flag != [] && flag[|flag| - 1] != 'B'
    ensures OptionValues(CreateArgs(cfg, vol, sizeBytes), flag)
            == Lookup(PoolOptions(cfg), flag) + Lookup(FeatureOptions(Features(cfg.features)), flag)
               + Lookup(DataPoolOptions(cfg.dataPool), flag) + Lookup([("--size", SizeArg(sizeBytes))], flag)
  {
    var a := PoolOptions(cfg);
    var f := FeatureOptions(Features(cfg.features));
    var d := DataPoolOptions(cfg.dataPool);
    var z := [("--size", SizeArg(sizeBytes))];
    PoolAvoids(cfg, flag);
    FeaturesAvoid(Features(cfg.features), flag);
    DataPoolAvoids(cfg.dataPool, flag);
    SizeAvoids(sizeBytes, flag);
    AvoidJoin(a, f, flag);
    AvoidJoin(a + f, d, flag);
    AvoidJoin(a + f + d, z, flag);
    var tail := ["create", RBDVolumeName(cfg.osdPool, vol, "", false)];
    OptionValuesOfPairs(a + f + d + z, tail, flag);
    NoValuesInPair("create", RBDVolumeName(cfg.osdPool, vol, "", false), flag);
    LookupJoin(a, f, flag);
    LookupJoin(a + f, d, flag);
    LookupJoin(a + f + d, z, flag);
  }

  /** A clone is made from the source snapshot into the target image, both of which decode
      back to their volumes. */
  lemma CloneNamesDecode(cfg: Config, source: Volume, sourceSnapshot: string, target: Volume)
    requires Decodable(cfg.osdPool, source, sourceSnapshot) && Decodable(cfg.osdPool, target, "")
    ensures var args := CloneArgs(cfg, source, sourceSnapshot, target);
      && ParseParent(args[|args| - 2]) == Ok((Decoded(cfg.osdPool, source), sourceSnapshot))
      && ParseParent(args[|args| - 1]) == Ok((Decoded(cfg.osdPool, target), ""))
  {
    ParentRoundTrip(cfg.osdPool, source, sourceSnapshot);
    ParentRoundTrip(cfg.osdPool, target, "");
  }

  /** `--allow-shrink` is passed exactly when shrinking is allowed. */
  lemma ResizeShrink(cfg: Config, vol: Volume, sizeBytes: int, allowShrink: bool)
    requires NoValueIs(cfg, "--allow-shrink") && RBDVolumeName(cfg.osdPool, vol, "", false) != "--allow-shrink"
    ensures "--allow-shrink" in ResizeArgs(cfg, vol, sizeBytes, allowShrink) <==> allowShrink
  {
    var x := "--allow-shrink";
    var shrink := if allowShrink then [x] else [];
    var opts := PoolOptions(cfg) + [("--size", SizeArg(sizeBytes))];
    var img := RBDVolumeName(cfg.osdPool, vol, "", false);
    ShrinkNotAnOption(cfg, sizeBytes);
    WordIn(["resize"], shrink, Flatten(opts), [img], x);
  }

  lemma ShrinkNotAnOption(cfg: Config, sizeBytes: int)
    requires cfg.user != "--allow-shrink" && cfg.cluster != "--allow-shrink" && cfg.osdPool != "--allow-shrink"
    ensures "--allow-shrink" !in Flatten(PoolOptions(cfg) + [("--size", SizeArg(sizeBytes))])
  {
    var x := "--allow-shrink";
    var size := SizeArg(sizeBytes);
    var opts := PoolOptions(cfg) + [("--size", size)];
    SizeNotFlag(sizeBytes, x);
    assert opts == [("--id", cfg.user), ("--cluster", cfg.cluster), ("--pool", cfg.osdPool), ("--size", size)];
    forall i | 0 <= i < |opts|
      ensures opts[i].0 != x && opts[i].1 != x
    {
      assert |opts[i].0| < |x|;
    }
    NotInFlatten(opts, x);
  }

  lemma WordIn(a: seq<string>, b: seq<string>, c: seq<string>, d: seq<string>, x: string)
    ensures x in a + b + c + d <==> x in a || x in b || x in c || x in d
  {
  }

  lemma {:induction false} NotInFlatten(opts: seq<(string, string)>, x: string)
    requires forall i :: 0 <= i < |opts| ==> opts[i].0 != x && opts[i].1 != x
    ensures x !in Flatten(opts)
    decreases |opts|
  {
    if opts != [] {
      NotInFlatten(opts[1..], x);
    }
  }

  /** The diff starts from the parent snapshot exactly when one is named. */
  lemma ExportFromSnap(cfg: Config, volumeName: string, fromSnap: string)
    requires cfg.user != "--from-snap" && cfg.cluster != "--from-snap" && volumeName != "--from-snap"
    ensures OptionValues(ExportArgs(cfg, volumeName, fromSnap), "--from-snap")
            == (if fromSnap != "" then [fromSnap] else [])
  {
    var snapOpts := if fromSnap != "" then [("--from-snap", fromSnap)] else [];
    var args := ExportArgs(cfg, volumeName, fromSnap);
    var tail := [volumeName] + Flatten(snapOpts) + ["-"];
    assert args == ["export-diff"] + (Flatten(ClusterOptions(cfg)) + tail);
    assert args[1..] == Flatten(ClusterOptions(cfg)) + tail;
    OptionValuesOfPairs(ClusterOptions(cfg), tail, "--from-snap");
    assert tail[1..] == Flatten(snapOpts) + ["-"];
    assert OptionValues(tail, "--from-snap") == OptionValues(tail[1..], "--from-snap");
    if fromSnap != "" {
      var rest := ["--from-snap", fromSnap, "-"];
      assert Flatten(snapOpts) + ["-"] == rest;
      assert rest[2..] == ["-"];
      assert OptionValues(rest, "--from-snap") == [fromSnap] + OptionValues(["-"], "--from-snap");
    } else {
      assert Flatten(snapOpts) + ["-"] == ["-"];
    }
  }

  // ---------------------------------------------------------------- helpers

  lemma {:induction false} LookupJoin(a: seq<(string, string)>, b: seq<(string, string)>, flag: string)
    ensures Lookup(a + b, flag) == Lookup(a, flag) + Lookup(b, flag)
    decreases |a|
  {
    if a != [] {
      assert (a + b)[1..] == a[1..] + b;
      LookupJoin(a[1..], b, flag);
    } else {
      assert a + b == b;
    }
  }

  /** No value among the pairs is spelled like `flag`. */
  predicate ValuesAvoid(opts: seq<(string, string)>, flag: string)
  {
    forall i :: 0 <= i < |opts| ==> opts[i].1 != flag
  }

  lemma AvoidJoin(a: seq<(string, string)>, b: seq<(string, string)>, flag: string)
    requires ValuesAvoid(a, flag) && ValuesAvoid(b, flag)
    ensures ValuesAvoid(a + b, flag)
  {
    assert forall i :: |a| <= i < |a + b| ==> (a + b)[i] == b[i - |a|];
  }

  lemma {:induction false} LookupAbsent(opts: seq<(string, string)>, flag: string)
    requires forall i :: 0 <= i < |opts| ==> opts[i].0 != flag
    ensures Lookup(opts, flag) == []
    decreases |opts|
  {
    if opts != [] {
      LookupAbsent(opts[1..], flag);
    }
  }

  lemma PoolAvoids(cfg: Config, flag: string)
    requires cfg.user != flag && cfg.cluster != flag && cfg.osdPool != flag
    ensures ValuesAvoid(PoolOptions(cfg), flag) && ValuesAvoid(ClusterOptions(cfg), flag)
  {
  }

  lemma FeaturesAvoid(feats: seq<string>, flag: string)
    requires flag !in feats
    ensures ValuesAvoid(FeatureOptions(feats), flag)
  {
  }

  lemma DataPoolAvoids(dataPool: string, flag: string)
    requires dataPool != flag
    ensures ValuesAvoid(DataPoolOptions(dataPool), flag)
  {
  }

  lemma SizeAvoids(sizeBytes: int, flag: string)
    requires flag != [] && flag[|flag| - 1] != 'B'
    ensures ValuesAvoid([("--size", SizeArg(sizeBytes))], flag)
  {
    SizeNotFlag(sizeBytes, flag);
  }

  /** Two words, the first not the flag: nothing is read for it. */
  lemma NoValuesInPair(w: string, last: string, flag: string)
    requires w != flag
    ensures OptionValues([w, last], flag) == []
  {
    assert [w, last][1..] == [last];
  }

  lemma SizeNotFlag(sizeBytes: int, flag: string)
    requires flag != [] && flag[|flag| - 1] != 'B'
    ensures SizeArg(sizeBytes) != flag
  {
  }

  // ---------------------------------------------------------------- receiveVolume

  /** The errors `receiveVolume` collects once `rbd import-diff` has run: the error of waiting
      for the process, then the error of copying the stream into it, and the copy error only
      when the wait failed too. */
  function ImportErrors(waitErr: Option<Error>, copyErr: Option<Error>): (errs: seq<Error>)
    ensures errs == [] <==> waitErr.None?
    ensures waitErr.Some? ==> errs[0] == waitErr.value && (|errs| == 2 <==> copyErr.Some?) && |errs| <= 2
    ensures waitErr.Some? && copyErr.Some? ==> errs[1] == copyErr.value
  {
    match waitErr
    case None => []
    case Some(w) => [w] + (if copyErr.Some? then [copyErr.value] else [])
  }

  /** `receiveVolume`'s verdict: success unless some error was collected. */
  function ReceiveResult(waitErr: Option<Error>, copyErr: Option<Error>, stderr: string): (r: Outcome)
    ensures r.Pass? <==> waitErr.None?
    ensures r.Fail? ==> r.error == ImportFailed(ImportErrors(waitErr, copyErr), stderr)
  {
    var errs := ImportErrors(waitErr, copyErr);
    if |errs| > 0 then Fail(ImportFailed(errs, stderr)) else Pass
  }

  /** A failed copy of the incoming stream is not reported when the import itself exited
      cleanly. */
  lemma CopyErrorIgnored(copyErr: Option<Error>, stderr: string)
    ensures ReceiveResult(None, copyErr, stderr) == Pass
  {
  }
}
