/** Reading what `rbd` prints: the clones of a snapshot (`rbd children`), the snapshots of
    an image (`rbd snap ls --format json`), the parent of a clone (`rbd info`) and the
    device `rbd map` reports. A command that failed is passed in as `Err`. */
module Listing {
  import opened Outcomes
  import opened Strings

  const SnapshotNotFound: Error := NotFound("Ceph RBD volume snapshot not found")
  const SnapshotsNotFound: Error := NotFound("Ceph RBD volume snapshot(s) not found")
  const ParentNotFound: Error := NotFound("Ceph RBD volume parent not found")
  const NoNameProperty: Error := Malformed("No \"name\" property found")
  const NameNotString: Error := Malformed("\"name\" property did not have string type")
  const ParentParseError: Error := Malformed("Unexpected parsing error")
  const NoDevicePath: Error := Malformed("Failed to detect mapped device path")

  const ParentMarker: string := "parent: "
  const DevicePrefix: string := "/dev/rbd"

  // ---------------------------------------------------------------- rbd children

  /** `rbdListSnapshotClones`: the white-space separated names `rbd children` prints; none
      at all is reported as "not found", which is how callers learn a snapshot has no clones. */
  function SnapshotClones(output: Result<string>): (r: Result<seq<string>>)
    ensures output.Err? ==> r == Err(output.error)
    ensures output.Ok? ==> (r == Err(SnapshotNotFound) <==> AllSpace(output.value))
    ensures output.Ok? ==> r.Ok? || r == Err(SnapshotNotFound)
    ensures output.Ok? && !AllSpace(output.value) ==> r == Ok(Fields(output.value))
    ensures r.Ok? ==> r.value != [] && forall k :: 0 <= k < |r.value| ==> r.value[k] != [] && NoSpace(r.value[k])
  {
    match output
    case Err(e) => Err(e)
    case Ok(msg) =>
      var clones := Fields(TrimSpace(msg));
      assert clones == Fields(msg) by {
        TrimSpaceKeepsFields(msg);
      }
      if |clones| == 0 then Err(SnapshotNotFound) else Ok(clones)
  }

  /** Names one per line, as `rbd children` prints them. */
  function Lines(names: seq<string>): string
  {
    if names == [] then "" else names[0] + "\n" + Lines(names[1..])
  }

  /** Listing clones gives back exactly the names `rbd children` printed. */
  lemma {:induction false} ClonesOfLines(names: seq<string>)
    requires names != []
    requires forall k :: 0 <= k < |names| ==> names[k] != [] && NoSpace(names[k])
    ensures SnapshotClones(Ok(Lines(names))) == Ok(names)
  {
    FieldsOfLines(names);
    TrimSpaceOfLines(names);
  }

  lemma {:induction false} FieldsOfLines(names: seq<string>)
    requires forall k :: 0 <= k < |names| ==> names[k] != [] && NoSpace(names[k])
    ensures Fields(Lines(names)) == names
    decreases |names|
  {
    if names != [] {
      var w := names[0];
      var rest := Lines(names[1..]);
      assert AllSpace("\n");
      FieldsOfSeparated(w, "\n", rest);
      FieldsOfLines(names[1..]);
    }
  }

  /** White space in front adds no field. */
  lemma {:induction false} FieldsOfSpace(sp: string, s: string)
    requires AllSpace(sp)
    ensures Fields(sp + s) == Fields(s)
    decreases |sp|
  {
    if sp != [] {
      assert (sp + s)[1..] == sp[1..] + s;
      assert IsSpace((sp + s)[0]);
      FieldsOfSpace(sp[1..], s);
    } else {
      assert sp + s == s;
    }
  }

  /** A word, then a run of white space, then the rest: the word is the first field and the
      rest gives the others. */
  lemma FieldsOfSeparated(w: string, sp: string, s: string)
    requires w != [] && NoSpace(w) && sp != [] && AllSpace(sp)
    ensures Fields(w + sp + s) == [w] + Fields(s)
  {
    assert w + sp + s == w + (sp + s);
    FieldsOfWord(w, sp + s);
    FieldsOfSpace(sp, s);
  }

  /** A word followed by white space is the first field. */
  lemma FieldsOfWord(w: string, rest: string)
    requires w != [] && NoSpace(w) && (rest == [] || IsSpace(rest[0]))
    ensures Fields(w + rest) == [w] + Fields(rest)
  {
    var s := w + rest;
    WordLenOf(w, rest);
    assert s[..|w|] == w && s[|w|..] == rest;
  }

  lemma {:induction false} WordLenOf(w: string, rest: string)
    requires NoSpace(w) && (rest == [] || IsSpace(rest[0]))
    ensures WordLen(w + rest) == |w|
    decreases |w|
  {
    if w != [] {
      assert (w + rest)[1..] == w[1..] + rest;
      WordLenOf(w[1..], rest);
    } else {
      assert w + rest == rest;
    }
  }

  lemma TrimSpaceOfLines(names: seq<string>)
    requires names != []
    requires forall k :: 0 <= k < |names| ==> names[k] != [] && NoSpace(names[k])
    ensures Fields(TrimSpace(Lines(names))) == Fields(Lines(names))
  {
    TrimSpaceKeepsFields(Lines(names));
  }

  /** Trimming white space at both ends keeps the fields. */
  lemma TrimSpaceKeepsFields(s: string)
    ensures Fields(TrimSpace(s)) == Fields(s)
  {
    TrimLeftKeepsFields(s);
    TrimRightKeepsFields(TrimLeft(s));
  }

  lemma {:induction false} TrimLeftKeepsFields(s: string)
    ensures Fields(TrimLeft(s)) == Fields(s)
    decreases |s|
  {
    if s != [] && IsSpace(s[0]) {
      TrimLeftKeepsFields(s[1..]);
    }
  }

  lemma {:induction false} TrimRightKeepsFields(s: string)
    ensures Fields(TrimRight(s)) == Fields(s)
    decreases |s|
  {
    if s != [] && IsSpace(s[|s| - 1]) {
      var p := s[..|s| - 1];
      var c := s[|s| - 1];
      assert s == p + [c];
      TrimRightKeepsFields(p);
      DropTrailingSpace(p, c);
    }
  }

  /** A trailing white-space character adds no field. */
  lemma {:induction false} DropTrailingSpace(p: string, c: char)
    requires IsSpace(c)
    ensures Fields(p + [c]) == Fields(p)
    decreases |p|
  {
    var s := p + [c];
    if p == [] {
      assert Fields(s) == Fields(s[1..]);
      assert s[1..] == [];
    } else if IsSpace(p[0]) {
      assert s[1..] == p[1..] + [c];
      DropTrailingSpace(p[1..], c);
    } else {
      var n := WordLen(p);
      WordLenSpace(p, c);
      assert s[..n] == p[..n];
      assert s[n..] == p[n..] + [c];
      DropTrailingSpace(p[n..], c);
    }
  }

  lemma {:induction false} WordLenSpace(p: string, c: char)
    requires IsSpace(c)
    ensures WordLen(p + [c]) == WordLen(p)
    decreases |p|
  {
    if p != [] && !IsSpace(p[0]) {
      assert (p + [c])[1..] == p[1..] + [c];
      WordLenSpace(p[1..], c);
    } else if p == [] {
      assert p + [c] == [c];
    }
  }

  // ---------------------------------------------------------------- rbd snap ls

  /** A JSON value as `encoding/json` decodes it into `any`: only strings matter here. */
  datatype JsonValue = JString(str: string) | JOther

  /** One element of the JSON array `rbd snap ls --format json` prints, reduced to the one
      property the driver reads: its `name`, if the object has one. */
  datatype SnapRecord = SnapRecord(name: Option<JsonValue>)

  predicate HasStringName(rec: SnapRecord)
  {
    rec.name.Some? && rec.name.value.JString?
  }

  /** A record's trimmed `name`. */
  function NameOf(rec: SnapRecord): string
    requires HasStringName(rec)
  {
    TrimSpace(rec.name.value.str)
  }

  /** The error `rbdListVolumeSnapshots` reports for a record without a string `name`. */
  function NameError(rec: SnapRecord): (e: Error)
    ensures e == NoNameProperty <==> rec.name.None?
    ensures e == NoNameProperty || e == NameNotString
  {
    if rec.name.None? then NoNameProperty else NameNotString
  }

  /** The trimmed `name` of every record, or the error for the first record without one. */
  function SnapshotNames(records: seq<SnapRecord>): (r: Result<seq<string>>)
    ensures r.Ok? ==> |r.value| == |records|
    ensures r.Err? ==> r.error == NoNameProperty || r.error == NameNotString
    decreases |records|
  {
    if records == [] then Ok([])
    else if !HasStringName(records[0]) then Err(NameError(records[0]))
    else
      match SnapshotNames(records[1..])
      case Err(e) => Err(e)
      case Ok(names) => Ok([NameOf(records[0])] + names)
  }

  /** A listing that succeeds had a string `name` in every record, and gives their trimmed
      names in order. */
  lemma {:induction false} NamesOfListing(records: seq<SnapRecord>)
    requires SnapshotNames(records).Ok?
    ensures forall i :: 0 <= i < |records| ==>
              HasStringName(records[i]) && SnapshotNames(records).value[i] == NameOf(records[i])
    decreases |records|
  {
    if records != [] {
      var rest := records[1..];
      assert HasStringName(records[0]) && SnapshotNames(rest).Ok?;
      NamesOfListing(rest);
      var names := SnapshotNames(rest).value;
      var all := SnapshotNames(records).value;
      assert all == [NameOf(records[0])] + names;
      forall i | 0 <= i < |records|
        ensures HasStringName(records[i]) && all[i] == NameOf(records[i])
      {
        if i > 0 {
          assert rest[i - 1] == records[i];
          assert all[i] == names[i - 1];
        }
      }
    }
  }

  /** The error reported is the one for the first record without a string `name`. */
  lemma {:induction false} FirstBadRecord(records: seq<SnapRecord>, i: nat)
    requires i < |records| && !HasStringName(records[i])
    requires forall j :: 0 <= j < i ==> HasStringName(records[j])
    ensures SnapshotNames(records) == Err(NameError(records[i]))
    decreases i
  {
    if i > 0 {
      FirstBadRecord(records[1..], i - 1);
    }
  }

  /** `rbdListVolumeSnapshots` after the JSON is decoded: the names, and "not found" when
      the image has no snapshot. */
  function VolumeSnapshots(output: Result<seq<SnapRecord>>): (r: Result<seq<string>>)
    ensures output.Err? ==> r == Err(output.error)
    ensures output.Ok? && output.value == [] ==> r == Err(SnapshotsNotFound)
    ensures output.Ok? && output.value != [] ==> r == SnapshotNames(output.value)
  {
    match output
    case Err(e) => Err(e)
    case Ok(records) =>
      match SnapshotNames(records)
      case Err(e) => Err(e)
      case Ok(names) => if |names| == 0 then Err(SnapshotsNotFound) else Ok(names)
  }

  /** The loop of `rbdListVolumeSnapshots` that appends each record's name. */
  method ListVolumeSnapshots(output: Result<seq<SnapRecord>>) returns (r: Result<seq<string>>)
    ensures r == VolumeSnapshots(output)
  {
    if output.Err? {
      return Err(output.error);
    }
    var records := output.value;
    var snapshots: seq<string> := [];
    var i := 0;
    while i < |records|
      invariant 0 <= i <= |records| && |snapshots| == i
      invariant forall j :: 0 <= j < i ==> HasStringName(records[j]) && snapshots[j] == NameOf(records[j])
    {
      var v := records[i];
      if v.name.None? {
        FirstBadRecord(records, i);
        return Err(NoNameProperty);
      }
      if !v.name.value.JString? {
        FirstBadRecord(records, i);
        return Err(NameNotString);
      }
      var name := TrimSpace(v.name.value.str);
      snapshots := snapshots + [name];
      i := i + 1;
    }
    NamesOfGoodRecords(records, snapshots);
    if |snapshots| == 0 {
      return Err(SnapshotsNotFound);
    }
    return Ok(snapshots);
  }

  /** When every record has a string `name`, the names are the trimmed ones, in order. */
  lemma {:induction false} NamesOfGoodRecords(records: seq<SnapRecord>, names: seq<string>)
    requires |names| == |records|
    requires forall j :: 0 <= j < |records| ==> HasStringName(records[j]) && names[j] == NameOf(records[j])
    ensures SnapshotNames(records) == Ok(names)
    decreases |records|
  {
    if records != [] {
      NamesOfGoodRecords(records[1..], names[1..]);
      assert names == [NameOf(records[0])] + names[1..];
    }
  }

  // ---------------------------------------------------------------- rbd info

  /** `rbdGetVolumeParent`: the text after the first `parent: `, cut at the first line
      break once surrounding white space is trimmed. */
  function VolumeParent(output: Result<string>): (r: Result<string>)
    ensures output.Err? ==> r == Err(output.error)
    ensures output.Ok? ==> (r == Err(ParentNotFound) <==> IndexOf(output.value, ParentMarker) == -1)
    ensures r.Ok? ==> '\n' !in r.value && (r.value == [] || (!IsSpace(r.value[0]) && !IsSpace(r.value[|r.value| - 1])))
  {
    match output
    case Err(e) => Err(e)
    case Ok(msg) =>
      var idx := IndexOf(msg, ParentMarker);
      if idx == -1 then Err(ParentNotFound)
      else
        var after := TrimSpace(msg[idx + |ParentMarker|..]);
        var nl := IndexOf(after, "\n");
        if nl == -1 then Err(ParentParseError)
        else
          var line := after[..nl];
          BeforeFirst(after, '\n');
          var parent := TrimSpace(line);
          TrimSpaceInside(line);
          Ok(parent)
  }

  /** The first `parent: ` is the one after `pre`. */
  predicate MarkerFirstAfter(pre: string)
  {
    forall j :: 0 <= j < |pre| ==> !OccursAt(pre + ParentMarker, ParentMarker, j)
  }

  /** `rbd info` prints the parent on a line of its own followed by more properties: the
      parent's name is what is read back. */
  lemma ParentOfInfo(pre: string, parent: string, post: string)
    requires MarkerFirstAfter(pre)
    requires parent != [] && NoSpace(parent) && !AllSpace(post)
    ensures VolumeParent(Ok(pre + (ParentMarker + (parent + ("\n" + post))))) == Ok(parent)
  {
    var rest := parent + ("\n" + post);
    var msg := pre + (ParentMarker + rest);
    IndexAtJoin(pre, ParentMarker, rest);
    assert IndexOf(msg, ParentMarker) == |pre|;
    assert msg[|pre| + |ParentMarker|..] == rest;
    var after := TrimSpace(rest);
    FirstLineOfTrimmed(parent, post);
    assert IndexOf(after, "\n") == |parent|;
    assert after[..|parent|] == parent;
    TrimSpaceNoSpace(parent);
    assert TrimSpace(parent) == parent;
  }

  lemma FirstLineOfTrimmed(w: string, post: string)
    requires w != [] && NoSpace(w) && !AllSpace(post)
    ensures var t := TrimSpace(w + ("\n" + post));
      IndexOf(t, "\n") == |w| && t[..|w|] == w
  {
    var t := TrimSpace(w + ("\n" + post));
    TrimKeepsLine(w, post);
    assert t[..|w| + 1] == w + "\n";
    assert t[|w|..|w| + 1] == "\n";
    forall j | 0 <= j < |w| ensures !OccursAt(t, "\n", j) {
      assert t[j..j + 1] == [w[j]];
    }
    IndexOfIs(t, "\n", |w|);
  }

  /** When the parent is the last thing `rbd info` prints, trimming removes its line break
      and the parse fails. */
  lemma ParentOnLastLine(pre: string, parent: string, post: string)
    requires MarkerFirstAfter(pre)
    requires parent != [] && NoSpace(parent) && AllSpace(post)
    ensures VolumeParent(Ok(pre + (ParentMarker + (parent + post)))) == Err(ParentParseError)
  {
    var rest := parent + post;
    var msg := pre + (ParentMarker + rest);
    IndexAtJoin(pre, ParentMarker, rest);
    assert IndexOf(msg, ParentMarker) == |pre|;
    assert msg[|pre| + |ParentMarker|..] == rest;
    TrimWord(parent, post);
    assert TrimSpace(rest) == parent;
    assert '\n' !in parent by {
      assert IsSpace('\n');
    }
    IndexOfAbsent(parent, '\n');
    assert IndexOf(parent, "\n") == -1;
  }

  // ---------------------------------------------------------------- rbd map

  /** `rbdMapVolume`: the device path is what follows the first `/dev/rbd` that `rbd map`
      prints, trimmed. */
  function MapDevicePath(output: Result<string>): (r: Result<string>)
    ensures output.Err? ==> r == Err(output.error)
    ensures output.Ok? ==> (r == Err(NoDevicePath) <==> IndexOf(output.value, DevicePrefix) == -1)
    ensures r.Ok? ==> HasPrefix(r.value, DevicePrefix)
  {
    match output
    case Err(e) => Err(e)
    case Ok(msg) =>
      var idx := IndexOf(msg, DevicePrefix);
      if idx < 0 then Err(NoDevicePath)
      else
        var tail := msg[idx..];
        assert tail[..|DevicePrefix|] == msg[idx..idx + |DevicePrefix|];
        TrimKeepsPrefix(tail, DevicePrefix);
        Ok(TrimSpace(tail))
  }

  /** `rbd map` printing the device on its own line: the device is read back. */
  lemma DeviceOfMap(pre: string, device: string)
    requires '/' !in pre
    requires HasPrefix(device, DevicePrefix) && NoSpace(device)
    ensures MapDevicePath(Ok(pre + (device + "\n"))) == Ok(device)
  {
    var line := device + "\n";
    var msg := pre + line;
    assert line[..|DevicePrefix|] == device[..|DevicePrefix|];
    IndexAfter(pre, DevicePrefix, line);
    assert msg[|pre|..] == line;
    TrimWord(device, "\n");
  }
}
