/** How the Ceph helpers read the exit status of `rbd` and `ceph`: which codes count as
    success, and the retry loop of `rbdUnmapVolume`. A run of a command is described by a
    script, the sequence of outcomes its successive invocations produce. */
module ExitCodes {
  import opened Outcomes

  const ENOENT: int := 2
  const EBUSY: int := 16
  const EINVAL: int := 22
  /** `rbdUnmapVolume` gives up on the tenth EBUSY. */
  const MaxBusy: nat := 10

  function Repeat(o: RunOutcome, n: nat): (r: seq<RunOutcome>)
    ensures |r| == n && forall i :: 0 <= i < n ==> r[i] == o
  {
    if n == 0 then [] else [o] + Repeat(o, n - 1)
  }

  // ---------------------------------------------------------------- rbdUnmapVolume

  /** The result of `rbdUnmapVolume` when its invocations of `rbd unmap` produce `script`
      and `busy` EBUSY answers have been seen: EINVAL means the image is not (or no
      longer) mapped and ends the call successfully; EBUSY is retried until the tenth;
      success ends the call unless `untilEINVAL` asks to unmap again; anything else fails. */
  function UnmapRun(script: seq<RunOutcome>, untilEINVAL: bool, busy: nat): (r: Outcome)
    requires busy < MaxBusy
    decreases |script|
  {
    if script == [] then Fail(ScriptExhausted)
    else
      match script[0]
      case Exit(code) =>
        if code == EINVAL then Pass
        else if code == EBUSY then
          if busy + 1 == MaxBusy then Fail(Command(script[0]))
          else UnmapRun(script[1..], untilEINVAL, busy + 1)
        else Fail(Command(script[0]))
      case Success =>
        if untilEINVAL then UnmapRun(script[1..], untilEINVAL, busy) else Pass
      case Unrun => Fail(Command(script[0]))
  }

  /** `rbdUnmapVolume`: the `goto again` loop, with the busy counter that is never reset.
      `calls` is the number of `rbd unmap` invocations made. */
  method UnmapVolume(script: seq<RunOutcome>, untilEINVAL: bool) returns (r: Outcome, calls: nat)
    ensures r == UnmapRun(script, untilEINVAL, 0)
    ensures calls <= |script|
  {
    var busyCount: nat := 0;
    calls := 0;
    while true
      invariant calls <= |script| && busyCount < MaxBusy
      invariant UnmapRun(script[calls..], untilEINVAL, busyCount) == UnmapRun(script, untilEINVAL, 0)
      decreases |script| - calls
    {
      if calls == |script| {
        return Fail(ScriptExhausted), calls;
      }
      var outcome := script[calls];
      assert script[calls..][1..] == script[calls + 1..];
      calls := calls + 1;
      if outcome.Exit? {
        if outcome.code == EINVAL {
          return Pass, calls;
        }
        if outcome.code == EBUSY {
          busyCount := busyCount + 1;
          if busyCount == MaxBusy {
            return Fail(Command(outcome)), calls;
          }
          continue;
        }
        return Fail(Command(outcome)), calls;
      } else if outcome.Unrun? {
        return Fail(Command(outcome)), calls;
      }
      if !untilEINVAL {
        return Pass, calls;
      }
    }
  }

  /** A run of `k` EBUSY answers either exhausts the budget or leaves the counter at `busy + k`. */
  lemma {:induction false} BusyRun(k: nat, rest: seq<RunOutcome>, untilEINVAL: bool, busy: nat)
    requires busy < MaxBusy
    ensures UnmapRun(Repeat(Exit(EBUSY), k) + rest, untilEINVAL, busy) ==
              if busy + k >= MaxBusy then Fail(Command(Exit(EBUSY)))
              else UnmapRun(rest, untilEINVAL, busy + k)
  {
    if k > 0 {
      var s := Repeat(Exit(EBUSY), k) + rest;
      assert s[0] == Exit(EBUSY);
      assert s[1..] == Repeat(Exit(EBUSY), k - 1) + rest;
      if busy + 1 < MaxBusy {
        BusyRun(k - 1, rest, untilEINVAL, busy + 1);
      }
    } else {
      assert Repeat(Exit(EBUSY), k) + rest == rest;
    }
  }

  /** While unmapping until EINVAL, successful unmaps neither end the call nor touch the counter. */
  lemma {:induction false} UnmapsRun(m: nat, rest: seq<RunOutcome>, busy: nat)
    requires busy < MaxBusy
    ensures UnmapRun(Repeat(Success, m) + rest, true, busy) == UnmapRun(rest, true, busy)
  {
    if m > 0 {
      var s := Repeat(Success, m) + rest;
      assert s[0] == Success;
      assert s[1..] == Repeat(Success, m - 1) + rest;
      UnmapsRun(m - 1, rest, busy);
    } else {
      assert Repeat(Success, m) + rest == rest;
    }
  }

  /** Nine EBUSY answers are survived, the tenth is not. */
  lemma BusyLimit(rest: seq<RunOutcome>, untilEINVAL: bool)
    ensures UnmapRun(Repeat(Exit(EBUSY), MaxBusy - 1) + [Exit(EINVAL)] + rest, untilEINVAL, 0) == Pass
    ensures UnmapRun(Repeat(Exit(EBUSY), MaxBusy) + rest, untilEINVAL, 0) == Fail(Command(Exit(EBUSY)))
  {
    var tail := [Exit(EINVAL)] + rest;
    assert Repeat(Exit(EBUSY), MaxBusy - 1) + [Exit(EINVAL)] + rest == Repeat(Exit(EBUSY), MaxBusy - 1) + tail;
    BusyRun(MaxBusy - 1, tail, untilEINVAL, 0);
    BusyRun(MaxBusy, rest, untilEINVAL, 0);
  }

  /** The EBUSY counter is not reset by a successful unmap in between: `a` EBUSY answers,
      `m` unmaps and `b` more EBUSY answers before EINVAL succeed only if `a + b < 10`. */
  lemma BusyNeverReset(a: nat, m: nat, b: nat)
    ensures UnmapRun(Repeat(Exit(EBUSY), a) + Repeat(Success, m) + Repeat(Exit(EBUSY), b) + [Exit(EINVAL)], true, 0)
              == if a + b < MaxBusy then Pass else Fail(Command(Exit(EBUSY)))
  {
    var tail := [Exit(EINVAL)];
    var afterA := Repeat(Success, m) + Repeat(Exit(EBUSY), b) + tail;
    assert Repeat(Exit(EBUSY), a) + Repeat(Success, m) + Repeat(Exit(EBUSY), b) + tail
        == Repeat(Exit(EBUSY), a) + afterA;
    BusyRun(a, afterA, true, 0);
    if a < MaxBusy {
      assert afterA == Repeat(Success, m) + (Repeat(Exit(EBUSY), b) + tail);
      UnmapsRun(m, Repeat(Exit(EBUSY), b) + tail, a);
      BusyRun(b, tail, true, a);
    }
  }

  /** Unmapping until EINVAL unmaps every mapping of the image: `m` successful unmaps and
      then EINVAL succeed; without the flag one successful unmap ends the call. */
  lemma UnmapAll(m: nat, rest: seq<RunOutcome>)
    ensures UnmapRun(Repeat(Success, m) + [Exit(EINVAL)], true, 0) == Pass
    ensures UnmapRun([Success] + rest, false, 0) == Pass
  {
    UnmapsRun(m, [Exit(EINVAL)], 0);
  }

  /** An exit code other than EBUSY and EINVAL fails the call at once. */
  lemma OtherCodesFail(code: int, rest: seq<RunOutcome>, untilEINVAL: bool, busy: nat)
    requires busy < MaxBusy && code != EBUSY && code != EINVAL
    ensures UnmapRun([Exit(code)] + rest, untilEINVAL, busy) == Fail(Command(Exit(code)))
  {
  }

  // ---------------------------------------------------------------- rbdUnmapVolumeSnapshot

  /** The result of `rbdUnmapVolumeSnapshot`: like `rbdUnmapVolume` but with no EBUSY retry. */
  function SnapUnmapRun(script: seq<RunOutcome>, untilEINVAL: bool): (r: Outcome)
    decreases |script|
  {
    if script == [] then Fail(ScriptExhausted)
    else if script[0] == Exit(EINVAL) then Pass
    else if script[0] == Success then
      if untilEINVAL then SnapUnmapRun(script[1..], untilEINVAL) else Pass
    else Fail(Command(script[0]))
  }

  /** `rbdUnmapVolumeSnapshot`: the `goto again` loop without a busy counter. */
  method UnmapVolumeSnapshot(script: seq<RunOutcome>, untilEINVAL: bool) returns (r: Outcome, calls: nat)
    ensures r == SnapUnmapRun(script, untilEINVAL)
    ensures calls <= |script|
  {
    calls := 0;
    while true
      invariant calls <= |script|
      invariant SnapUnmapRun(script[calls..], untilEINVAL) == SnapUnmapRun(script, untilEINVAL)
      decreases |script| - calls
    {
      if calls == |script| {
        return Fail(ScriptExhausted), calls;
      }
      var outcome := script[calls];
      assert script[calls..][1..] == script[calls + 1..];
      calls := calls + 1;
      if outcome == Exit(EINVAL) {
        return Pass, calls;
      } else if outcome != Success {
        return Fail(Command(outcome)), calls;
      } else if !untilEINVAL {
        return Pass, calls;
      }
    }
  }

  /** Unlike a volume, a busy snapshot is not retried: the first EBUSY fails the call,
      while the volume unmap survives it. */
  lemma SnapshotBusyNotRetried(rest: seq<RunOutcome>, untilEINVAL: bool)
    ensures SnapUnmapRun([Exit(EBUSY)] + rest, untilEINVAL) == Fail(Command(Exit(EBUSY)))
    ensures UnmapRun([Exit(EBUSY), Exit(EINVAL)] + rest, untilEINVAL, 0) == Pass
  {
    var s := [Exit(EBUSY), Exit(EINVAL)] + rest;
    assert s[1..] == [Exit(EINVAL)] + rest;
  }

  /** `m` successful unmaps of a snapshot followed by EINVAL succeed when unmapping until EINVAL. */
  lemma {:induction false} SnapUnmapAll(m: nat)
    ensures SnapUnmapRun(Repeat(Success, m) + [Exit(EINVAL)], true) == Pass
  {
    if m > 0 {
      var s := Repeat(Success, m) + [Exit(EINVAL)];
      assert s[1..] == Repeat(Success, m - 1) + [Exit(EINVAL)];
      SnapUnmapAll(m - 1);
    }
  }

  // ---------------------------------------------------------------- single-shot commands

  /** `rbdProtectVolumeSnapshot`: EBUSY means the snapshot is already protected. */
  function ProtectResult(o: RunOutcome): (r: Outcome)
    ensures r == Pass <==> o == Success || o == Exit(EBUSY)
    ensures r.Fail? ==> r.error == Command(o)
  {
    if o == Success || o == Exit(EBUSY) then Pass else Fail(Command(o))
  }

  /** `rbdUnprotectVolumeSnapshot`: EINVAL means the snapshot is already unprotected. */
  function UnprotectResult(o: RunOutcome): (r: Outcome)
    ensures r == Pass <==> o == Success || o == Exit(EINVAL)
    ensures r.Fail? ==> r.error == Command(o)
  {
    if o == Success || o == Exit(EINVAL) then Pass else Fail(Command(o))
  }

  /** Protection and unprotection accept different "already done" codes: EBUSY is an
      error for unprotect and EINVAL is an error for protect. */
  lemma ProtectUnprotectAsymmetry()
    ensures ProtectResult(Exit(EBUSY)) == Pass && UnprotectResult(Exit(EBUSY)).Fail?
    ensures UnprotectResult(Exit(EINVAL)) == Pass && ProtectResult(Exit(EINVAL)).Fail?
  {
  }

  /** `osdPoolExists`: exit code 2 means the pool definitely does not exist; any other
      failure leaves the question open and is reported as an error. */
  function PoolExists(o: RunOutcome): (r: Result<bool>)
    ensures r == Ok(true) <==> o == Success
    ensures r == Ok(false) <==> o == Exit(ENOENT)
    ensures r.Err? <==> o != Success && o != Exit(ENOENT)
    ensures r.Err? ==> r.error == Command(o)
  {
    if o == Success then Ok(true)
    else if o == Exit(ENOENT) then Ok(false)
    else Err(Command(o))
  }

  /** Commands whose failure is passed on as it is (`rbd rm`, `snap rm`, `mv`, `snap rename`,
      `snap create`, `clone`, `create`). */
  function PlainResult(o: RunOutcome): (r: Outcome)
    ensures r == Pass <==> o == Success
    ensures r.Fail? ==> r.error == Command(o)
  {
    if o == Success then Pass else Fail(Command(o))
  }
}
