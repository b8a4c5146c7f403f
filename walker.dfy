/** The top-level job `run` (main.go:141-240): resolve the snapshot of thirty
    days ago, create the repository, then walk forward six hours at a time,
    committing one tree per newer snapshot until a probe lies past the time the
    job started. */
module Walker {
  import opened Common
  import opened Timestamp
  import opened Index
  import opened Grouping
  import opened Snapshot
  import opened Worktree

  /** `6 * time.Hour` (main.go:165, 172), in seconds. */
  const Step := 6 * 3600
  /** `30 * 24 * time.Hour` (main.go:143), in seconds. */
  const Lookback := 30 * 24 * 3600

  /** Instants are whole seconds; the clock converts them to the calendar
      fields the archive's URLs use and back. */
  datatype Clock = Clock(toDate: int -> DateTime, toSeconds: DateTime -> int)

  /** Every instant has valid calendar fields. */
  ghost predicate ClockValid(c: Clock)
  {
    forall t :: Valid(c.toDate(t))
  }

  /** Everything `run` talks to: the clock, `closestSnapshotTime` on
      instants, HEAD and GET requests, URL path extraction, decompression with
      control-file parsing, `version.Compare` and the control-file encoder. */
  datatype Env = Env(
    clock: Clock,
    resolve: int -> Result<int, ResolveError>,
    head: string -> Result<HeadResponse, string>,
    urlPath: string -> Option<string>,
    get: string -> Result<HttpResponse, string>,
    unpack: seq<byte> -> Result<seq<Record>, string>,
    versionCmp: (string, string) -> int,
    encode: Record -> seq<byte>)

  /** `closestSnapshotTime` (main.go:29-73) on instants. */
  function ArchiveResolve(env: Env, t: int): (r: Result<int, ResolveError>)
    requires ClockValid(env.clock)
    ensures var resp := env.head(HeadUrl(Format(env.clock.toDate(t))));
      && (resp.Err? ==> r == Err(RequestFailed(resp.error)))
      && (resp.Ok? && resp.value.status == StatusOK ==> r == Ok(env.clock.toSeconds(env.clock.toDate(t))))
      && (resp.Ok? && InterpretHead(resp.value, env.urlPath).Err? ==> r == Err(InterpretHead(resp.value, env.urlPath).error))
      && (resp.Ok? && InterpretHead(resp.value, env.urlPath).Ok? && InterpretHead(resp.value, env.urlPath).value.RedirectedTo? ==>
            r == Ok(env.clock.toSeconds(InterpretHead(resp.value, env.urlPath).value.instant)))
  {
    match ClosestSnapshotTime(env.clock.toDate(t), env.head, env.urlPath)
    case Ok(d) => Ok(env.clock.toSeconds(d))
    case Err(e) => Err(e)
  }

  /** `env.resolve` is `closestSnapshotTime` over `env.head` and `env.urlPath`. */
  ghost predicate ResolvesViaArchive(env: Env)
  {
    ClockValid(env.clock) && forall t :: env.resolve(t) == ArchiveResolve(env, t)
  }

  /** A HEAD answered with 200 resolves an instant to itself (main.go:47-50),
      when the clock reads that instant's calendar fields back as it. */
  lemma ResolveAsRequested(env: Env, t: int)
    requires ResolvesViaArchive(env) && env.clock.toSeconds(env.clock.toDate(t)) == t
    requires var resp := env.head(HeadUrl(Format(env.clock.toDate(t))));
      resp.Ok? && resp.value.status == StatusOK
    ensures env.resolve(t) == Ok(t)
  {
  }

  /** A HEAD that fails leaves the instant unresolved with the failure
      (main.go:41-43). */
  lemma ResolveRequestFailed(env: Env, t: int)
    requires ResolvesViaArchive(env)
    requires env.head(HeadUrl(Format(env.clock.toDate(t)))).Err?
    ensures env.resolve(t) == Err(RequestFailed(env.head(HeadUrl(Format(env.clock.toDate(t)))).error))
  {
  }

  /** The instants the inner loop probes from `t`: `t` plus a positive whole
      number of six-hour steps. */
  ghost predicate IsProbe(t: int, p: int)
  {
    t < p && (p - t) % Step == 0
  }

  /** Every probe from `t` before `p` resolves to `t` or earlier. */
  ghost predicate StaleBefore(env: Env, t: int, p: int)
  {
    forall q :: IsProbe(t, q) && q < p ==> env.resolve(q).Ok? && env.resolve(q).value <= t
  }

  /** `p` is the first probe from `t` that resolves to something newer than `t`. */
  ghost predicate FirstNewer(env: Env, t: int, p: int)
  {
    IsProbe(t, p) && StaleBefore(env, t, p) && env.resolve(p).Ok? && env.resolve(p).value > t
  }

  /** `p` is the first probe from `t` that does not resolve, and every
      earlier probe resolves to `t` or earlier. */
  ghost predicate FirstFailing(env: Env, t: int, p: int)
  {
    IsProbe(t, p) && StaleBefore(env, t, p) && env.resolve(p).Err?
  }

  /** The inner loop stops at the first probe that is newer or fails, so there
      is only one such probe. */
  lemma StopProbeUnique(env: Env, t: int, p: int, q: int)
    requires FirstNewer(env, t, p) || FirstFailing(env, t, p)
    requires FirstNewer(env, t, q) || FirstFailing(env, t, q)
    ensures p == q
  {
  }

  /** The inner loop of `run` started at `t` has a way out: some probe is the
      first that is newer or fails. It has no other (main.go:166-180). */
  ghost predicate StopsFrom(env: Env, t: int)
  {
    exists p :: FirstNewer(env, t, p) || FirstFailing(env, t, p)
  }

  /** Two probes from `t` lie whole six-hour steps apart. */
  lemma ProbeGap(t: int, a: int, b: int)
    requires IsProbe(t, a) && IsProbe(t, b) && a < b
    ensures a + Step <= b
  {
    var i, j := (a - t) / Step, (b - t) / Step;
    assert a - t == Step * i && b - t == Step * j;
  }

  /** The probe where the inner loop leaves: it does not resolve to `t` or
      earlier. */
  lemma WayOut(env: Env, t: int) returns (stop: int)
    requires StopsFrom(env, t)
    ensures IsProbe(t, stop) && (env.resolve(stop).Err? || env.resolve(stop).value > t)
  {
    stop :| FirstNewer(env, t, stop) || FirstFailing(env, t, stop);
  }

  /** A stale probe moves the loop on by one step. */
  lemma StaleNext(env: Env, t: int, t2: int)
    requires IsProbe(t, t2) && StaleBefore(env, t, t2)
    requires env.resolve(t2).Ok? && env.resolve(t2).value <= t
    ensures IsProbe(t, t2 + Step) && StaleBefore(env, t, t2 + Step)
  {
    forall q | IsProbe(t, q) && q < t2 + Step
      ensures env.resolve(q).Ok? && env.resolve(q).value <= t
    {
      if t2 < q { ProbeGap(t, t2, q); }
    }
  }

  /** A stale probe before the way out moves the loop on by one step, and
      the next probe is still no later than the way out. */
  lemma StaleStep(env: Env, t: int, t2: int, stop: int)
    requires IsProbe(t, t2) && StaleBefore(env, t, t2) && t2 <= stop
    requires env.resolve(t2).Ok? && env.resolve(t2).value <= t
    requires IsProbe(t, stop) && (env.resolve(stop).Err? || env.resolve(stop).value > t)
    ensures IsProbe(t, t2 + Step) && StaleBefore(env, t, t2 + Step) && t2 + Step <= stop
  {
    ProbeGap(t, t2, stop);
    StaleNext(env, t, t2);
  }

  /** How the inner loop of `run` ends. */
  datatype Advance =
    | Next(at: int)                                   // the probe to process
    | PastEnd(at: int)                                // the newer probe is after `end`
    | ProbeFailed(at: int, error: ResolveError)       // the probe did not resolve

  /** The inner loop of `run` (main.go:165-180): probes `t` plus six hours,
      twelve hours, ... until a probe resolves to something newer than `t` or
      fails; a newer probe past `end` ends the walk, otherwise that probe, not
      the instant it resolved to, is the next one processed. The loop ends
      exactly when such a probe exists. */
  method AdvanceFrom(env: Env, t: int, end: int) returns (r: Advance)
    requires StopsFrom(env, t)
    ensures r.Next? ==> FirstNewer(env, t, r.at) && r.at <= end
    ensures r.PastEnd? ==> FirstNewer(env, t, r.at) && r.at > end
    ensures r.ProbeFailed? ==> FirstFailing(env, t, r.at) && env.resolve(r.at) == Err(r.error)
  {
    ghost var stop := WayOut(env, t);
    var t2 := t + Step;
    while true
      invariant IsProbe(t, t2) && StaleBefore(env, t, t2) && t2 <= stop
      decreases stop - t2
    {
      var candidate := env.resolve(t2);
      if candidate.Err? {
        return ProbeFailed(t2, candidate.error);
      }
      if candidate.value <= t {
        StaleStep(env, t, t2, stop);
        t2 := t2 + Step;
      } else if t2 > end {
        return PastEnd(t2);
      } else {
        return Next(t2);
      }
    }
  }

  /** Once the probe loop is past the archive's newest snapshot, and the
      archive answers every later probe with that snapshot, no probe is newer
      or fails: the loop sends HEAD requests until a newer snapshot is
      published. When the newest snapshot
      lies within six hours after `t`, the probe `t` plus six hours is newer
      and is the next instant processed; from there the loop has no way out. */
  lemma NewestSnapshotHangs(env: Env, newest: int, t: int)
    requires forall x :: x > newest ==> env.resolve(x) == Ok(newest)
    requires t < newest < t + Step
    ensures FirstNewer(env, t, t + Step)
    ensures !StopsFrom(env, t + Step)
  {
    var u := t + Step;
    forall p ensures !(FirstNewer(env, u, p) || FirstFailing(env, u, p)) {
      if IsProbe(u, p) { assert env.resolve(p) == Ok(newest); }
    }
  }

  /** The probe loop with the `end` check on the stale branch as well: it
      stops at the first stale probe past `end`. It always ends, and within
      `end` it finds the same probe as the loop as written. */
  method AdvanceWithin(env: Env, t: int, end: int) returns (r: Advance)
    ensures r.Next? ==> FirstNewer(env, t, r.at) && r.at <= end
    ensures r.PastEnd? ==>
      (IsProbe(t, r.at) && StaleBefore(env, t, r.at) && env.resolve(r.at).Ok?
       && r.at > end && (r.at == t + Step || r.at - Step <= end))
    ensures r.ProbeFailed? ==> FirstFailing(env, t, r.at) && env.resolve(r.at) == Err(r.error)
    ensures forall p :: FirstNewer(env, t, p) && p <= end ==> r == Next(p)
  {
    var t2 := t + Step;
    while true
      invariant IsProbe(t, t2) && StaleBefore(env, t, t2)
      invariant t2 == t + Step || t2 - Step <= end
      decreases if t2 <= end then end - t2 + 1 else 0
    {
      var candidate := env.resolve(t2);
      if candidate.Err? {
        r := ProbeFailed(t2, candidate.error);
        WithinAgrees(env, t, end, r);
        return;
      }
      if candidate.value <= t {
        if t2 > end {
          r := PastEnd(t2);
          WithinAgrees(env, t, end, r);
          return;
        }
        StaleNext(env, t, t2);
        t2 := t2 + Step;
      } else {
        r := if t2 > end then PastEnd(t2) else Next(t2);
        WithinAgrees(env, t, end, r);
        return;
      }
    }
  }

  /** Whatever way the corrected loop ends, a first newer probe within `end`
      is the one it returns. */
  lemma WithinAgrees(env: Env, t: int, end: int, r: Advance)
    requires r.Next? ==> FirstNewer(env, t, r.at) && r.at <= end
    requires r.PastEnd? ==> IsProbe(t, r.at) && StaleBefore(env, t, r.at) && r.at > end
    requires r.ProbeFailed? ==> FirstFailing(env, t, r.at)
    ensures forall p :: FirstNewer(env, t, p) && p <= end ==> r == Next(p)
  {
    forall p | FirstNewer(env, t, p) && p <= end
      ensures r == Next(p)
    {
      if !r.PastEnd? {
        StopProbeUnique(env, t, p, r.at);
      }
    }
  }

  /** Why `run` panics. */
  datatype PanicReason =
    | EmptyIndex   // `idx[0]` on an empty index (main.go:216)
    | ShortKey     // `src[:4]` or `src[:1]` past the end of a key (main.go:103, 105)

  datatype RunError =
    | StartUnresolved(start: int, cause: ResolveError)
    | InitFailed
    | NextUnresolved(probe: int, cause: ResolveError)
    | StreamFailed(at: int, failure: FetchError)
    | ParseFailed(at: int, reason: string)

  /** How `run` ends: it returns nil, returns an error, or panics. */
  datatype Outcome = Done | Failed(error: RunError) | Panicked(at: int, reason: PanicReason)

  /** What processing one snapshot amounts to: a commit, or the way `run`
      stops there. */
  datatype Processed = Committed(commit: Commit) | Stopped(outcome: Outcome)

  /** The sorted index of the snapshot at `t` (main.go:183-206), or how `run`
      stops when it cannot be fetched or parsed. */
  function FetchIndex(env: Env, t: int): (r: Result<seq<Record>, Outcome>)
    requires ClockValid(env.clock) && VersionOrder(env.versionCmp)
    ensures var fetched := StreamPackages(env.get, Format(env.clock.toDate(t)), Configured);
      && (fetched.Err? ==> r == Err(Failed(StreamFailed(t, fetched.error))))
      && (fetched.Ok? && env.unpack(fetched.value).Err? ==>
            r == Err(Failed(ParseFailed(t, env.unpack(fetched.value).error))))
      && (fetched.Ok? && env.unpack(fetched.value).Ok? ==>
            r.Ok? && multiset(r.value) == multiset(env.unpack(fetched.value).value)
            && Sorted(env.versionCmp, r.value))
  {
    match StreamPackages(env.get, Format(env.clock.toDate(t)), Configured)
    case Err(e) => Err(Failed(StreamFailed(t, e)))
    case Ok(body) =>
      match env.unpack(body)
      case Err(e) => Err(Failed(ParseFailed(t, e)))
      case Ok(records) => Ok(SortIndex(env.versionCmp, records))
  }

  /** The body of the outer loop of `run` for the snapshot at `t`
      (main.go:181-236) on a fresh tree: fetch, parse and sort the index,
      write every group but the last, and commit. */
  function ProcessSnapshot(env: Env, t: int): (r: Processed)
    requires ClockValid(env.clock) && VersionOrder(env.versionCmp)
    ensures r.Stopped? ==>
      r.outcome.Panicked? || (r.outcome.Failed? && (r.outcome.error.StreamFailed? || r.outcome.error.ParseFailed?))
  {
    match FetchIndex(env, t)
    case Err(o) => Stopped(o)
    case Ok(idx) =>
      if idx == [] then Stopped(Panicked(t, EmptyIndex))
      else
        var ws := WrittenRuns(idx);
        var n := WritablePrefix(ws);
        if n < |ws| then Stopped(Panicked(t, ShortKey))
        else Committed(Commit(CommitMessage(Format(env.clock.toDate(t))), WriteGroups(map[], Configured, env.encode, ws[..n])))
  }

  /** A committed snapshot records the written runs of its sorted index. */
  lemma CommittedIndex(env: Env, t: int)
    requires ClockValid(env.clock) && VersionOrder(env.versionCmp)
    requires ProcessSnapshot(env, t).Committed?
    ensures FetchIndex(env, t).Ok? && FetchIndex(env, t).value != []
    ensures var ws := WrittenRuns(FetchIndex(env, t).value);
      GroupsWritable(ws) && ProcessSnapshot(env, t).commit
        == Commit(CommitMessage(Format(env.clock.toDate(t))), WriteGroups(map[], Configured, env.encode, ws))
  {
    assert FetchIndex(env, t).Ok?;
    var idx := FetchIndex(env, t).value;
    assert idx != [];
    var ws := WrittenRuns(idx);
    assert WritablePrefix(ws) == |ws|;
    assert ws[..|ws|] == ws;
  }

  /** The files of a committed snapshot's tree are the paths of the groups
      written: every sorted run of its index but the last. */
  lemma CommittedTreeDomain(env: Env, t: int, p: string)
    requires ClockValid(env.clock) && VersionOrder(env.versionCmp)
    requires ProcessSnapshot(env, t).Committed?
    ensures FetchIndex(env, t).Ok? && GroupsWritable(WrittenRuns(FetchIndex(env, t).value))
    ensures var ws := WrittenRuns(FetchIndex(env, t).value);
      p in ProcessSnapshot(env, t).commit.tree <==> exists j :: 0 <= j < |ws| && GroupPath(Configured, ws[j]) == p
  {
    CommittedIndex(env, t);
    WriteGroupsDomain(map[], Configured, env.encode, WrittenRuns(FetchIndex(env, t).value), p);
  }

  /** In a committed snapshot, the file of a written group whose key no other
      written group has holds exactly the group's encoding. */
  lemma CommittedTreeFile(env: Env, t: int, k: nat)
    requires ClockValid(env.clock) && VersionOrder(env.versionCmp)
    requires ProcessSnapshot(env, t).Committed?
    ensures FetchIndex(env, t).Ok? && GroupsWritable(WrittenRuns(FetchIndex(env, t).value))
    ensures var ws := WrittenRuns(FetchIndex(env, t).value);
      k < |ws| && (forall j :: 0 <= j < |ws| ==> '/' !in SourceName(ws[j][0]))
      && (forall j :: 0 <= j < |ws| && j != k ==> SourceName(ws[j][0]) != SourceName(ws[k][0]))
      ==> FileAt(ProcessSnapshot(env, t).commit.tree, GroupPath(Configured, ws[k])) == EncodeAll(env.encode, ws[k])
  {
    CommittedIndex(env, t);
    ConfiguredPlain();
    TreeFileOf(ProcessSnapshot(env, t).commit.tree, Configured, env.encode, WrittenRuns(FetchIndex(env, t).value), k);
  }

  /** A tree built from the written groups on an emptied tree holds, at the
      path of a group whose key no other group has, that group's encoding. */
  lemma TreeFileOf(tree: Tree, sel: Selector, encode: Record -> seq<byte>, ws: seq<seq<Record>>, k: nat)
    requires GroupsWritable(ws) && PlainSelector(sel) && tree == WriteGroups(map[], sel, encode, ws)
    ensures k < |ws| && (forall j :: 0 <= j < |ws| ==> '/' !in SourceName(ws[j][0]))
      && (forall j :: 0 <= j < |ws| && j != k ==> SourceName(ws[j][0]) != SourceName(ws[k][0]))
      ==> FileAt(tree, GroupPath(sel, ws[k])) == EncodeAll(encode, ws[k])
  {
    FreshTreeFileWhen(sel, encode, ws, k);
  }

  /** The fetch, parse and sort of main.go:184-206, as `FetchIndex` says. */
  method FetchAt(env: Env, t: int) returns (r: Result<seq<Record>, Outcome>)
    requires ClockValid(env.clock) && VersionOrder(env.versionCmp)
    ensures r == FetchIndex(env, t)
  {
    var fetched := StreamPackages(env.get, Format(env.clock.toDate(t)), Configured);
    if fetched.Err? {
      return Err(Failed(StreamFailed(t, fetched.error)));
    }
    var parsed := env.unpack(fetched.value);
    if parsed.Err? {
      return Err(Failed(ParseFailed(t, parsed.error)));
    }
    return Ok(SortIndex(env.versionCmp, parsed.value));
  }

  /** One pass of the outer loop of `run` from the fetch on (main.go:183-236):
      commits the snapshot, or stops the way `ProcessSnapshot` says; the log
      gains exactly that commit. */
  method ProcessAt(repo: Repo, env: Env, t: int) returns (step: Processed)
    requires ClockValid(env.clock) && VersionOrder(env.versionCmp)
    modifies repo
    ensures step == ProcessSnapshot(env, t)
    ensures step.Committed? ==> repo.files == step.commit.tree
    ensures step.Stopped? && step.outcome.Failed? ==> repo.files == old(repo.files)
    ensures step.Stopped? && step.outcome.Panicked? ==> step.outcome.at == t
    ensures step.Stopped? && step.outcome == Panicked(t, EmptyIndex) ==> repo.files == map[]
    ensures step.Stopped? && step.outcome == Panicked(t, ShortKey) ==> PanicTree(env, t, repo.files)
    ensures repo.initialized == old(repo.initialized)
    ensures repo.log == if step.Committed? then old(repo.log) + [step.commit] else old(repo.log)
  {
    var fetched := FetchAt(env, t);
    if fetched.Err? {
      return Stopped(fetched.error);
    }
    var idx := fetched.value;
    var stamp := Format(env.clock.toDate(t));
    repo.RemoveAll();
    if idx == [] {
      return Stopped(Panicked(t, EmptyIndex));
    }
    var panicked := repo.MaterializeIndex(Configured, env.encode, idx);
    if panicked {
      return Stopped(Panicked(t, ShortKey));
    }
    repo.AddAllAndCommit(CommitMessage(stamp));
    return Committed(Commit(CommitMessage(stamp), repo.files));
  }

  /** The tree a panic on the snapshot at `t` with a too short key leaves:
      the groups of its index written before the panicking one, on an
      emptied tree. */
  ghost predicate PanicTree(env: Env, t: int, files: Tree)
    requires ClockValid(env.clock) && VersionOrder(env.versionCmp)
  {
    FetchIndex(env, t).Ok? && var ws := WrittenRuns(FetchIndex(env, t).value);
    files == WriteGroups(map[], Configured, env.encode, ws[..WritablePrefix(ws)])
  }

  /** The instant each processed snapshot was probed from: the resolved start
      for the first, the previous one after that. */
  function Prev(start: int, ps: seq<int>, i: nat): int
    requires i < |ps|
  {
    if i == 0 then start else ps[i - 1]
  }

  /** The last instant the walk reached. */
  function Last(start: int, ps: seq<int>): int
  {
    if ps == [] then start else ps[|ps| - 1]
  }

  /** `ps` are the instants the outer loop of `run` processes, in order, from
      the resolved start: each is the first newer probe from the one before
      and is no later than `end`. */
  ghost predicate Walk(env: Env, start: int, end: int, ps: seq<int>)
    decreases |ps|
  {
    ps == [] ||
      var init := ps[..|ps| - 1];
      Walk(env, start, end, init) && FirstNewer(env, Last(start, init), ps[|ps| - 1]) && ps[|ps| - 1] <= end
  }

  /** Every processed instant, the first included, lies a positive whole
      number of six-hour steps after the instant before it (the resolved start
      for the first), resolves to something newer than that instant, lies
      after the start and is no later than `end`. */
  lemma WalkAdvances(env: Env, start: int, end: int, ps: seq<int>, j: nat)
    requires Walk(env, start, end, ps) && j < |ps|
    ensures Prev(start, ps, j) < ps[j] && (ps[j] - Prev(start, ps, j)) % Step == 0
    ensures env.resolve(ps[j]).Ok? && env.resolve(ps[j]).value > Prev(start, ps, j)
    ensures start < ps[j] <= end
  {
    WalkStep(env, start, end, ps, j);
    WalkOrdered(env, start, end, ps, j, j);
  }

  /** Each instant of a walk is the first newer probe from the one before. */
  lemma {:induction false} WalkStep(env: Env, start: int, end: int, ps: seq<int>, i: nat)
    requires Walk(env, start, end, ps) && i < |ps|
    ensures FirstNewer(env, Prev(start, ps, i), ps[i]) && ps[i] <= end
    decreases |ps|
  {
    var init := ps[..|ps| - 1];
    if i < |init| {
      WalkStep(env, start, end, init, i);
      assert init[i] == ps[i];
      if i > 0 { assert init[i - 1] == ps[i - 1]; }
    } else if i > 0 {
      assert init[i - 1] == ps[i - 1];
    }
  }

  /** A prefix of a walk is a walk. */
  lemma {:induction false} WalkPrefix(env: Env, start: int, end: int, ps: seq<int>, m: nat)
    requires Walk(env, start, end, ps) && m <= |ps|
    ensures Walk(env, start, end, ps[..m])
    decreases |ps| - m
  {
    if m < |ps| {
      WalkPrefix(env, start, end, ps[..|ps| - 1], m);
      assert ps[..|ps| - 1][..m] == ps[..m];
    } else {
      assert ps[..m] == ps;
    }
  }

  /** A processed instant lies a positive whole number of six-hour steps after
      the one before and resolves to something newer than it; the walk
      strictly increases and stays within `end`, so the resolved start itself
      is never processed. */
  lemma WalkIncreases(env: Env, start: int, end: int, ps: seq<int>, i: nat, j: nat)
    requires Walk(env, start, end, ps)
    requires i < j < |ps|
    ensures start < ps[i] < ps[j] <= end
    ensures (ps[j] - ps[j - 1]) % Step == 0 && ps[j] - ps[j - 1] >= Step
    ensures env.resolve(ps[j]).Ok? && env.resolve(ps[j]).value > ps[j - 1]
  {
    WalkStep(env, start, end, ps, j);
    WalkOrdered(env, start, end, ps, i, j);
    WalkOrdered(env, start, end, ps, i, i);
  }

  /** The instants of a walk lie after the start and strictly increase. */
  lemma {:induction false} WalkOrdered(env: Env, start: int, end: int, ps: seq<int>, i: nat, j: nat)
    requires Walk(env, start, end, ps) && i <= j < |ps|
    ensures start < ps[j] && (i < j ==> ps[i] < ps[j])
    decreases j
  {
    WalkStep(env, start, end, ps, j);
    if j > 0 {
      WalkOrdered(env, start, end, ps, if i < j then i else j - 1, j - 1);
    }
  }

  /** The walk is determined by the archive: two walks from one start agree
      on their common length. */
  lemma {:induction false} WalkDeterministic(env: Env, start: int, end: int, ps: seq<int>, qs: seq<int>)
    requires Walk(env, start, end, ps) && Walk(env, start, end, qs)
    requires |ps| <= |qs|
    ensures ps == qs[..|ps|]
    decreases |ps|
  {
    if ps != [] {
      var n := |ps| - 1;
      WalkPrefix(env, start, end, ps, n);
      WalkPrefix(env, start, end, qs, n);
      WalkDeterministic(env, start, end, ps[..n], qs[..n]);
      WalkStep(env, start, end, ps, n);
      WalkStep(env, start, end, qs, n);
      assert Prev(start, ps, n) == Prev(start, qs, n) by {
        if n > 0 { assert ps[..n][n - 1] == qs[..n][n - 1]; }
      }
      StopProbeUnique(env, Prev(start, ps, n), ps[n], qs[n]);
      assert ps == ps[..n] + [ps[n]] && qs[..|ps|] == qs[..n] + [qs[n]];
    }
  }

  /** The first commits of `log` are those of the snapshots at `ps`, one
      each, in order. */
  ghost predicate CommitsMatch(env: Env, ps: seq<int>, log: seq<Commit>)
    requires ClockValid(env.clock) && VersionOrder(env.versionCmp)
  {
    |log| <= |ps| && forall i :: 0 <= i < |log| ==> ProcessSnapshot(env, ps[i]) == Committed(log[i])
  }

  /** Processing one more instant keeps the commits matched, with its commit
      appended when there is one. */
  lemma CommitsExtend(env: Env, ps: seq<int>, log: seq<Commit>, t: int, more: seq<Commit>)
    requires ClockValid(env.clock) && VersionOrder(env.versionCmp)
    requires CommitsMatch(env, ps, log) && |log| == |ps|
    requires more == [] || (ProcessSnapshot(env, t).Committed? && more == [ProcessSnapshot(env, t).commit])
    ensures CommitsMatch(env, ps + [t], log + more)
  {
    var ps', log' := ps + [t], log + more;
    forall i | 0 <= i < |log'| ensures ProcessSnapshot(env, ps'[i]) == Committed(log'[i]) {
      if i < |log| { assert ps'[i] == ps[i] && log'[i] == log[i]; }
    }
  }

  /** How the commits of `log` and the outcome fit the walk `ps` from `start`:
      one commit per processed snapshot, except one that stopped `run`, which
      is the last processed. `run` ends without error exactly when the first
      newer probe from the last processed instant is past `end`. */
  ghost predicate Recorded(env: Env, start: int, end: int, ps: seq<int>, log: seq<Commit>, outcome: Outcome)
    requires ClockValid(env.clock) && VersionOrder(env.versionCmp)
  {
    && CommitsMatch(env, ps, log)
    && match outcome
       case Done =>
         |log| == |ps| && exists p :: FirstNewer(env, Last(start, ps), p) && p > end
       case Failed(NextUnresolved(p, e)) =>
         |log| == |ps| && FirstFailing(env, Last(start, ps), p) && env.resolve(p) == Err(e)
       case Failed(StreamFailed(_, _)) =>
         |log| + 1 == |ps| && ProcessSnapshot(env, ps[|log|]) == Stopped(outcome)
       case Failed(ParseFailed(_, _)) =>
         |log| + 1 == |ps| && ProcessSnapshot(env, ps[|log|]) == Stopped(outcome)
       case Panicked(_, _) =>
         |log| + 1 == |ps| && ProcessSnapshot(env, ps[|log|]) == Stopped(outcome)
       case Failed(_) => false
  }

  /** The last instant processed stopped `run`. */
  lemma RecordedStop(env: Env, start: int, end: int, ps: seq<int>, log: seq<Commit>, outcome: Outcome)
    requires ClockValid(env.clock) && VersionOrder(env.versionCmp)
    requires CommitsMatch(env, ps, log) && |log| + 1 == |ps|
    requires ProcessSnapshot(env, ps[|log|]) == Stopped(outcome)
    ensures Recorded(env, start, end, ps, log, outcome)
  {
  }

  /** The walk ends without error when the next newer probe is past `end`. */
  lemma RecordedDone(env: Env, start: int, end: int, ps: seq<int>, log: seq<Commit>, p: int)
    requires ClockValid(env.clock) && VersionOrder(env.versionCmp)
    requires CommitsMatch(env, ps, log) && |log| == |ps|
    requires FirstNewer(env, Last(start, ps), p) && p > end
    ensures Recorded(env, start, end, ps, log, Done)
  {
  }

  /** The walk ends with an error when the next probe does not resolve. */
  lemma RecordedFailedProbe(env: Env, start: int, end: int, ps: seq<int>, log: seq<Commit>, p: int, e: ResolveError)
    requires ClockValid(env.clock) && VersionOrder(env.versionCmp)
    requires CommitsMatch(env, ps, log) && |log| == |ps|
    requires FirstFailing(env, Last(start, ps), p) && env.resolve(p) == Err(e)
    ensures Recorded(env, start, end, ps, log, Failed(NextUnresolved(p, e)))
  {
  }

  /** A walk goes on with the first newer probe when it is within `end`. */
  lemma WalkExtend(env: Env, start: int, end: int, ps: seq<int>, p: int)
    requires Walk(env, start, end, ps) && FirstNewer(env, Last(start, ps), p) && p <= end
    ensures Walk(env, start, end, ps + [p]) && Last(start, ps + [p]) == p
  {
    assert (ps + [p])[..|ps|] == ps;
  }

  /** Every snapshot at `ps` was committed. */
  ghost predicate AllCommitted(env: Env, ps: seq<int>)
    requires ClockValid(env.clock) && VersionOrder(env.versionCmp)
  {
    forall i :: 0 <= i < |ps| ==> ProcessSnapshot(env, ps[i]).Committed?
  }

  /** The inner loop has a way out at every instant the outer loop reaches
      from `start`: after any walk whose snapshots were all committed. This is
      exactly when `run` ends. */
  ghost predicate WalkStops(env: Env, start: int, end: int)
    requires ClockValid(env.clock) && VersionOrder(env.versionCmp)
  {
    forall ps {:trigger AllCommitted(env, ps)} ::
      Walk(env, start, end, ps) && AllCommitted(env, ps) ==> StopsFrom(env, Last(start, ps))
  }

  /** A walk whose snapshots are all recorded as commits has reached an
      instant the inner loop leaves. */
  lemma WalkGoesOn(env: Env, start: int, end: int, ps: seq<int>, log: seq<Commit>)
    requires ClockValid(env.clock) && VersionOrder(env.versionCmp)
    requires WalkStops(env, start, end) && Walk(env, start, end, ps)
    requires CommitsMatch(env, ps, log) && |log| == |ps|
    ensures StopsFrom(env, Last(start, ps))
  {
    assert AllCommitted(env, ps) by {
      forall i | 0 <= i < |ps| ensures ProcessSnapshot(env, ps[i]).Committed? {
        assert ProcessSnapshot(env, ps[i]) == Committed(log[i]);
      }
    }
  }

  /** On an archive whose newest snapshot is newer than the last instant a
      walk processed by less than six hours, and which answers every later
      probe with that snapshot, the walk processes one more instant and
      reaches one the inner loop cannot leave: `run` hangs there, unless
      processing that instant stopped it first. */
  lemma RunHangsPastNewest(env: Env, newest: int, start: int, end: int, ps: seq<int>)
    requires forall x :: x > newest ==> env.resolve(x) == Ok(newest)
    requires Walk(env, start, end, ps)
    requires Last(start, ps) < newest < Last(start, ps) + Step <= end
    ensures var ps' := ps + [Last(start, ps) + Step];
      Walk(env, start, end, ps') && !StopsFrom(env, Last(start, ps'))
  {
    NewestSnapshotHangs(env, newest, Last(start, ps));
    WalkExtend(env, start, end, ps, Last(start, ps) + Step);
  }

  /** From the instant 0, on an archive whose snapshots are the instants 0 to
      `Step + 1` (earlier probes resolve to 0, later ones to `Step + 1`),
      `run` processes `Step` and `2 * Step` and then probes until a newer
      snapshot appears. */
  lemma HangExample(env: Env, end: int)
    requires forall x :: env.resolve(x) == Ok(if x < 0 then 0 else if x <= Step + 1 then x else Step + 1)
    requires end >= 2 * Step
    ensures Walk(env, 0, end, [Step, 2 * Step]) && !StopsFrom(env, 2 * Step)
  {
    assert FirstNewer(env, 0, Step) by {
      assert env.resolve(Step) == Ok(Step);
    }
    WalkExtend(env, 0, end, [], Step);
    assert forall x :: x > Step + 1 ==> env.resolve(x) == Ok(Step + 1);
    RunHangsPastNewest(env, Step + 1, 0, end, [Step]);
    assert [Step] + [Last(0, [Step]) + Step] == [Step, 2 * Step];
  }

  /** A committed walk that reaches an instant the inner loop cannot leave
      breaks the condition that `run` ends. */
  lemma WalkStuck(env: Env, start: int, end: int, ps: seq<int>)
    requires ClockValid(env.clock) && VersionOrder(env.versionCmp)
    requires Walk(env, start, end, ps) && AllCommitted(env, ps) && !StopsFrom(env, Last(start, ps))
    ensures !WalkStops(env, start, end)
  {
  }

  /** The tree of the last commit, or `files0` before any. */
  function LastTree(files0: Tree, log: seq<Commit>): Tree
  {
    if log == [] then files0 else log[|log| - 1].tree
  }

  /** After one more commit the last tree is its tree. */
  lemma LastTreeSnoc(files0: Tree, log: seq<Commit>, c: Commit)
    ensures LastTree(files0, log + [c]) == c.tree
  {
  }

  /** The working tree `run` leaves, from the one it found (`files0`) and the
      commits it made: a panic on an empty index leaves it empty, a panic on a
      short key leaves the groups written before it, and any other end leaves
      the tree of the last commit. */
  ghost predicate FinalTree(env: Env, files0: Tree, log: seq<Commit>, outcome: Outcome, files: Tree)
    requires ClockValid(env.clock) && VersionOrder(env.versionCmp)
  {
    match outcome
    case Panicked(at, EmptyIndex) => files == map[]
    case Panicked(at, ShortKey) => PanicTree(env, at, files)
    case _ => files == LastTree(files0, log)
  }

  /** An end at a probe leaves the tree of the last commit. */
  lemma FinalAtProbe(env: Env, files0: Tree, log: seq<Commit>, outcome: Outcome, files: Tree)
    requires ClockValid(env.clock) && VersionOrder(env.versionCmp)
    requires !outcome.Panicked? && files == LastTree(files0, log)
    ensures FinalTree(env, files0, log, outcome, files)
  {
  }

  /** An end at a snapshot leaves what `ProcessAt` says. */
  lemma FinalAtStop(env: Env, files0: Tree, log: seq<Commit>, t: int, step: Processed, filesBefore: Tree, files: Tree)
    requires ClockValid(env.clock) && VersionOrder(env.versionCmp)
    requires step.Stopped? && filesBefore == LastTree(files0, log)
    requires step.outcome.Failed? ==> files == filesBefore
    requires step.outcome.Panicked? ==> step.outcome.at == t
    requires step.outcome == Panicked(t, EmptyIndex) ==> files == map[]
    requires step.outcome == Panicked(t, ShortKey) ==> PanicTree(env, t, files)
    requires step.outcome.Panicked? || step.outcome.Failed?
    ensures FinalTree(env, files0, log, step.outcome, files)
  {
  }

  /** A snapshot that stops `run` is the last one processed, and the tree is
      what `ProcessAt` left. */
  lemma StopRecorded(env: Env, start: int, end: int, ps: seq<int>, log: seq<Commit>, t: int, step: Processed,
                     files0: Tree, filesBefore: Tree, files: Tree)
    requires ClockValid(env.clock) && VersionOrder(env.versionCmp)
    requires CommitsMatch(env, ps, log) && |log| == |ps|
    requires step == ProcessSnapshot(env, t) && step.Stopped? && filesBefore == LastTree(files0, log)
    requires step.outcome.Failed? ==> files == filesBefore
    requires step.outcome.Panicked? ==> step.outcome.at == t
    requires step.outcome == Panicked(t, EmptyIndex) ==> files == map[]
    requires step.outcome == Panicked(t, ShortKey) ==> PanicTree(env, t, files)
    ensures Recorded(env, start, end, ps + [t], log, step.outcome)
    ensures FinalTree(env, files0, log, step.outcome, files)
  {
    CommitsExtend(env, ps, log, t, []);
    assert log + [] == log;
    RecordedStop(env, start, end, ps + [t], log, step.outcome);
    FinalAtStop(env, files0, log, t, step, filesBefore, files);
  }

  /** The loop of `run` (main.go:163-238): from snapshot `s` on a freshly
      initialised repository, probe, process and commit until a stop. */
  method Sweep(repo: Repo, env: Env, s: int, end: int) returns (outcome: Outcome, processed: seq<int>)
    requires ResolvesViaArchive(env) && VersionOrder(env.versionCmp)
    requires WalkStops(env, s, end) && repo.initialized && repo.log == []
    modifies repo
    ensures repo.initialized && Walk(env, s, end, processed)
    ensures Recorded(env, s, end, processed, repo.log, outcome)
    ensures FinalTree(env, old(repo.files), repo.log, outcome, repo.files)
  {
    ghost var files0 := repo.files;
    var t := s;
    processed := [];
    while true
      invariant repo.initialized && t == Last(s, processed)
      invariant Walk(env, s, end, processed)
      invariant |repo.log| == |processed| && CommitsMatch(env, processed, repo.log)
      invariant repo.files == LastTree(files0, repo.log)
      decreases end - t
    {
      WalkGoesOn(env, s, end, processed, repo.log);
      var adv := AdvanceFrom(env, t, end);
      if adv.ProbeFailed? {
        RecordedFailedProbe(env, s, end, processed, repo.log, adv.at, adv.error);
        FinalAtProbe(env, files0, repo.log, Failed(NextUnresolved(adv.at, adv.error)), repo.files);
        return Failed(NextUnresolved(adv.at, adv.error)), processed;
      }
      if adv.PastEnd? {
        RecordedDone(env, s, end, processed, repo.log, adv.at);
        FinalAtProbe(env, files0, repo.log, Done, repo.files);
        return Done, processed;
      }
      ghost var before := processed;
      ghost var log := repo.log;
      t := adv.at;
      WalkExtend(env, s, end, processed, t);
      processed := processed + [t];
      ghost var filesBefore := repo.files;
      var step := ProcessAt(repo, env, t);
      if step.Stopped? {
        StopRecorded(env, s, end, before, log, t, step, files0, filesBefore, repo.files);
        return step.outcome, processed;
      }
      CommitsExtend(env, before, log, t, [step.commit]);
      LastTreeSnoc(files0, log, step.commit);
    }
  }

  /** `run` (main.go:141-240) started at `now` on a repository path. It
      returns the outcome and the instants it processed (the "working on
      snapshot" log lines). */
  method Run(repo: Repo, env: Env, now: int) returns (outcome: Outcome, processed: seq<int>)
    requires ResolvesViaArchive(env) && VersionOrder(env.versionCmp)
    requires env.resolve(now - Lookback).Ok? ==> WalkStops(env, env.resolve(now - Lookback).value, now)
    modifies repo
    ensures var s := env.resolve(now - Lookback);
      if s.Err? then
        outcome == Failed(StartUnresolved(now - Lookback, s.error)) && processed == []
        && repo.initialized == old(repo.initialized) && repo.log == old(repo.log)
      else if old(repo.initialized) then
        outcome == Failed(InitFailed) && processed == [] && repo.log == old(repo.log)
      else
        repo.initialized && Walk(env, s.value, now, processed)
        && Recorded(env, s.value, now, processed, repo.log, outcome)
    ensures var s := env.resolve(now - Lookback);
      (s.Err? || old(repo.initialized) ==> repo.files == old(repo.files))
      && (s.Ok? && !old(repo.initialized) ==> FinalTree(env, old(repo.files), repo.log, outcome, repo.files))
  {
    var start := now - Lookback;
    var resolved := env.resolve(start);
    if resolved.Err? {
      return Failed(StartUnresolved(start, resolved.error)), [];
    }
    var ok := repo.PlainInit();
    if !ok {
      return Failed(InitFailed), [];
    }
    outcome, processed := Sweep(repo, env, resolved.value, now);
  }
}
