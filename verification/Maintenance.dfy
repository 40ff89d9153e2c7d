/** The call manifest (src/session/manifest.rs) and the retention sweep over its rows and the
    snapshot files they refer to (src/session/maintenance.rs). */
module Maintenance {
  import opened Sequences
  import opened Wrappers

  datatype Status = InProgress | Finished | Failed

  datatype Row = Row(
    session: string,
    tool: string,
    args: string,
    status: Status,
    summary: Option<string>,
    snapshot: Option<string>,
    purgedAt: Option<int>)

  type Rows = map<string, Row>

  datatype ManifestError = BeginFailed | FinishFailed | Internal

  // ---- The rows of calls

  class ManifestWriter {
    const session: string
    var rows: Rows

    constructor (session: string)
      ensures this.session == session && rows == map[]
    {
      this.session := session;
      rows := map[];
    }

    method BeginCall(call: string, tool: string, args: string) returns (r: Outcome<(), ManifestError>)
      modifies this
      ensures rows == AfterBegin(old(rows), session, call, tool, args)
      ensures r == if call in old(rows) then Err(BeginFailed) else Ok(())
      ensures call !in old(rows) ==> rows == old(rows)[call := Row(session, tool, args, InProgress, None, None, None)]
    {
      if call in rows {
        return Err(BeginFailed);
      }
      rows := rows[call := Row(session, tool, args, InProgress, None, None, None)];
      r := Ok(());
    }

    method FinishCall(call: string, summary: string, snapshot: string) returns (r: Outcome<(), ManifestError>)
      modifies this
      ensures rows == AfterFinish(old(rows), call, summary, snapshot)
      ensures r == if call in old(rows) then Ok(()) else Err(FinishFailed)
      ensures call in old(rows) ==>
        var row := old(rows)[call];
        rows == old(rows)[call := Row(row.session, row.tool, row.args, Finished, Some(summary), Some(snapshot), row.purgedAt)]
      ensures call !in old(rows) ==> rows == old(rows)
    {
      if call !in rows {
        return Err(FinishFailed);
      }
      rows := rows[call := rows[call].(status := Finished, summary := Some(summary), snapshot := Some(snapshot))];
      r := Ok(());
    }

    /** Succeeds whether or not the call has a row. */
    method FailCall(call: string, safe: string)
      modifies this
      ensures rows == AfterFail(old(rows), call, safe)
      ensures call in old(rows) ==>
        var row := old(rows)[call];
        rows == old(rows)[call := Row(row.session, row.tool, row.args, Failed, Some(safe), row.snapshot, row.purgedAt)]
      ensures call !in old(rows) ==> rows == old(rows)
    {
      if call in rows {
        rows := rows[call := rows[call].(status := Failed, summary := Some(safe))];
      }
    }
  }

  function AfterBegin(rows: Rows, session: string, call: string, tool: string, args: string): Rows {
    if call in rows then rows else rows[call := Row(session, tool, args, InProgress, None, None, None)]
  }

  function AfterFinish(rows: Rows, call: string, summary: string, snapshot: string): Rows {
    if call !in rows then rows
    else rows[call := rows[call].(status := Finished, summary := Some(summary), snapshot := Some(snapshot))]
  }

  function AfterFail(rows: Rows, call: string, safe: string): Rows {
    if call !in rows then rows else rows[call := rows[call].(status := Failed, summary := Some(safe))]
  }

  // ---- The sweep

  datatype AutoPurge = Off | Warn | Purge {
    function Rank(): nat {
      match this case Off => 0 case Warn => 1 case Purge => 2
    }

    /** The less destructive of the two. */
    function CapWith(other: AutoPurge): AutoPurge {
      if Rank() <= other.Rank() then this else other
    }
  }

  /** The merged mode is the greatest lower bound: a user can only make the project's mode less destructive. */
  lemma CapIsLowerBound(a: AutoPurge, b: AutoPurge, c: AutoPurge)
    ensures a.CapWith(b).Rank() <= a.Rank() && a.CapWith(b).Rank() <= b.Rank()
    ensures c.Rank() <= a.Rank() && c.Rank() <= b.Rank() ==> c.Rank() <= a.CapWith(b).Rank()
    ensures a.CapWith(b) == b.CapWith(a) && a.CapWith(b.CapWith(c)) == a.CapWith(b).CapWith(c)
    ensures Off.CapWith(a) == Off && Purge.CapWith(a) == a && (a.Purge? ==> Warn.CapWith(a) == Warn)
  {
  }

  const MS_PER_DAY: int := 86_400_000
  const WARN_SUPPRESSION_MS: int := 24 * 3_600_000
  const I64_MAX: int := 0x7fff_ffff_ffff_ffff
  const I64_MIN: int := -0x8000_0000_0000_0000
  const U32_MAX: int := 0xffff_ffff

  function Saturate(x: int): int {
    if x > I64_MAX then I64_MAX else if x < I64_MIN then I64_MIN else x
  }

  /** What the surroundings decide: the time in a session's id, whether a file refuses to be removed
      for a call, whether its tombstone can be written, and the clock when it is. */
  datatype Surroundings = Surroundings(
    sessionTime: string -> Option<nat>,
    refuses: string -> bool,
    writable: string -> bool,
    clock: string -> int)

  /** Rows the sweep selects: finished, with a snapshot, not yet purged. */
  predicate Candidate(row: Row) {
    row.status.Finished? && row.snapshot.Some? && row.purgedAt.None?
  }

  predicate Expired(session: string, days: nat, now: int, env: Surroundings) {
    env.sessionTime(session).Some?
    && Saturate(now - env.sessionTime(session).value) > Saturate(days * MS_PER_DAY)
  }

  predicate Eligible(rows: Rows, call: string, days: nat, now: int, env: Surroundings) {
    call in rows && Candidate(rows[call]) && Expired(rows[call].session, days, now, env)
  }

  datatype Report = Report(wouldPurge: seq<string>, purged: seq<string>, failed: seq<string>)

  const NOTHING := Report([], [], [])

  /** The rows and the snapshot files that exist. */
  datatype Store = Store(rows: Rows, files: set<string>)

  datatype Swept = Swept(store: Store, report: Report, ok: bool)

  function Tombstone(row: Row, at: int): Row {
    row.(purgedAt := Some(at), snapshot := None)
  }

  /** Purging one eligible row: remove its file, which may be gone already, then write its tombstone. */
  function PurgeRow(w: Swept, call: string, env: Surroundings): Swept
    requires call in w.store.rows && w.store.rows[call].snapshot.Some?
  {
    var row := w.store.rows[call];
    if env.refuses(call) then w.(report := w.report.(failed := w.report.failed + [call]))
    else
      var files := w.store.files - {row.snapshot.value};
      if !env.writable(call) then w.(store := Store(w.store.rows, files), ok := false)
      else
        Swept(Store(w.store.rows[call := Tombstone(row, env.clock(call))], files),
              w.report.(purged := w.report.purged + [call]), true)
  }

  /** One selected row. */
  function SweepRow(w: Swept, call: string, mode: AutoPurge, days: nat, now: int, env: Surroundings): Swept
    requires call in w.store.rows && w.store.rows[call].snapshot.Some?
  {
    if !Expired(w.store.rows[call].session, days, now, env) then w
    else if mode.Purge? then PurgeRow(w, call, env)
    else w.(report := w.report.(wouldPurge := w.report.wouldPurge + [call]))
  }

  /** A selection lists every candidate row once. */
  predicate Selection(rows: Rows, calls: seq<string>) {
    && (forall i | 0 <= i < |calls| :: calls[i] in rows && Candidate(rows[calls[i]]))
    && (forall i, j | 0 <= i < j < |calls| :: calls[i] != calls[j])
    && (forall c | c in rows && Candidate(rows[c]) :: c in calls)
  }

  /** The rows still to be swept are distinct candidates. */
  predicate Pending(rows: Rows, calls: seq<string>) {
    && (forall i | 0 <= i < |calls| :: calls[i] in rows && Candidate(rows[calls[i]]))
    && (forall i, j | 0 <= i < j < |calls| :: calls[i] != calls[j])
  }

  lemma SweepRowKeepsPending(w: Swept, calls: seq<string>, mode: AutoPurge, days: nat, now: int, env: Surroundings)
    requires calls != [] && Pending(w.store.rows, calls)
    ensures Pending(SweepRow(w, calls[0], mode, days, now, env).store.rows, calls[1..])
  {
  }

  function SweepAll(w: Swept, calls: seq<string>, mode: AutoPurge, days: nat, now: int, env: Surroundings): Swept
    requires Pending(w.store.rows, calls)
    decreases |calls|
  {
    if calls == [] || !w.ok then w
    else
      SweepRowKeepsPending(w, calls, mode, days, now, env);
      SweepAll(SweepRow(w, calls[0], mode, days, now, env), calls[1..], mode, days, now, env)
  }

  /** The warning is due unless one was given within the last day. */
  predicate WarningDue(last: Option<int>, now: int) {
    last.None? || Saturate(now - last.value) >= WARN_SUPPRESSION_MS
  }

  /** What becomes of the file that holds the time of the last warning when a warning writes it: it holds the new
      time, or the write fails, which nobody notices, and leaves any time or none. */
  datatype Write = Written | Lost(left: Option<int>)

  /** A file that cannot be read counts as holding no time. */
  function Seen(lastWarning: Option<int>, readable: bool): Option<int> {
    if readable then lastWarning else None
  }

  function WarningWritten(write: Write, now: int): Option<int> {
    if write.Written? then Some(now) else write.left
  }

  class ManifestMaintenance {
    var store: Store
    /** The time in the file of the last warning. */
    var lastWarning: Option<int>

    constructor (store: Store, lastWarning: Option<int>)
      ensures this.store == store && this.lastWarning == lastWarning
    {
      this.store := store;
      this.lastWarning := lastWarning;
    }

    /** `calls` is the selection in the order the database returns it. */
    method SweepExpiredSnapshots(days: nat, mode: AutoPurge, now: int, calls: seq<string>, env: Surroundings, readable: bool, write: Write)
      returns (r: Outcome<Report, ManifestError>, warned: bool)
      requires Selection(store.rows, calls)
      modifies this
      ensures mode.Off? ==> store == old(store) && r == Ok(NOTHING)
      ensures !mode.Off? ==>
        var w := SweepAll(Swept(old(store), NOTHING, true), calls, mode, days, now, env);
        store == w.store && r == if w.ok then Ok(w.report) else Err(Internal)
      ensures warned == (mode.Warn? && r.Ok? && r.value.wouldPurge != [] && WarningDue(Seen(old(lastWarning), readable), now))
      ensures lastWarning == if warned then WarningWritten(write, now) else old(lastWarning)
    {
      warned := false;
      if mode.Off? {
        return Ok(NOTHING), false;
      }
      var w := Swept(store, NOTHING, true);
      ghost var whole := SweepAll(w, calls, mode, days, now, env);
      assert calls[0..] == calls;
      for i := 0 to |calls|
        invariant w.ok && Pending(w.store.rows, calls[i..])
        invariant SweepAll(w, calls[i..], mode, days, now, env) == whole
        invariant lastWarning == old(lastWarning)
      {
        assert calls[i..][0] == calls[i] && calls[i..][1..] == calls[i + 1..];
        SweepRowKeepsPending(w, calls[i..], mode, days, now, env);
        w := SweepRow(w, calls[i], mode, days, now, env);
        if !w.ok {
          store := w.store;
          return Err(Internal), false;
        }
      }
      store := w.store;
      if mode.Warn? && w.report.wouldPurge != [] && WarningDue(Seen(lastWarning, readable), now) {
        warned := true;
        lastWarning := WarningWritten(write, now);
      }
      r := Ok(w.report);
    }
  }

  // ---- What a sweep does, stated without its steps

  function Keep(calls: seq<string>, p: string -> bool): (r: seq<string>) {
    if calls == [] then [] else (if p(calls[0]) then [calls[0]] else []) + Keep(calls[1..], p)
  }

  function ToPurge(rows: Rows, days: nat, now: int, env: Surroundings): string -> bool {
    c => Eligible(rows, c, days, now, env) && !env.refuses(c)
  }

  function ToFail(rows: Rows, days: nat, now: int, env: Surroundings): string -> bool {
    c => Eligible(rows, c, days, now, env) && env.refuses(c)
  }

  /** The tombstoned rows: exactly the purged calls change. */
  function Tombstoned(rows: Rows, purged: seq<string>, env: Surroundings): Rows {
    map c | c in rows :: if c in purged then Tombstone(rows[c], env.clock(c)) else rows[c]
  }

  function FilesOf(rows: Rows, calls: seq<string>): set<string> {
    set c | c in calls && c in rows && rows[c].snapshot.Some? :: rows[c].snapshot.value
  }

  /** Within the source's integer widths the saturating arithmetic is plain arithmetic. */
  lemma ExpiredIsArithmetic(session: string, days: nat, now: nat, env: Surroundings)
    requires days <= U32_MAX && now <= I64_MAX
    requires env.sessionTime(session).Some? && env.sessionTime(session).value < 0x1_0000_0000_0000
    ensures Expired(session, days, now, env) <==> now - env.sessionTime(session).value > days * MS_PER_DAY
  {
  }

  lemma {:induction false} KeepHas(calls: seq<string>, p: string -> bool, c: string)
    ensures c in Keep(calls, p) <==> c in calls && p(c)
    decreases |calls|
  {
    if calls != [] {
      KeepHas(calls[1..], p, c);
      Uncons(calls);
      assert c in calls <==> c == calls[0] || c in calls[1..];
    }
  }

  predicate Once(calls: seq<string>) {
    forall i, j | 0 <= i < j < |calls| :: calls[i] != calls[j]
  }

  lemma {:induction false} KeepOnce(calls: seq<string>, p: string -> bool)
    requires Once(calls)
    ensures Once(Keep(calls, p))
    decreases |calls|
  {
    if calls != [] {
      KeepOnce(calls[1..], p);
      KeepHas(calls[1..], p, calls[0]);
      assert calls[0] !in calls[1..] by {
        assert forall j | 0 <= j < |calls[1..]| :: calls[1..][j] == calls[j + 1];
      }
    }
  }

  lemma TombstonedMore(rows: Rows, c: string, more: seq<string>, env: Surroundings)
    requires c in rows && c !in more
    ensures Tombstoned(rows[c := Tombstone(rows[c], env.clock(c))], more, env) == Tombstoned(rows, [c] + more, env)
  {
  }

  lemma FilesMore(rows: Rows, c: string, more: seq<string>)
    requires c in rows && rows[c].snapshot.Some?
    ensures FilesOf(rows, [c] + more) == {rows[c].snapshot.value} + FilesOf(rows, more)
  {
    assert c in [c] + more;
    assert forall d | d in more :: d in [c] + more;
  }

  /** Still as it was in `rows`, for every call that is pending. */
  predicate Untouched(w: Swept, calls: seq<string>, rows: Rows) {
    forall i | 0 <= i < |calls| :: calls[i] in w.store.rows && calls[i] in rows && w.store.rows[calls[i]] == rows[calls[i]]
  }

  lemma {:induction false} PurgesFrom(w: Swept, calls: seq<string>, rows: Rows, days: nat, now: int, env: Surroundings)
    requires w.ok && Pending(w.store.rows, calls) && Untouched(w, calls, rows)
    requires SweepAll(w, calls, Purge, days, now, env).ok
    ensures var r, purged := SweepAll(w, calls, Purge, days, now, env), Keep(calls, ToPurge(rows, days, now, env));
      && r.report == Report(w.report.wouldPurge, w.report.purged + purged,
                            w.report.failed + Keep(calls, ToFail(rows, days, now, env)))
      && r.store.rows == Tombstoned(w.store.rows, purged, env)
      && r.store.files == w.store.files - FilesOf(rows, purged)
    decreases |calls|
  {
    if calls == [] {
      assert w.report.purged + [] == w.report.purged && w.report.failed + [] == w.report.failed;
      assert FilesOf(rows, []) == {};
    } else {
      SweepRowKeepsPending(w, calls, Purge, days, now, env);
      var next := SweepRow(w, calls[0], Purge, days, now, env);
      assert forall i | 0 <= i < |calls[1..]| :: calls[1..][i] == calls[i + 1];
      PurgesFrom(next, calls[1..], rows, days, now, env);
      PurgesFirst(w, calls, rows, days, now, env);
    }
  }

  lemma PurgesFirst(w: Swept, calls: seq<string>, rows: Rows, days: nat, now: int, env: Surroundings)
    requires w.ok && calls != [] && Pending(w.store.rows, calls) && Untouched(w, calls, rows)
    requires SweepRow(w, calls[0], Purge, days, now, env).ok
    ensures var next := SweepRow(w, calls[0], Purge, days, now, env);
      var toPurge, toFail := ToPurge(rows, days, now, env), ToFail(rows, days, now, env);
      && next.report.wouldPurge == w.report.wouldPurge
      && next.report.purged + Keep(calls[1..], toPurge) == w.report.purged + Keep(calls, toPurge)
      && next.report.failed + Keep(calls[1..], toFail) == w.report.failed + Keep(calls, toFail)
      && Tombstoned(next.store.rows, Keep(calls[1..], toPurge), env) == Tombstoned(w.store.rows, Keep(calls, toPurge), env)
      && next.store.files - FilesOf(rows, Keep(calls[1..], toPurge)) == w.store.files - FilesOf(rows, Keep(calls, toPurge))
  {
    var c, more := calls[0], Keep(calls[1..], ToPurge(rows, days, now, env));
    KeepHas(calls[1..], ToPurge(rows, days, now, env), c);
    assert c !in calls[1..] by {
      assert forall j | 0 <= j < |calls[1..]| :: calls[1..][j] == calls[j + 1];
    }
    assert w.store.rows[c] == rows[c];
    Associates(w.report.purged, [c], more);
    Associates(w.report.failed, [c], Keep(calls[1..], ToFail(rows, days, now, env)));
    assert [] + more == more && [] + Keep(calls[1..], ToFail(rows, days, now, env)) == Keep(calls[1..], ToFail(rows, days, now, env));
    if ToPurge(rows, days, now, env)(c) {
      TombstonedMore(w.store.rows, c, more, env);
      FilesMore(rows, c, more);
    }
  }

  lemma EligibleIsSelected(rows: Rows, calls: seq<string>, days: nat, now: int, env: Surroundings, c: string)
    requires Selection(rows, calls)
    ensures Eligible(rows, c, days, now, env) ==> c in calls
  {
    if c in rows && Candidate(rows[c]) {
      assert c in calls;
    }
  }

  /** A purge that returns Ok reports every eligible row exactly once, as purged or as failed, tombstones
      exactly the purged rows and removes exactly their files. */
  lemma PurgeExact(store: Store, calls: seq<string>, days: nat, now: int, env: Surroundings)
    requires Selection(store.rows, calls) && SweepAll(Swept(store, NOTHING, true), calls, Purge, days, now, env).ok
    ensures var w := SweepAll(Swept(store, NOTHING, true), calls, Purge, days, now, env);
      && w.report.wouldPurge == [] && Once(w.report.purged) && Once(w.report.failed)
      && (forall c: string :: c in w.report.purged <==> Eligible(store.rows, c, days, now, env) && !env.refuses(c))
      && (forall c: string :: c in w.report.failed <==> Eligible(store.rows, c, days, now, env) && env.refuses(c))
      && w.store.rows == Tombstoned(store.rows, w.report.purged, env)
      && w.store.files == store.files - FilesOf(store.rows, w.report.purged)
  {
    var toPurge, toFail := ToPurge(store.rows, days, now, env), ToFail(store.rows, days, now, env);
    PurgesFrom(Swept(store, NOTHING, true), calls, store.rows, days, now, env);
    KeepSelected(store.rows, calls, toPurge, days, now, env);
    KeepSelected(store.rows, calls, toFail, days, now, env);
    assert [] + Keep(calls, toPurge) == Keep(calls, toPurge) && [] + Keep(calls, toFail) == Keep(calls, toFail);
  }

  /** What a sweep keeps of the selection, for a choice among the eligible rows. */
  lemma KeepSelected(rows: Rows, calls: seq<string>, p: string -> bool, days: nat, now: int, env: Surroundings)
    requires Selection(rows, calls) && forall c: string :: p(c) ==> Eligible(rows, c, days, now, env)
    ensures Once(Keep(calls, p)) && forall c: string :: c in Keep(calls, p) <==> p(c)
  {
    KeepOnce(calls, p);
    forall c: string
      ensures c in Keep(calls, p) <==> p(c)
    {
      EligibleIsSelected(rows, calls, days, now, env, c);
      KeepHas(calls, p, c);
    }
  }

  /** A row whose snapshot is due: finished, with a snapshot, not yet purged, and older than the days to keep. */
  ghost predicate Due(row: Row, days: nat, now: int, env: Surroundings) {
    && row.status == Finished && row.snapshot.Some? && row.purgedAt.None? && env.sessionTime(row.session).Some?
    && Saturate(now - env.sessionTime(row.session).value) > Saturate(days * 86_400_000)
  }

  /** A purge written out: which calls it reports as purged and as failed, what becomes of every row, and which
      files are left. */
  lemma PurgeWrittenOut(store: Store, calls: seq<string>, days: nat, now: int, env: Surroundings)
    requires Selection(store.rows, calls) && SweepAll(Swept(store, NOTHING, true), calls, Purge, days, now, env).ok
    ensures var w := SweepAll(Swept(store, NOTHING, true), calls, Purge, days, now, env);
      && (forall c: string :: c in w.report.purged <==> c in store.rows && Due(store.rows[c], days, now, env) && !env.refuses(c))
      && (forall c: string :: c in w.report.failed <==> c in store.rows && Due(store.rows[c], days, now, env) && env.refuses(c))
      && w.store.rows.Keys == store.rows.Keys
      && (forall c | c in store.rows :: w.store.rows[c] ==
            if c in w.report.purged then store.rows[c].(purgedAt := Some(env.clock(c)), snapshot := None) else store.rows[c])
      && (forall f: string :: f in w.store.files <==>
            f in store.files && !exists c :: c in w.report.purged && c in store.rows && store.rows[c].snapshot == Some(f))
  {
    PurgeExact(store, calls, days, now, env);
    var w := SweepAll(Swept(store, NOTHING, true), calls, Purge, days, now, env);
    FilesAre(store.rows, w.report.purged);
  }

  lemma FilesAre(rows: Rows, calls: seq<string>)
    ensures forall f: string :: f in FilesOf(rows, calls) <==> exists c :: c in calls && c in rows && rows[c].snapshot == Some(f)
  {
  }

  /** A sweep that purges stops, and only then, at an eligible row whose file went but whose tombstone cannot be
      written. */
  lemma {:induction false} PurgeStopsOnlyUnwritable(w: Swept, calls: seq<string>, rows: Rows, days: nat, now: int, env: Surroundings)
    requires w.ok && Pending(w.store.rows, calls) && Untouched(w, calls, rows)
    ensures SweepAll(w, calls, Purge, days, now, env).ok <==>
      forall k | 0 <= k < |calls| && Eligible(rows, calls[k], days, now, env) && !env.refuses(calls[k]) :: env.writable(calls[k])
    decreases |calls|
  {
    if calls != [] {
      var next := SweepRow(w, calls[0], Purge, days, now, env);
      SweepRowKeepsPending(w, calls, Purge, days, now, env);
      assert forall i | 0 <= i < |calls[1..]| :: calls[1..][i] == calls[i + 1];
      assert calls[0] in w.store.rows && w.store.rows[calls[0]] == rows[calls[0]];
      if next.ok {
        PurgeStopsOnlyUnwritable(next, calls[1..], rows, days, now, env);
      }
    }
  }

  /** Sweeping again at the same clock finds only the rows that failed. */
  lemma OnlyFailuresRemain(store: Store, calls: seq<string>, days: nat, now: int, env: Surroundings)
    requires Selection(store.rows, calls) && SweepAll(Swept(store, NOTHING, true), calls, Purge, days, now, env).ok
    ensures var w := SweepAll(Swept(store, NOTHING, true), calls, Purge, days, now, env);
      forall c: string :: Eligible(w.store.rows, c, days, now, env) <==> c in w.report.failed
  {
    PurgeExact(store, calls, days, now, env);
  }

  /** One snapshot path belongs to one session. */
  predicate OnePathPerSession(rows: Rows) {
    forall c, d | c in rows && d in rows && rows[c].snapshot.Some? && rows[c].snapshot == rows[d].snapshot ::
      rows[c].session == rows[d].session
  }

  /** No finished row outside the failures is left referring to a file the sweep removed. */
  lemma NoRowDangles(store: Store, calls: seq<string>, days: nat, now: int, env: Surroundings, c: string)
    requires Selection(store.rows, calls) && OnePathPerSession(store.rows)
    requires SweepAll(Swept(store, NOTHING, true), calls, Purge, days, now, env).ok
    requires var w := SweepAll(Swept(store, NOTHING, true), calls, Purge, days, now, env);
      c in w.store.rows && Candidate(w.store.rows[c]) && w.store.rows[c].snapshot.value in store.files - w.store.files
    ensures c in SweepAll(Swept(store, NOTHING, true), calls, Purge, days, now, env).report.failed
  {
    PurgeExact(store, calls, days, now, env);
    var w := SweepAll(Swept(store, NOTHING, true), calls, Purge, days, now, env);
    var d :| d in w.report.purged && d in store.rows && store.rows[d].snapshot.Some?
             && store.rows[d].snapshot.value == w.store.rows[c].snapshot.value;
    assert store.rows[c] == w.store.rows[c] && store.rows[c].session == store.rows[d].session;
  }

  /** Whether it completes or stops at a tombstone it cannot write, a sweep deletes no row, alters a row only
      by the tombstone it was eligible for, and removes only files of eligible rows. */
  ghost predicate Careful(before: Store, after: Store, days: nat, now: int, env: Surroundings) {
    && after.rows.Keys == before.rows.Keys && after.files <= before.files
    && (forall c | c in before.rows :: after.rows[c] == before.rows[c]
          || (Eligible(before.rows, c, days, now, env) && after.rows[c] == Tombstone(before.rows[c], env.clock(c))))
    && (forall f | f in before.files - after.files ::
          exists c :: Eligible(before.rows, c, days, now, env) && before.rows[c].snapshot == Some(f))
  }

  lemma {:induction false} SweepIsCareful(w: Swept, calls: seq<string>, mode: AutoPurge, days: nat, now: int, env: Surroundings, before: Store)
    requires Pending(w.store.rows, calls) && Untouched(w, calls, before.rows) && Careful(before, w.store, days, now, env)
    ensures Careful(before, SweepAll(w, calls, mode, days, now, env).store, days, now, env)
    ensures !mode.Purge? ==> SweepAll(w, calls, mode, days, now, env).store == w.store
    decreases |calls|
  {
    if calls != [] && w.ok {
      SweepRowKeepsPending(w, calls, mode, days, now, env);
      var next := SweepRow(w, calls[0], mode, days, now, env);
      assert forall i | 0 <= i < |calls[1..]| :: calls[1..][i] == calls[i + 1];
      RowIsCareful(w, calls[0], mode, days, now, env, before);
      SweepIsCareful(next, calls[1..], mode, days, now, env, before);
    }
  }

  lemma RowIsCareful(w: Swept, c: string, mode: AutoPurge, days: nat, now: int, env: Surroundings, before: Store)
    requires Careful(before, w.store, days, now, env)
    requires c in before.rows && Candidate(before.rows[c]) && c in w.store.rows && w.store.rows[c] == before.rows[c]
    ensures Careful(before, SweepRow(w, c, mode, days, now, env).store, days, now, env)
  {
    var next := SweepRow(w, c, mode, days, now, env).store;
    assert Eligible(before.rows, c, days, now, env) || next == w.store;
    forall f | f in before.files - next.files
      ensures exists d :: Eligible(before.rows, d, days, now, env) && before.rows[d].snapshot == Some(f)
    {
      if f in w.store.files {
        assert before.rows[c].snapshot == Some(f);
      }
    }
  }

  lemma {:induction false} WarnsFrom(w: Swept, calls: seq<string>, days: nat, now: int, env: Surroundings)
    requires w.ok && Pending(w.store.rows, calls)
    ensures var eligible := c => Eligible(w.store.rows, c, days, now, env);
      SweepAll(w, calls, Warn, days, now, env)
        == w.(report := w.report.(wouldPurge := w.report.wouldPurge + Keep(calls, eligible)))
    decreases |calls|
  {
    var eligible := c => Eligible(w.store.rows, c, days, now, env);
    if calls == [] {
      assert w.report.wouldPurge + [] == w.report.wouldPurge;
    } else {
      var next := SweepRow(w, calls[0], Warn, days, now, env);
      SweepRowKeepsPending(w, calls, Warn, days, now, env);
      WarnsFrom(next, calls[1..], days, now, env);
      assert eligible(calls[0]) <==> Expired(w.store.rows[calls[0]].session, days, now, env);
      Associates(w.report.wouldPurge, [calls[0]], Keep(calls[1..], eligible));
      assert [] + Keep(calls[1..], eligible) == Keep(calls[1..], eligible);
    }
  }

  lemma WarnListsEligible(store: Store, calls: seq<string>, days: nat, now: int, env: Surroundings)
    requires Selection(store.rows, calls)
    ensures var w := SweepAll(Swept(store, NOTHING, true), calls, Warn, days, now, env);
      && w.ok && w.store == store && w.report.purged == [] && w.report.failed == []
      && (forall c: string :: c in w.report.wouldPurge <==> Eligible(store.rows, c, days, now, env))
  {
    WarnsFrom(Swept(store, NOTHING, true), calls, days, now, env);
    var eligible := c => Eligible(store.rows, c, days, now, env);
    KeepSelected(store.rows, calls, eligible, days, now, env);
    assert [] + Keep(calls, eligible) == Keep(calls, eligible);
  }

  /** A warning sweep changes nothing and lists exactly the rows a purge at that clock would take up. */
  lemma WarnForetellsPurge(store: Store, calls: seq<string>, days: nat, now: int, env: Surroundings)
    requires Selection(store.rows, calls)
    ensures var w := SweepAll(Swept(store, NOTHING, true), calls, Warn, days, now, env);
      && w.ok && w.store == store && w.report.purged == [] && w.report.failed == []
      && (forall c: string :: c in w.report.wouldPurge <==> Eligible(store.rows, c, days, now, env))
      && (SweepAll(Swept(store, NOTHING, true), calls, Purge, days, now, env).ok ==>
          var p := SweepAll(Swept(store, NOTHING, true), calls, Purge, days, now, env).report;
          forall c: string :: c in w.report.wouldPurge <==> c in p.purged || c in p.failed)
  {
    WarnListsEligible(store, calls, days, now, env);
    if SweepAll(Swept(store, NOTHING, true), calls, Purge, days, now, env).ok {
      PurgeExact(store, calls, days, now, env);
    }
  }

  // ---- Warnings over time

  /** A sweep with something to warn about. */
  datatype WarnSweep = WarnSweep(now: int, readable: bool, write: Write)

  /** The time in the file before sweep `k`, from the time in it at first. */
  function LastWarning(first: Option<int>, sweeps: seq<WarnSweep>, k: nat): Option<int>
    requires k <= |sweeps|
    decreases k
  {
    if k == 0 then first
    else
      var last, sweep := LastWarning(first, sweeps, k - 1), sweeps[k - 1];
      if WarningDue(Seen(last, sweep.readable), sweep.now) then WarningWritten(sweep.write, sweep.now) else last
  }

  predicate Warned(first: Option<int>, sweeps: seq<WarnSweep>, k: nat)
    requires k < |sweeps|
  {
    WarningDue(Seen(LastWarning(first, sweeps, k), sweeps[k].readable), sweeps[k].now)
  }

  /** Sweep `i` warned, and none between it and `j`. */
  predicate LatestBefore(first: Option<int>, sweeps: seq<WarnSweep>, i: nat, j: nat)
    requires j <= |sweeps|
  {
    i < j && Warned(first, sweeps, i) && forall m | i < m < j :: !Warned(first, sweeps, m)
  }

  lemma {:induction false} LastWarningStays(first: Option<int>, sweeps: seq<WarnSweep>, i: nat, j: nat)
    requires j <= |sweeps| && LatestBefore(first, sweeps, i, j)
    ensures LastWarning(first, sweeps, j) == WarningWritten(sweeps[i].write, sweeps[i].now)
    decreases j
  {
    if i + 1 < j {
      LastWarningStays(first, sweeps, i, j - 1);
      assert !Warned(first, sweeps, j - 1);
    }
  }

  lemma {:induction false} LatestExists(first: Option<int>, sweeps: seq<WarnSweep>, i: nat, j: nat) returns (m: nat)
    requires i < j <= |sweeps| && Warned(first, sweeps, i)
    ensures i <= m && LatestBefore(first, sweeps, m, j)
    decreases j
  {
    if i + 1 == j || Warned(first, sweeps, j - 1) {
      m := j - 1;
    } else {
      m := LatestExists(first, sweeps, i, j - 1);
    }
  }

  /** After the latest warning a sweep warns again exactly when the file cannot be read, or the time written by that
      warning is a day old, or that write was lost and left no time or one a day old. */
  lemma WarnsAgainExactly(first: Option<int>, sweeps: seq<WarnSweep>, i: nat, j: nat)
    requires j < |sweeps| && LatestBefore(first, sweeps, i, j)
    ensures Warned(first, sweeps, j) <==>
      || !sweeps[j].readable
      || (match sweeps[i].write
          case Written => sweeps[j].now - sweeps[i].now >= 86_400_000
          case Lost(None) => true
          case Lost(Some(left)) => sweeps[j].now - left >= 86_400_000)
  {
    LastWarningStays(first, sweeps, i, j);
  }

  /** Before any warning a sweep warns exactly when the file cannot be read, holds no time, or one a day old. */
  lemma {:induction false} FirstWarnsExactly(first: Option<int>, sweeps: seq<WarnSweep>, j: nat)
    requires j < |sweeps| && forall m | 0 <= m < j :: !Warned(first, sweeps, m)
    ensures LastWarning(first, sweeps, j) == first
    ensures Warned(first, sweeps, j) <==> !sweeps[j].readable || first.None? || sweeps[j].now - first.value >= 86_400_000
    decreases j
  {
    if j > 0 {
      FirstWarnsExactly(first, sweeps, j - 1);
    }
  }

  /** With a clock that does not run backwards, two warnings are at least a day apart if the times of the first and
      of those between were written and the file can be read at the second. */
  lemma WarningsAreADayApart(first: Option<int>, sweeps: seq<WarnSweep>, i: nat, j: nat)
    requires i < j < |sweeps| && Warned(first, sweeps, i) && Warned(first, sweeps, j)
    requires forall a, b | 0 <= a < b < |sweeps| :: sweeps[a].now <= sweeps[b].now
    requires forall m | i <= m < j && Warned(first, sweeps, m) :: sweeps[m].write.Written?
    requires sweeps[j].readable
    ensures sweeps[j].now - sweeps[i].now >= WARN_SUPPRESSION_MS
  {
    var m := LatestExists(first, sweeps, i, j);
    if sweeps[j].now - sweeps[m].now < WARN_SUPPRESSION_MS {
      WarnsAgainExactly(first, sweeps, m, j);
    }
  }

  /** Where the file can never be written and does not exist, every sweep warns, however close to the last. */
  lemma {:induction false} UnwrittenWarningsRepeat(sweeps: seq<WarnSweep>, k: nat)
    requires forall m | 0 <= m < |sweeps| :: sweeps[m].write == Lost(None)
    requires k < |sweeps|
    ensures LastWarning(None, sweeps, k) == None && Warned(None, sweeps, k)
    decreases k
  {
    if k > 0 {
      UnwrittenWarningsRepeat(sweeps, k - 1);
    }
  }

  // ---- Rows over any mixture of calls and sweeps

  datatype RowEvent =
    | Begins(session: string, call: string, tool: string, args: string)
    | Finishes(call: string, summary: string, snapshot: string)
    | Fails(call: string, safe: string)
    | Purges(call: string, at: int)

  function AfterRowEvent(rows: Rows, e: RowEvent): Rows {
    match e
    case Begins(session, call, tool, args) => AfterBegin(rows, session, call, tool, args)
    case Finishes(call, summary, snapshot) => AfterFinish(rows, call, summary, snapshot)
    case Fails(call, safe) => AfterFail(rows, call, safe)
    case Purges(call, at) => if call in rows && Candidate(rows[call]) then rows[call := Tombstone(rows[call], at)] else rows
  }

  function RowsAt(es: seq<RowEvent>, k: nat): Rows
    requires k <= |es|
    decreases k
  {
    if k == 0 then map[] else AfterRowEvent(RowsAt(es, k - 1), es[k - 1])
  }

  /** What was recorded when the call began stays; a tombstone stays; a finished row that is not purged has a snapshot. */
  predicate Recorded(before: Rows, after: Rows) {
    forall c | c in before ::
      && c in after && after[c].session == before[c].session && after[c].tool == before[c].tool && after[c].args == before[c].args
      && (before[c].purgedAt.Some? ==> after[c].purgedAt == before[c].purgedAt)
      && (!before[c].status.InProgress? ==> !after[c].status.InProgress?)
  }

  predicate SnapshotKnown(rows: Rows) {
    forall c | c in rows && rows[c].status.Finished? && rows[c].purgedAt.None? :: rows[c].snapshot.Some?
  }

  lemma EventRecords(rows: Rows, e: RowEvent)
    ensures Recorded(rows, AfterRowEvent(rows, e))
  {
  }

  lemma EventKeepsSnapshots(rows: Rows, e: RowEvent)
    requires SnapshotKnown(rows)
    ensures SnapshotKnown(AfterRowEvent(rows, e))
  {
  }

  lemma RecordedTwice(a: Rows, b: Rows, c: Rows)
    requires Recorded(a, b) && Recorded(b, c)
    ensures Recorded(a, c)
  {
  }

  lemma {:induction false} SnapshotsStayKnown(es: seq<RowEvent>, k: nat)
    requires k <= |es|
    ensures SnapshotKnown(RowsAt(es, k))
    decreases k
  {
    if k > 0 {
      SnapshotsStayKnown(es, k - 1);
      EventKeepsSnapshots(RowsAt(es, k - 1), es[k - 1]);
    }
  }

  /** Over any run of calls and sweeps no row is deleted or rewritten in what it first recorded. */
  lemma {:induction false} RowsAreARecord(es: seq<RowEvent>, i: nat, j: nat)
    requires i <= j <= |es|
    ensures Recorded(RowsAt(es, i), RowsAt(es, j)) && SnapshotKnown(RowsAt(es, j))
    decreases j
  {
    SnapshotsStayKnown(es, j);
    if i < j {
      RowsAreARecord(es, i, j - 1);
      EventRecords(RowsAt(es, j - 1), es[j - 1]);
      RecordedTwice(RowsAt(es, i), RowsAt(es, j - 1), RowsAt(es, j));
    }
  }

  predicate About(e: RowEvent, call: string) {
    match e
    case Begins(_, c, _, _) => c == call
    case Finishes(c, _, _) => c == call
    case Fails(c, _) => c == call
    case Purges(c, _) => c == call
  }

  /** A row keeps what its last event made of it: finished with exactly the summary and snapshot given, until the
      call's next event. */
  lemma {:induction false} FinishedRowStays(es: seq<RowEvent>, i: nat, j: nat, call: string, summary: string, snapshot: string)
    requires i < j <= |es| && es[i] == Finishes(call, summary, snapshot) && call in RowsAt(es, i)
    requires forall k | i < k < j :: !About(es[k], call)
    ensures call in RowsAt(es, j)
    ensures var before, row := RowsAt(es, i)[call], RowsAt(es, j)[call];
      row == Row(before.session, before.tool, before.args, Finished, Some(summary), Some(snapshot), before.purgedAt)
    decreases j
  {
    if i + 1 < j {
      FinishedRowStays(es, i, j - 1, call, summary, snapshot);
      assert !About(es[j - 1], call);
    }
  }
}
