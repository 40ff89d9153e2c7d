/** Snapshot persistence (src/session/mod.rs) under concurrent calls: tokens are minted at any time,
    each finishing call locks, exports the token map, stages a file, renames it over the snapshot,
    syncs the directory and only then records its row (src/manifest/gaze_mcp_adapter.rs). */
module Durability {
  import opened Wrappers

  type Token = nat
  type CallId = nat

  /** An export restores a set of tokens. */
  type Export = set<Token>

  datatype Phase =
    | Running
    | Waiting
    | Holding
    | Exported(copy: Export)
    | Staged(copy: Export)
    | Renamed(copy: Export)
    | Persisted(copy: Export)
    | Recorded(copy: Export)
    | Failed

  datatype Status = InProgress | OkRow | ErrorRow

  /** `due` records the tokens minted when the call asked for its snapshot to be persisted. */
  datatype Call = Call(phase: Phase, due: Export, status: Status)

  /** `file` is the snapshot as seen now, `durable` the one a power loss can fall back to. */
  datatype State = State(
    tokens: Export,
    holder: Option<CallId>,
    calls: map<CallId, Call>,
    file: Option<Export>,
    durable: Option<Export>,
    crashed: bool)

  datatype Event =
    | Begin(c: CallId)
    | Mint(t: Token)
    | Finish(c: CallId)
    | Lock(c: CallId)
    | TakeExport(c: CallId)
    | Stage(c: CallId)
    | Rename(c: CallId)
    | SyncDirectory(c: CallId)
    | Record(c: CallId)
    | Fail(c: CallId)
    | FailRow(c: CallId)
    | Crash(newer: bool)

  const START := State({}, None, map[], None, None, false)

  function Moved(s: State, c: CallId, phase: Phase): State
    requires c in s.calls
  {
    s.(calls := s.calls[c := s.calls[c].(phase := phase)])
  }

  /** The guard is dropped when `persist_snapshot` returns, whatever it returns. */
  function Released(s: State, c: CallId): State {
    if s.holder == Some(c) then s.(holder := None) else s
  }

  function Marked(s: State, c: CallId, status: Status): State
    requires c in s.calls
  {
    s.(calls := s.calls[c := s.calls[c].(status := status)])
  }

  /** The steps of one call. */
  function Advance(s: State, e: Event): State
    requires !e.Begin? && !e.Mint? && !e.Crash? && e.c in s.calls
  {
    var c := e.c;
    match s.calls[c].phase
    case Running =>
      if e.Finish? then s.(calls := s.calls[c := Call(Waiting, s.tokens, s.calls[c].status)])
      else if e.FailRow? then Marked(s, c, ErrorRow)
      else s
    case Waiting =>
      if e.Lock? && s.holder.None? then Moved(s, c, Holding).(holder := Some(c))
      else if e.Fail? then Moved(s, c, Failed)
      else s
    case Holding =>
      if e.TakeExport? then Moved(s, c, Exported(s.tokens)) else Giving(s, e)
    case Exported(x) =>
      if e.Stage? then Moved(s, c, Staged(x)) else Giving(s, e)
    case Staged(x) =>
      if e.Rename? then Moved(s, c, Renamed(x)).(file := Some(x)) else Giving(s, e)
    case Renamed(x) =>
      if e.SyncDirectory? then Released(Moved(s, c, Persisted(x)), c).(durable := s.file) else Giving(s, e)
    case Persisted(x) =>
      if e.Record? then Marked(Moved(s, c, Recorded(x)), c, OkRow)
      else if e.Fail? then Moved(s, c, Failed)
      else s
    case Recorded(_) => s
    case Failed => if e.FailRow? then Marked(s, c, ErrorRow) else s
  }

  /** An error while the lock is held gives the lock back. */
  function Giving(s: State, e: Event): State
    requires !e.Begin? && !e.Mint? && !e.Crash? && e.c in s.calls
  {
    if e.Fail? then Released(Moved(s, e.c, Failed), e.c) else s
  }

  /** A crash leaves the file as it was last synced, or as it was last renamed. */
  function Next(s: State, e: Event): State {
    if s.crashed then s
    else
      match e
      case Begin(c) => if c in s.calls then s else s.(calls := s.calls[c := Call(Running, {}, InProgress)])
      case Mint(t) => s.(tokens := s.tokens + {t})
      case Crash(newer) => s.(crashed := true, file := if newer then s.file else s.durable)
      case _ => if e.c in s.calls then Advance(s, e) else s
  }

  function At(es: seq<Event>, k: nat): State
    requires k <= |es|
    decreases k
  {
    if k == 0 then START else Next(At(es, k - 1), es[k - 1])
  }

  // ---- What every step keeps

  function Contents(file: Option<Export>): Export {
    if file.Some? then file.value else {}
  }

  predicate HoldsLock(p: Phase) {
    p.Holding? || p.Exported? || p.Staged? || p.Renamed?
  }

  /** What the phase of a call says about the files. */
  predicate CallSound(s: State, c: CallId)
    requires c in s.calls
  {
    var call := s.calls[c];
    && (call.status.OkRow? ==> call.phase.Recorded?)
    && match call.phase
       case Running => true
       case Waiting => call.due <= s.tokens
       case Holding => call.due <= s.tokens
       case Exported(x) => call.due <= x <= s.tokens && Contents(s.file) <= x
       case Staged(x) => call.due <= x <= s.tokens && Contents(s.file) <= x
       case Renamed(x) => call.due <= x && s.file == Some(x)
       case Persisted(x) => call.due <= x && s.durable.Some? && x <= s.durable.value
       case Recorded(x) => call.due <= x && s.durable.Some? && x <= s.durable.value
       case Failed => true
  }

  ghost predicate Sound(s: State) {
    && Contents(s.durable) <= Contents(s.file) <= s.tokens
    && (s.durable.Some? ==> s.file.Some?)
    && (forall c | c in s.calls :: CallSound(s, c))
    && LockSound(s)
  }

  ghost predicate LockSound(s: State) {
    forall c | c in s.calls && HoldsLock(s.calls[c].phase) :: s.holder == Some(c)
  }

  predicate IsPersisted(p: Phase) {
    p.Persisted? || p.Recorded?
  }

  /** After a crash only the calls that had persisted still matter. */
  predicate CallSoundAfterCrash(s: State, c: CallId)
    requires c in s.calls
  {
    && (s.calls[c].status.OkRow? ==> s.calls[c].phase.Recorded?)
    && (IsPersisted(s.calls[c].phase) ==> s.file.Some? && s.calls[c].due <= s.file.value)
  }

  ghost predicate SoundAfterCrash(s: State) {
    forall c | c in s.calls :: CallSoundAfterCrash(s, c)
  }

  ghost predicate Inv(s: State) {
    if s.crashed then SoundAfterCrash(s) else Sound(s)
  }

  /** What keeps a call sound while others move. */
  lemma StaysSound(s: State, n: State, d: CallId)
    requires d in s.calls && CallSound(s, d) && d in n.calls && n.calls[d] == s.calls[d] && n.tokens == s.tokens
    requires HoldsLock(s.calls[d].phase) ==> n.file == s.file
    requires s.durable.Some? ==> n.durable.Some? && s.durable.value <= n.durable.value
    ensures CallSound(n, d)
  {
  }

  lemma AdvanceLeavesOther(s: State, e: Event, d: CallId)
    requires LockSound(s) && !e.Begin? && !e.Mint? && !e.Crash? && e.c in s.calls && d in s.calls && d != e.c
    ensures var n := Advance(s, e); d in n.calls && n.calls[d] == s.calls[d] && n.tokens == s.tokens
    ensures HoldsLock(s.calls[d].phase) ==> Advance(s, e).file == s.file
  {
    if HoldsLock(s.calls[d].phase) {
      assert s.holder == Some(d);
      assert !HoldsLock(s.calls[e.c].phase);
    }
  }

  lemma AdvanceKeepsDurable(s: State, e: Event)
    requires Sound(s) && !e.Begin? && !e.Mint? && !e.Crash? && e.c in s.calls
    ensures s.durable.Some? ==> Advance(s, e).durable.Some? && s.durable.value <= Advance(s, e).durable.value
  {
  }

  lemma AdvanceKeepsOther(s: State, e: Event, d: CallId)
    requires Sound(s) && !e.Begin? && !e.Mint? && !e.Crash? && e.c in s.calls && d in s.calls && d != e.c
    ensures d in Advance(s, e).calls && CallSound(Advance(s, e), d)
  {
    AdvanceLeavesOther(s, e, d);
    AdvanceKeepsDurable(s, e);
    StaysSound(s, Advance(s, e), d);
  }

  lemma AdvanceKeepsOwn(s: State, e: Event)
    requires Sound(s) && !e.Begin? && !e.Mint? && !e.Crash? && e.c in s.calls
    ensures e.c in Advance(s, e).calls && CallSound(Advance(s, e), e.c)
  {
    assert CallSound(s, e.c);
  }

  lemma AdvanceKeepsFiles(s: State, e: Event)
    requires Sound(s) && !e.Begin? && !e.Mint? && !e.Crash? && e.c in s.calls && !s.crashed
    ensures var n := Advance(s, e);
      && !n.crashed && n.tokens == s.tokens && n.calls.Keys == s.calls.Keys
      && Contents(n.durable) <= Contents(n.file) <= n.tokens && (n.durable.Some? ==> n.file.Some?)
      && Contents(s.file) <= Contents(n.file) && Contents(s.durable) <= Contents(n.durable)
  {
    assert CallSound(s, e.c);
  }

  lemma AdvanceKeepsLock(s: State, e: Event, d: CallId)
    requires LockSound(s) && !e.Begin? && !e.Mint? && !e.Crash? && e.c in s.calls
    requires var n := Advance(s, e); d in n.calls && HoldsLock(n.calls[d].phase)
    ensures Advance(s, e).holder == Some(d)
  {
    if d != e.c {
      assert s.holder == Some(d) && !HoldsLock(s.calls[e.c].phase);
    }
  }

  lemma AdvanceKeeps(s: State, e: Event)
    requires Sound(s) && !e.Begin? && !e.Mint? && !e.Crash? && e.c in s.calls && !s.crashed
    ensures Sound(Advance(s, e)) && !Advance(s, e).crashed
    ensures Contents(s.file) <= Contents(Advance(s, e).file) && Contents(s.durable) <= Contents(Advance(s, e).durable)
  {
    AdvanceKeepsFiles(s, e);
    forall d | d in Advance(s, e).calls && HoldsLock(Advance(s, e).calls[d].phase)
      ensures Advance(s, e).holder == Some(d)
    {
      AdvanceKeepsLock(s, e, d);
    }
    forall d | d in s.calls
      ensures CallSound(Advance(s, e), d)
    {
      if d == e.c { AdvanceKeepsOwn(s, e); } else { AdvanceKeepsOther(s, e, d); }
    }
  }

  lemma NextKeeps(s: State, e: Event)
    requires Inv(s)
    ensures Inv(Next(s, e))
    ensures !Next(s, e).crashed ==> !s.crashed && Contents(s.file) <= Contents(Next(s, e).file)
  {
    if !s.crashed {
      match e
      case Begin(c) =>
      case Mint(t) =>
        forall d | d in s.calls
          ensures CallSound(Next(s, e), d)
        {
          assert CallSound(s, d);
        }
      case Crash(newer) =>
        forall c | c in s.calls
          ensures CallSoundAfterCrash(Next(s, e), c)
        {
          assert CallSound(s, c);
        }
      case _ => if e.c in s.calls { AdvanceKeeps(s, e); }
    }
  }

  lemma {:induction false} AlwaysInv(es: seq<Event>, k: nat)
    requires k <= |es|
    ensures Inv(At(es, k))
    decreases k
  {
    if k == 0 {
      assert Sound(START);
    } else {
      AlwaysInv(es, k - 1);
      NextKeeps(At(es, k - 1), es[k - 1]);
    }
  }

  // ---- Whole runs

  /** Until a crash, no write loses a token: what the snapshot restores only grows. */
  lemma {:induction false} SnapshotOnlyGrows(es: seq<Event>, i: nat, j: nat)
    requires i <= j <= |es| && !At(es, j).crashed
    ensures !At(es, i).crashed && Contents(At(es, i).file) <= Contents(At(es, j).file)
    decreases j
  {
    if i < j {
      AlwaysInv(es, j - 1);
      NextKeeps(At(es, j - 1), es[j - 1]);
      SnapshotOnlyGrows(es, i, j - 1);
    }
  }

  /** Whatever a file holds, now or after a crash at any step, is a complete export: the token map at
      some earlier moment. */
  predicate IsExport(es: seq<Event>, k: nat, x: Export)
    requires k <= |es|
  {
    exists i :: 0 <= i <= k && At(es, i).tokens == x
  }

  predicate AllExports(es: seq<Event>, k: nat)
    requires k <= |es|
  {
    var s := At(es, k);
    && (s.file.Some? ==> IsExport(es, k, s.file.value))
    && (s.durable.Some? ==> IsExport(es, k, s.durable.value))
    && forall c | c in s.calls && (s.calls[c].phase.Exported? || s.calls[c].phase.Staged?) :: IsExport(es, k, s.calls[c].phase.copy)
  }

  lemma ExportsStay(es: seq<Event>, k: nat, x: Export)
    requires k < |es| && IsExport(es, k, x)
    ensures IsExport(es, k + 1, x)
  {
    var i :| 0 <= i <= k && At(es, i).tokens == x;
    assert 0 <= i <= k + 1 && At(es, i).tokens == x;
  }

  /** Every file a step leaves was there before, or was staged. */
  lemma FilesCome(s: State, e: Event)
    ensures var n := Next(s, e);
      && (n.file == s.file || n.file == s.durable
          || exists c :: c in s.calls && s.calls[c].phase.Staged? && n.file == Some(s.calls[c].phase.copy))
      && (n.durable == s.durable || n.durable == s.file)
  {
  }

  /** Every copy a step leaves was there before, or is the token map. */
  lemma CopiesCome(s: State, e: Event, c: CallId)
    requires var n := Next(s, e); c in n.calls && (n.calls[c].phase.Exported? || n.calls[c].phase.Staged?)
    ensures var copy := Next(s, e).calls[c].phase.copy;
      copy == s.tokens
      || (c in s.calls && (s.calls[c].phase.Exported? || s.calls[c].phase.Staged?) && s.calls[c].phase.copy == copy)
  {
  }

  lemma {:induction false} FilesAreExports(es: seq<Event>, k: nat)
    requires k <= |es|
    ensures AllExports(es, k)
    decreases k
  {
    if k > 0 {
      FilesAreExports(es, k - 1);
      var s, n := At(es, k - 1), At(es, k);
      FilesCome(s, es[k - 1]);
      assert IsExport(es, k, s.tokens) by { assert At(es, k - 1).tokens == s.tokens; }
      if s.file.Some? { ExportsStay(es, k - 1, s.file.value); }
      if s.durable.Some? { ExportsStay(es, k - 1, s.durable.value); }
      forall c | c in s.calls && (s.calls[c].phase.Exported? || s.calls[c].phase.Staged?)
        ensures IsExport(es, k, s.calls[c].phase.copy)
      {
        ExportsStay(es, k - 1, s.calls[c].phase.copy);
      }
      forall c | c in n.calls && (n.calls[c].phase.Exported? || n.calls[c].phase.Staged?)
        ensures IsExport(es, k, n.calls[c].phase.copy)
      {
        CopiesCome(s, es[k - 1], c);
      }
    }
  }

  /** A call asks for its snapshot once; the tokens due to it stay as they were then. */
  lemma {:induction false} DueStays(es: seq<Event>, c: CallId, i: nat, j: nat)
    requires i < j <= |es| && !At(es, i).crashed
    requires es[i] == Finish(c) && c in At(es, i).calls && At(es, i).calls[c].phase.Running?
    ensures c in At(es, j).calls && !At(es, j).calls[c].phase.Running? && At(es, j).calls[c].due == At(es, i).tokens
    decreases j
  {
    if i + 1 < j {
      DueStays(es, c, i, j - 1);
      DueKept(At(es, j - 1), es[j - 1], c);
    }
  }

  lemma DueKept(s: State, e: Event, c: CallId)
    requires c in s.calls && !s.calls[c].phase.Running?
    ensures var n := Next(s, e); c in n.calls && !n.calls[c].phase.Running? && n.calls[c].due == s.calls[c].due
  {
  }

  /** Once `persist_snapshot` has returned, and so wherever a row is `ok`, the snapshot restores every token
      minted before the call asked for it: from then on, whatever other calls write, and after a crash at any
      later step. */
  lemma {:induction false} PersistedIsRestorable(es: seq<Event>, c: CallId, i: nat, j: nat)
    requires i < j <= |es| && !At(es, i).crashed
    requires es[i] == Finish(c) && c in At(es, i).calls && At(es, i).calls[c].phase.Running?
    requires c in At(es, j).calls
    requires IsPersisted(At(es, j).calls[c].phase)
    ensures At(es, j).file.Some? && At(es, i).tokens <= At(es, j).file.value
    ensures !At(es, j).crashed ==> At(es, j).durable.Some? && At(es, i).tokens <= At(es, j).durable.value
  {
    DueStays(es, c, i, j);
    AlwaysInv(es, j);
    var s := At(es, j);
    if s.crashed {
      assert CallSoundAfterCrash(s, c);
    } else {
      assert CallSound(s, c);
    }
  }

  predicate InPhase(s: State, c: CallId, p: Phase) {
    c in s.calls && s.calls[c].phase == p
  }

  /** A call comes into its phase at a step of its own. */
  lemma {:induction false} Entered(es: seq<Event>, c: CallId, k: nat, p: Phase) returns (i: nat)
    requires k <= |es| && InPhase(At(es, k), c, p)
    ensures i < k && !InPhase(At(es, i), c, p) && InPhase(At(es, i + 1), c, p)
    decreases k
  {
    assert k > 0;
    if InPhase(At(es, k - 1), c, p) {
      i := Entered(es, c, k - 1, p);
    } else {
      i := k - 1;
    }
  }

  /** The step that leads into a phase. */
  lemma StepInto(s: State, e: Event, c: CallId, p: Phase)
    requires !InPhase(s, c, p) && InPhase(Next(s, e), c, p)
    ensures !s.crashed
    ensures match p
      case Waiting => e == Finish(c) && InPhase(s, c, Running)
      case Holding => e == Lock(c) && InPhase(s, c, Waiting)
      case Exported(x) => e == TakeExport(c) && InPhase(s, c, Holding) && x == s.tokens
      case Staged(x) => e == Stage(c) && InPhase(s, c, Exported(x))
      case Renamed(x) => e == Rename(c) && InPhase(s, c, Staged(x)) && Next(s, e).file == Some(x)
      case Persisted(x) => e == SyncDirectory(c) && InPhase(s, c, Renamed(x)) && Next(s, e).durable == s.file
      case Recorded(x) => e == Record(c) && InPhase(s, c, Persisted(x))
      case _ => true
  {
  }

  lemma {:induction false} EnteredBy(es: seq<Event>, c: CallId, k: nat, p: Phase) returns (i: nat)
    requires k <= |es| && InPhase(At(es, k), c, p)
    ensures i < k && !InPhase(At(es, i), c, p) && InPhase(Next(At(es, i), es[i]), c, p) && At(es, i + 1) == Next(At(es, i), es[i])
  {
    i := Entered(es, c, k, p);
  }

  /** The steps of one write, in order: the lock, the export, the staged file, the rename, the directory sync
      and the row. The export is the token map at its step, the rename puts it in the file, and the sync makes
      it durable. */
  ghost predicate Written(es: seq<Event>, c: CallId, x: Export, l: nat, t: nat, g: nat, r: nat, y: nat, q: nat, k: nat)
    requires k <= |es|
  {
    && l < t < g < r < y < q < k
    && es[l] == Lock(c) && es[t] == TakeExport(c) && es[g] == Stage(c)
    && es[r] == Rename(c) && es[y] == SyncDirectory(c) && es[q] == Record(c)
    && At(es, t).tokens == x && At(es, r + 1).file == Some(x) && At(es, y + 1).durable == Some(x)
  }

  /** A row is `ok` only after all the steps of its own write. */
  lemma {:induction false} OkRowIsRecorded(es: seq<Event>, c: CallId, k: nat)
    requires k <= |es| && c in At(es, k).calls && At(es, k).calls[c].status.OkRow?
    ensures exists x, l, t, g, r, y, q :: Written(es, c, x, l, t, g, r, y, q, k)
  {
    AlwaysInv(es, k);
    assert At(es, k).calls[c].phase.Recorded? by {
      if At(es, k).crashed {
        assert CallSoundAfterCrash(At(es, k), c);
      } else {
        assert CallSound(At(es, k), c);
      }
    }
    var x := At(es, k).calls[c].phase.copy;
    var q := EnteredBy(es, c, k, Recorded(x));
    StepInto(At(es, q), es[q], c, Recorded(x));
    var y := EnteredBy(es, c, q, Persisted(x));
    StepInto(At(es, y), es[y], c, Persisted(x));
    AlwaysInv(es, y);
    assert CallSound(At(es, y), c);
    var r := EnteredBy(es, c, y, Renamed(x));
    StepInto(At(es, r), es[r], c, Renamed(x));
    var g := EnteredBy(es, c, r, Staged(x));
    StepInto(At(es, g), es[g], c, Staged(x));
    var t := EnteredBy(es, c, g, Exported(x));
    StepInto(At(es, t), es[t], c, Exported(x));
    var l := EnteredBy(es, c, t, Holding);
    StepInto(At(es, l), es[l], c, Holding);
    assert Written(es, c, x, l, t, g, r, y, q, k);
  }

  // ---- The lock is given back

  /** Only a call between its lock and its sync holds the lock. */
  ghost predicate HolderHolds(s: State) {
    s.holder.Some? ==> s.holder.value in s.calls && HoldsLock(s.calls[s.holder.value].phase)
  }

  lemma HolderStays(s: State, e: Event)
    requires HolderHolds(s)
    ensures HolderHolds(Next(s, e))
  {
  }

  lemma {:induction false} AlwaysHolds(es: seq<Event>, k: nat)
    requires k <= |es|
    ensures HolderHolds(At(es, k))
    decreases k
  {
    if k > 0 {
      AlwaysHolds(es, k - 1);
      HolderStays(At(es, k - 1), es[k - 1]);
    }
  }

  /** A call that has persisted or failed does not hold the lock, in whatever run. */
  lemma {:induction false} EndedCallHoldsNothing(es: seq<Event>, k: nat, c: CallId)
    requires k <= |es| && c in At(es, k).calls && (IsPersisted(At(es, k).calls[c].phase) || At(es, k).calls[c].phase.Failed?)
    ensures At(es, k).holder != Some(c)
  {
    AlwaysHolds(es, k);
  }

  function Run(s: State, es: seq<Event>): State
    decreases |es|
  {
    if es == [] then s else Run(Next(s, es[0]), es[1..])
  }

  lemma {:induction false} RunsOn(es: seq<Event>, more: seq<Event>)
    ensures At(es + more, |es + more|) == Run(At(es, |es|), more)
    decreases |more|
  {
    if more == [] {
      assert es + more == es;
    } else {
      var next := es + [more[0]];
      assert next + more[1..] == es + more;
      RunsOn(next, more[1..]);
      SameStart(es, next, |es|);
    }
  }

  lemma {:induction false} SameStart(es: seq<Event>, longer: seq<Event>, k: nat)
    requires k <= |es| <= |longer| && longer[..|es|] == es
    ensures At(longer, k) == At(es, k)
    decreases k
  {
    if k > 0 {
      SameStart(es, longer, k - 1);
      assert longer[k - 1] == longer[..|es|][k - 1];
    }
  }

  lemma {:induction false} RunJoins(s: State, a: seq<Event>, b: seq<Event>)
    ensures Run(s, a + b) == Run(Run(s, a), b)
    decreases |a|
  {
    if a == [] {
      assert a + b == b;
    } else {
      assert (a + b)[1..] == a[1..] + b;
      RunJoins(Next(s, a[0]), a[1..], b);
    }
  }

  /** The next step of a call that holds the lock. */
  function Onward(c: CallId, p: Phase): Event {
    match p
    case Holding => TakeExport(c)
    case Exported(_) => Stage(c)
    case Staged(_) => Rename(c)
    case _ => SyncDirectory(c)
  }

  function Left(p: Phase): nat {
    match p
    case Holding => 4
    case Exported(_) => 3
    case Staged(_) => 2
    case Renamed(_) => 1
    case _ => 0
  }

  lemma MovesOnward(s: State, d: CallId)
    requires !s.crashed && d in s.calls && s.holder == Some(d) && HoldsLock(s.calls[d].phase)
    ensures var n := Next(s, Onward(d, s.calls[d].phase));
      && !n.crashed && n.calls.Keys == s.calls.Keys && Left(n.calls[d].phase) == Left(s.calls[d].phase) - 1
      && (forall c | c in s.calls && c != d :: n.calls[c] == s.calls[c])
      && (if Left(n.calls[d].phase) == 0 then n.holder == None && n.calls[d].phase.Persisted?
          else n.holder == Some(d) && HoldsLock(n.calls[d].phase))
  {
  }

  /** Whoever holds the lock needs only its own steps, none of which can be refused, to persist and give it back. */
  lemma {:induction false} HolderPersists(s: State, d: CallId) returns (more: seq<Event>)
    requires !s.crashed && d in s.calls && s.holder == Some(d) && HoldsLock(s.calls[d].phase)
    ensures var n := Run(s, more);
      && !n.crashed && n.holder == None && d in n.calls && n.calls[d].phase.Persisted?
      && forall c | c in s.calls && c != d :: c in n.calls && n.calls[c] == s.calls[c]
    decreases Left(s.calls[d].phase)
  {
    var e := Onward(d, s.calls[d].phase);
    var n := Next(s, e);
    MovesOnward(s, d);
    if Left(n.calls[d].phase) == 0 {
      more := [e];
      assert Run(s, more) == Run(n, []) == n;
    } else {
      var rest := HolderPersists(n, d);
      more := [e] + rest;
      assert more[1..] == rest;
    }
  }

  lemma TakesLock(s: State, c: CallId)
    requires !s.crashed && s.holder == None && c in s.calls && s.calls[c].phase.Waiting?
    ensures var n := Next(s, Lock(c));
      !n.crashed && c in n.calls && n.holder == Some(c) && n.calls[c].phase.Holding?
  {
  }

  lemma RecordsRow(s: State, c: CallId)
    requires !s.crashed && c in s.calls && s.calls[c].phase.Persisted?
    ensures var n := Next(s, Record(c)); c in n.calls && n.calls[c].phase.Recorded? && n.calls[c].status.OkRow?
  {
  }

  lemma {:induction false} FreeLockSuffices(s: State, c: CallId) returns (more: seq<Event>)
    requires !s.crashed && s.holder == None && c in s.calls && s.calls[c].phase.Waiting?
    ensures var n := Run(s, more); c in n.calls && n.calls[c].phase.Recorded? && n.calls[c].status.OkRow?
  {
    TakesLock(s, c);
    var locked := Next(s, Lock(c));
    var steps := HolderPersists(locked, c);
    var persisted := Run(locked, steps);
    RecordsRow(persisted, c);
    RunJoins(locked, steps, [Record(c)]);
    assert Run(persisted, [Record(c)]) == Run(Next(persisted, Record(c)), []) == Next(persisted, Record(c));
    more := [Lock(c)] + (steps + [Record(c)]);
    assert more[1..] == steps + [Record(c)];
  }

  /** No call waits for ever by itself: from every moment of every run before a crash, the holder's own steps, if
      the lock is held, and then those of the waiting call lead to its recorded row. */
  lemma {:induction false} WaitingCallCanRecord(es: seq<Event>, c: CallId) returns (more: seq<Event>)
    requires var s := At(es, |es|); !s.crashed && c in s.calls && s.calls[c].phase.Waiting?
    ensures var n := At(es + more, |es + more|); c in n.calls && n.calls[c].phase.Recorded? && n.calls[c].status.OkRow?
  {
    var s := At(es, |es|);
    AlwaysHolds(es, |es|);
    var first: seq<Event> := [];
    if s.holder.Some? {
      first := HolderPersists(s, s.holder.value);
    } else {
      assert Run(s, first) == s;
    }
    var rest := FreeLockSuffices(Run(s, first), c);
    more := first + rest;
    RunJoins(s, first, rest);
    RunsOn(es, more);
  }

  // ---- Crashes and rows

  /** A crash between the rename and the sync can take the snapshot back to what was last synced, or keep it. */
  lemma {:induction false} UnsyncedCanBeLost(es: seq<Event>, c: CallId)
    requires var s := At(es, |es|); !s.crashed && c in s.calls && s.calls[c].phase.Renamed?
    ensures At(es + [Crash(false)], |es| + 1).file == At(es, |es|).durable
    ensures At(es + [Crash(true)], |es| + 1).file == Some(At(es, |es|).calls[c].phase.copy)
  {
    AlwaysInv(es, |es|);
    assert CallSound(At(es, |es|), c);
    SameStart(es, es + [Crash(false)], |es|);
    SameStart(es, es + [Crash(true)], |es|);
  }

  lemma StatusKept(s: State, e: Event, c: CallId)
    requires Inv(s) && c in s.calls && s.calls[c].status.OkRow?
    ensures c in Next(s, e).calls && Next(s, e).calls[c].status.OkRow?
  {
    if !s.crashed {
      assert CallSound(s, c);
    } else {
      assert CallSoundAfterCrash(s, c);
    }
  }

  /** A row once ok stays ok. */
  lemma {:induction false} OkRowStays(es: seq<Event>, c: CallId, i: nat, j: nat)
    requires i <= j <= |es| && c in At(es, i).calls && At(es, i).calls[c].status.OkRow?
    ensures c in At(es, j).calls && At(es, j).calls[c].status.OkRow?
    decreases j
  {
    if i < j {
      OkRowStays(es, c, i, j - 1);
      AlwaysInv(es, j - 1);
      StatusKept(At(es, j - 1), es[j - 1], c);
    }
  }

  /** A call that failed can have its row marked, and a row so marked belongs to a call without an ok row. */
  lemma {:induction false} FailedRowCanBeMarked(es: seq<Event>, c: CallId)
    requires var s := At(es, |es|); !s.crashed && c in s.calls && s.calls[c].phase.Failed?
    ensures var n := At(es + [FailRow(c)], |es| + 1);
      c in n.calls && n.calls[c].status.ErrorRow? && !At(es, |es|).calls[c].status.OkRow?
  {
    AlwaysInv(es, |es|);
    assert CallSound(At(es, |es|), c);
    SameStart(es, es + [FailRow(c)], |es|);
  }
}
