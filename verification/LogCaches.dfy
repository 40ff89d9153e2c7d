/** Two caches with a time to live, one above the other: the keyword indexes of src/mcp/tools/log_grep.rs
    over the log windows of src/source/log/local_log.rs. Lookups of many calls interleave. */
module LogCaches {
  import opened Wrappers

  /** Time since `minted`, none if the clock shows an earlier time. */
  function Age(now: nat, minted: nat): nat {
    if now < minted then 0 else now - minted
  }

  datatype Entry<+V> = Entry(minted: nat, value: V)

  function FreshOf<K, V>(entries: map<K, Entry<V>>, key: K, now: nat, ttl: nat): Option<Entry<V>> {
    if key in entries && Age(now, entries[key].minted) <= ttl then Some(entries[key]) else None
  }

  /** One cache. */
  class Cache<K(==), V> {
    const ttl: nat
    var entries: map<K, Entry<V>>

    constructor (ttl: nat)
      ensures this.ttl == ttl && entries == map[]
    {
      this.ttl := ttl;
      entries := map[];
    }

    method Fresh(key: K, now: nat) returns (r: Option<Entry<V>>)
      ensures r == FreshOf(entries, key, now, ttl)
    {
      if key !in entries {
        return None;
      }
      var entry := entries[key];
      r := if Age(now, entry.minted) <= ttl then Some(entry) else None;
    }

    method Store(key: K, value: V, minted: nat)
      modifies this
      ensures entries == old(entries)[key := Entry(minted, value)]
    {
      entries := entries[key := Entry(minted, value)];
    }
  }

  // ---- Both caches under interleaved calls

  type Window = seq<string>
  type Index = map<string, seq<nat>>

  /** A window and when reading it began. */
  datatype Fetch = Fetch(window: Window, since: nat)

  /** An indexed window, when the lower cache minted it, and when it was looked up there. */
  datatype Indexed = Indexed(fetch: Fetch, index: Index, windowMinted: nat, lookedUp: nat)

  datatype Phase =
    | Looking
    | Fetching(since: nat)
    | Holding(fetch: Fetch, windowMinted: nat, lookedUp: nat)
    | Answered(answer: Entry<Indexed>, at: nat)
    | Abandoned

  datatype Call = Call(key: string, path: string, refresh: bool, begun: nat, phase: Phase)

  datatype State = State(clock: nat, windows: map<string, Entry<Fetch>>, indexes: map<string, Entry<Indexed>>, calls: map<nat, Call>)

  datatype Event =
    | Tick(elapsed: nat)
    | Begin(c: nat, key: string, path: string, refresh: bool)
    | Look(c: nat)
    | Fetched(c: nat, window: Window)
    | BuildIndex(c: nat)
    | FetchFails(c: nat)

  /** The parameters of a run: the time to live of both caches and the index of a window. */
  datatype Setting = Setting(ttl: nat, build: Window -> Index)

  const START := State(0, map[], map[], map[])

  function Moved(s: State, c: nat, phase: Phase): State
    requires c in s.calls
  {
    s.(calls := s.calls[c := s.calls[c].(phase := phase)])
  }

  /** The upper lookup: an entry still fresh answers at once, unless a refresh is asked for. */
  function Begun(s: State, e: Event, g: Setting): State
    requires e.Begin?
  {
    var phase :=
      match FreshOf(s.indexes, e.key, s.clock, g.ttl)
      case Some(entry) => if e.refresh then Looking else Answered(entry, s.clock)
      case None => Looking;
    s.(calls := s.calls[e.c := Call(e.key, e.path, e.refresh, s.clock, phase)])
  }

  /** The lower lookup, the same way. */
  function Looked(s: State, c: nat, g: Setting): State
    requires c in s.calls
  {
    match FreshOf(s.windows, s.calls[c].path, s.clock, g.ttl)
    case Some(entry) =>
      Moved(s, c, if s.calls[c].refresh then Fetching(s.clock) else Holding(entry.value, entry.minted, s.clock))
    case None => Moved(s, c, Fetching(s.clock))
  }

  function Stored(s: State, c: nat, window: Window): State
    requires c in s.calls && s.calls[c].phase.Fetching?
  {
    var fetch := Fetch(window, s.calls[c].phase.since);
    Moved(s, c, Holding(fetch, s.clock, s.clock)).(windows := s.windows[s.calls[c].path := Entry(s.clock, fetch)])
  }

  function Built(s: State, c: nat, g: Setting): State
    requires c in s.calls && s.calls[c].phase.Holding?
  {
    var h := s.calls[c].phase;
    var entry := Entry(s.clock, Indexed(h.fetch, g.build(h.fetch.window), h.windowMinted, h.lookedUp));
    Moved(s, c, Answered(entry, s.clock)).(indexes := s.indexes[s.calls[c].key := entry])
  }

  function Next(s: State, e: Event, g: Setting): State {
    match e
    case Tick(elapsed) => s.(clock := s.clock + elapsed)
    case Begin(c, _, _, _) => if c in s.calls then s else Begun(s, e, g)
    case Look(c) => if c in s.calls && s.calls[c].phase.Looking? then Looked(s, c, g) else s
    case Fetched(c, window) => if c in s.calls && s.calls[c].phase.Fetching? then Stored(s, c, window) else s
    case BuildIndex(c) => if c in s.calls && s.calls[c].phase.Holding? then Built(s, c, g) else s
    case FetchFails(c) => if c in s.calls && s.calls[c].phase.Fetching? then Moved(s, c, Abandoned) else s
  }

  function At(es: seq<Event>, g: Setting, k: nat): State
    requires k <= |es|
    decreases k
  {
    if k == 0 then START else Next(At(es, g, k - 1), es[k - 1], g)
  }

  /** Reading began, then the window was minted, and when it was looked up it was at most one time to live old. */
  predicate WindowSound(fetch: Fetch, minted: nat, lookedUp: nat, now: nat, ttl: nat) {
    fetch.since <= minted <= lookedUp <= now && lookedUp - minted <= ttl
  }

  predicate IndexSound(e: Entry<Indexed>, now: nat, g: Setting) {
    && e.minted <= now && WindowSound(e.value.fetch, e.value.windowMinted, e.value.lookedUp, e.minted, g.ttl)
    && e.value.index == g.build(e.value.fetch.window)
  }

  predicate CallSound(call: Call, now: nat, g: Setting) {
    call.begun <= now
    && match call.phase
       case Fetching(since) => call.begun <= since <= now
       case Holding(fetch, minted, lookedUp) =>
         WindowSound(fetch, minted, lookedUp, now, g.ttl) && (call.refresh ==> call.begun <= fetch.since)
       case Answered(answer, at) =>
         && at <= now && IndexSound(answer, at, g) && call.begun <= at
         && at - answer.minted <= g.ttl
         && (call.refresh ==> call.begun <= answer.value.fetch.since)
       case _ => true
  }

  ghost predicate Sound(s: State, g: Setting) {
    && (forall p | p in s.windows :: s.windows[p].value.since <= s.windows[p].minted <= s.clock)
    && (forall k | k in s.indexes :: IndexSound(s.indexes[k], s.clock, g))
    && (forall c | c in s.calls :: CallSound(s.calls[c], s.clock, g))
  }

  lemma NextKeeps(s: State, e: Event, g: Setting)
    requires Sound(s, g)
    ensures Sound(Next(s, e, g), g)
  {
  }

  lemma {:induction false} AlwaysSound(es: seq<Event>, g: Setting, k: nat)
    requires k <= |es|
    ensures Sound(At(es, g, k), g)
    decreases k
  {
    if k > 0 {
      AlwaysSound(es, g, k - 1);
      NextKeeps(At(es, g, k - 1), es[k - 1], g);
    }
  }

  /** What a caller may rely on: the answer is the index of its own window; without a refresh reading that window
      began at most two times to live before the answer, plus the time it took to read and to index; with a
      refresh it began after the call did. */
  predicate Recent(call: Call, g: Setting)
    requires call.phase.Answered?
  {
    var answer := call.phase.answer.value;
    var reading, indexing := answer.windowMinted - answer.fetch.since, call.phase.answer.minted - answer.lookedUp;
    && answer.index == g.build(answer.fetch.window)
    && reading >= 0 && indexing >= 0
    && 0 <= call.phase.at - answer.fetch.since <= 2 * g.ttl + reading + indexing
    && (call.refresh ==> call.begun <= answer.fetch.since)
  }

  lemma {:induction false} AnswersAreRecent(es: seq<Event>, g: Setting, k: nat, c: nat)
    requires k <= |es| && c in At(es, g, k).calls && At(es, g, k).calls[c].phase.Answered?
    ensures Recent(At(es, g, k).calls[c], g)
  {
    AlwaysSound(es, g, k);
    assert CallSound(At(es, g, k).calls[c], At(es, g, k).clock, g);
  }

  /** The bound is reached: with no time spent reading or indexing, an answer can be two times to live old. */
  lemma {:induction false} BoundIsReached(g: Setting, window: Window, key: string, path: string)
    ensures var es := Longest(g, window, key, path);
      var s := At(es, g, 9);
      && 2 in s.calls && s.calls[2].phase.Answered?
      && s.calls[2].phase.at - s.calls[2].phase.answer.value.fetch.since == 2 * g.ttl
      && s.calls[2].phase.answer.value.windowMinted == s.calls[2].phase.answer.value.fetch.since
      && s.calls[2].phase.answer.minted == s.calls[2].phase.answer.value.lookedUp
  {
    var es := Longest(g, window, key, path);
    FirstWindow(g, window, key, path);
    var s4, s5, s6, s7, s8 := At(es, g, 4), At(es, g, 5), At(es, g, 6), At(es, g, 7), At(es, g, 8);
    assert s5 == Next(s4, es[4], g) && s5.calls[1] == Call(key, path, false, g.ttl, Looking) && s5.windows == s4.windows;
    assert s6 == Next(s5, es[5], g) && s6.calls[1] == Call(key, path, false, g.ttl, Holding(Fetch(window, 0), 0, g.ttl));
    assert s7 == Next(s6, es[6], g) && s7.indexes[key] == Entry(g.ttl, Indexed(Fetch(window, 0), g.build(window), 0, g.ttl));
    assert s8 == Next(s7, es[7], g) && s8.clock == 2 * g.ttl && s8.indexes == s7.indexes && s8.calls == s7.calls;
    assert 2 !in s8.calls;
  }

  /** A window is read for one call, indexed for a second just before it expires, and answers a third just
      before the index does. */
  function Longest(g: Setting, window: Window, key: string, path: string): (es: seq<Event>)
    ensures |es| == 9
  {
    [Begin(0, key, path, false), Look(0), Fetched(0, window), Tick(g.ttl),
     Begin(1, key, path, false), Look(1), BuildIndex(1), Tick(g.ttl), Begin(2, key, path, false)]
  }

  lemma {:induction false} FirstWindow(g: Setting, window: Window, key: string, path: string)
    ensures var s := At(Longest(g, window, key, path), g, 4);
      && s.clock == g.ttl && s.windows == map[path := Entry(0, Fetch(window, 0))] && s.indexes == map[]
      && s.calls.Keys == {0}
  {
    var es := Longest(g, window, key, path);
    var s1, s2, s3 := At(es, g, 1), At(es, g, 2), At(es, g, 3);
    assert s1 == Next(START, es[0], g) && s1.calls == map[0 := Call(key, path, false, 0, Looking)];
    assert s2 == Next(s1, es[1], g) && s2.calls == map[0 := Call(key, path, false, 0, Fetching(0))];
    assert s3 == Next(s2, es[2], g) && s3.windows == map[path := Entry(0, Fetch(window, 0))];
  }

  // ---- The lookups

  /** Both caches and the lookups under way. A lookup waits for its window between these methods, and any
      others may run meanwhile. */
  class Lookups {
    const g: Setting
    const windows: Cache<string, Fetch>
    const indexes: Cache<string, Indexed>
    var clock: nat
    var calls: map<nat, Call>

    ghost predicate Valid()
      reads this, windows, indexes
    {
      && (windows as object) != (indexes as object) && windows.ttl == g.ttl && indexes.ttl == g.ttl
      && Sound(Now(), g)
    }

    ghost function Now(): State
      reads this, windows, indexes
    {
      State(clock, windows.entries, indexes.entries, calls)
    }

    constructor (g: Setting)
      ensures Valid() && this.g == g && Now() == START && fresh(windows) && fresh(indexes)
    {
      this.g := g;
      windows := new Cache<string, Fetch>(g.ttl);
      indexes := new Cache<string, Indexed>(g.ttl);
      clock, calls := 0, map[];
    }

    method Pass(elapsed: nat)
      requires Valid()
      modifies this
      ensures Valid() && Now() == Next(old(Now()), Tick(elapsed), g)
    {
      NextKeeps(Now(), Tick(elapsed), g);
      clock := clock + elapsed;
    }

    /** The upper `get_or_fetch`, up to its fetch. */
    method Start(c: nat, key: string, path: string, refresh: bool)
      requires Valid() && c !in calls
      modifies this
      ensures Valid() && Now() == Next(old(Now()), Begin(c, key, path, refresh), g)
      ensures c in calls && (calls[c].phase.Answered? ==> !refresh && calls[c].phase.at == clock && Recent(calls[c], g))
      ensures calls[c].phase == if !refresh && key in indexes.entries && clock - indexes.entries[key].minted <= g.ttl
                                then Answered(indexes.entries[key], clock) else Looking
    {
      NextKeeps(Now(), Begin(c, key, path, refresh), g);
      var phase := Looking;
      if !refresh {
        var hit := indexes.Fresh(key, clock);
        if hit.Some? {
          phase := Answered(hit.value, clock);
        }
      }
      calls := calls[c := Call(key, path, refresh, clock, phase)];
      assert CallSound(calls[c], clock, g);
    }

    /** The lower `get_or_fetch_refresh`, up to its fetch. */
    method LookUp(c: nat)
      requires Valid() && c in calls && calls[c].phase.Looking?
      modifies this
      ensures Valid() && Now() == Next(old(Now()), Look(c), g)
      ensures c in calls && (old(calls[c]).refresh ==> calls[c].phase.Fetching?)
      ensures var call := old(calls[c]);
        calls[c].phase == if !call.refresh && call.path in windows.entries && clock - windows.entries[call.path].minted <= g.ttl
                          then Holding(windows.entries[call.path].value, windows.entries[call.path].minted, clock) else Fetching(clock)
    {
      NextKeeps(Now(), Look(c), g);
      var call := calls[c];
      var phase := Fetching(clock);
      if !call.refresh {
        var hit := windows.Fresh(call.path, clock);
        if hit.Some? {
          phase := Holding(hit.value.value, hit.value.minted, clock);
        }
      }
      calls := calls[c := call.(phase := phase)];
    }

    /** The fetch returned; a failure leaves both caches as they are. */
    method Finish(c: nat, window: Option<Window>)
      requires Valid() && c in calls && calls[c].phase.Fetching?
      modifies this, windows
      ensures Valid()
      ensures Now() == Next(old(Now()), if window.Some? then Fetched(c, window.value) else FetchFails(c), g)
      ensures windows.entries == if window.None? then old(windows.entries)
                                 else old(windows.entries)[old(calls[c]).path := Entry(clock, Fetch(window.value, old(calls[c]).phase.since))]
    {
      NextKeeps(Now(), if window.Some? then Fetched(c, window.value) else FetchFails(c), g);
      var call := calls[c];
      if window.None? {
        calls := calls[c := call.(phase := Abandoned)];
        return;
      }
      var fetch := Fetch(window.value, call.phase.since);
      windows.Store(call.path, fetch, clock);
      calls := calls[c := call.(phase := Holding(fetch, clock, clock))];
    }

    /** The rest of the upper `get_or_fetch`. */
    method Index(c: nat) returns (answer: Indexed)
      requires Valid() && c in calls && calls[c].phase.Holding?
      modifies this, indexes
      ensures Valid() && Now() == Next(old(Now()), BuildIndex(c), g)
      ensures c in calls && calls[c].phase == Answered(Entry(clock, answer), clock) && Recent(calls[c], g)
      ensures indexes.entries == old(indexes.entries)[old(calls[c]).key := Entry(clock, answer)]
      ensures answer.fetch == old(calls[c]).phase.fetch && answer.index == g.build(answer.fetch.window)
    {
      NextKeeps(Now(), BuildIndex(c), g);
      var call := calls[c];
      var held := call.phase;
      answer := Indexed(held.fetch, g.build(held.fetch.window), held.windowMinted, held.lookedUp);
      indexes.Store(call.key, answer, clock);
      calls := calls[c := call.(phase := Answered(Entry(clock, answer), clock))];
      assert CallSound(calls[c], clock, g);
    }
  }
}
