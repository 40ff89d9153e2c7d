/** What enrolment means: when it succeeds, what it leaves, and what holds of the
    history over any sequence of restarts. */
module Enrollment {
  import opened Bounds
  import opened Identities
  import opened History
  import opened Sequences
  import opened Wrappers

  // ---- The outcome, stated without the program's steps

  predicate Kept(es: seq<Entry>, v: Identity) {
    Entry(v, true) in es
  }

  /** The id may be enrolled anew: it was never used, or it is active with the same kind; the generation is unused. */
  predicate Free(es: seq<Entry>, v: Identity) {
    && !HasGeneration(es, v.generation)
    && (forall i | 0 <= i < |es| && es[i].identity.id == v.id :: es[i].identity.kind == v.kind)
    && (HasId(es, v.id) ==> ActiveId(es, v.id))
  }

  predicate HasId(es: seq<Entry>, id: string) {
    exists i :: 0 <= i < |es| && es[i].identity.id == id
  }

  predicate ActiveId(es: seq<Entry>, id: string) {
    exists i :: 0 <= i < |es| && es[i].identity.id == id && es[i].active
  }

  function Fresh(es: seq<Entry>, vs: seq<Identity>): (r: seq<Identity>)
    ensures forall i | 0 <= i < |r| :: r[i] in vs && !Kept(es, r[i])
  {
    if vs == [] then []
    else if Kept(es, vs[0]) then Fresh(es, vs[1..])
    else [vs[0]] + Fresh(es, vs[1..])
  }

  function Entered(vs: seq<Identity>): (r: seq<Entry>)
    ensures |r| == |vs| && forall i | 0 <= i < |vs| :: r[i] == Entry(vs[i], true)
  {
    seq(|vs|, i requires 0 <= i < |vs| => Entry(vs[i], true))
  }

  predicate Eligible(es: seq<Entry>, vs: seq<Identity>) {
    && (forall i | 0 <= i < |vs| :: Kept(es, vs[i]) || Free(es, vs[i]))
    && (forall i, j | 0 <= i < j < |vs| && !Kept(es, vs[i]) && !Kept(es, vs[j]) :: vs[i].generation != vs[j].generation)
  }

  predicate Admits(es: seq<Entry>, vs: seq<Identity>) {
    Eligible(es, vs) && |es| + |Fresh(es, vs)| <= 1_024
  }

  function Marked(es: seq<Entry>, vs: seq<Identity>): (r: seq<Entry>)
    ensures |r| == |es|
    ensures forall i | 0 <= i < |es| :: r[i] == Entry(es[i].identity, es[i].active && es[i].identity in vs)
  {
    seq(|es|, i requires 0 <= i < |es| => Entry(es[i].identity, es[i].active && es[i].identity in vs))
  }

  /** The old entries, active only where requested, then the requested identities that were not active before. */
  function AfterEnrollment(es: seq<Entry>, vs: seq<Identity>): seq<Entry> {
    Marked(es, vs) + Entered(Fresh(es, vs))
  }

  // ---- One request

  function Deactivated(es: seq<Entry>, id: string): (r: seq<Entry>)
    ensures |r| == |es|
    ensures forall i | 0 <= i < |es| :: r[i] == Entry(es[i].identity, es[i].active && es[i].identity.id != id)
  {
    seq(|es|, i requires 0 <= i < |es| => Entry(es[i].identity, es[i].active && es[i].identity.id != id))
  }

  /** Under a well-kept history only the latest entry of an id can be active. */
  lemma OnlyLatestActive(es: seq<Entry>, id: string, i: nat)
    requires WellKept(es) && i < |es| && es[i].identity.id == id && es[i].active
    ensures Latest(es, id) == Some(i)
  {
    var p := Latest(es, id).value;
    assert i == p || Compatible(es[i], es[p]);
  }

  lemma RequestExact(es: seq<Entry>, v: Identity)
    requires WellKept(es)
    ensures Request(es, v).Ok? <==> Kept(es, v) || (Free(es, v) && |es| < MAX_ENTRIES)
    ensures Request(es, v).Ok? ==> Request(es, v).value == if Kept(es, v) then es else Deactivated(es, v.id) + [Entry(v, true)]
    ensures Request(es, v).Err? ==> Request(es, v) == Err(if Free(es, v) then CapExceeded else BindingChanged)
  {
    var previous := Latest(es, v.id);
    if Kept(es, v) {
      var i :| 0 <= i < |es| && es[i] == Entry(v, true);
      OnlyLatestActive(es, v.id, i);
    } else if Free(es, v) {
      if HasId(es, v.id) {
        var i :| 0 <= i < |es| && es[i].identity.id == v.id && es[i].active;
        OnlyLatestActive(es, v.id, i);
      }
      ReplacedLatest(es, v.id);
    } else if previous.Some? && es[previous.value].active {
      LatestDecides(es, v.id, previous.value);
    }
  }

  lemma ReplacedLatest(es: seq<Entry>, id: string)
    requires WellKept(es)
    ensures match Latest(es, id)
      case Some(p) => es[p := es[p].(active := false)] == Deactivated(es, id)
      case None => es == Deactivated(es, id)
  {
    match Latest(es, id)
    case Some(p) =>
      forall i | 0 <= i < |es| && i != p
        ensures es[i] == Deactivated(es, id)[i]
      {
        if es[i].identity.id == id {
          assert Compatible(es[i], es[p]);
        }
      }
    case None =>
  }

  lemma LatestDecides(es: seq<Entry>, id: string, p: nat)
    requires WellKept(es) && Latest(es, id) == Some(p) && es[p].active
    ensures ActiveId(es, id) && forall i | 0 <= i < |es| && es[i].identity.id == id :: es[i].identity.kind == es[p].identity.kind
  {
    forall i | 0 <= i < |es| && es[i].identity.id == id
      ensures es[i].identity.kind == es[p].identity.kind
    {
      assert i == p || Compatible(es[i], es[p]);
    }
  }

  lemma ReplacedKeeps(es: seq<Entry>, v: Identity)
    requires WellKept(es) && WfIdentity(v) && Free(es, v)
    ensures WellKept(Deactivated(es, v.id) + [Entry(v, true)])
  {
    var r := Deactivated(es, v.id) + [Entry(v, true)];
    forall j, i | 0 <= j < i < |r|
      ensures Compatible(r[j], r[i])
    {
      if i < |es| {
        assert Compatible(es[j], es[i]);
      }
    }
  }

  // ---- All requests

  /** An identity of another id sees the same history after a replacement. */
  lemma OthersSeeTheSame(es: seq<Entry>, v: Identity, u: Identity)
    requires u.id != v.id
    ensures var r := Deactivated(es, v.id) + [Entry(v, true)];
      && (Kept(r, u) <==> Kept(es, u))
      && (Free(r, u) <==> Free(es, u) && u.generation != v.generation)
  {
    var r := Deactivated(es, v.id) + [Entry(v, true)];
    assert r[|es|] == Entry(v, true);
    assert forall i | 0 <= i < |es| :: r[i].identity == es[i].identity && (es[i].identity.id == u.id ==> r[i] == es[i]);
    if Kept(es, u) {
      var i :| 0 <= i < |es| && es[i] == Entry(u, true);
      assert r[i] == Entry(u, true);
    }
    if Kept(r, u) {
      var i :| 0 <= i < |r| && r[i] == Entry(u, true);
      assert es[i] == Entry(u, true);
    }
    GenerationsSeen(es, v, u.generation);
    IdsSeen(es, v, u);
  }

  lemma GenerationsSeen(es: seq<Entry>, v: Identity, generation: string)
    ensures HasGeneration(Deactivated(es, v.id) + [Entry(v, true)], generation)
       <==> HasGeneration(es, generation) || generation == v.generation
  {
    var r := Deactivated(es, v.id) + [Entry(v, true)];
    assert r[|es|] == Entry(v, true);
    if HasGeneration(es, generation) {
      var i :| 0 <= i < |es| && es[i].identity.generation == generation;
      assert r[i].identity == es[i].identity;
    }
  }

  lemma IdsSeen(es: seq<Entry>, v: Identity, u: Identity)
    requires u.id != v.id
    ensures var r := Deactivated(es, v.id) + [Entry(v, true)];
      && (HasId(r, u.id) <==> HasId(es, u.id)) && (ActiveId(r, u.id) <==> ActiveId(es, u.id))
  {
    var r := Deactivated(es, v.id) + [Entry(v, true)];
    assert forall i | 0 <= i < |es| && es[i].identity.id == u.id :: r[i] == es[i];
    assert forall i | 0 <= i < |r| && r[i].identity.id == u.id :: i < |es| && es[i] == r[i];
  }

  predicate Superseded(x: Identity, vs: seq<Identity>) {
    exists i :: 0 <= i < |vs| && vs[i].id == x.id && vs[i] != x
  }

  /** The entries once every request is in and nothing is retired yet. */
  function AllIn(es: seq<Entry>, vs: seq<Identity>): (r: seq<Entry>) {
    Unsuperseded(es, vs) + Entered(Fresh(es, vs))
  }

  function Unsuperseded(es: seq<Entry>, vs: seq<Identity>): (r: seq<Entry>)
    ensures |r| == |es|
    ensures forall i | 0 <= i < |es| :: r[i] == Entry(es[i].identity, es[i].active && !Superseded(es[i].identity, vs))
  {
    seq(|es|, i requires 0 <= i < |es| => Entry(es[i].identity, es[i].active && !Superseded(es[i].identity, vs)))
  }

  lemma SupersededFrom(x: Identity, vs: seq<Identity>)
    requires vs != []
    ensures Superseded(x, vs) <==> (vs[0].id == x.id && vs[0] != x) || Superseded(x, vs[1..])
  {
    if Superseded(x, vs) {
      var i :| 0 <= i < |vs| && vs[i].id == x.id && vs[i] != x;
      if i > 0 { assert vs[1..][i - 1] == vs[i]; }
    }
    if Superseded(x, vs[1..]) {
      var i :| 0 <= i < |vs[1..]| && vs[1..][i].id == x.id && vs[1..][i] != x;
      assert vs[i + 1] == vs[1..][i];
    }
  }

  lemma {:induction false} FreshAfter(es: seq<Entry>, r: seq<Entry>, vs: seq<Identity>)
    requires forall i | 0 <= i < |vs| :: Kept(r, vs[i]) <==> Kept(es, vs[i])
    ensures Fresh(r, vs) == Fresh(es, vs)
    decreases |vs|
  {
    if vs != [] {
      assert forall i | 0 <= i < |vs[1..]| :: vs[1..][i] == vs[i + 1];
      FreshAfter(es, r, vs[1..]);
    }
  }

  lemma {:induction false} RequestAllExact(es: seq<Entry>, vs: seq<Identity>)
    requires WellKept(es) && |es| <= MAX_ENTRIES && Requestable(vs)
    ensures RequestAll(es, vs).Ok? <==> Admits(es, vs)
    ensures RequestAll(es, vs).Ok? ==> RequestAll(es, vs).value == AllIn(es, vs) && WellKept(AllIn(es, vs))
    ensures RequestAll(es, vs).Err? ==>
      || (RequestAll(es, vs) == Err(BindingChanged) && !Eligible(es, vs))
      || (RequestAll(es, vs) == Err(CapExceeded) && |es| + |Fresh(es, vs)| > MAX_ENTRIES)
    decreases |vs|
  {
    if vs == [] {
      assert AllIn(es, vs) == es;
    } else {
      RequestExact(es, vs[0]);
      RestIsRequestable(vs);
      if Kept(es, vs[0]) {
        RequestAllExact(es, vs[1..]);
        KeptFirst(es, vs);
      } else if Free(es, vs[0]) && |es| < MAX_ENTRIES {
        var next := Deactivated(es, vs[0].id) + [Entry(vs[0], true)];
        ReplacedKeeps(es, vs[0]);
        RequestAllExact(next, vs[1..]);
        FreshFirst(es, vs, next);
      } else {
        FirstIsRefused(es, vs);
      }
    }
  }

  lemma RestIsRequestable(vs: seq<Identity>)
    requires vs != [] && Requestable(vs)
    ensures Requestable(vs[1..])
  {
    assert forall i | 0 <= i < |vs[1..]| :: vs[1..][i] == vs[i + 1];
  }

  lemma FirstIsRefused(es: seq<Entry>, vs: seq<Identity>)
    requires vs != [] && !Kept(es, vs[0]) && (!Free(es, vs[0]) || |es| >= MAX_ENTRIES)
    ensures !Free(es, vs[0]) ==> !Eligible(es, vs)
    ensures |es| >= MAX_ENTRIES ==> |es| + |Fresh(es, vs)| > MAX_ENTRIES
  {
    if Eligible(es, vs) {
      assert Kept(es, vs[0]) || Free(es, vs[0]);
    }
  }

  lemma KeptFirst(es: seq<Entry>, vs: seq<Identity>)
    requires WellKept(es) && vs != [] && DistinctIds(vs) && Kept(es, vs[0])
    ensures (Eligible(es, vs) <==> Eligible(es, vs[1..])) && Fresh(es, vs) == Fresh(es, vs[1..])
    ensures AllIn(es, vs) == AllIn(es, vs[1..])
  {
    var more := vs[1..];
    assert forall i | 0 <= i < |more| :: more[i] == vs[i + 1];
    if Eligible(es, more) {
      forall i, j | 0 <= i < j < |vs| && !Kept(es, vs[i]) && !Kept(es, vs[j])
        ensures vs[i].generation != vs[j].generation
      {
        assert more[i - 1] == vs[i] && more[j - 1] == vs[j];
      }
      assert forall i | 1 <= i < |vs| :: vs[i] == more[i - 1];
    }
    forall k | 0 <= k < |es|
      ensures Unsuperseded(es, vs)[k] == Unsuperseded(es, more)[k]
    {
      SupersededFrom(es[k].identity, vs);
      if es[k].active && es[k].identity.id == vs[0].id {
        var i :| 0 <= i < |es| && es[i] == Entry(vs[0], true);
        OnlyLatestActive(es, vs[0].id, i);
        OnlyLatestActive(es, vs[0].id, k);
      }
    }
    assert Unsuperseded(es, vs) == Unsuperseded(es, more);
  }

  lemma FreshFirst(es: seq<Entry>, vs: seq<Identity>, next: seq<Entry>)
    requires WellKept(es) && vs != [] && DistinctIds(vs) && !Kept(es, vs[0]) && Free(es, vs[0])
    requires next == Deactivated(es, vs[0].id) + [Entry(vs[0], true)]
    ensures (Eligible(es, vs) <==> Eligible(next, vs[1..])) && |es| + |Fresh(es, vs)| == |next| + |Fresh(next, vs[1..])|
    ensures AllIn(es, vs) == AllIn(next, vs[1..])
  {
    var v, more := vs[0], vs[1..];
    forall i | 0 <= i < |more|
      ensures more[i] == vs[i + 1] && more[i].id != v.id
      ensures (Kept(next, more[i]) <==> Kept(es, more[i]))
      ensures (Free(next, more[i]) <==> Free(es, more[i]) && more[i].generation != v.generation)
    {
      OthersSeeTheSame(es, v, more[i]);
    }
    FreshAfter(es, next, more);
    AdmitsFirst(es, vs, next);
    AllInFirst(es, vs, next);
  }

  lemma AdmitsFirst(es: seq<Entry>, vs: seq<Identity>, next: seq<Entry>)
    requires vs != [] && !Kept(es, vs[0]) && Free(es, vs[0])
    requires |next| == |es| + 1 && Fresh(next, vs[1..]) == Fresh(es, vs[1..])
    requires forall i | 0 <= i < |vs[1..]| :: vs[1..][i] == vs[i + 1]
    requires forall i | 0 <= i < |vs[1..]| :: Kept(next, vs[1..][i]) <==> Kept(es, vs[1..][i])
    requires forall i | 0 <= i < |vs[1..]| ::
      (Free(next, vs[1..][i]) <==> Free(es, vs[1..][i]) && vs[1..][i].generation != vs[0].generation)
    ensures (Eligible(es, vs) <==> Eligible(next, vs[1..])) && |es| + |Fresh(es, vs)| == |next| + |Fresh(next, vs[1..])|
  {
    var v, more := vs[0], vs[1..];
    if Eligible(es, vs) {
      forall i | 0 <= i < |more|
        ensures Kept(next, more[i]) || Free(next, more[i])
      {
        assert more[i] == vs[i + 1];
      }
      forall i, j | 0 <= i < j < |more| && !Kept(next, more[i]) && !Kept(next, more[j])
        ensures more[i].generation != more[j].generation
      {
        assert vs[i + 1] == more[i] && vs[j + 1] == more[j];
      }
    }
    if Eligible(next, more) {
      forall i | 0 <= i < |vs|
        ensures Kept(es, vs[i]) || Free(es, vs[i])
      {
        if i > 0 { assert more[i - 1] == vs[i]; }
      }
      forall i, j | 0 <= i < j < |vs| && !Kept(es, vs[i]) && !Kept(es, vs[j])
        ensures vs[i].generation != vs[j].generation
      {
        assert more[j - 1] == vs[j];
        if i > 0 { assert more[i - 1] == vs[i]; }
      }
    }
  }

  lemma AllInFirst(es: seq<Entry>, vs: seq<Identity>, next: seq<Entry>)
    requires vs != [] && DistinctIds(vs) && !Kept(es, vs[0])
    requires next == Deactivated(es, vs[0].id) + [Entry(vs[0], true)]
    requires Fresh(next, vs[1..]) == Fresh(es, vs[1..])
    ensures AllIn(es, vs) == AllIn(next, vs[1..])
  {
    var v, rest := vs[0], Fresh(es, vs[1..]);
    UnsupersededFirst(es, vs, next);
    assert Entered([v] + rest) == [Entry(v, true)] + Entered(rest);
    Associates(Unsuperseded(es, vs), [Entry(v, true)], Entered(rest));
  }

  lemma UnsupersededFirst(es: seq<Entry>, vs: seq<Identity>, next: seq<Entry>)
    requires vs != [] && DistinctIds(vs) && !Kept(es, vs[0])
    requires next == Deactivated(es, vs[0].id) + [Entry(vs[0], true)]
    ensures Unsuperseded(next, vs[1..]) == Unsuperseded(es, vs) + [Entry(vs[0], true)]
  {
    var v, more := vs[0], vs[1..];
    var a, b := Unsuperseded(es, vs), Unsuperseded(next, more);
    forall k | 0 <= k < |es|
      ensures a[k] == b[k]
    {
      SupersededFrom(es[k].identity, vs);
      assert es[k].identity == v ==> es[k] == Entry(v, false);
    }
    assert b[|es|] == Entry(v, true) by {
      assert forall i | 0 <= i < |more| :: more[i] == vs[i + 1] && more[i].id != v.id;
    }
    assert b == a + [Entry(v, true)];
  }

  /** Retiring what is not requested turns the entries into the outcome. */
  lemma RetiredIsOutcome(es: seq<Entry>, vs: seq<Identity>)
    requires DistinctIds(vs)
    ensures RetireAll(AllIn(es, vs), vs) == AfterEnrollment(es, vs)
  {
    var all, entering := AllIn(es, vs), Fresh(es, vs);
    var r, expected := RetireAll(all, vs), AfterEnrollment(es, vs);
    forall k | 0 <= k < |all|
      ensures r[k] == expected[k]
    {
      if k < |es| {
        RequestedExactly(es[k].identity, vs);
      } else {
        assert entering[k - |es|] in vs;
      }
    }
  }

  lemma RequestedExactly(x: Identity, vs: seq<Identity>)
    requires DistinctIds(vs)
    ensures IsRequested(x.id, vs) && !Superseded(x, vs) <==> x in vs
  {
    if x in vs {
      var i :| 0 <= i < |vs| && vs[i] == x;
      assert forall j | 0 <= j < |vs| && vs[j].id == x.id :: j == i;
    }
  }

  /** Enrolment succeeds exactly when the history is sound, every request is already active
      or free, the fresh generations differ and the result fits; and then it is the outcome. */
  lemma EnrolledExact(version: nat, es: seq<Entry>, vs: seq<Identity>, size: seq<Entry> -> nat)
    requires Requestable(vs)
    ensures Enrolled(version, es, vs, size).Ok? <==>
      && version == 1 && |es| <= MAX_ENTRIES && WellKept(es) && Admits(es, vs)
      && size(AfterEnrollment(es, vs)) <= 65_536
    ensures Enrolled(version, es, vs, size).Ok? ==> Enrolled(version, es, vs, size).value == AfterEnrollment(es, vs)
  {
    if Validation(version, es).Ok? {
      RequestAllExact(es, vs);
      RetiredIsOutcome(es, vs);
    }
  }

  /** A refused enrolment says truly why. */
  lemma RefusalIsTrue(version: nat, es: seq<Entry>, vs: seq<Identity>, size: seq<Entry> -> nat)
    requires Requestable(vs)
    ensures match Enrolled(version, es, vs, size)
      case Ok(_) => true
      case Err(Unavailable) => version != 1 || !WellKept(es)
      case Err(BindingChanged) => !Eligible(es, vs)
      case Err(CapExceeded) =>
        |es| > MAX_ENTRIES || |es| + |Fresh(es, vs)| > MAX_ENTRIES || size(AfterEnrollment(es, vs)) > FILE_BYTES
      case Err(_) => false
  {
    if Validation(version, es).Ok? {
      RequestAllExact(es, vs);
      RetiredIsOutcome(es, vs);
    }
  }

  /** Validation decides exactly the histories of version 1 with at most 1024 well-formed entries, in which no
      generation occurs twice and every entry of an id has its one kind, all but the last retired. */
  lemma ValidatedExactly(version: nat, es: seq<Entry>)
    ensures Validation(version, es).Ok? <==>
      && version == 1 && |es| <= 1024
      && (forall i | 0 <= i < |es| :: WfIdentity(es[i].identity))
      && (forall j, i | 0 <= j < i < |es| :: es[j].identity.generation != es[i].identity.generation)
      && (forall j, i | 0 <= j < i < |es| && es[j].identity.id == es[i].identity.id ::
            es[j].identity.kind == es[i].identity.kind && !es[j].active)
    ensures Validation(version, es).Err? ==> Validation(version, es) == Err(if version == 1 && |es| > 1024 then CapExceeded else Unavailable)
  {
    if WellKept(es) {
      forall j, i | 0 <= j < i < |es|
        ensures es[j].identity.generation != es[i].identity.generation
        ensures es[j].identity.id == es[i].identity.id ==> es[j].identity.kind == es[i].identity.kind && !es[j].active
      {
        assert Compatible(es[j], es[i]);
      }
    }
  }

  // ---- What one enrolment keeps

  predicate Grows(es: seq<Entry>, later: seq<Entry>) {
    && |es| <= |later|
    && forall i | 0 <= i < |es| :: later[i].identity == es[i].identity && (later[i].active ==> es[i].active)
  }

  /** The active identities are exactly the requested ones. */
  ghost predicate ActiveAre(es: seq<Entry>, vs: seq<Identity>) {
    forall v: Identity :: Entry(v, true) in es <==> v in vs
  }

  /** The id was used and every entry of it is retired. */
  predicate Gone(es: seq<Entry>, id: string) {
    HasId(es, id) && !ActiveId(es, id)
  }

  lemma RetiringKeeps(es: seq<Entry>, vs: seq<Identity>)
    requires WellKept(es)
    ensures WellKept(RetireAll(es, vs))
  {
    var r := RetireAll(es, vs);
    forall j, i | 0 <= j < i < |r|
      ensures Compatible(r[j], r[i])
    {
      assert Compatible(es[j], es[i]);
    }
  }

  lemma {:induction false} FreshAre(es: seq<Entry>, vs: seq<Identity>, v: Identity)
    ensures v in Fresh(es, vs) <==> v in vs && !Kept(es, v)
    decreases |vs|
  {
    if vs != [] {
      FreshAre(es, vs[1..], v);
      Uncons(vs);
      assert v in vs <==> v == vs[0] || v in vs[1..];
    }
  }

  lemma OutcomeActive(es: seq<Entry>, vs: seq<Identity>)
    ensures ActiveAre(AfterEnrollment(es, vs), vs)
  {
    var r, entering := AfterEnrollment(es, vs), Fresh(es, vs);
    forall v: Identity
      ensures Entry(v, true) in r <==> v in vs
    {
      FreshAre(es, vs, v);
      if v in entering {
        var i :| 0 <= i < |entering| && entering[i] == v;
        assert r[|es| + i] == Entry(v, true);
      } else if v in vs {
        var i :| 0 <= i < |es| && es[i] == Entry(v, true);
        assert r[i] == Entry(v, true);
      }
    }
  }

  lemma GoneStays(es: seq<Entry>, vs: seq<Identity>, id: string)
    requires Admits(es, vs) && Gone(es, id)
    ensures Gone(AfterEnrollment(es, vs), id)
  {
    var r := AfterEnrollment(es, vs);
    forall i | 0 <= i < |vs|
      ensures vs[i].id != id
    {
      if Kept(es, vs[i]) {
        var k :| 0 <= k < |es| && es[k] == Entry(vs[i], true);
      }
    }
    var k :| 0 <= k < |es| && es[k].identity.id == id;
    assert r[k].identity == es[k].identity;
    assert forall i | |es| <= i < |r| :: r[i].identity in vs;
  }

  /** Every successful enrolment only appends and retires, keeps the history sound, leaves exactly the
      requested identities active and never brings a retired id back. */
  lemma EnrollmentKeeps(es: seq<Entry>, vs: seq<Identity>)
    requires WellKept(es) && |es| <= MAX_ENTRIES && Requestable(vs) && Admits(es, vs)
    ensures var r := AfterEnrollment(es, vs);
      && WellKept(r) && |r| <= MAX_ENTRIES && Grows(es, r) && ActiveAre(r, vs)
      && forall id: string :: Gone(es, id) ==> Gone(r, id)
  {
    RequestAllExact(es, vs);
    RetiredIsOutcome(es, vs);
    RetiringKeeps(AllIn(es, vs), vs);
    OutcomeActive(es, vs);
    forall id: string | Gone(es, id)
      ensures Gone(AfterEnrollment(es, vs), id)
    {
      GoneStays(es, vs, id);
    }
  }

  lemma {:induction false} NothingFresh(es: seq<Entry>, vs: seq<Identity>)
    requires forall i | 0 <= i < |vs| :: Kept(es, vs[i])
    ensures Fresh(es, vs) == []
    decreases |vs|
  {
    if vs != [] {
      assert forall i | 0 <= i < |vs[1..]| :: vs[1..][i] == vs[i + 1];
      NothingFresh(es, vs[1..]);
    }
  }

  /** Enrolling the same identities again succeeds and changes nothing. */
  lemma RepeatChangesNothing(es: seq<Entry>, vs: seq<Identity>, size: seq<Entry> -> nat)
    requires Requestable(vs) && Enrolled(1, es, vs, size).Ok?
    ensures var r := Enrolled(1, es, vs, size).value; Enrolled(1, r, vs, size) == Ok(r)
  {
    EnrolledExact(1, es, vs, size);
    EnrollmentKeeps(es, vs);
    var r := AfterEnrollment(es, vs);
    assert forall i | 0 <= i < |vs| :: vs[i] in vs;
    NothingFresh(r, vs);
    assert Admits(r, vs);
    forall i | 0 <= i < |r|
      ensures Marked(r, vs)[i] == r[i]
    {
      if r[i].active { assert r[i] == Entry(r[i].identity, true); }
    }
    assert AfterEnrollment(r, vs) == r;
    EnrolledExact(1, r, vs, size);
  }

  // ---- Restarts

  /** One start of a server: the identities its authority file requests, whether the new ledger
      replaced the file, and whether that was reported as done. */
  datatype Start = Start(requested: seq<Identity>, replaced: bool, reported: bool)

  predicate WfStart(s: Start) {
    Requestable(s.requested) && (s.reported ==> s.replaced)
  }

  /** What opening the file answers. */
  function Answer(es: seq<Entry>, s: Start, size: seq<Entry> -> nat): Result<seq<Identity>> {
    match Enrolled(1, es, s.requested, size)
    case Ok(next) => if next == es || s.reported then Ok(s.requested) else Err(Unavailable)
    case Err(e) => Err(e)
  }

  /** What the file holds afterwards. */
  function AfterStart(es: seq<Entry>, s: Start, size: seq<Entry> -> nat): seq<Entry> {
    match Enrolled(1, es, s.requested, size)
    case Ok(next) => if s.replaced then next else es
    case Err(_) => es
  }

  function AfterStarts(es: seq<Entry>, starts: seq<Start>, size: seq<Entry> -> nat): seq<Entry>
    decreases |starts|
  {
    if starts == [] then es else AfterStarts(AfterStart(es, starts[0], size), starts[1..], size)
  }

  /** A ledger file; the server holds its lock while it runs. */
  class LedgerFile {
    var entries: seq<Entry>

    constructor ()
      ensures entries == []
    {
      entries := [];
    }

    /** Enrols the requested identities and replaces the file when something changed. */
    method Open(s: Start, size: seq<Entry> -> nat) returns (r: Result<seq<Identity>>)
      requires WfStart(s)
      modifies this
      ensures entries == AfterStart(old(entries), s, size) && r == Answer(old(entries), s, size)
      ensures r.Ok? ==>
        && (forall v: Identity :: Entry(v, true) in entries <==> v in s.requested)
        && (forall id: string | ActiveId(old(entries), id) && !IsRequested(id, s.requested) :: Gone(entries, id))
      ensures r.Err? && !s.replaced ==> entries == old(entries)
      ensures r.Err? && Enrolled(1, old(entries), s.requested, size).Ok? ==> r == Err(Unavailable) && !s.reported
    {
      if Answer(entries, s, size).Ok? {
        AnsweredIsEnrolled(entries, s, size);
      }
      var ledger := new Ledger(1, entries);
      var changed :- ledger.Enroll(s.requested, size);
      if changed {
        if s.replaced {
          entries := ledger.entries;
        }
        if !s.reported {
          return Err(Unavailable);
        }
      }
      r := Ok(s.requested);
    }

    /** The same answer without touching the file. */
    method Check(vs: seq<Identity>, size: seq<Entry> -> nat) returns (r: Result<()>)
      ensures match Enrolled(1, entries, vs, size)
        case Ok(_) => r == Ok(())
        case Err(e) => r == Err(e)
    {
      var ledger := new Ledger(1, entries);
      var _ :- ledger.Enroll(vs, size);
      r := Ok(());
    }
  }

  /** Generations the later history adds are new. */
  predicate NoReuse(es: seq<Entry>, later: seq<Entry>) {
    forall i, j | 0 <= i < |es| && |es| <= j < |later| :: es[i].identity.generation != later[j].identity.generation
  }

  /** What holds between any two moments of a history, however many restarts lie between them. */
  ghost predicate Lasting(es: seq<Entry>, later: seq<Entry>) {
    && WellKept(later) && |later| <= MAX_ENTRIES
    && Grows(es, later) && NoReuse(es, later)
    && forall id: string :: Gone(es, id) ==> Gone(later, id)
  }

  lemma StartLasts(es: seq<Entry>, s: Start, size: seq<Entry> -> nat)
    requires WellKept(es) && |es| <= MAX_ENTRIES && WfStart(s)
    ensures Lasting(es, AfterStart(es, s, size))
  {
    EnrolledExact(1, es, s.requested, size);
    var r := AfterStart(es, s, size);
    if r != es {
      EnrollmentKeeps(es, s.requested);
      forall i, j | 0 <= i < |es| && |es| <= j < |r|
        ensures es[i].identity.generation != r[j].identity.generation
      {
        assert Compatible(r[i], r[j]);
      }
    }
  }

  /** An id that was active and is not requested any more is gone from the outcome. */
  lemma UnrequestedIsGone(es: seq<Entry>, vs: seq<Identity>, id: string)
    requires ActiveId(es, id) && !IsRequested(id, vs)
    ensures Gone(AfterEnrollment(es, vs), id)
  {
    var r := AfterEnrollment(es, vs);
    var k :| 0 <= k < |es| && es[k].identity.id == id && es[k].active;
    assert r[k].identity == es[k].identity;
    assert forall v | v in vs :: v.id != id;
    assert forall i | |es| <= i < |r| :: r[i].identity in vs;
  }

  /** When a start answers Ok the file holds what it asked for: exactly the requested identities are active, and
      every other id that was active is gone. */
  lemma AnsweredIsEnrolled(es: seq<Entry>, s: Start, size: seq<Entry> -> nat)
    requires WfStart(s) && Answer(es, s, size).Ok?
    ensures var r := AfterStart(es, s, size);
      && WellKept(r) && |r| <= MAX_ENTRIES
      && (forall v: Identity :: Entry(v, true) in r <==> v in s.requested)
      && (forall id: string | ActiveId(es, id) && !IsRequested(id, s.requested) :: Gone(r, id))
  {
    EnrolledExact(1, es, s.requested, size);
    EnrollmentKeeps(es, s.requested);
    forall id: string | ActiveId(es, id) && !IsRequested(id, s.requested)
      ensures Gone(AfterEnrollment(es, s.requested), id)
    {
      UnrequestedIsGone(es, s.requested, id);
    }
  }

  /** A request for an id that is gone is refused. */
  lemma GoneIsRefused(es: seq<Entry>, s: Start, size: seq<Entry> -> nat, id: string)
    requires WfStart(s) && Gone(es, id) && IsRequested(id, s.requested)
    ensures Answer(es, s, size).Err?
  {
    EnrolledExact(1, es, s.requested, size);
    var i :| 0 <= i < |s.requested| && s.requested[i].id == id;
    assert !Kept(es, s.requested[i]);
  }

  lemma LastingChains(a: seq<Entry>, b: seq<Entry>, c: seq<Entry>)
    requires Lasting(a, b) && Lasting(b, c)
    ensures Lasting(a, c)
  {
    forall i, j | 0 <= i < |a| && |a| <= j < |c|
      ensures a[i].identity.generation != c[j].identity.generation
    {
      assert c[i].identity == b[i].identity == a[i].identity;
      assert Compatible(c[i], c[j]);
    }
  }

  /** Over any sequence of restarts, successful or not, the history is only appended to and retired from,
      stays sound, never reuses a generation and never revives a retired id. */
  lemma {:induction false} RestartsLast(es: seq<Entry>, starts: seq<Start>, size: seq<Entry> -> nat)
    requires WellKept(es) && |es| <= MAX_ENTRIES && forall i | 0 <= i < |starts| :: WfStart(starts[i])
    ensures Lasting(es, AfterStarts(es, starts, size))
    decreases |starts|
  {
    if starts != [] {
      var next := AfterStart(es, starts[0], size);
      StartLasts(es, starts[0], size);
      assert forall i | 0 <= i < |starts[1..]| :: starts[1..][i] == starts[i + 1];
      RestartsLast(next, starts[1..], size);
      LastingChains(es, next, AfterStarts(next, starts[1..], size));
    }
  }

  /** A retirement reported as done is never undone: after a start that answered Ok without requesting an active id,
      whatever starts follow, the id stays gone and every later start that requests it is refused. */
  lemma {:induction false} ReportedRetirementLasts(es: seq<Entry>, first: Start, starts: seq<Start>, last: Start,
                                                   size: seq<Entry> -> nat, id: string)
    requires WfStart(first) && WfStart(last) && forall i | 0 <= i < |starts| :: WfStart(starts[i])
    requires Answer(es, first, size).Ok? && ActiveId(es, id) && !IsRequested(id, first.requested)
    ensures var later := AfterStarts(es, [first] + starts, size);
      Gone(later, id) && (IsRequested(id, last.requested) ==> Answer(later, last, size).Err?)
  {
    Cons(first, starts);
    AnsweredIsEnrolled(es, first, size);
    var next := AfterStart(es, first, size);
    RestartsLast(next, starts, size);
    var later := AfterStarts(next, starts, size);
    if IsRequested(id, last.requested) {
      GoneIsRefused(later, last, size, id);
    }
  }
}
