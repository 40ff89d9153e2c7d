/** The durable identity history (crates/gaze-lens-server/src/history.rs): an
    append-only ledger of every identity a server ever enrolled. */
module History {
  import opened Bounds
  import opened Identities
  import opened Wrappers

  datatype Entry = Entry(identity: Identity, active: bool)

  const MAX_ENTRIES: nat := 1024
  const FILE_BYTES: nat := 65_536

  // ---- A well-kept history

  /** An entry may precede another: generations differ, and an equal id has the same kind and is retired. */
  predicate Compatible(e: Entry, later: Entry) {
    && e.identity.generation != later.identity.generation
    && (e.identity.id == later.identity.id ==> e.identity.kind == later.identity.kind && !e.active)
  }

  predicate WellKept(es: seq<Entry>) {
    && (forall i | 0 <= i < |es| :: WfIdentity(es[i].identity))
    && (forall j, i | 0 <= j < i < |es| :: Compatible(es[j], es[i]))
  }

  function Validation(version: nat, es: seq<Entry>): Result<()> {
    if version != 1 then Err(Unavailable)
    else if |es| > MAX_ENTRIES then Err(CapExceeded)
    else if WellKept(es) then Ok(())
    else Err(Unavailable)
  }

  // ---- One enrolment, as the program computes it

  function Latest(es: seq<Entry>, id: string): (r: Option<nat>)
    ensures r.Some? ==> r.value < |es| && es[r.value].identity.id == id
    ensures r.Some? ==> forall i | r.value < i < |es| :: es[i].identity.id != id
    ensures r.None? ==> forall i | 0 <= i < |es| :: es[i].identity.id != id
  {
    if es == [] then None
    else if es[|es| - 1].identity.id == id then Some(|es| - 1)
    else Latest(es[..|es| - 1], id)
  }

  predicate HasGeneration(es: seq<Entry>, generation: string) {
    exists i :: 0 <= i < |es| && es[i].identity.generation == generation
  }

  function Append(es: seq<Entry>, previous: Option<nat>, v: Identity): Result<seq<Entry>>
    requires previous.Some? ==> previous.value < |es|
  {
    var retired := if previous.Some? then es[previous.value := es[previous.value].(active := false)] else es;
    if |es| + 1 > MAX_ENTRIES then Err(CapExceeded) else Ok(retired + [Entry(v, true)])
  }

  /** The entries after one requested identity. */
  function Request(es: seq<Entry>, v: Identity): Result<seq<Entry>> {
    var previous := Latest(es, v.id);
    if previous.Some? && (!es[previous.value].active || es[previous.value].identity.kind != v.kind) then Err(BindingChanged)
    else if previous.Some? && es[previous.value].identity.generation == v.generation then
      if es[previous.value].identity != v then Err(BindingChanged) else Ok(es)
    else if HasGeneration(es, v.generation) then Err(BindingChanged)
    else Append(es, previous, v)
  }

  function RequestAll(es: seq<Entry>, vs: seq<Identity>): Result<seq<Entry>>
    decreases |vs|
  {
    if vs == [] then Ok(es)
    else
      var next :- Request(es, vs[0]);
      RequestAll(next, vs[1..])
  }

  predicate IsRequested(id: string, vs: seq<Identity>) {
    exists i :: 0 <= i < |vs| && vs[i].id == id
  }

  function Retired(e: Entry, vs: seq<Identity>): Entry {
    Entry(e.identity, e.active && IsRequested(e.identity.id, vs))
  }

  function RetireAll(es: seq<Entry>, vs: seq<Identity>): (r: seq<Entry>)
    ensures |r| == |es| && forall i | 0 <= i < |es| :: r[i] == Retired(es[i], vs)
  {
    seq(|es|, i requires 0 <= i < |es| => Retired(es[i], vs))
  }

  /** `size` is the number of bytes the entries serialise to. */
  function Enrolled(version: nat, es: seq<Entry>, vs: seq<Identity>, size: seq<Entry> -> nat): Result<seq<Entry>> {
    var _ :- Validation(version, es);
    var all :- RequestAll(es, vs);
    var left := RetireAll(all, vs);
    if size(left) > FILE_BYTES then Err(CapExceeded) else Ok(left)
  }

  class Ledger {
    var version: nat
    var entries: seq<Entry>

    constructor (version: nat, entries: seq<Entry>)
      ensures this.version == version && this.entries == entries
    {
      this.version := version;
      this.entries := entries;
    }

    method Validate() returns (r: Result<()>)
      ensures r == Validation(version, entries)
    {
      if version != 1 {
        return Err(Unavailable);
      }
      var _ :- Cap(|entries|, MAX_ENTRIES);
      for i := 0 to |entries|
        invariant forall k | 0 <= k < i :: WfIdentity(entries[k].identity)
        invariant forall j, k | 0 <= j < k < i :: Compatible(entries[j], entries[k])
      {
        if !WfIdentity(entries[i].identity) {
          return Err(Unavailable);
        }
        for j := 0 to i
          invariant forall k | 0 <= k < j :: Compatible(entries[k], entries[i])
        {
          if !Compatible(entries[j], entries[i]) {
            return Err(Unavailable);
          }
        }
      }
      r := Ok(());
    }

    /** One turn of the loop over the requests. */
    method EnrollOne(v: Identity, before: bool) returns (r: Result<bool>)
      modifies this`entries
      ensures match Request(old(entries), v)
        case Ok(es) => entries == es && r == Ok(before || |es| > |old(entries)|)
        case Err(e) => r == Err(e)
    {
      var previous := Latest(entries, v.id);
      if previous.Some? {
        var latest := entries[previous.value];
        if !latest.active || latest.identity.kind != v.kind {
          return Err(BindingChanged);
        }
        if latest.identity.generation == v.generation {
          return if latest.identity != v then Err(BindingChanged) else Ok(before);
        }
      }
      if HasGeneration(entries, v.generation) {
        return Err(BindingChanged);
      }
      if previous.Some? {
        entries := entries[previous.value := entries[previous.value].(active := false)];
      }
      var _ :- Cap(|entries| + 1, MAX_ENTRIES);
      entries := entries + [Entry(v, true)];
      r := Ok(true);
    }

    /** Retires every active entry whose id is no longer requested. */
    method RetireUnrequested(vs: seq<Identity>, before: bool) returns (changed: bool)
      modifies this`entries
      ensures entries == RetireAll(old(entries), vs)
      ensures changed == (before || entries != old(entries))
    {
      changed := before;
      for i := 0 to |entries|
        invariant |entries| == |old(entries)|
        invariant forall k | 0 <= k < i :: entries[k] == Retired(old(entries)[k], vs)
        invariant forall k | i <= k < |entries| :: entries[k] == old(entries)[k]
        invariant changed == (before || entries != old(entries))
      {
        if entries[i].active && !IsRequested(entries[i].identity.id, vs) {
          entries := entries[i := entries[i].(active := false)];
          changed := true;
          assert entries[i] != old(entries)[i];
        }
      }
      assert entries == RetireAll(old(entries), vs);
    }

    method Enroll(vs: seq<Identity>, size: seq<Entry> -> nat) returns (r: Result<bool>)
      modifies this`entries
      ensures match Enrolled(version, old(entries), vs, size)
        case Ok(es) => entries == es && r == Ok(es != old(entries))
        case Err(e) => r == Err(e)
    {
      var _ :- Validate();
      var changed := false;
      for i := 0 to |vs|
        invariant match RequestAll(old(entries), vs)
          case Ok(all) => RequestAll(entries, vs[i..]) == Ok(all)
          case Err(e) => RequestAll(entries, vs[i..]) == Err(e)
        invariant |entries| >= |old(entries)| && changed == (|entries| > |old(entries)|)
        invariant !changed ==> entries == old(entries)
      {
        assert vs[i..][0] == vs[i] && vs[i..][1..] == vs[i + 1..];
        RequestGrows(entries, vs[i]);
        changed :- EnrollOne(vs[i], changed);
      }
      assert vs[|vs|..] == [];
      changed := RetireUnrequested(vs, changed);
      if size(entries) > FILE_BYTES {
        return Err(CapExceeded);
      }
      r := Ok(changed);
    }
  }

  lemma RequestGrows(es: seq<Entry>, v: Identity)
    ensures Request(es, v).Ok? ==> |Request(es, v).value| >= |es|
    ensures Request(es, v).Ok? && |Request(es, v).value| == |es| ==> Request(es, v).value == es
  {
  }
}
