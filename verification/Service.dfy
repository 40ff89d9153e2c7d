/** One served connection, cut where the program waits: between two cuts the authority file, the clock
    and the permits of other connections may change (crates/gaze-lens-server/src/service.rs). */
module Service {
  import opened Authority
  import opened Bounds
  import opened Identities
  import opened Wire
  import opened Wrappers

  /** What reading the authority file and then the clock gives at one moment. */
  datatype World = World(file: Option<AuthorityFile>, clock: Option<nat>)

  /** What is fixed while a server runs: the enrolled identities and the digests it computes. */
  datatype Server = Server(enrolled: seq<Identity>, fingerprint: Fingerprint, digest: string -> string)

  datatype Frame = Offer(o: Prepared) | Reply(s: Success) | Refusal(f: Failure)

  datatype Phase =
    | Idle
    | Offering(id: string, pin: Pinned)
    | AwaitingCall(id: string, pin: Pinned)
    | Verified(id: string, pin: Pinned, call: Call)
    | Replying(frame: Frame)
    | Done

  /** `request` and `checks` record the request that was admitted and the moments at which a check passed. */
  datatype Conn = Conn(phase: Phase, permit: Option<string>, sent: seq<Frame>, request: Option<Prepare>, checks: seq<World>)

  const FIRST := Conn(Idle, None, [], None, [])

  type Counts = map<string, nat>

  datatype Action =
    | GetPrepare(prepare: Result<Prepare>, world: World)
    | Write(ok: bool)
    | GetCall(call: Result<Call>, world: World)
    | Recheck(world: World)
    | Abort

  // ---- Reading the authority

  function ReadAuthority(srv: Server, w: World): Result<AuthorityFile> {
    if w.file.None? || CheckAuthority(w.file.value).Err? then Err(Unauthorized)
    else if IdentitiesOf(w.file.value, srv.fingerprint) != srv.enrolled then Err(BindingChanged)
    else Ok(w.file.value)
  }

  function Now(w: World): Result<nat> {
    if w.clock.Some? then Ok(w.clock.value) else Err(Unavailable)
  }

  function Pin(srv: Server, p: Prepare, w: World): Result<Pinned> {
    var a :- ReadAuthority(srv, w);
    var now :- Now(w);
    PrepareRequest(a, p, srv.digest(p.credential), now)
  }

  function Recertify(srv: Server, pin: Pinned, w: World): Result<()> {
    var a :- ReadAuthority(srv, w);
    var now :- Now(w);
    Revalidate(a, pin, now)
  }

  /** At this moment the file is accepted, defines the enrolled identities and grants the pinned right. */
  ghost predicate Passes(srv: Server, w: World, pin: Pinned) {
    && w.file.Some? && w.clock.Some?
    && WfAuthority(w.file.value) && IdentitiesOf(w.file.value, srv.fingerprint) == srv.enrolled
    && pin.principal in w.file.value.principals && pin.resource in w.file.value.resources
    && LiveGrant(w.file.value, pin, w.clock.value)
  }

  lemma PinPasses(srv: Server, p: Prepare, w: World)
    ensures forall pin: Pinned :: Pin(srv, p, w) == Ok(pin) <==>
      Passes(srv, w, pin) && pin.principal.sha256 == srv.digest(p.credential)
      && pin.resource.alias == p.resource && pin.operation == p.operation
  {
    if w.file.Some? && w.clock.Some? {
      CheckedIsWf(w.file.value);
      if WfAuthority(w.file.value) {
        PreparedExactly(w.file.value, p, srv.digest(p.credential), w.clock.value);
      }
    }
  }

  lemma RecertifyPasses(srv: Server, pin: Pinned, w: World)
    ensures Recertify(srv, pin, w).Ok? <==> Passes(srv, w, pin)
  {
    if w.file.Some? {
      CheckedIsWf(w.file.value);
      if w.clock.Some? {
        RevalidatedExactly(w.file.value, pin, w.clock.value);
      }
    }
  }

  /** Without a live grant of the right every check refuses, whatever else the file says. */
  lemma UngrantedIsRefused(srv: Server, p: Prepare, pin: Pinned, w: World)
    requires w.file.Some? && w.clock.Some? && ReadAuthority(srv, w).Ok?
    requires forall g: Grant | g in w.file.value.grants && g.principal == pin.principal.id && g.resource == pin.resource.id
      && g.operation == pin.operation :: !g.enabled || g.expires <= w.clock.value
    ensures Pin(srv, p, w) != Ok(pin)
    ensures pin.principal in w.file.value.principals && pin.resource in w.file.value.resources ==>
      Recertify(srv, pin, w) == Err(Unauthorized)
  {
    PinPasses(srv, p, w);
    RevalidatedExactly(w.file.value, pin, w.clock.value);
  }

  /** What reading the authority answers, and when. */
  lemma AuthorityReadExactly(srv: Server, w: World)
    ensures ReadAuthority(srv, w) ==
      if w.file.None? || !WfAuthority(w.file.value) then Err(Unauthorized)
      else if IdentitiesOf(w.file.value, srv.fingerprint) != srv.enrolled then Err(BindingChanged)
      else Ok(w.file.value)
  {
    if w.file.Some? {
      CheckedIsWf(w.file.value);
    }
  }

  lemma PassingPinIsValid(srv: Server, pin: Pinned, w: World)
    requires Passes(srv, w, pin)
    ensures ValidBinding(pin.Binding())
  {
    var a := w.file.value;
    var i :| 0 <= i < |a.principals| && a.principals[i] == pin.principal;
    var j :| 0 <= j < |a.resources| && a.resources[j] == pin.resource;
    assert PrincipalAllowed(a, i) && ResourceAllowed(a, j);
  }

  // ---- Permits

  function Taken(counts: Counts, id: string): Result<Counts> {
    var count := if id in counts then counts[id] else 0;
    if count >= MAX_PRINCIPAL_CALLS then Err(Unavailable) else Ok(counts[id := count + 1])
  }

  function Dropped(counts: Counts, permit: Option<string>): Counts {
    if permit.None? || permit.value !in counts then counts
    else if counts[permit.value] <= 1 then counts - {permit.value}
    else counts[permit.value := counts[permit.value] - 1]
  }

  // ---- Steps

  function Admitted(c: Conn, srv: Server, p: Prepare, w: World, pin: Pinned, counts: Counts): (Conn, Counts) {
    var admitting := c.(request := Some(p), checks := [w]);
    if !pin.operation.Readiness? then (admitting.(phase := Replying(Refusal(Failure(p.id, UnsupportedOperation)))), counts)
    else
      match Taken(counts, pin.principal.id)
      case Err(code) => (admitting.(phase := Replying(Refusal(Failure(p.id, code)))), counts)
      case Ok(more) => (admitting.(phase := Offering(p.id, pin), permit := Some(pin.principal.id)), more)
  }

  function AfterGetPrepare(c: Conn, srv: Server, r: Result<Prepare>, w: World, counts: Counts): (Conn, Counts) {
    if r.Err? || !ValidPrepare(r.value) then Closing(c, counts)
    else
      match Pin(srv, r.value, w)
      case Err(_) => Closing(c, counts)
      case Ok(pin) => Admitted(c, srv, r.value, w, pin, counts)
  }

  /** The connection ends; its permit, if it has one, is given back. */
  function Closing(c: Conn, counts: Counts): (Conn, Counts) {
    (c.(phase := Done, permit := None), Dropped(counts, c.permit))
  }

  function OfferOf(id: string, pin: Pinned): Prepared {
    Prepared(id, pin.operation, pin.Binding())
  }

  function AfterWrite(c: Conn, ok: bool, counts: Counts): (Conn, Counts) {
    match c.phase
    case Offering(id, pin) =>
      if ok && ValidPrepared(OfferOf(id, pin)) then
        (c.(phase := AwaitingCall(id, pin), sent := c.sent + [Offer(OfferOf(id, pin))]), counts)
      else Closing(c, counts)
    case Replying(frame) => Closing(if ok then c.(sent := c.sent + [frame]) else c, counts)
    case _ => (c, counts)
  }

  function AnswerTo(call: Call, pin: Pinned): Success {
    Success(call.id, pin.operation, pin.Binding(), Configured)
  }

  /** The checks between reading the call and the release. */
  function Verify(srv: Server, id: string, pin: Pinned, r: Result<Call>, w: World): Result<Call> {
    var call :- r;
    var _ :- DecodeCheck(call);
    var _ :- Require(call.id == id && call.args.Kind() == pin.operation);
    if call.binding != pin.Binding() then Err(BindingChanged)
    else
      var _ :- Recertify(srv, pin, w);
      if !pin.operation.Readiness? then Err(UnsupportedOperation)
      else
        var _ :- Answer(AnswerTo(call, pin), call);
        Ok(call)
  }

  /** The code of a refused call tells truly what was wrong; unless reading it failed, with whatever code. */
  lemma RefusedCallIsWrong(srv: Server, id: string, pin: Pinned, call: Call, w: World)
    requires pin.operation.Readiness?
    ensures match Verify(srv, id, pin, Ok(call), w)
      case Ok(_) => true
      case Err(InvalidRequest) =>
        || !ValidId(call.id) || !ValidBinding(call.binding) || !ShapedArgs(call.args)
        || call.id != id || call.args.Kind() != pin.operation
      case Err(CapExceeded) => !ArgsFit(call.args) || call.size > REQUEST_BYTES
      case Err(BindingChanged) =>
        || call.binding != Wire.Binding(pin.principal.id, pin.principal.generation, pin.resource.id, pin.resource.generation)
        || (w.file.Some? && IdentitiesOf(w.file.value, srv.fingerprint) != srv.enrolled)
        || (w.file.Some? && (pin.principal !in w.file.value.principals || pin.resource !in w.file.value.resources))
      case Err(Unavailable) => w.clock.None?
      case Err(Unauthorized) =>
        w.file.None? || !WfAuthority(w.file.value) || (w.clock.Some? && !LiveGrant(w.file.value, pin, w.clock.value))
      case Err(_) => false
  {
    CallDecided(call);
    AuthorityReadExactly(srv, w);
    if w.file.Some? && w.clock.Some? {
      RevalidatedExactly(w.file.value, pin, w.clock.value);
    }
  }

  /** A call for another id, operation or binding is refused as such, whatever the authority says meanwhile. */
  lemma WrongCallIsRefusedFirst(srv: Server, id: string, pin: Pinned, call: Call, w: World)
    requires ValidCall(call)
    ensures call.id != id || call.args.Kind() != pin.operation ==> Verify(srv, id, pin, Ok(call), w) == Err(InvalidRequest)
    ensures call.id == id && call.args.Kind() == pin.operation && call.binding != pin.Binding() ==>
      Verify(srv, id, pin, Ok(call), w) == Err(BindingChanged)
  {
    CallDecided(call);
  }

  function AfterGetCall(c: Conn, srv: Server, r: Result<Call>, w: World): Conn
    requires c.phase.AwaitingCall?
  {
    match Verify(srv, c.phase.id, c.phase.pin, r, w)
    case Ok(call) => c.(phase := Verified(c.phase.id, c.phase.pin, call), checks := c.checks + [w])
    case Err(code) => c.(phase := Replying(Refusal(Failure(c.phase.id, code))))
  }

  /** The last check is the moment of release. */
  function AfterRecheck(c: Conn, srv: Server, w: World): Conn
    requires c.phase.Verified?
  {
    match Recertify(srv, c.phase.pin, w)
    case Ok(_) => c.(phase := Replying(Reply(AnswerTo(c.phase.call, c.phase.pin))), checks := c.checks + [w])
    case Err(code) => c.(phase := Replying(Refusal(Failure(c.phase.id, code))))
  }

  /** An event the connection is not waiting for does nothing. */
  function Next(c: Conn, srv: Server, e: Action, counts: Counts): (Conn, Counts) {
    match e
    case GetPrepare(r, w) => if c.phase.Idle? then AfterGetPrepare(c, srv, r, w, counts) else (c, counts)
    case Write(ok) => AfterWrite(c, ok, counts)
    case GetCall(r, w) => if c.phase.AwaitingCall? then (AfterGetCall(c, srv, r, w), counts) else (c, counts)
    case Recheck(w) => if c.phase.Verified? then (AfterRecheck(c, srv, w), counts) else (c, counts)
    case Abort => if c.phase.Done? then (c, counts) else Closing(c, counts)
  }

  // ---- The program's objects

  /** The table of active calls per principal that all connections share. */
  class PrincipalTable {
    var counts: Counts

    constructor ()
      ensures counts == map[]
    {
      counts := map[];
    }

    method Acquire(id: string) returns (r: Result<()>)
      modifies this
      ensures match Taken(old(counts), id)
        case Ok(more) => r == Ok(()) && counts == more
        case Err(e) => r == Err(e) && counts == old(counts)
    {
      var count := if id in counts then counts[id] else 0;
      if count >= MAX_PRINCIPAL_CALLS {
        return Err(Unavailable);
      }
      counts := counts[id := count + 1];
      r := Ok(());
    }

    method Drop(permit: Option<string>)
      modifies this
      ensures counts == Dropped(old(counts), permit)
    {
      if permit.Some? && permit.value in counts {
        if counts[permit.value] > 1 {
          counts := counts[permit.value := counts[permit.value] - 1];
        } else {
          counts := counts - {permit.value};
        }
      }
    }
  }

  class Connection {
    const server: Server
    const table: PrincipalTable
    var phase: Phase
    var permit: Option<string>
    var sent: seq<Frame>
    ghost var request: Option<Prepare>
    ghost var checks: seq<World>

    constructor (server: Server, table: PrincipalTable)
      ensures State() == FIRST && this.server == server && this.table == table
    {
      this.server := server;
      this.table := table;
      phase, permit, sent, request, checks := Idle, None, [], None, [];
    }

    ghost function State(): Conn
      reads this
    {
      Conn(phase, permit, sent, request, checks)
    }

    method Close()
      modifies this, table
      ensures (State(), table.counts) == Closing(old(State()), old(table.counts))
    {
      table.Drop(permit);
      phase, permit := Done, None;
    }

    method OnPrepare(r: Result<Prepare>, w: World)
      requires phase.Idle?
      modifies this, table
      ensures (State(), table.counts) == Next(old(State()), server, GetPrepare(r, w), old(table.counts))
    {
      if r.Err? || !ValidPrepare(r.value) {
        Close();
        return;
      }
      var p := r.value;
      var pin := Pin(server, p, w);
      if pin.Err? {
        Close();
        return;
      }
      request, checks := Some(p), [w];
      var admission: Result<()>;
      if pin.value.operation == Readiness {
        admission := table.Acquire(pin.value.principal.id);
      } else {
        admission := Err(UnsupportedOperation);
      }
      match admission
      case Ok(_) => phase, permit := Offering(p.id, pin.value), Some(pin.value.principal.id);
      case Err(code) => phase := Replying(Refusal(Failure(p.id, code)));
    }

    method OnWrite(ok: bool)
      requires phase.Offering? || phase.Replying?
      modifies this, table
      ensures (State(), table.counts) == Next(old(State()), server, Write(ok), old(table.counts))
    {
      match phase
      case Offering(id, pin) =>
        if ok && ValidPrepared(OfferOf(id, pin)) {
          phase, sent := AwaitingCall(id, pin), sent + [Offer(OfferOf(id, pin))];
        } else {
          Close();
        }
      case Replying(frame) =>
        if ok {
          sent := sent + [frame];
        }
        Close();
    }

    method OnCall(r: Result<Call>, w: World)
      requires phase.AwaitingCall?
      modifies this
      ensures (State(), table.counts) == Next(old(State()), server, GetCall(r, w), old(table.counts))
    {
      var id, pin := phase.id, phase.pin;
      match Verify(server, id, pin, r, w)
      case Ok(call) =>
        phase := Verified(id, pin, call);
        checks := checks + [w];
      case Err(code) => phase := Replying(Refusal(Failure(id, code)));
    }

    method OnRelease(w: World)
      requires phase.Verified?
      modifies this
      ensures (State(), table.counts) == Next(old(State()), server, Recheck(w), old(table.counts))
    {
      var id, pin, call := phase.id, phase.pin, phase.call;
      match Recertify(server, pin, w)
      case Ok(_) =>
        phase := Replying(Reply(AnswerTo(call, pin)));
        checks := checks + [w];
      case Err(code) => phase := Replying(Refusal(Failure(id, code)));
    }
  }
}
