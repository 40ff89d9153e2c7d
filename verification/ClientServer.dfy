/** A connection together with a client that follows the sequence: every frame the server sends is one
    the client's sequence accepts in the state it is in when it reads the frame. */
module ClientServer {
  import opened Bounds
  import opened Authority
  import opened Service
  import opened ServiceSafety
  import opened Wire
  import opened Wrappers

  /** The client's sequence, the connection, the frames on their way, and what the client has sent. */
  datatype Joint = Joint(client: State, conn: Conn, inFlight: seq<Frame>, asked: Option<Prepare>, called: Option<Call>)

  const START := Joint(New, FIRST, [], None, None)

  datatype JointStep =
    | ClientPrepares(p: Prepare)
    | ClientCalls(c: Call)
    | ClientReads
    | ServerActs(action: Action, counts: Counts)

  function Reading(client: State, frame: Frame): (State, bool) {
    match frame
    case Offer(o) => After(client, DoPrepared(o))
    case Reply(s) => After(client, DoSuccess(s))
    case Refusal(f) => After(client, DoFailure(f))
  }

  /** The client sends only what its own sequence accepts; the server receives only what the client sent,
      or nothing at all. */
  ghost predicate Possible(j: Joint, step: JointStep) {
    match step
    case ClientPrepares(p) => AfterPrepare(j.client, p).1.Ok?
    case ClientCalls(c) => AfterCall(j.client, c).1.Ok?
    case ClientReads => j.inFlight != []
    case ServerActs(GetPrepare(Ok(p), _), _) => j.asked == Some(p)
    case ServerActs(GetCall(Ok(c), _), _) => j.called == Some(c)
    case ServerActs(_, _) => true
  }

  /** The frames `d` has sent beyond those `c` had. */
  function Newly(c: Conn, d: Conn): seq<Frame> {
    if |c.sent| <= |d.sent| then d.sent[|c.sent|..] else []
  }

  function AfterStep(j: Joint, srv: Server, step: JointStep): Joint {
    match step
    case ClientPrepares(p) => j.(client := AfterPrepare(j.client, p).0, asked := Some(p))
    case ClientCalls(c) => j.(client := AfterCall(j.client, c).0, called := Some(c))
    case ClientReads => if j.inFlight == [] then j else j.(client := Reading(j.client, j.inFlight[0]).0, inFlight := j.inFlight[1..])
    case ServerActs(action, counts) =>
      var d := Next(j.conn, srv, action, counts).0;
      j.(conn := d, inFlight := j.inFlight + Newly(j.conn, d))
  }

  /** Step `k` is possible and leads from one state to the next. */
  ghost predicate Turned(srv: Server, steps: seq<JointStep>, js: seq<Joint>, k: nat)
    requires k < |steps| && |js| == |steps| + 1
  {
    Possible(js[k], steps[k]) && js[k + 1] == AfterStep(js[k], srv, steps[k])
  }

  /** The states of a run, from the start on. */
  ghost predicate IsRun(srv: Server, steps: seq<JointStep>, js: seq<Joint>) {
    |js| == |steps| + 1 && js[0] == START && forall k: nat | k < |steps| :: Turned(srv, steps, js, k)
  }

  // ---- How far the two sides are

  ghost predicate OfferFits(client: State, o: Prepared) {
    client == Preparing(o.id, o.operation) && ValidPrepared(o)
  }

  /** A refusal is acceptable now, and stays so if the client goes on to call. */
  ghost predicate FailureFits(client: State, f: Failure) {
    ValidId(f.id) && ExpectedId(client) == Some(f.id)
  }

  ghost predicate ReplyFits(client: State, s: Success) {
    client.Called? && Answer(s, client.call).Ok?
  }

  ghost predicate LastFits(client: State, frame: Frame) {
    match frame
    case Offer(_) => false
    case Reply(s) => ReplyFits(client, s)
    case Refusal(f) => FailureFits(client, f)
  }

  /** The client will accept the frames on their way, followed by `last` if it is still to be written. */
  ghost predicate Deliverable(client: State, frames: seq<Frame>) {
    || frames == []
    || (|frames| == 1 && frames[0].Offer? && OfferFits(client, frames[0].o))
    || (|frames| == 1 && LastFits(client, frames[0]))
    || (|frames| == 2 && frames[0].Offer? && OfferFits(client, frames[0].o) && frames[1].Refusal?
        && ValidId(frames[1].f.id) && frames[1].f.id == frames[0].o.id)
  }

  /** The offer is on its way, or read and perhaps answered by a call. */
  ghost predicate OfferOnTheWay(j: Joint, id: string, pin: Pinned) {
    || (j.inFlight == [Offer(OfferOf(id, pin))] && OfferFits(j.client, OfferOf(id, pin)) && j.called.None?)
    || (j.inFlight == [] && j.client == Offered(id, pin.operation, pin.Binding()) && j.called.None?)
    || (j.inFlight == [] && j.client.Called? && j.called == Some(j.client.call) && j.client.call.id == id
        && j.client.call.binding == pin.Binding() && j.client.call.args.Kind() == pin.operation)
  }

  ghost predicate InStep(j: Joint) {
    match j.conn.phase
    case Idle => j.inFlight == [] && j.called.None?
      && (if j.asked.None? then j.client.New? else j.client == Preparing(j.asked.value.id, j.asked.value.operation))
    case Offering(id, pin) => j.inFlight == [] && j.called.None? && j.client == Preparing(id, pin.operation) && ValidPrepared(OfferOf(id, pin))
    case AwaitingCall(id, pin) => OfferOnTheWay(j, id, pin)
    case Verified(id, pin, call) => j.inFlight == [] && j.client == Called(call)
    case Replying(frame) => Deliverable(j.client, j.inFlight + [frame])
    case Done => Deliverable(j.client, j.inFlight)
  }

  /** The call the client has made is the one it sent. */
  ghost predicate CallSent(j: Joint) {
    j.client.Called? ==> j.called == Some(j.client.call)
  }

  ghost predicate Together(srv: Server, j: Joint) {
    Sound(srv, j.conn) && InStep(j) && CallSent(j)
  }

  // ---- The client's steps

  lemma ReadIsAccepted(j: Joint)
    requires InStep(j) && j.inFlight != []
    ensures Reading(j.client, j.inFlight[0]).1
  {
  }

  lemma PreparingKeeps(j: Joint, p: Prepare)
    requires InStep(j) && AfterPrepare(j.client, p).1.Ok?
    ensures var k := j.(client := AfterPrepare(j.client, p).0, asked := Some(p)); InStep(k) && CallSent(k)
  {
  }

  lemma CallingKeeps(j: Joint, c: Call)
    requires InStep(j) && AfterCall(j.client, c).1.Ok?
    ensures var k := j.(client := AfterCall(j.client, c).0, called := Some(c)); InStep(k) && CallSent(k)
  {
  }

  lemma ReadingKeeps(j: Joint)
    requires InStep(j) && CallSent(j) && j.inFlight != []
    ensures var k := j.(client := Reading(j.client, j.inFlight[0]).0, inFlight := j.inFlight[1..]); InStep(k) && CallSent(k)
  {
    if j.conn.phase.Replying? {
      assert (j.inFlight + [j.conn.phase.frame])[1..] == j.inFlight[1..] + [j.conn.phase.frame];
    }
  }

  lemma ClientKeeps(srv: Server, j: Joint, step: JointStep)
    requires Together(srv, j) && Possible(j, step) && !step.ServerActs?
    ensures Together(srv, AfterStep(j, srv, step))
  {
    match step
    case ClientPrepares(p) => PreparingKeeps(j, p);
    case ClientCalls(c) => CallingKeeps(j, c);
    case ClientReads => ReadingKeeps(j);
  }

  // ---- The server's steps

  lemma NothingNew(c: Conn, d: Conn, inFlight: seq<Frame>)
    requires c.sent == d.sent
    ensures inFlight + Newly(c, d) == inFlight
  {
  }

  lemma OneNew(c: Conn, d: Conn, frame: Frame, inFlight: seq<Frame>)
    requires d.sent == c.sent + [frame]
    ensures inFlight + Newly(c, d) == inFlight + [frame]
  {
  }

  lemma PinIsOffered(srv: Server, p: Prepare, w: World)
    requires ValidId(p.id) && Pin(srv, p, w).Ok?
    ensures ValidPrepared(OfferOf(p.id, Pin(srv, p, w).value)) && Pin(srv, p, w).value.operation == p.operation
  {
    PinPasses(srv, p, w);
    PassingPinIsValid(srv, Pin(srv, p, w).value, w);
  }

  lemma AdmissionKeeps(srv: Server, j: Joint, p: Prepare, w: World, pin: Pinned, counts: Counts)
    requires InStep(j) && j.conn.phase.Idle? && j.asked == Some(p) && ValidId(p.id)
    requires ValidPrepared(OfferOf(p.id, pin)) && pin.operation == p.operation
    ensures InStep(j.(conn := Admitted(j.conn, srv, p, w, pin, counts).0))
  {
    var d := Admitted(j.conn, srv, p, w, pin, counts).0;
    if d.phase.Replying? {
      assert j.inFlight + [d.phase.frame] == [d.phase.frame];
    }
  }

  lemma PrepareKeeps(srv: Server, j: Joint, r: Result<Prepare>, w: World, counts: Counts)
    requires InStep(j) && j.conn.phase.Idle? && (r.Ok? ==> j.asked == Some(r.value))
    ensures InStep(AfterStep(j, srv, ServerActs(GetPrepare(r, w), counts)))
  {
    var d := AfterGetPrepare(j.conn, srv, r, w, counts).0;
    NothingNew(j.conn, d, j.inFlight);
    if r.Ok? && ValidPrepare(r.value) && Pin(srv, r.value, w).Ok? {
      PinIsOffered(srv, r.value, w);
      AdmissionKeeps(srv, j, r.value, w, Pin(srv, r.value, w).value, counts);
    }
  }

  lemma WriteKeeps(srv: Server, j: Joint, ok: bool, counts: Counts)
    requires InStep(j)
    ensures InStep(AfterStep(j, srv, ServerActs(Write(ok), counts)))
  {
    match j.conn.phase
    case Offering(_, _) => OfferKeeps(srv, j, ok, counts);
    case Replying(_) => ReplyKeeps(srv, j, ok, counts);
    case _ => NothingNew(j.conn, j.conn, j.inFlight);
  }

  lemma OfferKeeps(srv: Server, j: Joint, ok: bool, counts: Counts)
    requires InStep(j) && j.conn.phase.Offering?
    ensures InStep(AfterStep(j, srv, ServerActs(Write(ok), counts)))
  {
    var d := AfterWrite(j.conn, ok, counts).0;
    if d.phase.Done? {
      NothingNew(j.conn, d, j.inFlight);
    } else {
      OneNew(j.conn, d, Offer(OfferOf(j.conn.phase.id, j.conn.phase.pin)), j.inFlight);
    }
  }

  lemma ReplyKeeps(srv: Server, j: Joint, ok: bool, counts: Counts)
    requires InStep(j) && j.conn.phase.Replying?
    ensures InStep(AfterStep(j, srv, ServerActs(Write(ok), counts)))
  {
    var d := AfterWrite(j.conn, ok, counts).0;
    if ok {
      OneNew(j.conn, d, j.conn.phase.frame, j.inFlight);
    } else {
      NothingNew(j.conn, d, j.inFlight);
      Shorter(j.client, j.inFlight, j.conn.phase.frame);
    }
  }

  lemma Shorter(client: State, frames: seq<Frame>, last: Frame)
    requires Deliverable(client, frames + [last])
    ensures Deliverable(client, frames)
  {
    if frames != [] {
      assert (frames + [last])[0] == frames[0];
    }
  }

  lemma CallKeeps(srv: Server, j: Joint, r: Result<Call>, w: World, counts: Counts)
    requires InStep(j) && j.conn.phase.AwaitingCall? && ValidId(j.conn.phase.id) && (r.Ok? ==> j.called == Some(r.value))
    ensures InStep(AfterStep(j, srv, ServerActs(GetCall(r, w), counts)))
  {
    var d := AfterGetCall(j.conn, srv, r, w);
    NothingNew(j.conn, d, j.inFlight);
    if d.phase.Replying? {
      assert j.inFlight + [d.phase.frame] == if j.inFlight == [] then [d.phase.frame] else [j.inFlight[0], d.phase.frame];
    }
  }

  lemma RecheckKeeps(srv: Server, j: Joint, w: World, counts: Counts)
    requires InStep(j) && j.conn.phase.Verified? && j.conn.phase.pin.operation.Readiness?
    requires MatchesCall(j.conn.phase.id, j.conn.phase.pin, j.conn.phase.call)
    ensures InStep(AfterStep(j, srv, ServerActs(Recheck(w), counts)))
  {
    var d := AfterRecheck(j.conn, srv, w);
    NothingNew(j.conn, d, j.inFlight);
    assert j.inFlight + [d.phase.frame] == [d.phase.frame];
  }

  lemma ServerKeeps(srv: Server, j: Joint, action: Action, counts: Counts)
    requires Together(srv, j) && Possible(j, ServerActs(action, counts))
    ensures Together(srv, AfterStep(j, srv, ServerActs(action, counts)))
  {
    StepKeepsSound(srv, j.conn, action, counts);
    var d := Next(j.conn, srv, action, counts).0;
    if d == j.conn {
      NothingNew(j.conn, d, j.inFlight);
    } else {
      match action
      case GetPrepare(r, w) => PrepareKeeps(srv, j, r, w, counts);
      case Write(ok) => WriteKeeps(srv, j, ok, counts);
      case GetCall(r, w) => CallKeeps(srv, j, r, w, counts);
      case Recheck(w) => RecheckKeeps(srv, j, w, counts);
      case Abort => AbortKeeps(srv, j, counts);
    }
  }

  lemma AbortKeeps(srv: Server, j: Joint, counts: Counts)
    requires InStep(j)
    ensures InStep(AfterStep(j, srv, ServerActs(Abort, counts)))
  {
    NothingNew(j.conn, Next(j.conn, srv, Abort, counts).0, j.inFlight);
    if j.conn.phase.Replying? {
      Shorter(j.client, j.inFlight, j.conn.phase.frame);
    }
  }

  lemma StepKeepsTogether(srv: Server, j: Joint, step: JointStep)
    requires Together(srv, j) && Possible(j, step)
    ensures Together(srv, AfterStep(j, srv, step))
  {
    match step
    case ServerActs(action, counts) => ServerKeeps(srv, j, action, counts);
    case _ => ClientKeeps(srv, j, step);
  }

  lemma StartsTogether(srv: Server)
    ensures Together(srv, START)
  {
  }

  lemma {:induction false} AlwaysTogether(srv: Server, steps: seq<JointStep>, js: seq<Joint>, k: nat)
    requires IsRun(srv, steps, js) && k <= |steps|
    ensures Together(srv, js[k])
    decreases k
  {
    if k == 0 {
      StartsTogether(srv);
    } else {
      AlwaysTogether(srv, steps, js, k - 1);
      assert Turned(srv, steps, js, k - 1);
      StepKeepsTogether(srv, js[k - 1], steps[k - 1]);
    }
  }

  /** In every run of a connection with a client that follows the sequence, whenever the client reads a
      frame it accepts it; and when the frame is a success, it answers the client's own call. */
  lemma {:induction false} EveryFrameIsAccepted(srv: Server, steps: seq<JointStep>, js: seq<Joint>, k: nat)
    requires IsRun(srv, steps, js) && k <= |steps| && js[k].inFlight != []
    ensures var j := js[k];
      && Reading(j.client, j.inFlight[0]).1
      && (j.inFlight[0].Reply? ==> j.called.Some? && Answer(j.inFlight[0].s, j.called.value).Ok?)
  {
    AlwaysTogether(srv, steps, js, k);
    ReadIsAccepted(js[k]);
  }
}
