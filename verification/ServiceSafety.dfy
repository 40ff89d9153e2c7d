/** What holds over every run of the server: permits are conserved, and a success is sent exactly after
    three passed checks of one pinned right. */
module ServiceSafety {
  import opened Authority
  import opened Bounds
  import opened Service
  import opened Wire
  import opened Wrappers

  // ---- One connection, whatever happens to the file, the clock and the table

  /** The pin answers the admitted request, and passed every check recorded so far. */
  ghost predicate Matches(srv: Server, c: Conn, id: string, pin: Pinned) {
    && c.request.Some? && ValidId(id) && id == c.request.value.id
    && pin.principal.sha256 == srv.digest(c.request.value.credential)
    && pin.resource.alias == c.request.value.resource
    && pin.operation == c.request.value.operation == Readiness
    && forall i | 0 <= i < |c.checks| :: Passes(srv, c.checks[i], pin)
  }

  ghost predicate MatchesCall(id: string, pin: Pinned, call: Call) {
    call.id == id && call.args.Kind() == pin.operation && call.binding == pin.Binding() && ValidCall(call)
  }

  ghost predicate Offered1(c: Conn, id: string, pin: Pinned) {
    c.sent == [Offer(OfferOf(id, pin))]
  }

  /** The offer a success belongs to. */
  function OfferBehind(s: Success): Frame {
    Offer(Prepared(s.id, s.operation, s.binding))
  }

  ghost predicate RefusalFits(c: Conn, f: Failure) {
    c.request.Some? && ValidId(f.id) && f.id == c.request.value.id
  }

  /** The last frame of a connection: a success, or a refusal of the request. */
  ghost predicate LastFrame(c: Conn, frame: Frame) {
    match frame
    case Offer(_) => false
    case Reply(_) => true
    case Refusal(f) => RefusalFits(c, f)
  }

  ghost predicate Ended(c: Conn) {
    && |c.sent| <= 2
    && (|c.sent| == 2 ==> c.sent[0].Offer? && LastFrame(c, c.sent[1]))
    && (|c.sent| == 1 && c.sent[0].Refusal? ==> LastFrame(c, c.sent[0]))
    && (|c.sent| == 1 ==> !c.sent[0].Reply?)
  }

  ghost predicate Sound(srv: Server, c: Conn) {
    match c.phase
    case Idle => c == FIRST
    case Offering(id, pin) => c.sent == [] && |c.checks| == 1 && Matches(srv, c, id, pin) && c.permit == Some(pin.principal.id)
    case AwaitingCall(id, pin) => Offered1(c, id, pin) && |c.checks| == 1 && Matches(srv, c, id, pin)
    case Verified(id, pin, call) =>
      Offered1(c, id, pin) && |c.checks| == 2 && Matches(srv, c, id, pin) && MatchesCall(id, pin, call)
    case Replying(frame) =>
      && LastFrame(c, frame)
      && |c.sent| <= 1 && (|c.sent| == 1 ==> c.sent[0].Offer?) && (frame.Reply? ==> c.sent == [OfferBehind(frame.s)])
    case Done => c.permit.None? && Ended(c)
  }

  lemma AdmittedIsSound(srv: Server, p: Prepare, w: World, pin: Pinned, counts: Counts)
    requires ValidPrepare(p) && Passes(srv, w, pin) && pin.principal.sha256 == srv.digest(p.credential)
    requires pin.resource.alias == p.resource && pin.operation == p.operation
    ensures Sound(srv, Admitted(FIRST, srv, p, w, pin, counts).0)
  {
  }

  lemma PrepareKeepsSound(srv: Server, c: Conn, r: Result<Prepare>, w: World, counts: Counts)
    requires Sound(srv, c) && c.phase.Idle?
    ensures Sound(srv, AfterGetPrepare(c, srv, r, w, counts).0)
  {
    if r.Ok? && ValidPrepare(r.value) {
      match Pin(srv, r.value, w)
      case Err(_) =>
      case Ok(pin) =>
        PinPasses(srv, r.value, w);
        AdmittedIsSound(srv, r.value, w, pin, counts);
    }
  }

  lemma WriteKeepsSound(srv: Server, c: Conn, ok: bool, counts: Counts)
    requires Sound(srv, c)
    ensures Sound(srv, AfterWrite(c, ok, counts).0)
  {
  }

  lemma VerifiedIsSound(srv: Server, c: Conn, call: Call, w: World)
    requires Sound(srv, c) && c.phase.AwaitingCall? && MatchesCall(c.phase.id, c.phase.pin, call) && Passes(srv, w, c.phase.pin)
    ensures Sound(srv, c.(phase := Verified(c.phase.id, c.phase.pin, call), checks := c.checks + [w]))
  {
  }

  lemma CallKeepsSound(srv: Server, c: Conn, r: Result<Call>, w: World)
    requires Sound(srv, c) && c.phase.AwaitingCall?
    ensures Sound(srv, AfterGetCall(c, srv, r, w))
  {
    if Verify(srv, c.phase.id, c.phase.pin, r, w).Ok? {
      VerifiedCall(srv, c.phase.id, c.phase.pin, r, w);
      VerifiedIsSound(srv, c, r.value, w);
    }
  }

  lemma RecheckKeepsSound(srv: Server, c: Conn, w: World)
    requires Sound(srv, c) && c.phase.Verified?
    ensures Sound(srv, AfterRecheck(c, srv, w))
  {
  }

  lemma StepKeepsSound(srv: Server, c: Conn, e: Action, counts: Counts)
    requires Sound(srv, c)
    ensures Sound(srv, Next(c, srv, e, counts).0)
  {
    match e
    case GetPrepare(r, w) => if c.phase.Idle? { PrepareKeepsSound(srv, c, r, w, counts); }
    case Write(ok) => WriteKeepsSound(srv, c, ok, counts);
    case GetCall(r, w) => if c.phase.AwaitingCall? { CallKeepsSound(srv, c, r, w); }
    case Recheck(w) => if c.phase.Verified? { RecheckKeepsSound(srv, c, w); }
    case Abort =>
  }

  /** A run of one connection: what happens next, and the table as the other connections left it. */
  datatype Turn = Turn(action: Action, counts: Counts)

  function ConnAt(srv: Server, ts: seq<Turn>, k: nat): Conn
    requires k <= |ts|
    decreases k
  {
    if k == 0 then FIRST else Next(ConnAt(srv, ts, k - 1), srv, ts[k - 1].action, ts[k - 1].counts).0
  }

  lemma {:induction false} AlwaysSound(srv: Server, ts: seq<Turn>, k: nat)
    requires k <= |ts|
    ensures Sound(srv, ConnAt(srv, ts, k))
    decreases k
  {
    if k > 0 {
      AlwaysSound(srv, ts, k - 1);
      StepKeepsSound(srv, ConnAt(srv, ts, k - 1), ts[k - 1].action, ts[k - 1].counts);
    }
  }

  // ---- What a success means

  /** The connection came into its phase at a step of its own. */
  lemma {:induction false} Entered(srv: Server, ts: seq<Turn>, k: nat, p: Phase) returns (i: nat)
    requires k <= |ts| && ConnAt(srv, ts, k).phase == p && !p.Idle?
    ensures i < k && Enters(srv, ConnAt(srv, ts, i), ts[i], p)
    decreases k
  {
    assert k > 0;
    if ConnAt(srv, ts, k - 1).phase == p {
      i := Entered(srv, ts, k - 1, p);
    } else {
      i := k - 1;
      AlwaysSound(srv, ts, i);
      assert ConnAt(srv, ts, k) == Next(ConnAt(srv, ts, i), srv, ts[i].action, ts[i].counts).0;
    }
  }

  ghost predicate Enters(srv: Server, c: Conn, t: Turn, p: Phase) {
    Sound(srv, c) && c.phase != p && Next(c, srv, t.action, t.counts).0.phase == p
  }

  /** The pin answers the request. */
  ghost predicate PinnedFor(srv: Server, p: Prepare, pin: Pinned) {
    && pin.principal.sha256 == srv.digest(p.credential) && pin.resource.alias == p.resource
    && pin.operation == p.operation == Readiness
  }

  lemma IntoOffering(srv: Server, c: Conn, t: Turn, id: string, pin: Pinned)
    requires Enters(srv, c, t, Offering(id, pin))
    ensures t.action.GetPrepare? && t.action.prepare.Ok?
    ensures var p := t.action.prepare.value;
      p.id == id && ValidPrepare(p) && PinnedFor(srv, p, pin) && Passes(srv, t.action.world, pin)
  {
    PinPasses(srv, t.action.prepare.value, t.action.world);
  }

  lemma IntoAwaitingCall(srv: Server, c: Conn, t: Turn, id: string, pin: Pinned)
    requires Enters(srv, c, t, AwaitingCall(id, pin))
    ensures t.action == Write(true) && c.phase == Offering(id, pin)
  {
  }

  lemma IntoVerified(srv: Server, c: Conn, t: Turn, id: string, pin: Pinned, call: Call)
    requires Enters(srv, c, t, Verified(id, pin, call))
    ensures t.action.GetCall? && t.action.call == Ok(call) && c.phase == AwaitingCall(id, pin)
    ensures MatchesCall(id, pin, call) && Passes(srv, t.action.world, pin)
  {
    VerifiedCall(srv, id, pin, t.action.call, t.action.world);
  }

  lemma VerifiedCall(srv: Server, id: string, pin: Pinned, r: Result<Call>, w: World)
    requires Verify(srv, id, pin, r, w).Ok?
    ensures r == Verify(srv, id, pin, r, w) && MatchesCall(id, pin, r.value) && Passes(srv, w, pin)
  {
    CallDecided(r.value);
    RecertifyPasses(srv, pin, w);
  }

  lemma IntoReplying(srv: Server, c: Conn, t: Turn, f: Success)
    requires Enters(srv, c, t, Replying(Reply(f)))
    ensures t.action.Recheck? && c.phase.Verified? && f == AnswerTo(c.phase.call, c.phase.pin)
    ensures Passes(srv, t.action.world, c.phase.pin)
  {
    RecertifyPasses(srv, c.phase.pin, t.action.world);
  }

  /** A success on the wire was written as it was replied, behind the offer. */
  lemma {:induction false} ReplyWritten(srv: Server, ts: seq<Turn>, k: nat, i: nat) returns (m: nat)
    requires k <= |ts| && i < |ConnAt(srv, ts, k).sent| && ConnAt(srv, ts, k).sent[i].Reply?
    ensures m < k && ts[m].action == Write(true)
    ensures ConnAt(srv, ts, m).phase.Replying? && ConnAt(srv, ts, m).phase.frame.Reply?
    ensures var frame := ConnAt(srv, ts, m).phase.frame; ConnAt(srv, ts, k).sent == [OfferBehind(frame.s), frame]
    decreases k
  {
    var c := ConnAt(srv, ts, k - 1);
    AlwaysSound(srv, ts, k - 1);
    TurnsTo(srv, ts, k - 1);
    if c.sent == ConnAt(srv, ts, k).sent {
      m := ReplyWritten(srv, ts, k - 1, i);
    } else {
      m := k - 1;
      WritesReply(srv, c, ts[m], i);
    }
  }

  lemma WritesReply(srv: Server, c: Conn, t: Turn, i: nat)
    requires var d := Next(c, srv, t.action, t.counts).0; Sound(srv, c) && d.sent != c.sent && i < |d.sent| && d.sent[i].Reply?
    ensures var d := Next(c, srv, t.action, t.counts).0;
      t.action == Write(true) && c.phase.Replying? && c.phase.frame.Reply? && d.sent == [OfferBehind(c.phase.frame.s), c.phase.frame]
  {
  }

  /** A whole successful call: the request, the right pinned for it, the call, and the moments of the three checks. */
  datatype Round = Round(p: Prepare, pin: Pinned, call: Call, first: World, second: World, last: World)

  /** Its steps in a run. */
  datatype Steps = Steps(asked: nat, offered: nat, called: nat, released: nat, replied: nat)

  /** The right was pinned for the request, the call fits the offer, and the authority granted the right at all three checks. */
  ghost predicate Authorised(srv: Server, r: Round) {
    && ValidPrepare(r.p) && PinnedFor(srv, r.p, r.pin) && MatchesCall(r.p.id, r.pin, r.call)
    && forall w: World | w == r.first || w == r.second || w == r.last :: Passes(srv, w, r.pin)
  }

  /** The frames of such a call: the offer and the success, both with the ids and generations of the pin's principal
      and resource. */
  function ServedFrames(r: Round): seq<Frame> {
    var binding := Wire.Binding(r.pin.principal.id, r.pin.principal.generation, r.pin.resource.id, r.pin.resource.generation);
    [Offer(Prepared(r.p.id, Readiness, binding)), Reply(Success(r.p.id, Readiness, binding, Configured))]
  }

  /** At that moment some grant of the file read names the pin's principal, resource and operation, is enabled
      and has not expired. */
  ghost predicate GrantedAt(w: World, pin: Pinned) {
    && w.file.Some? && w.clock.Some?
    && exists g: Grant :: g in w.file.value.grants && g.principal == pin.principal.id && g.resource == pin.resource.id
                          && g.operation == pin.operation && g.enabled && g.expires > w.clock.value
  }

  lemma AuthorisedIsGranted(srv: Server, r: Round)
    requires Authorised(srv, r)
    ensures GrantedAt(r.first, r.pin) && GrantedAt(r.second, r.pin) && GrantedAt(r.last, r.pin)
  {
    assert Passes(srv, r.first, r.pin) && Passes(srv, r.second, r.pin) && Passes(srv, r.last, r.pin);
  }

  lemma FramesOf(srv: Server, r: Round)
    requires Authorised(srv, r)
    ensures ServedFrames(r) == [OfferBehind(AnswerTo(r.call, r.pin)), Reply(AnswerTo(r.call, r.pin))]
         == [Offer(OfferOf(r.p.id, r.pin)), Reply(AnswerTo(r.call, r.pin))]
  {
  }

  ghost predicate TakenBy(ts: seq<Turn>, r: Round, at: Steps) {
    && at.asked < at.offered < at.called < at.released < at.replied < |ts|
    && ts[at.asked].action == GetPrepare(Ok(r.p), r.first) && ts[at.offered].action == Write(true)
    && ts[at.called].action == GetCall(Ok(r.call), r.second) && ts[at.released].action == Recheck(r.last)
    && ts[at.replied].action == Write(true)
  }

  // The steps before each phase, as far as they are known from it.

  lemma {:induction false} PinnedBefore(srv: Server, ts: seq<Turn>, k: nat, id: string, pin: Pinned) returns (h: nat, p: Prepare, w: World)
    requires k <= |ts| && ConnAt(srv, ts, k).phase == Offering(id, pin)
    ensures h < k && ts[h].action == GetPrepare(Ok(p), w)
    ensures p.id == id && ValidPrepare(p) && PinnedFor(srv, p, pin) && Passes(srv, w, pin)
  {
    h := Entered(srv, ts, k, Offering(id, pin));
    IntoOffering(srv, ConnAt(srv, ts, h), ts[h], id, pin);
    p, w := ts[h].action.prepare.value, ts[h].action.world;
  }

  lemma {:induction false} OfferedBefore(srv: Server, ts: seq<Turn>, k: nat, id: string, pin: Pinned) returns (h: nat, g: nat, p: Prepare, w: World)
    requires k <= |ts| && ConnAt(srv, ts, k).phase == AwaitingCall(id, pin)
    ensures h < g < k && ts[h].action == GetPrepare(Ok(p), w) && ts[g].action == Write(true)
    ensures p.id == id && ValidPrepare(p) && PinnedFor(srv, p, pin) && Passes(srv, w, pin)
  {
    g := Entered(srv, ts, k, AwaitingCall(id, pin));
    IntoAwaitingCall(srv, ConnAt(srv, ts, g), ts[g], id, pin);
    h, p, w := PinnedBefore(srv, ts, g, id, pin);
  }

  lemma {:induction false} CalledBefore(srv: Server, ts: seq<Turn>, k: nat, id: string, pin: Pinned, call: Call)
    returns (h: nat, g: nat, j: nat, p: Prepare, w: World, v: World)
    requires k <= |ts| && ConnAt(srv, ts, k).phase == Verified(id, pin, call)
    ensures h < g < j < k && ts[h].action == GetPrepare(Ok(p), w) && ts[g].action == Write(true)
    ensures p.id == id && ValidPrepare(p) && PinnedFor(srv, p, pin) && Passes(srv, w, pin)
    ensures ts[j].action == GetCall(Ok(call), v) && MatchesCall(id, pin, call) && Passes(srv, v, pin)
  {
    j := Entered(srv, ts, k, Verified(id, pin, call));
    IntoVerified(srv, ConnAt(srv, ts, j), ts[j], id, pin, call);
    v := ts[j].action.world;
    h, g, p, w := OfferedBefore(srv, ts, j, id, pin);
  }

  lemma {:induction false} ReleasedBefore(srv: Server, ts: seq<Turn>, m: nat, f: Success) returns (r: Round, at: Steps)
    requires m < |ts| && ConnAt(srv, ts, m).phase == Replying(Reply(f)) && ts[m].action == Write(true)
    ensures Authorised(srv, r) && TakenBy(ts, r, at) && f == AnswerTo(r.call, r.pin)
  {
    var l, c := RecheckBefore(srv, ts, m, f);
    var h, g, j, p, w, v := CalledBefore(srv, ts, l, c.phase.id, c.phase.pin, c.phase.call);
    r := Round(p, c.phase.pin, c.phase.call, w, v, ts[l].action.world);
    at := Steps(h, g, j, l, m);
  }

  lemma {:induction false} RecheckBefore(srv: Server, ts: seq<Turn>, k: nat, f: Success) returns (l: nat, c: Conn)
    requires k <= |ts| && ConnAt(srv, ts, k).phase == Replying(Reply(f))
    ensures l < k && c == ConnAt(srv, ts, l) && ts[l].action.Recheck? && c.phase.Verified?
    ensures f == AnswerTo(c.phase.call, c.phase.pin) && Passes(srv, ts[l].action.world, c.phase.pin)
  {
    l := Entered(srv, ts, k, Replying(Reply(f)));
    c := ConnAt(srv, ts, l);
    IntoReplying(srv, c, ts[l], f);
  }

  /** With the authority file, the clock and the table changing arbitrarily between the steps, a success is
      sent at most once, as the last frame after the pinned right's offer, and only if the run holds a whole
      successful call: the file read at each of the three checks defined the enrolled identities and granted the
      one right pinned for the request, enabled and unexpired. */
  lemma {:induction false} SuccessWasAuthorised(srv: Server, ts: seq<Turn>, i: nat)
    requires var c := ConnAt(srv, ts, |ts|); i < |c.sent| && c.sent[i].Reply?
    ensures exists r, at ::
      && Authorised(srv, r) && TakenBy(ts, r, at) && ConnAt(srv, ts, |ts|).sent == ServedFrames(r)
      && GrantedAt(r.first, r.pin) && GrantedAt(r.second, r.pin) && GrantedAt(r.last, r.pin)
  {
    var m := ReplyWritten(srv, ts, |ts|, i);
    var r, at := ReleasedBefore(srv, ts, m, ConnAt(srv, ts, m).phase.frame.s);
    assert Authorised(srv, r) && TakenBy(ts, r, at);
    FramesOf(srv, r);
    AuthorisedIsGranted(srv, r);
  }

  lemma OffersPinned(srv: Server, p: Prepare, pin: Pinned, w: World, counts: Counts)
    requires ValidPrepare(p) && PinnedFor(srv, p, pin) && Passes(srv, w, pin) && Taken(counts, pin.principal.id).Ok?
    ensures Next(FIRST, srv, GetPrepare(Ok(p), w), counts).0 == Conn(Offering(p.id, pin), Some(pin.principal.id), [], Some(p), [w])
  {
    PinPasses(srv, p, w);
  }

  lemma WritesOffer(srv: Server, c: Conn, id: string, pin: Pinned, w: World, counts: Counts)
    requires c.phase == Offering(id, pin) && c.sent == [] && ValidId(id) && Passes(srv, w, pin)
    ensures var d := Next(c, srv, Write(true), counts).0; d.phase == AwaitingCall(id, pin) && d.sent == [Offer(OfferOf(id, pin))]
  {
    PassingPinIsValid(srv, pin, w);
  }

  lemma VerifySucceeds(srv: Server, id: string, pin: Pinned, call: Call, w: World)
    requires MatchesCall(id, pin, call) && pin.operation.Readiness? && Passes(srv, w, pin)
    ensures Verify(srv, id, pin, Ok(call), w) == Ok(call)
  {
    CallDecided(call);
    RecertifyPasses(srv, pin, w);
  }

  lemma VerifiesCall(srv: Server, c: Conn, id: string, pin: Pinned, call: Call, w: World, counts: Counts)
    requires c.phase == AwaitingCall(id, pin) && Verify(srv, id, pin, Ok(call), w) == Ok(call)
    ensures var d := Next(c, srv, GetCall(Ok(call), w), counts).0; d.phase == Verified(id, pin, call) && d.sent == c.sent
  {
  }

  lemma Replies(srv: Server, c: Conn, w: World, counts: Counts)
    requires c.phase.Verified? && Passes(srv, w, c.phase.pin)
    ensures var d := Next(c, srv, Recheck(w), counts).0;
      d.phase == Replying(Reply(AnswerTo(c.phase.call, c.phase.pin))) && d.sent == c.sent
  {
    RecertifyPasses(srv, c.phase.pin, w);
  }

  lemma TurnsTo(srv: Server, ts: seq<Turn>, k: nat)
    requires k < |ts|
    ensures ConnAt(srv, ts, k + 1) == Next(ConnAt(srv, ts, k), srv, ts[k].action, ts[k].counts).0
  {
  }

  lemma WritesReplied(srv: Server, c: Conn, frame: Frame, counts: Counts)
    requires c.phase == Replying(frame)
    ensures Next(c, srv, Write(true), counts).0.sent == c.sent + [frame]
  {
  }

  /** The connection is `c` after `k` steps; behind a quantifier, so that a proof unfolds only the step it is about. */
  ghost predicate Reached(srv: Server, ts: seq<Turn>, k: nat, c: Conn) {
    k <= |ts| && forall m: nat | k <= m <= k :: ConnAt(srv, ts, m) == c
  }

  lemma {:induction false} ReachedNext(srv: Server, ts: seq<Turn>, k: nat, next: nat, b: Conn, e: Action) returns (c: Conn)
    requires next == k + 1 <= |ts| && Reached(srv, ts, k, b) && ts[k].action == e
    ensures Reached(srv, ts, next, c) && c == Next(b, srv, e, ts[k].counts).0
  {
    TurnsTo(srv, ts, k);
    c := ConnAt(srv, ts, next);
    assert ConnAt(srv, ts, k) == b;
  }

  /** The steps of the call are those from `k` on, at a new connection. */
  ghost predicate AuthorisedFrom(srv: Server, ts: seq<Turn>, r: Round, k: nat) {
    && Authorised(srv, r) && TakenBy(ts, r, Steps(k, k + 1, k + 2, k + 3, k + 4))
    && Reached(srv, ts, k, FIRST) && Taken(ts[k].counts, r.pin.principal.id).Ok?
  }

  lemma {:induction false} PinnedFrom(srv: Server, ts: seq<Turn>, r: Round, k: nat) returns (c: Conn)
    requires AuthorisedFrom(srv, ts, r, k)
    ensures Reached(srv, ts, k + 1, c) && c.phase == Offering(r.p.id, r.pin) && c.sent == []
  {
    c := ReachedNext(srv, ts, k, k + 1, FIRST, GetPrepare(Ok(r.p), r.first));
    OffersPinned(srv, r.p, r.pin, r.first, ts[k].counts);
  }

  lemma {:induction false} OfferedFrom(srv: Server, ts: seq<Turn>, r: Round, k: nat) returns (c: Conn)
    requires AuthorisedFrom(srv, ts, r, k)
    ensures Reached(srv, ts, k + 2, c) && c.phase == AwaitingCall(r.p.id, r.pin) && c.sent == [Offer(OfferOf(r.p.id, r.pin))]
  {
    var b := PinnedFrom(srv, ts, r, k);
    c := ReachedNext(srv, ts, k + 1, k + 2, b, Write(true));
    WritesOffer(srv, b, r.p.id, r.pin, r.first, ts[k + 1].counts);
  }

  lemma {:induction false} VerifiedFrom(srv: Server, ts: seq<Turn>, r: Round, k: nat) returns (c: Conn)
    requires AuthorisedFrom(srv, ts, r, k)
    ensures Reached(srv, ts, k + 3, c) && c.phase == Verified(r.p.id, r.pin, r.call) && c.sent == [Offer(OfferOf(r.p.id, r.pin))]
  {
    var b := OfferedFrom(srv, ts, r, k);
    c := ReachedNext(srv, ts, k + 2, k + 3, b, GetCall(Ok(r.call), r.second));
    VerifySucceeds(srv, r.p.id, r.pin, r.call, r.second);
    VerifiesCall(srv, b, r.p.id, r.pin, r.call, r.second, ts[k + 2].counts);
  }

  lemma {:induction false} ReleasedFrom(srv: Server, ts: seq<Turn>, r: Round, k: nat) returns (c: Conn)
    requires AuthorisedFrom(srv, ts, r, k)
    ensures Reached(srv, ts, k + 4, c) && c.phase == Replying(Reply(AnswerTo(r.call, r.pin)))
    ensures c.sent == [Offer(OfferOf(r.p.id, r.pin))]
  {
    var b := VerifiedFrom(srv, ts, r, k);
    c := ReachedNext(srv, ts, k + 3, k + 4, b, Recheck(r.last));
    Replies(srv, b, r.last, ts[k + 3].counts);
  }

  lemma {:induction false} RepliedFrom(srv: Server, ts: seq<Turn>, r: Round, k: nat) returns (c: Conn)
    requires AuthorisedFrom(srv, ts, r, k)
    ensures Reached(srv, ts, k + 5, c) && c.sent == [Offer(OfferOf(r.p.id, r.pin)), Reply(AnswerTo(r.call, r.pin))]
  {
    var b := ReleasedFrom(srv, ts, r, k);
    c := ReachedNext(srv, ts, k + 4, k + 5, b, Write(true));
    WritesReplied(srv, b, b.phase.frame, ts[k + 4].counts);
  }

  /** Conversely: such a call, from a new connection on, succeeds whenever a permit is free at its start,
      whatever the table holds in between. */
  lemma {:induction false} AuthorisedCallSucceeds(srv: Server, ts: seq<Turn>, r: Round, k: nat)
    requires Authorised(srv, r) && TakenBy(ts, r, Steps(k, k + 1, k + 2, k + 3, k + 4))
    requires ConnAt(srv, ts, k) == FIRST
    requires r.pin.principal.id in ts[k].counts ==> ts[k].counts[r.pin.principal.id] < 2
    ensures ConnAt(srv, ts, k + 5).sent == ServedFrames(r)
  {
    assert Reached(srv, ts, k, FIRST);
    FramesOf(srv, r);
    var c := RepliedFrom(srv, ts, r, k);
    assert Reached(srv, ts, k + 5, c);
  }

  /** The check of definitions inside `Revalidate` never fails: reading the file has already refused every
      changed definition, so at both later checks only the grant can be missing. */
  lemma {:induction false} RevalidateNeverFindsChange(srv: Server, ts: seq<Turn>, w: World)
    requires var c := ConnAt(srv, ts, |ts|); c.phase.AwaitingCall? || c.phase.Verified?
    requires ReadAuthority(srv, w).Ok? && w.clock.Some?
    requires forall a: World :: a in ConnAt(srv, ts, |ts|).checks && a.file.Some? ==>
      NoCollision(a.file.value, w.file.value, srv.fingerprint)
    ensures var pin := ConnAt(srv, ts, |ts|).phase.pin;
      Revalidate(w.file.value, pin, w.clock.value)
        == if LiveGrant(w.file.value, pin, w.clock.value) then Ok(()) else Err(Unauthorized)
  {
    var c := ConnAt(srv, ts, |ts|);
    AlwaysSound(srv, ts, |ts|);
    assert Passes(srv, c.checks[0], c.phase.pin) && c.checks[0] in c.checks;
    CheckedIsWf(w.file.value);
    RevalidationOnlyChecksGrants(c.checks[0].file.value, w.file.value, srv.fingerprint, c.phase.pin, w.clock.value);
  }

  // ---- What a refusal means

  /** Why the step `t` refuses with `f`: the operation is not served or the principal's calls are at their cap,
      or a check of the call or of the release fails with that code. */
  ghost predicate Cause(srv: Server, c: Conn, t: Turn, f: Failure) {
    match t.action
    case GetPrepare(Ok(p), w) =>
      && f.id == p.id && Pin(srv, p, w).Ok?
      && (if p.operation.Readiness? then
            f.code == Unavailable && var id := Pin(srv, p, w).value.principal.id; id in t.counts && t.counts[id] >= 2
          else f.code == UnsupportedOperation)
    case GetCall(r, w) =>
      c.phase.AwaitingCall? && f.id == c.phase.id && Verify(srv, c.phase.id, c.phase.pin, r, w) == Err(f.code)
    case Recheck(w) => c.phase.Verified? && f.id == c.phase.id && Recertify(srv, c.phase.pin, w) == Err(f.code)
    case _ => false
  }

  lemma IntoRefusal(srv: Server, c: Conn, t: Turn, f: Failure)
    requires Enters(srv, c, t, Replying(Refusal(f)))
    ensures Cause(srv, c, t, f)
  {
    match t.action
    case GetPrepare(Ok(p), w) => PinPasses(srv, p, w);
    case _ =>
  }

  lemma WritesRefusal(srv: Server, c: Conn, t: Turn, i: nat)
    requires var d := Next(c, srv, t.action, t.counts).0;
      Sound(srv, c) && d.sent != c.sent && i < |d.sent| && d.sent[i].Refusal?
    ensures c.phase == Replying(Next(c, srv, t.action, t.counts).0.sent[i])
  {
  }

  lemma {:induction false} RefusalWritten(srv: Server, ts: seq<Turn>, k: nat, i: nat) returns (m: nat)
    requires k <= |ts| && i < |ConnAt(srv, ts, k).sent| && ConnAt(srv, ts, k).sent[i].Refusal?
    ensures m < k && ConnAt(srv, ts, m).phase == Replying(ConnAt(srv, ts, k).sent[i])
    decreases k
  {
    var c := ConnAt(srv, ts, k - 1);
    AlwaysSound(srv, ts, k - 1);
    TurnsTo(srv, ts, k - 1);
    if c.sent == ConnAt(srv, ts, k).sent {
      m := RefusalWritten(srv, ts, k - 1, i);
    } else {
      m := k - 1;
      WritesRefusal(srv, c, ts[m], i);
    }
  }

  /** In every run, whatever changes between the steps, a refusal on the wire carries the request's id and the code
      of the check that failed. */
  lemma {:induction false} RefusalHadCause(srv: Server, ts: seq<Turn>, i: nat)
    requires var c := ConnAt(srv, ts, |ts|); i < |c.sent| && c.sent[i].Refusal?
    ensures exists k: nat :: k < |ts| && Cause(srv, ConnAt(srv, ts, k), ts[k], ConnAt(srv, ts, |ts|).sent[i].f)
  {
    var f := ConnAt(srv, ts, |ts|).sent[i].f;
    var m := RefusalWritten(srv, ts, |ts|, i);
    var k := Entered(srv, ts, m, Replying(Refusal(f)));
    IntoRefusal(srv, ConnAt(srv, ts, k), ts[k], f);
  }

  // ---- All connections: the permits

  datatype System = System(conns: map<nat, Conn>, counts: Counts)

  datatype Move = Connect(id: nat) | Act(id: nat, action: Action)

  function AfterMove(sys: System, srv: Server, m: Move): System {
    match m
    case Connect(id) => if id in sys.conns then sys else System(sys.conns[id := FIRST], sys.counts)
    case Act(id, action) =>
      if id !in sys.conns then sys
      else
        var r := Next(sys.conns[id], srv, action, sys.counts);
        System(sys.conns[id := r.0], r.1)
  }

  function SystemAt(srv: Server, ms: seq<Move>, k: nat): System
    requires k <= |ms|
    decreases k
  {
    if k == 0 then System(map[], map[]) else AfterMove(SystemAt(srv, ms, k - 1), srv, ms[k - 1])
  }

  /** The connections holding a permit of the principal. */
  function Holders(conns: map<nat, Conn>, principal: string): set<nat> {
    set c | c in conns && conns[c].permit == Some(principal)
  }

  ghost predicate Counted(conns: map<nat, Conn>, counts: Counts, principal: string) {
    && (if principal in counts then counts[principal] else 0) == |Holders(conns, principal)|
    && |Holders(conns, principal)| <= 2
    && (principal in counts ==> counts[principal] > 0)
  }

  ghost predicate Conserved(sys: System) {
    && (forall c | c in sys.conns :: NoneOutside(sys.conns[c]))
    && forall p: string :: Counted(sys.conns, sys.counts, p)
  }

  /** Permit and table are left alone, one permit is taken, or the held one is given back. */
  predicate PermitMove(c: Conn, counts: Counts, d: Conn, more: Counts) {
    || (d.permit == c.permit && more == counts)
    || (c.permit.None? && d.permit.Some? && Taken(counts, d.permit.value) == Ok(more))
    || (d.permit.None? && more == Dropped(counts, c.permit))
  }

  predicate NoneOutside(c: Conn) {
    c.phase.Idle? || c.phase.Done? ==> c.permit.None?
  }

  lemma PrepareMoves(c: Conn, srv: Server, r: Result<Prepare>, w: World, counts: Counts)
    requires NoneOutside(c) && c.phase.Idle?
    ensures var (d, more) := AfterGetPrepare(c, srv, r, w, counts); NoneOutside(d) && PermitMove(c, counts, d, more)
  {
  }

  lemma WriteMoves(c: Conn, ok: bool, counts: Counts)
    requires NoneOutside(c)
    ensures var (d, more) := AfterWrite(c, ok, counts); NoneOutside(d) && PermitMove(c, counts, d, more)
  {
  }

  /** What every step does to a permit; a connection not yet admitted or finished holds none. */
  lemma PermitMoves(c: Conn, srv: Server, e: Action, counts: Counts)
    requires NoneOutside(c)
    ensures var (d, more) := Next(c, srv, e, counts); NoneOutside(d) && PermitMove(c, counts, d, more)
  {
    match e
    case GetPrepare(r, w) => if c.phase.Idle? { PrepareMoves(c, srv, r, w, counts); }
    case Write(ok) => WriteMoves(c, ok, counts);
    case _ =>
  }

  lemma HoldersAfter(conns: map<nat, Conn>, id: nat, d: Conn, p: string)
    requires id in conns
    ensures Holders(conns[id := d], p) == (Holders(conns, p) - {id}) + (if d.permit == Some(p) then {id} else {})
  {
  }

  lemma MoveConserves(sys: System, srv: Server, m: Move)
    requires Conserved(sys)
    ensures Conserved(AfterMove(sys, srv, m))
  {
    var next := AfterMove(sys, srv, m);
    forall p: string
      ensures Counted(next.conns, next.counts, p)
    {
      assert Counted(sys.conns, sys.counts, p);
      match m
      case Connect(id) => assert id !in sys.conns ==> Holders(next.conns, p) == Holders(sys.conns, p);
      case Act(id, action) =>
        if id in sys.conns {
          ActCounts(sys, srv, id, action, p);
        }
    }
    if m.Act? && m.id in sys.conns {
      PermitMoves(sys.conns[m.id], srv, m.action, sys.counts);
    }
  }

  lemma ActCounts(sys: System, srv: Server, id: nat, e: Action, p: string)
    requires Conserved(sys) && id in sys.conns
    ensures var r := Next(sys.conns[id], srv, e, sys.counts); Counted(sys.conns[id := r.0], r.1, p)
  {
    var c := sys.conns[id];
    PermitMoves(c, srv, e, sys.counts);
    var r := Next(c, srv, e, sys.counts);
    assert Counted(sys.conns, sys.counts, p);
    assert c.permit.Some? ==> Counted(sys.conns, sys.counts, c.permit.value);
    MoveCounts(sys.conns, sys.counts, id, r.0, r.1, p);
  }

  /** The three moves of a permit keep the count of each principal. */
  lemma MoveCounts(conns: map<nat, Conn>, counts: Counts, id: nat, d: Conn, more: Counts, p: string)
    requires id in conns && Counted(conns, counts, p)
    requires conns[id].permit.Some? ==> Counted(conns, counts, conns[id].permit.value)
    requires PermitMove(conns[id], counts, d, more)
    ensures Counted(conns[id := d], more, p)
  {
    var before, after := Holders(conns, p), Holders(conns[id := d], p);
    HoldersAfter(conns, id, d, p);
    assert id in before <==> conns[id].permit == Some(p);
    assert |before - {id}| == |before| - (if id in before then 1 else 0);
    assert |after| == |before - {id}| + (if d.permit == Some(p) then 1 else 0);
    assert conns[id].permit.Some? ==> id in Holders(conns, conns[id].permit.value);
  }

  /** In every run the table counts exactly the permits held, never more than two per principal,
      and has no entry for a principal without one; a finished connection holds none. */
  lemma {:induction false} PermitsAreConserved(srv: Server, ms: seq<Move>, k: nat)
    requires k <= |ms|
    ensures Conserved(SystemAt(srv, ms, k))
    decreases k
  {
    if k > 0 {
      PermitsAreConserved(srv, ms, k - 1);
      MoveConserves(SystemAt(srv, ms, k - 1), srv, ms[k - 1]);
    } else {
      assert forall p: string :: Holders(map[], p) == {};
    }
  }
}
