/** The frames of one connection and the checker of their sequence
    (crates/gaze-lens-protocol/src/wire.rs). Frames are typed values. */
module Wire {
  import opened Bounds
  import opened Identities
  import opened Wrappers
  import Requests

  datatype Operation = Query | Schema | ListTables | LogTail | LogWindow | LogRegex | Inspect | Readiness

  datatype Binding = Binding(principal: string, principalGeneration: string, resource: string, resourceGeneration: string)

  datatype Prepare = Prepare(id: string, credential: string, resource: string, operation: Operation)

  datatype Prepared = Prepared(id: string, operation: Operation, binding: Binding)

  datatype View = Host | Packages | Php

  /** The arguments of each operation. */
  datatype Args =
    | QueryArgs(query: Requests.Query)
    | SchemaArgs(table: bytes)
    | ListTablesArgs
    | LogTailArgs(lines: nat)
    | LogWindowArgs
    | LogRegexArgs(pattern: bytes, level: Option<bytes>, limit: nat)
    | InspectArgs(view: View, collector: string, limit: nat, offset: Option<nat>)
    | ReadinessArgs
  {
    function Kind(): Operation {
      match this
      case QueryArgs(_) => Query
      case SchemaArgs(_) => Schema
      case ListTablesArgs => ListTables
      case LogTailArgs(_) => LogTail
      case LogWindowArgs => LogWindow
      case LogRegexArgs(_, _, _) => LogRegex
      case InspectArgs(_, _, _, _) => Inspect
      case ReadinessArgs => Readiness
    }
  }

  /** `size` is the length of the arguments as they are serialised. */
  datatype Call = Call(id: string, binding: Binding, args: Args, size: nat)

  /** The result of an operation; only the one of readiness is spelled out. */
  datatype ResultBody = Configured | Data(source: Operation, body: string) {
    function Kind(): Operation {
      if Configured? then Readiness else source
    }
  }

  datatype Success = Success(id: string, operation: Operation, binding: Binding, result: ResultBody)

  datatype Failure = Failure(id: string, code: Error)

  const BINDING_HEX: nat := 32

  /** The digits and the upper-case letters without I, L, O and U. */
  predicate UlidChar(c: char) {
    '0' <= c <= '9' || ('A' <= c <= 'Z' && c != 'I' && c != 'L' && c != 'O' && c != 'U')
  }

  predicate ValidId(id: string) {
    |id| == 26 && id[0] <= '7' && forall i | 0 <= i < |id| :: UlidChar(id[i])
  }

  predicate AlphaNumeric(c: char) {
    '0' <= c <= '9' || 'a' <= c <= 'z' || 'A' <= c <= 'Z'
  }

  predicate ConfiguredId(text: string) {
    1 <= |text| <= 64 && forall i | 0 <= i < |text| :: AlphaNumeric(text[i]) || text[i] == '_' || text[i] == '-'
  }

  predicate HexDigits(text: string) {
    forall i | 0 <= i < |text| :: '0' <= text[i] <= '9' || 'a' <= text[i] <= 'f' || 'A' <= text[i] <= 'F'
  }

  predicate ValidBinding(b: Binding) {
    && Hex(b.principal, BINDING_HEX) && Hex(b.principalGeneration, BINDING_HEX)
    && Hex(b.resource, BINDING_HEX) && Hex(b.resourceGeneration, BINDING_HEX)
  }

  // What the texts of a frame look like, with their characters listed.

  const CROCKFORD: set<char> :=
    {'0', '1', '2', '3', '4', '5', '6', '7', '8', '9', 'A', 'B', 'C', 'D', 'E', 'F', 'G', 'H', 'J', 'K', 'M', 'N', 'P', 'Q',
     'R', 'S', 'T', 'V', 'W', 'X', 'Y', 'Z'}

  const LOWER_HEX: set<char> := {'0', '1', '2', '3', '4', '5', '6', '7', '8', '9', 'a', 'b', 'c', 'd', 'e', 'f'}

  lemma IdExactly(id: string)
    ensures ValidId(id) <==>
      |id| == 26 && id[0] in {'0', '1', '2', '3', '4', '5', '6', '7'} && forall i | 0 <= i < |id| :: id[i] in CROCKFORD
  {
    forall i | 0 <= i < |id|
      ensures UlidChar(id[i]) <==> id[i] in CROCKFORD
    {
      UlidCharExactly(id[i]);
    }
  }

  lemma UlidCharExactly(c: char)
    ensures UlidChar(c) <==> c in CROCKFORD
  {
  }

  lemma HexExactly(text: string, len: nat)
    ensures Hex(text, len) <==> |text| == len && forall i | 0 <= i < |text| :: text[i] in LOWER_HEX
  {
  }

  lemma BindingExactly(b: Binding)
    ensures ValidBinding(b) <==>
      Hex(b.principal, 32) && Hex(b.principalGeneration, 32) && Hex(b.resource, 32) && Hex(b.resourceGeneration, 32)
  {
  }

  lemma ConfiguredIdExactly(text: string)
    ensures ConfiguredId(text) <==>
      text != [] && |text| < 65 && forall i | 0 <= i < |text| ::
        var c := text[i]; c == '_' || c == '-' || ('0' <= c && c <= '9') || ('A' <= c && c <= 'Z') || ('a' <= c && c <= 'z')
  {
  }

  /** A credential is 64 hexadecimal digits of either case. */
  lemma PrepareExactly(p: Prepare)
    ensures ValidPrepare(p) <==>
      && ValidId(p.id) && ConfiguredId(p.resource) && |p.credential| == 64
      && forall i | 0 <= i < 64 :: p.credential[i] in LOWER_HEX || p.credential[i] in {'A', 'B', 'C', 'D', 'E', 'F'}
  {
  }

  /** What encoding and decoding a frame of each kind demand of it. */
  predicate ValidPrepare(p: Prepare) {
    ValidId(p.id) && ConfiguredId(p.resource) && |p.credential| == 64 && HexDigits(p.credential)
  }

  predicate ValidPrepared(p: Prepared) {
    ValidId(p.id) && ValidBinding(p.binding)
  }

  /** The caps on arguments other than those of a query. */
  const KEYWORD_WINDOW_LINES: nat := 1000
  const MAX_MATCHES: nat := 1000
  const REGEX_BYTES: nat := 4096
  const INVENTORY_RECORDS: nat := 100_000
  const MAX_PACKAGES: nat := 500
  const MAX_PHP: nat := 32

  function CheckInspect(view: View, limit: nat, offset: Option<nat>): Result<()> {
    match view
    case Host => Require(limit == 1 && offset.None?)
    case Php =>
      var _ :- Require(offset.None?);
      Cap(limit, MAX_PHP)
    case Packages =>
      var _ :- Cap(limit, MAX_PACKAGES);
      Cap(if offset.Some? then offset.value else 0, INVENTORY_RECORDS)
  }

  function CheckArgs(args: Args): Result<()> {
    match args
    case QueryArgs(query) => Requests.CheckQuery(query)
    case SchemaArgs(table) => Requests.CheckIdentifier(table)
    case LogTailArgs(lines) =>
      var _ :- Require(lines > 0);
      Cap(lines, KEYWORD_WINDOW_LINES)
    case LogRegexArgs(pattern, level, limit) =>
      var _ :- Require(limit > 0);
      var _ :- Cap(limit, MAX_MATCHES);
      var _ :- Cap(|pattern|, REGEX_BYTES);
      if level.Some? then Cap(|level.value|, SCALAR_BYTES) else Ok(())
    case InspectArgs(view, collector, limit, offset) =>
      var _ :- Require(ConfiguredId(collector));
      var _ :- Require(limit > 0);
      CheckInspect(view, limit, offset)
    case _ => Ok(())
  }

  /** Names and counts are there, and a view takes an offset only if it has pages. */
  predicate ShapedArgs(args: Args) {
    match args
    case QueryArgs(query) => Requests.ShapedQuery(query)
    case SchemaArgs(table) => table != []
    case LogTailArgs(lines) => lines > 0
    case LogRegexArgs(_, _, limit) => limit > 0
    case InspectArgs(view, collector, limit, offset) =>
      && ConfiguredId(collector) && limit > 0
      && (view.Host? ==> limit == 1) && (!view.Packages? ==> offset.None?)
    case _ => true
  }

  /** Every length and count is within its cap. */
  predicate ArgsFit(args: Args) {
    match args
    case QueryArgs(query) => Requests.QueryFits(query)
    case SchemaArgs(table) => |table| <= 256
    case LogTailArgs(lines) => lines <= 1_000
    case LogRegexArgs(pattern, level, limit) =>
      limit <= 1_000 && |pattern| <= 4_096 && (level.Some? ==> |level.value| <= 8_192)
    case InspectArgs(view, _, limit, offset) =>
      && (view.Php? ==> limit <= 32)
      && (view.Packages? ==> limit <= 500 && (offset.Some? ==> offset.value <= 100_000))
    case _ => true
  }

  /** Arguments pass exactly when they are shaped and within the caps; a refusal says truly which they are not. */
  lemma ArgsDecided(args: Args)
    ensures Requests.Decides(CheckArgs(args), ShapedArgs(args), ArgsFit(args))
  {
    match args
    case QueryArgs(query) => Requests.QueryDecided(query);
    case _ =>
  }

  predicate ValidCall(c: Call) {
    ValidId(c.id) && ValidBinding(c.binding) && ShapedArgs(c.args) && ArgsFit(c.args) && c.size <= 65_536
  }

  /** Encoding checks the arguments before their size and the rest. */
  function EncodeCheck(c: Call): Result<()> {
    var _ :- CheckArgs(c.args);
    var _ :- Cap(c.size, REQUEST_BYTES);
    Require(ValidId(c.id) && ValidBinding(c.binding))
  }

  /** Decoding checks them last. */
  function DecodeCheck(c: Call): Result<()> {
    var _ :- Require(ValidId(c.id) && ValidBinding(c.binding));
    var _ :- Cap(c.size, REQUEST_BYTES);
    CheckArgs(c.args)
  }

  /** A peer decodes exactly the calls that can be encoded; only which error comes first may differ. */
  lemma CallDecided(c: Call)
    ensures EncodeCheck(c).Ok? <==> ValidCall(c)
    ensures DecodeCheck(c).Ok? <==> ValidCall(c)
    ensures var shaped := ValidId(c.id) && ValidBinding(c.binding) && ShapedArgs(c.args);
      var fits := ArgsFit(c.args) && c.size <= REQUEST_BYTES;
      Requests.Decides(EncodeCheck(c), shaped, fits) && Requests.Decides(DecodeCheck(c), shaped, fits)
  {
    ArgsDecided(c.args);
  }

  /** A success answers a call: same id, operation and binding, and a result of the operation's kind. */
  function Answer(s: Success, call: Call): Result<Success> {
    if !ValidId(s.id) || !ValidBinding(s.binding) then Err(InvalidRequest)
    else if s.id != call.id || s.operation != call.args.Kind() then Err(InvalidRequest)
    else if s.binding != call.binding then Err(BindingChanged)
    else if s.result.Kind() != call.args.Kind() then Err(InvalidRequest)
    else Ok(s)
  }

  function AnswerFailure(f: Failure, id: string): Result<Failure> {
    if ValidId(f.id) && f.id == id then Ok(f) else Err(InvalidRequest)
  }

  // ---- The sequence

  datatype State =
    | New
    | Preparing(id: string, operation: Operation)
    | Offered(id: string, operation: Operation, binding: Binding)
    | Called(call: Call)
    | Closed

  function AfterPrepare(s: State, p: Prepare): (State, Result<()>) {
    if s.New? && ValidPrepare(p) then (Preparing(p.id, p.operation), Ok(())) else (Closed, Err(InvalidRequest))
  }

  function AfterPrepared(s: State, p: Prepared): (State, Result<()>) {
    if s.Preparing? && ValidPrepared(p) && s.id == p.id && s.operation == p.operation then
      (Offered(p.id, p.operation, p.binding), Ok(()))
    else (Closed, Err(InvalidRequest))
  }

  function AfterCall(s: State, c: Call): (State, Result<()>) {
    if !s.Offered? || c.id != s.id || c.args.Kind() != s.operation then (Closed, Err(InvalidRequest))
    else if c.binding != s.binding then (Closed, Err(BindingChanged))
    else
      match EncodeCheck(c)
      case Err(code) => (Closed, Err(code))
      case Ok(_) => (Called(c), Ok(()))
  }

  function AfterSuccess(s: State, f: Success): (State, Result<Success>) {
    (Closed, if s.Called? then Answer(f, s.call) else Err(InvalidRequest))
  }

  function ExpectedId(s: State): Option<string> {
    match s
    case Preparing(id, _) => Some(id)
    case Offered(id, _, _) => Some(id)
    case Called(c) => Some(c.id)
    case _ => None
  }

  function AfterFailure(s: State, f: Failure): (State, Result<Failure>) {
    (Closed, match ExpectedId(s)
             case Some(id) => AnswerFailure(f, id)
             case None => Err(InvalidRequest))
  }

  /** The state is taken out before every check, so an error leaves the sequence closed. */
  class Sequence {
    var state: State

    constructor ()
      ensures state == New
    {
      state := New;
    }

    method Prepare(p: Prepare) returns (r: Result<()>)
      modifies this
      ensures (state, r) == AfterPrepare(old(state), p)
      ensures r.Ok? <==> old(state) == New && ValidPrepare(p)
      ensures state == if r.Ok? then Preparing(p.id, p.operation) else Closed
    {
      var was := state;
      state := Closed;
      var _ :- Require(was.New?);
      var _ :- Require(ValidPrepare(p));
      state := Preparing(p.id, p.operation);
      r := Ok(());
    }

    method Prepared(p: Prepared) returns (r: Result<()>)
      modifies this
      ensures (state, r) == AfterPrepared(old(state), p)
      ensures r.Ok? <==> old(state) == Preparing(p.id, p.operation) && ValidPrepared(p)
      ensures state == if r.Ok? then Offered(p.id, p.operation, p.binding) else Closed
    {
      var was := state;
      state := Closed;
      if !was.Preparing? {
        return Err(InvalidRequest);
      }
      var _ :- Require(ValidPrepared(p));
      var _ :- Require(was.id == p.id && was.operation == p.operation);
      state := Offered(was.id, was.operation, p.binding);
      r := Ok(());
    }

    method Call(c: Call) returns (r: Result<()>)
      modifies this
      ensures (state, r) == AfterCall(old(state), c)
      ensures r.Ok? <==> old(state) == Offered(c.id, c.args.Kind(), c.binding) && ValidCall(c)
      ensures state == if r.Ok? then Called(c) else Closed
    {
      CallDecided(c);
      var was := state;
      state := Closed;
      if !was.Offered? {
        return Err(InvalidRequest);
      }
      var _ :- Require(c.id == was.id && c.args.Kind() == was.operation);
      if c.binding != was.binding {
        return Err(BindingChanged);
      }
      var _ :- EncodeCheck(c);
      state := Called(c);
      r := Ok(());
    }

    method Success(s: Success) returns (r: Result<Success>)
      modifies this
      ensures (state, r) == AfterSuccess(old(state), s)
      ensures state == Closed && (r.Ok? ==> r.value == s)
      ensures r.Ok? <==>
        && old(state).Called? && ValidId(s.id) && ValidBinding(s.binding)
        && s.id == old(state).call.id && s.operation == s.result.Kind() == old(state).call.args.Kind()
        && s.binding == old(state).call.binding
    {
      var was := state;
      state := Closed;
      if !was.Called? {
        return Err(InvalidRequest);
      }
      r := Answer(s, was.call);
    }

    method Failure(f: Failure) returns (r: Result<Failure>)
      modifies this
      ensures (state, r) == AfterFailure(old(state), f)
      ensures state == Closed && (r.Ok? ==> r.value == f)
      ensures r.Ok? <==> ValidId(f.id) && match old(state)
        case Preparing(id, _) => id == f.id
        case Offered(id, _, _) => id == f.id
        case Called(c) => c.id == f.id
        case _ => false
    {
      var was := state;
      state := Closed;
      match was
      case Preparing(id, _) => r := AnswerFailure(f, id);
      case Offered(id, _, _) => r := AnswerFailure(f, id);
      case Called(c) => r := AnswerFailure(f, c.id);
      case _ => r := Err(InvalidRequest);
    }
  }

  // ---- Whole runs

  datatype Event =
    | DoPrepare(p: Prepare)
    | DoPrepared(o: Prepared)
    | DoCall(c: Call)
    | DoSuccess(s: Success)
    | DoFailure(f: Failure)

  /** The state after an event and whether the event was accepted. */
  function After(s: State, e: Event): (State, bool) {
    match e
    case DoPrepare(p) => var r := AfterPrepare(s, p); (r.0, r.1.Ok?)
    case DoPrepared(o) => var r := AfterPrepared(s, o); (r.0, r.1.Ok?)
    case DoCall(c) => var r := AfterCall(s, c); (r.0, r.1.Ok?)
    case DoSuccess(f) => var r := AfterSuccess(s, f); (r.0, r.1.Ok?)
    case DoFailure(f) => var r := AfterFailure(s, f); (r.0, r.1.Ok?)
  }

  /** The state of a new sequence after the first `k` events. */
  function StateAt(es: seq<Event>, k: nat): State
    requires k <= |es|
    decreases k
  {
    if k == 0 then New else After(StateAt(es, k - 1), es[k - 1]).0
  }

  /** Whether event `k` of the run is accepted. */
  predicate Accepted(es: seq<Event>, k: nat)
    requires k < |es|
  {
    After(StateAt(es, k), es[k]).1
  }

  predicate Final(e: Event) {
    e.DoSuccess? || e.DoFailure?
  }

  /** Where each state is entered from. */
  lemma Transitions(s: State, e: Event)
    ensures s.Closed? ==> After(s, e) == (Closed, false)
    ensures Final(e) || !After(s, e).1 ==> After(s, e).0.Closed?
    ensures var t := After(s, e).0; match t
      case New => false
      case Preparing(id, op) => s.New? && e.DoPrepare? && e.p.id == id && e.p.operation == op
      case Offered(id, op, b) => s == Preparing(id, op) && e == DoPrepared(Prepared(id, op, b))
      case Called(c) => s == Offered(c.id, c.args.Kind(), c.binding) && e == DoCall(c)
      case Closed => true
  {
  }

  lemma {:induction false} ClosedStays(es: seq<Event>, k: nat, later: nat)
    requires k <= later <= |es| && StateAt(es, k) == Closed
    ensures StateAt(es, later) == Closed
    decreases later
  {
    if k < later {
      ClosedStays(es, k, later - 1);
      Transitions(StateAt(es, later - 1), es[later - 1]);
    }
  }

  /** A refused event, a success or a failure closes the sequence for good: nothing after it is accepted. */
  lemma NothingAfterTheEnd(es: seq<Event>, k: nat, later: nat)
    requires k < later < |es|
    requires !Accepted(es, k) || Final(es[k])
    ensures !Accepted(es, later)
  {
    Transitions(StateAt(es, k), es[k]);
    ClosedStays(es, k + 1, later);
    Transitions(Closed, es[later]);
  }

  /** The state after `k` events tells which events led to it. */
  ghost predicate Told(es: seq<Event>, k: nat, s: State)
    requires k <= |es|
  {
    match s
    case New => k == 0
    case Preparing(id, op) => k == 1 && es[0].DoPrepare? && es[0].p.id == id && es[0].p.operation == op
    case Offered(id, op, b) => k == 2 && Told(es, 1, Preparing(id, op)) && es[1] == DoPrepared(Prepared(id, op, b))
    case Called(c) => k == 3 && Told(es, 2, Offered(c.id, c.args.Kind(), c.binding)) && es[2] == DoCall(c)
    case Closed => k > 0
  }

  lemma {:induction false} StateTells(es: seq<Event>, k: nat)
    requires k <= |es|
    ensures Told(es, k, StateAt(es, k))
    decreases k
  {
    if k > 0 {
      StateTells(es, k - 1);
      Transitions(StateAt(es, k - 1), es[k - 1]);
    }
  }

  /** What an accepted success is an answer to: the run is Prepare, Prepared, Call, Success,
      with one id, one operation and one binding throughout. */
  lemma SuccessIsCorrelated(es: seq<Event>, k: nat)
    requires k < |es| && es[k].DoSuccess? && Accepted(es, k)
    ensures k == 3 && es[0].DoPrepare? && es[1].DoPrepared? && es[2].DoCall?
    ensures es[0].p.id == es[1].o.id == es[2].c.id == es[3].s.id
    ensures es[0].p.operation == es[1].o.operation == es[2].c.args.Kind() == es[3].s.operation == es[3].s.result.Kind()
    ensures es[1].o.binding == es[2].c.binding == es[3].s.binding
  {
    StateTells(es, k);
  }
}
