/** The query a call may carry and the checks it must pass
    (crates/gaze-lens-protocol/src/query.rs, bounds.rs). Texts are their UTF-8 bytes. */
module Requests {
  import opened Bounds
  import opened Wrappers
  import JsonScan

  const IDENTIFIER_BYTES: nat := 256
  const MAX_ROWS: nat := 1000
  const DEFAULT_ROWS: nat := 100
  const MAX_COLUMNS: nat := 128
  const MAX_PREDICATES: nat := 64
  const MAX_ORDER: nat := 16
  const MAX_BINDS: nat := 1024

  datatype Scalar = Text(text: bytes) | Number(lexeme: bytes) | Bool(b: bool) | Null

  datatype Operand = One(scalar: Scalar) | Many(scalars: seq<Scalar>)

  datatype Op = Eq | Ne | Gt | Gte | Lt | Lte | In | Like | IsNull | IsNotNull

  datatype Predicate = Predicate(col: bytes, op: Op, val: Option<Operand>)

  datatype Order = Order(col: bytes, descending: bool)

  datatype Query = Query(
    table: bytes,
    columns: Option<seq<bytes>>,
    predicates: Option<seq<Predicate>>,
    anyOf: Option<bool>,
    order: Option<seq<Order>>,
    limit: Option<nat>)
  {
    function Limit(): nat {
      if limit.Some? then limit.value else DEFAULT_ROWS
    }
  }

  // ---- The checks, in the program's order

  function CheckIdentifier(text: bytes): Result<()> {
    var _ :- Require(text != []);
    Cap(|text|, IDENTIFIER_BYTES)
  }

  function CheckScalar(s: Scalar): Result<()> {
    match s
    case Null => Err(InvalidRequest)
    case Text(text) => Cap(|text|, SCALAR_BYTES)
    case Number(lexeme) =>
      var _ :- Cap(|lexeme|, SCALAR_BYTES);
      Require(JsonScan.IsNumber(lexeme))
    case Bool(_) => Ok(())
  }

  /** The first failure of `check` from position `i` on. */
  function CheckAll<T>(xs: seq<T>, i: nat, check: T -> Result<()>): Result<()>
    requires i <= |xs|
    decreases |xs| - i
  {
    if i == |xs| then Ok(())
    else
      var _ :- check(xs[i]);
      CheckAll(xs, i + 1, check)
  }

  /** Each column is an identifier and new. */
  function CheckColumns(cols: seq<bytes>, i: nat): Result<()>
    requires i <= |cols|
    decreases |cols| - i
  {
    if i == |cols| then Ok(())
    else
      var _ :- CheckIdentifier(cols[i]);
      var _ :- Require(cols[i] !in cols[..i]);
      CheckColumns(cols, i + 1)
  }

  /** The operand an operator takes, and how many values are bound. */
  function CheckOperand(op: Op, val: Option<Operand>): Result<nat> {
    match val
    case None => if op.IsNull? || op.IsNotNull? then Ok(0) else Err(InvalidRequest)
    case Some(Many(xs)) =>
      if !op.In? || xs == [] then Err(InvalidRequest)
      else
        var _ :- CheckAll(xs, 0, CheckScalar);
        Ok(|xs|)
    case Some(One(x)) =>
      if op.In? || op.IsNull? || op.IsNotNull? then Err(InvalidRequest)
      else
        var _ :- CheckScalar(x);
        Ok(1)
  }

  function CheckPredicate(p: Predicate): Result<nat> {
    var _ :- CheckIdentifier(p.col);
    CheckOperand(p.op, p.val)
  }

  /** The values bound by the predicates from position `i` on, after `binds` others. */
  function CheckPredicates(ps: seq<Predicate>, i: nat, binds: nat): Result<nat>
    requires i <= |ps|
    decreases |ps| - i
  {
    if i == |ps| then Ok(binds)
    else
      var more :- CheckPredicate(ps[i]);
      CheckPredicates(ps, i + 1, binds + more)
  }

  function CheckOrder(o: Order): Result<()> {
    CheckIdentifier(o.col)
  }

  function CheckSelection(q: Query): Result<()> {
    if q.columns.None? then Ok(())
    else
      var _ :- Require(q.columns.value != []);
      var _ :- Cap(|q.columns.value|, MAX_COLUMNS);
      CheckColumns(q.columns.value, 0)
  }

  function CheckConditions(q: Query): Result<nat> {
    if q.predicates.None? then Ok(0)
    else
      var _ :- Cap(|q.predicates.value|, MAX_PREDICATES);
      CheckPredicates(q.predicates.value, 0, 0)
  }

  function CheckOrdering(q: Query): Result<()> {
    if q.order.None? then Ok(())
    else
      var _ :- Cap(|q.order.value|, MAX_ORDER);
      CheckAll(q.order.value, 0, CheckOrder)
  }

  function CheckQuery(q: Query): Result<()> {
    var _ :- CheckIdentifier(q.table);
    var _ :- Require(q.Limit() > 0);
    var _ :- Cap(q.Limit(), MAX_ROWS);
    var _ :- CheckSelection(q);
    var binds :- CheckConditions(q);
    var _ :- Cap(binds, MAX_BINDS);
    CheckOrdering(q)
  }

  // ---- The same checks as the program runs them

  method ValidateColumns(cols: seq<bytes>) returns (r: Result<()>)
    ensures r == CheckColumns(cols, 0)
  {
    var seen: set<bytes> := {};
    for i := 0 to |cols|
      invariant seen == set c | c in cols[..i]
      invariant CheckColumns(cols, i) == CheckColumns(cols, 0)
    {
      var _ :- CheckIdentifier(cols[i]);
      var _ :- Require(cols[i] !in seen);
      seen := seen + {cols[i]};
      assert cols[..i + 1] == cols[..i] + [cols[i]];
    }
    r := Ok(());
  }

  method ValidateScalars(xs: seq<Scalar>) returns (r: Result<()>)
    ensures r == CheckAll(xs, 0, CheckScalar)
  {
    for i := 0 to |xs|
      invariant CheckAll(xs, i, CheckScalar) == CheckAll(xs, 0, CheckScalar)
    {
      var _ :- CheckScalar(xs[i]);
    }
    r := Ok(());
  }

  method ValidatePredicates(ps: seq<Predicate>) returns (r: Result<nat>)
    ensures r == CheckPredicates(ps, 0, 0)
  {
    var binds: nat := 0;
    for i := 0 to |ps|
      invariant CheckPredicates(ps, i, binds) == CheckPredicates(ps, 0, 0)
    {
      var p := ps[i];
      var _ :- CheckIdentifier(p.col);
      match p.val
      case None =>
        if !p.op.IsNull? && !p.op.IsNotNull? {
          return Err(InvalidRequest);
        }
      case Some(Many(xs)) =>
        if !p.op.In? || xs == [] {
          return Err(InvalidRequest);
        }
        var checked := ValidateScalars(xs);
        var _ :- checked;
        binds := binds + |xs|;
      case Some(One(x)) =>
        if p.op.In? || p.op.IsNull? || p.op.IsNotNull? {
          return Err(InvalidRequest);
        }
        var _ :- CheckScalar(x);
        binds := binds + 1;
    }
    r := Ok(binds);
  }

  method ValidateOrders(os: seq<Order>) returns (r: Result<()>)
    ensures r == CheckAll(os, 0, CheckOrder)
  {
    for i := 0 to |os|
      invariant CheckAll(os, i, CheckOrder) == CheckAll(os, 0, CheckOrder)
    {
      var _ :- CheckIdentifier(os[i].col);
    }
    r := Ok(());
  }

  method Validate(q: Query) returns (r: Result<()>)
    ensures r == CheckQuery(q)
  {
    var _ :- CheckIdentifier(q.table);
    var _ :- Require(q.Limit() > 0);
    var _ :- Cap(q.Limit(), MAX_ROWS);
    if q.columns.Some? {
      var _ :- Require(q.columns.value != []);
      var _ :- Cap(|q.columns.value|, MAX_COLUMNS);
      var checked := ValidateColumns(q.columns.value);
      var _ :- checked;
    }
    var binds := 0;
    if q.predicates.Some? {
      var _ :- Cap(|q.predicates.value|, MAX_PREDICATES);
      var checked := ValidatePredicates(q.predicates.value);
      binds :- checked;
    }
    var _ :- Cap(binds, MAX_BINDS);
    if q.order.Some? {
      var _ :- Cap(|q.order.value|, MAX_ORDER);
      r := ValidateOrders(q.order.value);
      return;
    }
    r := Ok(());
  }

  // ---- What they decide

  /** All elements from position `i` on. */
  predicate All<T(!new)>(xs: seq<T>, i: nat, p: T -> bool) {
    forall k | i <= k < |xs| :: p(xs[k])
  }

  lemma AllStep<T(!new)>(xs: seq<T>, i: nat, p: T -> bool)
    requires i < |xs|
    ensures All(xs, i, p) <==> p(xs[i]) && All(xs, i + 1, p)
  {
  }

  predicate ShapedScalar(s: Scalar) {
    !s.Null? && (s.Number? ==> JsonScan.IsNumber(s.lexeme))
  }

  predicate ScalarFits(s: Scalar) {
    match s
    case Text(text) => |text| <= 8_192
    case Number(lexeme) => |lexeme| <= 8_192
    case _ => true
  }

  /** A comparison takes one value, `in` a list of at least one, a null test none. */
  predicate ShapedOperand(op: Op, val: Option<Operand>) {
    match op
    case IsNull => val.None?
    case IsNotNull => val.None?
    case In => val.Some? && val.value.Many? && val.value.scalars != [] && ShapedScalars(val.value.scalars)
    case _ => val.Some? && val.value.One? && ShapedScalar(val.value.scalar)
  }

  predicate ShapedScalars(xs: seq<Scalar>) {
    All(xs, 0, ShapedScalar)
  }

  function Values(val: Option<Operand>): seq<Scalar> {
    match val
    case None => []
    case Some(One(x)) => [x]
    case Some(Many(xs)) => xs
  }

  predicate OperandFits(val: Option<Operand>) {
    All(Values(val), 0, ScalarFits)
  }

  /** The number of values from position `i` on. */
  function Binds(ps: seq<Predicate>, i: nat): nat
    requires i <= |ps|
    decreases |ps| - i
  {
    if i == |ps| then 0 else |Values(ps[i].val)| + Binds(ps, i + 1)
  }

  predicate Named(name: bytes) {
    name != []
  }

  predicate NameFits(name: bytes) {
    |name| <= 256
  }

  predicate Distinct(cols: seq<bytes>) {
    forall i, j | 0 <= i < j < |cols| :: cols[i] != cols[j]
  }

  predicate ShapedPredicate(p: Predicate) {
    Named(p.col) && ShapedOperand(p.op, p.val)
  }

  predicate PredicateFits(p: Predicate) {
    NameFits(p.col) && OperandFits(p.val)
  }

  predicate ShapedColumns(cols: seq<bytes>) {
    cols != [] && Distinct(cols) && All(cols, 0, Named)
  }

  predicate ColumnsFit(cols: seq<bytes>) {
    |cols| <= 128 && All(cols, 0, NameFits)
  }

  predicate ShapedPredicates(ps: seq<Predicate>) {
    All(ps, 0, ShapedPredicate)
  }

  predicate PredicatesFit(ps: seq<Predicate>) {
    |ps| <= 64 && Binds(ps, 0) <= 1_024 && All(ps, 0, PredicateFits)
  }

  predicate ShapedOrders(os: seq<Order>) {
    All(os, 0, (o: Order) => Named(o.col))
  }

  predicate OrdersFit(os: seq<Order>) {
    |os| <= 16 && All(os, 0, (o: Order) => NameFits(o.col))
  }

  /** Names are not empty, columns are distinct, every operator has the operand it takes. */
  predicate ShapedQuery(q: Query) {
    && Named(q.table) && q.Limit() > 0
    && (q.columns.Some? ==> ShapedColumns(q.columns.value))
    && (q.predicates.Some? ==> ShapedPredicates(q.predicates.value))
    && (q.order.Some? ==> ShapedOrders(q.order.value))
  }

  /** Every length and number is within its cap. */
  predicate QueryFits(q: Query) {
    && NameFits(q.table) && q.Limit() <= 1_000
    && (q.columns.Some? ==> ColumnsFit(q.columns.value))
    && (q.predicates.Some? ==> PredicatesFit(q.predicates.value))
    && (q.order.Some? ==> OrdersFit(q.order.value))
  }

  /** A check passes exactly what is shaped and fits, and its error says which of the two is missing. */
  predicate Decides<T>(r: Result<T>, shaped: bool, fits: bool) {
    match r
    case Ok(_) => shaped && fits
    case Err(InvalidRequest) => !shaped
    case Err(CapExceeded) => !fits
    case Err(_) => false
  }

  lemma {:induction false} AllDecided<T(!new)>(xs: seq<T>, i: nat, check: T -> Result<()>, shaped: T -> bool, fits: T -> bool)
    requires i <= |xs| && forall x: T :: Decides(check(x), shaped(x), fits(x))
    ensures Decides(CheckAll(xs, i, check), All(xs, i, shaped), All(xs, i, fits))
    decreases |xs| - i
  {
    if i < |xs| {
      AllStep(xs, i, shaped);
      AllStep(xs, i, fits);
      assert Decides(check(xs[i]), shaped(xs[i]), fits(xs[i]));
      AllDecided(xs, i + 1, check, shaped, fits);
    }
  }

  lemma NameDecided(name: bytes)
    ensures Decides(CheckIdentifier(name), Named(name), NameFits(name))
  {
  }

  lemma ScalarDecided(s: Scalar)
    ensures Decides(CheckScalar(s), ShapedScalar(s), ScalarFits(s))
  {
  }

  lemma ScalarsDecided(xs: seq<Scalar>)
    ensures Decides(CheckAll(xs, 0, CheckScalar), All(xs, 0, ShapedScalar), All(xs, 0, ScalarFits))
  {
    forall s: Scalar
      ensures Decides(CheckScalar(s), ShapedScalar(s), ScalarFits(s))
    {
      ScalarDecided(s);
    }
    AllDecided(xs, 0, CheckScalar, ShapedScalar, ScalarFits);
  }

  /** Also: a passed operand binds its values. */
  lemma OperandDecided(op: Op, val: Option<Operand>)
    ensures Decides(CheckOperand(op, val), ShapedOperand(op, val), OperandFits(val))
    ensures CheckOperand(op, val).Ok? ==> CheckOperand(op, val).value == |Values(val)|
  {
    match val
    case None =>
    case Some(Many(xs)) => ScalarsDecided(xs);
    case Some(One(x)) =>
      ScalarDecided(x);
      AllStep(Values(val), 0, ScalarFits);
  }

  lemma PredicateDecided(p: Predicate)
    ensures Decides(CheckPredicate(p), ShapedPredicate(p), PredicateFits(p))
    ensures CheckPredicate(p).Ok? ==> CheckPredicate(p).value == |Values(p.val)|
  {
    NameDecided(p.col);
    OperandDecided(p.op, p.val);
  }

  lemma {:induction false} PredicatesDecided(ps: seq<Predicate>, i: nat, binds: nat)
    requires i <= |ps|
    ensures Decides(CheckPredicates(ps, i, binds), All(ps, i, ShapedPredicate), All(ps, i, PredicateFits))
    ensures CheckPredicates(ps, i, binds).Ok? ==> CheckPredicates(ps, i, binds).value == binds + Binds(ps, i)
    decreases |ps| - i
  {
    if i < |ps| {
      AllStep(ps, i, ShapedPredicate);
      AllStep(ps, i, PredicateFits);
      PredicateDecided(ps[i]);
      PredicatesDecided(ps, i + 1, binds + |Values(ps[i].val)|);
    }
  }

  /** The names from `i` on are new. */
  predicate NewFrom(cols: seq<bytes>, i: nat) {
    forall k | i <= k < |cols| :: cols[k] !in cols[..k]
  }

  lemma NewStep(cols: seq<bytes>, i: nat)
    requires i < |cols|
    ensures NewFrom(cols, i) <==> cols[i] !in cols[..i] && NewFrom(cols, i + 1)
  {
  }

  lemma {:induction false} ColumnsDecided(cols: seq<bytes>, i: nat)
    requires i <= |cols|
    ensures Decides(CheckColumns(cols, i), All(cols, i, Named) && NewFrom(cols, i), All(cols, i, NameFits))
    decreases |cols| - i
  {
    if i < |cols| {
      AllStep(cols, i, Named);
      AllStep(cols, i, NameFits);
      NewStep(cols, i);
      NameDecided(cols[i]);
      ColumnsDecided(cols, i + 1);
    }
  }

  lemma NewIsDistinct(cols: seq<bytes>)
    ensures NewFrom(cols, 0) <==> Distinct(cols)
  {
    if NewFrom(cols, 0) {
      forall i, j | 0 <= i < j < |cols|
        ensures cols[i] != cols[j]
      {
        assert cols[..j][i] == cols[i];
      }
    }
  }

  lemma SelectionDecided(q: Query)
    ensures Decides(CheckSelection(q), q.columns.Some? ==> ShapedColumns(q.columns.value),
                    q.columns.Some? ==> ColumnsFit(q.columns.value))
  {
    if q.columns.Some? {
      ColumnsDecided(q.columns.value, 0);
      NewIsDistinct(q.columns.value);
    }
  }

  lemma ConditionsDecided(q: Query)
    ensures var r := CheckConditions(q);
      var capped: Result<()> := if r.Err? then Err(r.error) else Cap(r.value, MAX_BINDS);
      Decides(capped, q.predicates.Some? ==> ShapedPredicates(q.predicates.value),
              q.predicates.Some? ==> PredicatesFit(q.predicates.value))
  {
    if q.predicates.Some? {
      PredicatesDecided(q.predicates.value, 0, 0);
    }
  }

  lemma OrdersDecided(os: seq<Order>)
    ensures Decides(CheckAll(os, 0, CheckOrder), ShapedOrders(os), All(os, 0, (o: Order) => NameFits(o.col)))
  {
    var named, fits := (o: Order) => Named(o.col), (o: Order) => NameFits(o.col);
    forall o: Order
      ensures Decides(CheckOrder(o), named(o), fits(o))
    {
      NameDecided(o.col);
    }
    AllDecided(os, 0, CheckOrder, named, fits);
    assert ShapedOrders(os) <==> All(os, 0, named);
    assert All(os, 0, (o: Order) => NameFits(o.col)) <==> All(os, 0, fits);
  }

  lemma OrderingDecided(q: Query)
    ensures Decides(CheckOrdering(q), q.order.Some? ==> ShapedOrders(q.order.value),
                    q.order.Some? ==> OrdersFit(q.order.value))
  {
    if q.order.Some? {
      OrdersDecided(q.order.value);
    }
  }

  /** A query passes exactly when it is shaped and within the caps; a refusal says truly which it is not. */
  lemma QueryDecided(q: Query)
    ensures Decides(CheckQuery(q), ShapedQuery(q), QueryFits(q))
  {
    NameDecided(q.table);
    SelectionDecided(q);
    ConditionsDecided(q);
    OrderingDecided(q);
  }
}
