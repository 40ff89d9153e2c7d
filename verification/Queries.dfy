/** The canned-query compiler (src/source/db/query.rs): queries over one table become
    SQL text with placeholders and the values bound to them. */
module Queries {
  import opened Counting
  import opened Sequences
  import opened Wrappers

  datatype Dialect = Mysql | Postgres | Sqlite

  datatype WhereOp = Eq | Ne | Gt | Gte | Lt | Lte | In | Like | IsNull | IsNotNull

  datatype Combinator = And | Or

  datatype Direction = Asc | Desc

  datatype Scalar = Text(text: string) | I64(i: int) | U64(n: nat) | F64(f: real) | Bool(b: bool) | Null

  datatype Operand = One(scalar: Scalar) | Many(scalars: seq<Scalar>)

  datatype WhereClause = WhereClause(col: string, op: WhereOp, val: Option<Operand>)

  datatype OrderBy = OrderBy(col: string, dir: Direction)

  datatype ColumnInfo = ColumnInfo(name: string, dataType: string, allowed: bool)

  datatype TableSchema = TableSchema(table: string, columns: seq<ColumnInfo>, limitCap: Option<nat>)

  datatype CannedQuery = CannedQuery(
    table: string,
    columns: Option<seq<string>>,
    clauses: Option<seq<WhereClause>>,
    combinator: Option<Combinator>,
    orderBy: Option<seq<OrderBy>>,
    limit: Option<nat>)

  datatype QueryError =
    | TableMismatch(queryTable: string, schemaTable: string)
    | UnknownColumn(col: string)
    | DisallowedColumn(col: string)
    | OperatorTypeMismatch(col: string, op: WhereOp, dataType: string)
    | OperatorRequiresList(op: WhereOp)
    | OperatorRequiresScalar(op: WhereOp)
    | OperatorRequiresNoValue(op: WhereOp)
    | OperatorRequiresValue(op: WhereOp)
    | LimitExceedsCap(requested: nat, cap: nat)
    | UnsafeColumn(col: string)

  type QueryOutcome<+T> = Outcome<T, QueryError>

  const U32_MAX: nat := 0xffff_ffff

  // ---- What a query means: the select it stands for

  /** A bound value is never NULL. */
  type Value = s: Scalar | !s.Null? witness Bool(false)

  datatype Clause =
    | Compare(col: string, op: WhereOp, value: Value)
    | Member(col: string, values: seq<Value>)
    | Nullness(col: string, negated: bool)

  datatype Select = Select(
    columns: seq<string>,
    table: string,
    combinator: Combinator,
    clauses: seq<Clause>,
    order: seq<OrderBy>,
    limit: nat)

  predicate IsComparison(op: WhereOp) {
    !op.In? && !op.IsNull? && !op.IsNotNull?
  }

  function Lower(s: string): (r: string)
    ensures |r| == |s|
  {
    if s == [] then [] else [if 'A' <= s[0] <= 'Z' then s[0] + 32 as char else s[0]] + Lower(s[1..])
  }

  const KEYWORDS: seq<string> :=
    ["alter", "delete", "drop", "insert", "order", "select", "truncate", "union", "update", "where"]

  const STRING_TYPES: seq<string> := ["char", "varchar", "text", "tinytext", "mediumtext", "longtext", "json"]

  predicate HasDashes(s: string) {
    exists i {:trigger s[i]} | 0 <= i < |s| - 1 :: s[i] == '-' && s[i + 1] == '-'
  }

  predicate Unsafe(column: string) {
    Lower(column) in KEYWORDS || ';' in column || HasDashes(column)
  }

  function Find(columns: seq<ColumnInfo>, name: string): Option<ColumnInfo> {
    if columns == [] then None else if columns[0].name == name then Some(columns[0]) else Find(columns[1..], name)
  }

  function ValidateColumn(column: string, schema: TableSchema): QueryOutcome<ColumnInfo> {
    if Unsafe(column) then Err(UnsafeColumn(column))
    else
      match Find(schema.columns, column)
      case None => Err(UnknownColumn(column))
      case Some(info) => if info.allowed then Ok(info) else Err(DisallowedColumn(column))
  }

  function CheckColumns(columns: seq<string>, schema: TableSchema): QueryOutcome<()> {
    if columns == [] then Ok(())
    else
      var _ :- ValidateColumn(columns[0], schema);
      CheckColumns(columns[1..], schema)
  }

  function AllowedNames(columns: seq<ColumnInfo>): seq<string> {
    if columns == [] then []
    else (if columns[0].allowed then [columns[0].name] else []) + AllowedNames(columns[1..])
  }

  predicate OperatorMatchesType(op: WhereOp, dataType: string) {
    op.Like? ==> Lower(dataType) in STRING_TYPES
  }

  function BindValue(s: Scalar, op: WhereOp): QueryOutcome<Value> {
    if s.Null? then Err(OperatorRequiresNoValue(op)) else Ok(s)
  }

  function BindValues(ss: seq<Scalar>, op: WhereOp): (r: QueryOutcome<seq<Value>>)
    ensures r.Ok? ==> |r.value| == |ss|
  {
    if ss == [] then Ok([])
    else
      var first :- BindValue(ss[0], op);
      var rest :- BindValues(ss[1..], op);
      Ok([first] + rest)
  }

  function PlanClause(w: WhereClause, column: ColumnInfo): QueryOutcome<Clause> {
    if !OperatorMatchesType(w.op, column.dataType) then Err(OperatorTypeMismatch(w.col, w.op, column.dataType))
    else if w.op.IsNull? || w.op.IsNotNull? then
      if w.val.Some? then Err(OperatorRequiresNoValue(w.op)) else Ok(Nullness(w.col, w.op.IsNotNull?))
    else if w.val.None? then Err(OperatorRequiresValue(w.op))
    else if w.op.In? then
      if w.val.value.One? || w.val.value.scalars == [] then Err(OperatorRequiresList(w.op))
      else
        var values :- BindValues(w.val.value.scalars, w.op);
        Ok(Member(w.col, values))
    else if w.val.value.Many? then Err(OperatorRequiresScalar(w.op))
    else
      var value :- BindValue(w.val.value.scalar, w.op);
      Ok(Compare(w.col, w.op, value))
  }

  function PlanClauses(ws: seq<WhereClause>, schema: TableSchema): QueryOutcome<seq<Clause>> {
    if ws == [] then Ok([])
    else
      var column :- ValidateColumn(ws[0].col, schema);
      var first :- PlanClause(ws[0], column);
      var rest :- PlanClauses(ws[1..], schema);
      Ok([first] + rest)
  }

  function OrderColumns(order: seq<OrderBy>): seq<string> {
    if order == [] then [] else [order[0].col] + OrderColumns(order[1..])
  }

  function OrEmpty<T>(o: Option<seq<T>>): seq<T> {
    if o.Some? then o.value else []
  }

  function HardCap(schema: TableSchema): nat {
    if schema.limitCap.Some? then schema.limitCap.value else U32_MAX
  }

  /** The row limit to bind: one more than the cap when only the cap limits the result. */
  function PlanLimit(limit: Option<nat>, cap: nat): QueryOutcome<nat> {
    match limit
    case None => Ok(cap + 1)
    case Some(requested) =>
      if requested > cap then Err(LimitExceedsCap(requested, cap))
      else Ok(if requested == cap then requested + 1 else requested)
  }

  function SelectedColumns(q: CannedQuery, schema: TableSchema): seq<string> {
    if OrEmpty(q.columns) != [] then q.columns.value else AllowedNames(schema.columns)
  }

  /** The combinator matters only between clauses. */
  function Joiner(c: Option<Combinator>, clauses: seq<Clause>): Combinator {
    if |clauses| < 2 || c.None? then And else c.value
  }

  function Plan(q: CannedQuery, schema: TableSchema): QueryOutcome<Select> {
    if q.table != schema.table then Err(TableMismatch(q.table, schema.table))
    else
      var columns := SelectedColumns(q, schema);
      var _ :- CheckColumns(columns, schema);
      var clauses :- PlanClauses(OrEmpty(q.clauses), schema);
      var _ :- CheckColumns(OrderColumns(OrEmpty(q.orderBy)), schema);
      var limit :- PlanLimit(q.limit, HardCap(schema));
      Ok(Select(columns, schema.table, Joiner(q.combinator, clauses), clauses, OrEmpty(q.orderBy), limit))
  }

  // ---- The SQL text of a select

  function QuoteOf(d: Dialect): char {
    if d.Postgres? then '"' else '`'
  }

  function Doubled(s: string, q: char): string {
    if s == [] then [] else (if s[0] == q then [q, q] else [s[0]]) + Doubled(s[1..], q)
  }

  function EscapeIdent(s: string, d: Dialect): string {
    [QuoteOf(d)] + (Doubled(s, QuoteOf(d)) + [QuoteOf(d)])
  }

  function DigitChar(n: nat): char
    requires n < 10
  {
    '0' + n as char
  }

  function Decimal(n: nat): (s: string)
    ensures s != []
  {
    if n < 10 then [DigitChar(n)] else Decimal(n / 10) + [DigitChar(n % 10)]
  }

  function Placeholder(d: Dialect, index: nat): string {
    if d.Postgres? then "$" + Decimal(index) else "?"
  }

  function OperatorText(op: WhereOp): string
    requires IsComparison(op)
  {
    match op
    case Eq => "="
    case Ne => "!="
    case Gt => ">"
    case Gte => ">="
    case Lt => "<"
    case Lte => "<="
    case Like => "LIKE"
  }

  predicate WfClause(c: Clause) {
    (c.Compare? ==> IsComparison(c.op)) && (c.Member? ==> c.values != [])
  }

  function Values(c: Clause): seq<Value> {
    match c
    case Compare(_, _, v) => [v]
    case Member(_, vs) => vs
    case Nullness(_, _) => []
  }

  function Join(parts: seq<string>, sep: string): string {
    if parts == [] then "" else if |parts| == 1 then parts[0] else parts[0] + (sep + Join(parts[1..], sep))
  }

  function Placeholders(d: Dialect, index: nat, n: nat): (r: seq<string>)
    ensures |r| == n
    decreases n
  {
    if n == 0 then [] else [Placeholder(d, index)] + Placeholders(d, index + 1, n - 1)
  }

  /** One condition; its first placeholder has number `index`. */
  function ClauseText(c: Clause, d: Dialect, index: nat): string
    requires WfClause(c)
  {
    EscapeIdent(c.col, d) + ConditionText(c, d, index)
  }

  function ConditionText(c: Clause, d: Dialect, index: nat): string
    requires WfClause(c)
  {
    match c
    case Compare(_, op, _) => " " + (OperatorText(op) + (" " + Placeholder(d, index)))
    case Member(_, values) => " IN (" + (Join(Placeholders(d, index, |values|), ", ") + ")")
    case Nullness(_, negated) => if negated then " IS NOT NULL" else " IS NULL"
  }

  predicate WfClauses(cs: seq<Clause>) {
    forall i | 0 <= i < |cs| :: WfClause(cs[i])
  }

  function ClauseTexts(cs: seq<Clause>, d: Dialect, index: nat): (r: seq<string>)
    requires WfClauses(cs)
    ensures |r| == |cs|
  {
    if cs == [] then [] else [ClauseText(cs[0], d, index)] + ClauseTexts(cs[1..], d, index + |Values(cs[0])|)
  }

  lemma ClauseTextsParts(cs: seq<Clause>, d: Dialect, position: nat, next: nat)
    requires cs != [] && WfClauses(cs) && next == position + |Values(cs[0])|
    ensures ClauseTexts(cs, d, position)[0] == ClauseText(cs[0], d, position)
    ensures ClauseTexts(cs, d, position)[1..] == ClauseTexts(cs[1..], d, next)
  {
    Cons(ClauseText(cs[0], d, position), ClauseTexts(cs[1..], d, next));
  }

  function AllValues(cs: seq<Clause>): seq<Value> {
    if cs == [] then [] else Values(cs[0]) + AllValues(cs[1..])
  }

  function CombinatorText(c: Combinator): string {
    if c.And? then " AND " else " OR "
  }

  function JoinedClauses(cs: seq<Clause>, combinator: Combinator, d: Dialect): string
    requires WfClauses(cs)
  {
    if cs == [] then "" else " WHERE " + Join(ClauseTexts(cs, d, 1), CombinatorText(combinator))
  }

  function WhereText(s: Select, d: Dialect): string
    requires WfClauses(s.clauses)
  {
    JoinedClauses(s.clauses, s.combinator, d)
  }

  function OrderPart(o: OrderBy, d: Dialect): string {
    EscapeIdent(o.col, d) + (if o.dir.Asc? then " ASC" else " DESC")
  }

  function OrderParts(order: seq<OrderBy>, d: Dialect): (r: seq<string>)
    ensures |r| == |order|
  {
    if order == [] then [] else [OrderPart(order[0], d)] + OrderParts(order[1..], d)
  }

  function OrderText(order: seq<OrderBy>, d: Dialect): string {
    if order == [] then "" else " ORDER BY " + Join(OrderParts(order, d), ", ")
  }

  function Idents(columns: seq<string>, d: Dialect): (r: seq<string>)
    ensures |r| == |columns|
  {
    if columns == [] then [] else [EscapeIdent(columns[0], d)] + Idents(columns[1..], d)
  }

  function ColumnsText(columns: seq<string>, d: Dialect): string {
    if columns == [] then "1" else Join(Idents(columns, d), ", ")
  }

  function SelectText(s: Select, d: Dialect): string
    requires WfClauses(s.clauses)
  {
    "SELECT " + (ColumnsText(s.columns, d) + (" FROM " + (EscapeIdent(s.table, d)
      + (WhereText(s, d) + (OrderText(s.order, d) + (" LIMIT " + Placeholder(d, |AllValues(s.clauses)| + 1)))))))
  }

  function Binds(s: Select): seq<Value> {
    AllValues(s.clauses) + [U64(s.limit)]
  }

  lemma {:induction false} PlannedClausesWf(ws: seq<WhereClause>, schema: TableSchema)
    ensures PlanClauses(ws, schema).Ok? ==> WfClauses(PlanClauses(ws, schema).value)
    decreases |ws|
  {
    if ws != [] {
      PlannedClausesWf(ws[1..], schema);
    }
  }

  /** Selects as planning produces them. */
  predicate Canonical(s: Select) {
    WfClauses(s.clauses) && (|s.clauses| < 2 ==> s.combinator.And?)
  }

  lemma PlannedCanonical(q: CannedQuery, schema: TableSchema)
    ensures Plan(q, schema).Ok? ==> Canonical(Plan(q, schema).value)
  {
    PlannedClausesWf(OrEmpty(q.clauses), schema);
  }

  // ---- What planning keeps of a query, and when it succeeds

  /** The condition a clause was planned from. */
  function AsRequested(c: Clause): WhereClause {
    match c
    case Compare(col, op, value) => WhereClause(col, op, Some(One(value)))
    case Member(col, values) => WhereClause(col, In, Some(Many(values)))
    case Nullness(col, negated) => WhereClause(col, if negated then IsNotNull else IsNull, None)
  }

  /** The operator has the operand it needs, without NULLs, and suits the column's type. */
  predicate OperandFits(w: WhereClause, dataType: string) {
    && OperatorMatchesType(w.op, dataType)
    && match w.val
       case None => w.op.IsNull? || w.op.IsNotNull?
       case Some(One(scalar)) => IsComparison(w.op) && !scalar.Null?
       case Some(Many(scalars)) => w.op.In? && scalars != [] && forall i | 0 <= i < |scalars| :: !scalars[i].Null?
  }

  lemma {:induction false} BindValuesExact(ss: seq<Scalar>, op: WhereOp)
    ensures BindValues(ss, op).Ok? <==> forall i | 0 <= i < |ss| :: !ss[i].Null?
    ensures BindValues(ss, op).Ok? ==> BindValues(ss, op).value == ss
    decreases |ss|
  {
    if ss != [] {
      BindValuesExact(ss[1..], op);
      Uncons(ss);
      assert forall i | 0 <= i < |ss[1..]| :: ss[1..][i] == ss[i + 1];
    }
  }

  lemma PlanClauseExact(w: WhereClause, column: ColumnInfo)
    ensures PlanClause(w, column).Ok? <==> OperandFits(w, column.dataType)
    ensures PlanClause(w, column).Ok? ==> AsRequested(PlanClause(w, column).value) == w
  {
    if w.val.Some? && w.val.value.Many? {
      BindValuesExact(w.val.value.scalars, w.op);
    }
  }

  predicate Plannable(w: WhereClause, schema: TableSchema) {
    ValidateColumn(w.col, schema).Ok? && OperandFits(w, ValidateColumn(w.col, schema).value.dataType)
  }

  /** The conditions are planned exactly when each is plannable, and each keeps its meaning and its place. */
  lemma {:induction false} PlanClausesExact(ws: seq<WhereClause>, schema: TableSchema)
    ensures PlanClauses(ws, schema).Ok? <==> forall i | 0 <= i < |ws| :: Plannable(ws[i], schema)
    ensures PlanClauses(ws, schema).Ok? ==>
      var cs := PlanClauses(ws, schema).value;
      |cs| == |ws| && forall i | 0 <= i < |ws| :: AsRequested(cs[i]) == ws[i]
    decreases |ws|
  {
    if ws != [] {
      PlanClausesExact(ws[1..], schema);
      assert forall i | 0 <= i < |ws[1..]| :: ws[1..][i] == ws[i + 1];
      if ValidateColumn(ws[0].col, schema).Ok? {
        PlanClauseExact(ws[0], ValidateColumn(ws[0].col, schema).value);
      }
    }
  }

  lemma {:induction false} CheckColumnsExact(columns: seq<string>, schema: TableSchema)
    ensures CheckColumns(columns, schema).Ok? <==> forall i | 0 <= i < |columns| :: ValidateColumn(columns[i], schema).Ok?
    decreases |columns|
  {
    if columns != [] {
      CheckColumnsExact(columns[1..], schema);
      assert forall i | 0 <= i < |columns[1..]| :: columns[1..][i] == columns[i + 1];
    }
  }

  /** The rows the schema allows at most. */
  function Ceiling(schema: TableSchema): nat {
    match schema.limitCap
    case Some(cap) => cap
    case None => 4_294_967_295
  }

  /** The conditions and the ordering that were asked for. */
  function Conditions(q: CannedQuery): seq<WhereClause> {
    match q.clauses
    case Some(ws) => ws
    case None => []
  }

  function Ordering(q: CannedQuery): seq<OrderBy> {
    match q.orderBy
    case Some(order) => order
    case None => []
  }

  /** The columns a query selects: the ones it names, or else exactly those the schema allows, in its order. */
  ghost predicate Selects(q: CannedQuery, schema: TableSchema, names: seq<string>) {
    if q.columns.Some? && q.columns.value != [] then names == q.columns.value
    else IsImage(schema.columns, (c: ColumnInfo) => c.allowed, (c: ColumnInfo) => c.name, names)
  }

  lemma {:induction false} AllowedNamesAre(columns: seq<ColumnInfo>, allowed: ColumnInfo -> bool, name: ColumnInfo -> string)
    requires forall c: ColumnInfo :: allowed(c) == c.allowed && name(c) == c.name
    ensures IsImage(columns, allowed, name, AllowedNames(columns))
    decreases |columns|
  {
    if columns != [] {
      AllowedNamesAre(columns[1..], allowed, name);
      ImageCons(columns, allowed, name, AllowedNames(columns), AllowedNames(columns[1..]));
    }
  }

  lemma SelectedExactly(q: CannedQuery, schema: TableSchema)
    ensures Selects(q, schema, SelectedColumns(q, schema))
  {
    if q.columns.None? || q.columns.value == [] {
      AllowedNamesAre(schema.columns, (c: ColumnInfo) => c.allowed, (c: ColumnInfo) => c.name);
    }
  }

  /** Every column to be selected may be. */
  predicate SelectionValid(q: CannedQuery, schema: TableSchema) {
    if q.columns.Some? && q.columns.value != [] then
      forall i | 0 <= i < |q.columns.value| :: ValidateColumn(q.columns.value[i], schema).Ok?
    else
      forall k | 0 <= k < |schema.columns| && schema.columns[k].allowed :: ValidateColumn(schema.columns[k].name, schema).Ok?
  }

  lemma {:induction false} AllowedAreChecked(columns: seq<ColumnInfo>, schema: TableSchema)
    ensures CheckColumns(AllowedNames(columns), schema).Ok? <==>
      forall k | 0 <= k < |columns| && columns[k].allowed :: ValidateColumn(columns[k].name, schema).Ok?
    decreases |columns|
  {
    if columns != [] {
      AllowedAreChecked(columns[1..], schema);
      assert forall k | 0 <= k < |columns[1..]| :: columns[1..][k] == columns[k + 1];
      if columns[0].allowed {
        Cons(columns[0].name, AllowedNames(columns[1..]));
      } else {
        assert [] + AllowedNames(columns[1..]) == AllowedNames(columns[1..]);
      }
    }
  }

  /** Compilation succeeds exactly for the schema's own table, valid columns everywhere, plannable conditions
      and a limit within the cap. */
  lemma PlanSucceedsExactly(q: CannedQuery, schema: TableSchema)
    ensures Plan(q, schema).Ok? <==>
      && q.table == schema.table && SelectionValid(q, schema)
      && (forall i | 0 <= i < |Conditions(q)| :: Plannable(Conditions(q)[i], schema))
      && (forall i | 0 <= i < |Ordering(q)| :: ValidateColumn(Ordering(q)[i].col, schema).Ok?)
      && (q.limit.Some? ==> q.limit.value <= Ceiling(schema))
  {
    CheckColumnsExact(SelectedColumns(q, schema), schema);
    AllowedAreChecked(schema.columns, schema);
    PlanClausesExact(Conditions(q), schema);
    OrderIsChecked(Ordering(q), schema);
  }

  lemma OrderIsChecked(order: seq<OrderBy>, schema: TableSchema)
    ensures CheckColumns(OrderColumns(order), schema).Ok? <==>
      forall i | 0 <= i < |order| :: ValidateColumn(order[i].col, schema).Ok?
  {
    CheckColumnsExact(OrderColumns(order), schema);
    OrderColumnsAre(order);
    assert forall i | 0 <= i < |order| :: OrderColumns(order)[i] == order[i].col;
  }

  // ---- When a column may be used

  /** The column is the first of its name in the schema. */
  predicate FirstNamed(columns: seq<ColumnInfo>, name: string, k: nat) {
    k < |columns| && columns[k].name == name && forall i | 0 <= i < k :: columns[i].name != name
  }

  lemma {:induction false} FoundExactly(columns: seq<ColumnInfo>, name: string)
    ensures match Find(columns, name)
      case Some(info) => exists k: nat :: FirstNamed(columns, name, k) && columns[k] == info
      case None => forall k | 0 <= k < |columns| :: columns[k].name != name
    decreases |columns|
  {
    if columns != [] {
      if columns[0].name == name {
        assert FirstNamed(columns, name, 0);
      } else {
        FoundExactly(columns[1..], name);
        assert forall k | 0 <= k < |columns[1..]| :: columns[1..][k] == columns[k + 1];
        if Find(columns[1..], name).Some? {
          var k: nat :| FirstNamed(columns[1..], name, k) && columns[1..][k] == Find(columns[1..], name).value;
          assert FirstNamed(columns, name, k + 1);
        }
      }
    }
  }

  /** What validating a column answers: it is refused as unsafe, as unknown or as not allowed truly, and otherwise is
      the first of its name. */
  lemma ValidatedExactly(col: string, schema: TableSchema)
    ensures match ValidateColumn(col, schema)
      case Ok(info) =>
        !Unsafe(col) && info.allowed && exists k: nat :: FirstNamed(schema.columns, col, k) && schema.columns[k] == info
      case Err(UnsafeColumn(c)) => c == col && Unsafe(col)
      case Err(UnknownColumn(c)) => c == col && !Unsafe(col) && forall k | 0 <= k < |schema.columns| :: schema.columns[k].name != col
      case Err(DisallowedColumn(c)) =>
        c == col && !Unsafe(col) && exists k: nat :: FirstNamed(schema.columns, col, k) && !schema.columns[k].allowed
      case Err(_) => false
  {
    FoundExactly(schema.columns, col);
  }

  /** The names no column may have: SQL's keywords in any case, and what could end a statement or start a comment. */
  lemma UnsafeExactly(col: string)
    ensures Unsafe(col) <==>
      || (exists i :: 0 <= i < |col| && col[i] == ';')
      || (exists i {:trigger col[i]} :: 0 <= i < |col| - 1 && col[i] == '-' && col[i + 1] == '-')
      || Lower(col) in ["alter", "delete", "drop", "insert", "order", "select", "truncate", "union", "update", "where"]
  {
  }

  lemma {:induction false} LowerIs(s: string, i: nat)
    requires i < |s|
    ensures Lower(s)[i] == if 'A' <= s[i] <= 'Z' then (s[i] as int - 'A' as int + 'a' as int) as char else s[i]
    decreases |s|
  {
    if i > 0 {
      LowerIs(s[1..], i - 1);
    }
  }

  /** `like` suits the text types alone; every other operator suits every type. */
  lemma MatchesExactly(op: WhereOp, dataType: string)
    ensures OperatorMatchesType(op, dataType) <==>
      op != Like || Lower(dataType) in ["char", "varchar", "text", "tinytext", "mediumtext", "longtext", "json"]
  {
  }

  // ---- Why a query is refused

  /** The query names the column, or selects it without naming any. */
  predicate Asks(q: CannedQuery, schema: TableSchema, col: string) {
    || col in SelectedColumns(q, schema)
    || (exists i :: 0 <= i < |Conditions(q)| && Conditions(q)[i].col == col)
    || (exists i :: 0 <= i < |Ordering(q)| && Ordering(q)[i].col == col)
  }

  predicate Unnamed(schema: TableSchema, col: string) {
    forall k | 0 <= k < |schema.columns| :: schema.columns[k].name != col
  }

  predicate FirstIsBarred(schema: TableSchema, col: string) {
    exists k: nat | k < |schema.columns| :: FirstNamed(schema.columns, col, k) && !schema.columns[k].allowed
  }

  /** Why a column is refused. */
  predicate ColumnFault(e: QueryError, schema: TableSchema) {
    match e
    case UnsafeColumn(c) => Unsafe(c)
    case UnknownColumn(c) => Unnamed(schema, c)
    case DisallowedColumn(c) => FirstIsBarred(schema, c)
    case _ => false
  }

  /** Why a condition on a column of the type is refused. */
  predicate ClauseFault(e: QueryError, w: WhereClause, dataType: string) {
    match e
    case OperatorTypeMismatch(c, op, t) => c == w.col && op == w.op == Like && t == dataType && Lower(t) !in STRING_TYPES
    case OperatorRequiresNoValue(op) =>
      op == w.op && w.val.Some? && (w.op.IsNull? || w.op.IsNotNull? || HasNull(w.val.value))
    case OperatorRequiresValue(op) => op == w.op && w.val.None? && !w.op.IsNull? && !w.op.IsNotNull?
    case OperatorRequiresList(op) => op == w.op == In && w.val.Some? && (w.val.value.One? || w.val.value.scalars == [])
    case OperatorRequiresScalar(op) => op == w.op && IsComparison(op) && w.val.Some? && w.val.value.Many?
    case _ => false
  }

  predicate HasNull(operand: Operand) {
    match operand
    case One(scalar) => scalar.Null?
    case Many(scalars) => exists i :: 0 <= i < |scalars| && scalars[i].Null?
  }

  predicate NamesColumn(e: QueryError) {
    e.UnsafeColumn? || e.UnknownColumn? || e.DisallowedColumn?
  }

  function FaultyColumn(e: QueryError): string
    requires NamesColumn(e)
  {
    match e
    case UnsafeColumn(c) => c
    case UnknownColumn(c) => c
    case DisallowedColumn(c) => c
  }

  lemma ColumnRefusedTruly(col: string, schema: TableSchema)
    requires ValidateColumn(col, schema).Err?
    ensures var e := ValidateColumn(col, schema).error; NamesColumn(e) && FaultyColumn(e) == col && ColumnFault(e, schema)
  {
    ValidatedExactly(col, schema);
  }

  lemma {:induction false} ColumnsRefusedTruly(columns: seq<string>, schema: TableSchema)
    requires CheckColumns(columns, schema).Err?
    ensures var e := CheckColumns(columns, schema).error; NamesColumn(e) && FaultyColumn(e) in columns && ColumnFault(e, schema)
    decreases |columns|
  {
    if ValidateColumn(columns[0], schema).Err? {
      ColumnRefusedTruly(columns[0], schema);
    } else {
      ColumnsRefusedTruly(columns[1..], schema);
    }
  }

  lemma {:induction false} BindRefusedTruly(ss: seq<Scalar>, op: WhereOp)
    requires BindValues(ss, op).Err?
    ensures BindValues(ss, op).error == OperatorRequiresNoValue(op) && exists i :: 0 <= i < |ss| && ss[i].Null?
    decreases |ss|
  {
    if !ss[0].Null? {
      BindRefusedTruly(ss[1..], op);
      var i :| 0 <= i < |ss[1..]| && ss[1..][i].Null?;
      assert ss[i + 1].Null?;
    }
  }

  lemma ClauseRefusedTruly(w: WhereClause, column: ColumnInfo)
    requires PlanClause(w, column).Err?
    ensures ClauseFault(PlanClause(w, column).error, w, column.dataType)
  {
    if w.val.Some? && w.val.value.Many? && BindValues(w.val.value.scalars, w.op).Err? {
      BindRefusedTruly(w.val.value.scalars, w.op);
    }
  }

  /** Some condition is at fault: its column, or its operator and operand. */
  predicate SomeClauseFault(e: QueryError, ws: seq<WhereClause>, schema: TableSchema) {
    exists i :: 0 <= i < |ws| && ClauseRefused(e, ws[i], schema)
  }

  predicate ClauseRefused(e: QueryError, w: WhereClause, schema: TableSchema) {
    || (NamesColumn(e) && FaultyColumn(e) == w.col && ColumnFault(e, schema))
    || (ValidateColumn(w.col, schema).Ok? && ClauseFault(e, w, ValidateColumn(w.col, schema).value.dataType))
  }

  lemma {:induction false} ClausesRefusedTruly(ws: seq<WhereClause>, schema: TableSchema)
    requires PlanClauses(ws, schema).Err?
    ensures SomeClauseFault(PlanClauses(ws, schema).error, ws, schema)
    decreases |ws|
  {
    var e := PlanClauses(ws, schema).error;
    if ValidateColumn(ws[0].col, schema).Err? {
      ColumnRefusedTruly(ws[0].col, schema);
      assert ClauseRefused(e, ws[0], schema);
    } else if PlanClause(ws[0], ValidateColumn(ws[0].col, schema).value).Err? {
      ClauseRefusedTruly(ws[0], ValidateColumn(ws[0].col, schema).value);
      assert ClauseRefused(e, ws[0], schema);
    } else {
      ClausesRefusedTruly(ws[1..], schema);
      var i :| 0 <= i < |ws[1..]| && ClauseRefused(e, ws[1..][i], schema);
      assert ClauseRefused(e, ws[i + 1], schema);
    }
  }

  /** Every refusal names truly what is wrong with the query: the table, a column it asks for, a condition, or the
      limit. */
  lemma RefusalIsTrue(q: CannedQuery, schema: TableSchema)
    requires Plan(q, schema).Err?
    ensures var e := Plan(q, schema).error;
      || (e == TableMismatch(q.table, schema.table) && q.table != schema.table)
      || (NamesColumn(e) && Asks(q, schema, FaultyColumn(e)) && ColumnFault(e, schema))
      || SomeClauseFault(e, Conditions(q), schema)
      || (q.limit.Some? && e == LimitExceedsCap(q.limit.value, Ceiling(schema)) && q.limit.value > Ceiling(schema))
  {
    var e := Plan(q, schema).error;
    if q.table != schema.table {
    } else if CheckColumns(SelectedColumns(q, schema), schema).Err? {
      ColumnsRefusedTruly(SelectedColumns(q, schema), schema);
    } else if PlanClauses(Conditions(q), schema).Err? {
      ClausesRefusedTruly(Conditions(q), schema);
    } else if CheckColumns(OrderColumns(Ordering(q)), schema).Err? {
      ColumnsRefusedTruly(OrderColumns(Ordering(q)), schema);
      OrderColumnsAre(Ordering(q));
      var i :| 0 <= i < |Ordering(q)| && OrderColumns(Ordering(q))[i] == FaultyColumn(e);
      assert Ordering(q)[i].col == FaultyColumn(e);
    }
  }

  // ---- What a planned select may touch

  /** Every column the select names: selected, compared or ordered by. */
  predicate Mentions(s: Select, col: string) {
    || col in s.columns
    || (exists i :: 0 <= i < |s.clauses| && s.clauses[i].col == col)
    || (exists i :: 0 <= i < |s.order| && s.order[i].col == col)
  }

  /** Known to the schema, allowed by it, and neither a keyword nor able to end the statement. */
  predicate Permitted(col: string, schema: TableSchema) {
    !Unsafe(col) && exists i :: 0 <= i < |schema.columns| && schema.columns[i].name == col && schema.columns[i].allowed
  }

  lemma {:induction false} FoundIsListed(columns: seq<ColumnInfo>, name: string)
    ensures Find(columns, name).Some? ==> Find(columns, name).value in columns && Find(columns, name).value.name == name
    decreases |columns|
  {
    if columns != [] {
      FoundIsListed(columns[1..], name);
    }
  }

  lemma ValidatedIsPermitted(col: string, schema: TableSchema)
    requires ValidateColumn(col, schema).Ok?
    ensures Permitted(col, schema)
  {
    FoundIsListed(schema.columns, col);
    var i :| 0 <= i < |schema.columns| && schema.columns[i] == Find(schema.columns, col).value;
  }

  lemma {:induction false} CheckedArePermitted(columns: seq<string>, schema: TableSchema)
    requires CheckColumns(columns, schema).Ok?
    ensures forall i :: 0 <= i < |columns| ==> Permitted(columns[i], schema)
    decreases |columns|
  {
    if columns != [] {
      ValidatedIsPermitted(columns[0], schema);
      CheckedArePermitted(columns[1..], schema);
      forall i | 0 <= i < |columns| ensures Permitted(columns[i], schema) {
        if i > 0 { assert columns[i] == columns[1..][i - 1]; }
      }
    }
  }

  lemma {:induction false} PlannedClausesArePermitted(ws: seq<WhereClause>, schema: TableSchema)
    requires PlanClauses(ws, schema).Ok?
    ensures var cs := PlanClauses(ws, schema).value; forall i :: 0 <= i < |cs| ==> Permitted(cs[i].col, schema)
    decreases |ws|
  {
    if ws != [] {
      ValidatedIsPermitted(ws[0].col, schema);
      PlannedClausesArePermitted(ws[1..], schema);
      var cs := PlanClauses(ws, schema).value;
      forall i | 0 <= i < |cs| ensures Permitted(cs[i].col, schema) {
        if i > 0 { assert cs[i] == PlanClauses(ws[1..], schema).value[i - 1]; }
      }
    }
  }

  lemma {:induction false} OrderColumnsAre(order: seq<OrderBy>)
    ensures |OrderColumns(order)| == |order|
    ensures forall i :: 0 <= i < |order| ==> OrderColumns(order)[i] == order[i].col
    decreases |order|
  {
    if order != [] {
      OrderColumnsAre(order[1..]);
      forall i | 0 <= i < |order| ensures OrderColumns(order)[i] == order[i].col {
        if i > 0 { assert order[i] == order[1..][i - 1]; }
      }
    }
  }

  /** A planned select reads the schema's own table, names only permitted columns, and asks for one row
      past the cap exactly when no lower limit was requested. */
  lemma PlannedIsPermitted(q: CannedQuery, schema: TableSchema)
    requires Plan(q, schema).Ok?
    ensures var s := Plan(q, schema).value;
      && s.table == schema.table
      && (forall col :: Mentions(s, col) ==> Permitted(col, schema))
      && s.limit <= Ceiling(schema) + 1
      && (s.limit == Ceiling(schema) + 1 <==> q.limit.None? || q.limit.value == Ceiling(schema))
  {
    var s := Plan(q, schema).value;
    CheckedArePermitted(s.columns, schema);
    PlannedClausesArePermitted(OrEmpty(q.clauses), schema);
    CheckedArePermitted(OrderColumns(s.order), schema);
    OrderColumnsAre(s.order);
  }

  // ---- Compilation

  datatype CompiledQuery = CompiledQuery(sql: string, binds: seq<Value>)

  function Compile(q: CannedQuery, schema: TableSchema, d: Dialect): QueryOutcome<CompiledQuery> {
    PlannedCanonical(q, schema);
    var s :- Plan(q, schema);
    Ok(CompiledQuery(SelectText(s, d), Binds(s)))
  }
}
