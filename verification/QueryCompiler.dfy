/** The compiler as the program runs it (src/source/db/query.rs): text, binds and
    placeholder numbers grow step by step, and the result is the planned select's
    text with its binds. */
module QueryCompiler {
  import opened Queries
  import opened Sequences
  import opened Wrappers

  class PlaceholderState {
    const dialect: Dialect
    var nextIndex: nat

    constructor (dialect: Dialect)
      ensures this.dialect == dialect && Synced([])
    {
      this.dialect := dialect;
      nextIndex := 1;
    }

    /** The next numbered placeholder is the one of the next bind. */
    predicate Synced(binds: seq<Value>)
      reads this
    {
      dialect.Postgres? ==> nextIndex == |binds| + 1
    }

    method Next() returns (text: string)
      modifies this
      ensures text == Placeholder(dialect, old(nextIndex))
      ensures nextIndex == old(nextIndex) + if dialect.Postgres? then 1 else 0
    {
      match dialect
      case Postgres =>
        text := "$" + Decimal(nextIndex);
        nextIndex := nextIndex + 1;
      case _ =>
        text := "?";
    }

    /** One placeholder for each of `n` values already bound after `before`. */
    method Several(n: nat, ghost before: seq<Value>) returns (parts: seq<string>)
      requires Synced(before)
      modifies this
      ensures parts == Placeholders(dialect, |before| + 1, n)
      ensures dialect.Postgres? ==> nextIndex == |before| + 1 + n
    {
      parts := [];
      for i := 0 to n
        invariant parts == Placeholders(dialect, |before| + 1, i)
        invariant dialect.Postgres? ==> nextIndex == |before| + 1 + i
      {
        PlaceholdersGrow(dialect, |before| + 1, i);
        var next := Next();
        parts := parts + [next];
      }
    }
  }

  lemma {:induction false} PlaceholdersGrow(d: Dialect, index: nat, n: nat)
    ensures Placeholders(d, index, n + 1) == Placeholders(d, index, n) + [Placeholder(d, index + n)]
    decreases n
  {
    if n > 0 {
      PlaceholdersGrow(d, index + 1, n - 1);
      Associates([Placeholder(d, index)], Placeholders(d, index + 1, n - 1), [Placeholder(d, index + n)]);
    }
  }

  /** The outcome of the whole is `done` followed by the outcome of what is left. */
  ghost predicate Continues<T(!new)>(whole: QueryOutcome<seq<T>>, done: seq<T>, left: QueryOutcome<seq<T>>) {
    if left.Ok? then whole == Ok(done + left.value) else whole == Err(left.error)
  }

  lemma ContinuesWith<T(!new)>(whole: QueryOutcome<seq<T>>, done: seq<T>, x: T, left: QueryOutcome<seq<T>>)
    requires Continues(whole, done, if left.Ok? then Ok([x] + left.value) else Err(left.error))
    ensures Continues(whole, done + [x], left)
  {
    if left.Ok? {
      Associates(done, [x], left.value);
    }
  }

  lemma ContinuesAtStart<T(!new)>(whole: QueryOutcome<seq<T>>)
    ensures Continues(whole, [], whole)
  {
    if whole.Ok? {
      assert [] + whole.value == whole.value;
    }
  }

  lemma ContinuesAtEnd<T(!new)>(whole: QueryOutcome<seq<T>>, done: seq<T>)
    requires Continues(whole, done, Ok([]))
    ensures whole == Ok(done)
  {
    assert done + [] == done;
  }

  lemma Ends<T>(s: seq<T>)
    ensures s[0..] == s && s[..|s|] == s && s[|s|..] == []
  {
  }

  lemma Prefix<T>(s: seq<T>, i: nat)
    requires i < |s|
    ensures s[..i + 1] == s[..i] + [s[i]]
  {
  }

  lemma Peel<T>(s: seq<T>, i: nat)
    requires i < |s|
    ensures s[i..] != [] && s[i..][0] == s[i] && s[i..][1..] == s[i + 1..]
  {
  }

  /** Binds every value of a list; stops at the first NULL. */
  method BindAll(scalars: seq<Scalar>, op: WhereOp, binds: seq<Value>) returns (r: QueryOutcome<()>, grown: seq<Value>)
    ensures match BindValues(scalars, op)
      case Ok(values) => r == Ok(()) && grown == binds + values
      case Err(e) => r == Err(e)
  {
    grown := binds;
    ghost var done: seq<Value> := [];
    Ends(scalars);
    ContinuesAtStart(BindValues(scalars, op));
    assert binds + done == binds;
    for i := 0 to |scalars|
      invariant grown == binds + done
      invariant Continues(BindValues(scalars, op), done, BindValues(scalars[i..], op))
    {
      Peel(scalars, i);
      var value := BindValue(scalars[i], op);
      if value.Err? {
        return Err(value.error), grown;
      }
      ContinuesWith(BindValues(scalars, op), done, value.value, BindValues(scalars[i + 1..], op));
      Associates(binds, done, [value.value]);
      grown := grown + [value.value];
      done := done + [value.value];
    }
    ContinuesAtEnd(BindValues(scalars, op), done);
    r := Ok(());
  }

  method CompileWhereClause(clause: WhereClause, column: ColumnInfo, binds: seq<Value>, placeholders: PlaceholderState)
    returns (r: QueryOutcome<string>, grown: seq<Value>)
    requires placeholders.Synced(binds)
    modifies placeholders
    ensures match PlanClause(clause, column)
      case Ok(c) =>
        && WfClause(c) && r == Ok(ClauseText(c, placeholders.dialect, |binds| + 1))
        && grown == binds + Values(c) && placeholders.Synced(grown)
      case Err(e) => r == Err(e)
  {
    grown := binds;
    var op := clause.op;
    if !OperatorMatchesType(op, column.dataType) {
      return Err(OperatorTypeMismatch(clause.col, op, column.dataType)), grown;
    }
    var ident := EscapeIdent(clause.col, placeholders.dialect);
    match op
    case IsNull | IsNotNull =>
      if clause.val.Some? {
        return Err(OperatorRequiresNoValue(op)), grown;
      }
      assert binds + [] == binds;
      return Ok(ident + (if op.IsNotNull? then " IS NOT NULL" else " IS NULL")), grown;
    case In =>
      if clause.val.None? {
        return Err(OperatorRequiresValue(op)), grown;
      }
      if clause.val.value.One? || clause.val.value.scalars == [] {
        return Err(OperatorRequiresList(op)), grown;
      }
      var bound: QueryOutcome<()>;
      bound, grown := BindAll(clause.val.value.scalars, op, binds);
      if bound.Err? {
        return Err(bound.error), grown;
      }
      var parts := placeholders.Several(|clause.val.value.scalars|, binds);
      return Ok(ident + (" IN (" + (Join(parts, ", ") + ")"))), grown;
    case _ =>
      if clause.val.None? {
        return Err(OperatorRequiresValue(op)), grown;
      }
      if clause.val.value.Many? {
        return Err(OperatorRequiresScalar(op)), grown;
      }
      var value := BindValue(clause.val.value.scalar, op);
      if value.Err? {
        return Err(value.error), grown;
      }
      grown := binds + [value.value];
      var next := placeholders.Next();
      return Ok(ident + (" " + (OperatorText(op) + (" " + next)))), grown;
  }

  /** The texts and values of `whole` are the ones so far, followed by those of `left`. */
  ghost predicate Splits(whole: seq<Clause>, left: seq<Clause>, parts: seq<string>, binds: seq<Value>, d: Dialect) {
    && WfClauses(whole) && WfClauses(left)
    && ClauseTexts(whole, d, 1) == parts + ClauseTexts(left, d, |binds| + 1)
    && AllValues(whole) == binds + AllValues(left)
  }

  lemma TextsLater(whole: seq<string>, parts: seq<string>, texts: seq<string>)
    requires texts != [] && whole == parts + texts
    ensures whole == (parts + [texts[0]]) + texts[1..]
  {
    Uncons(texts);
    Shift(whole, parts, [texts[0]], texts[1..]);
  }

  lemma ValuesLater(whole: seq<Value>, all: seq<Clause>, binds: seq<Value>)
    requires all != [] && whole == binds + AllValues(all)
    ensures whole == binds + Values(all[0]) + AllValues(all[1..])
  {
    Shift(whole, binds, Values(all[0]), AllValues(all[1..]));
  }

  lemma SplitsLater(whole: seq<Clause>, all: seq<Clause>, parts: seq<string>, binds: seq<Value>, d: Dialect)
    requires all != [] && Splits(whole, all, parts, binds, d)
    ensures Splits(whole, all[1..], parts + [ClauseText(all[0], d, |binds| + 1)], binds + Values(all[0]), d)
  {
    var next := |binds + Values(all[0])| + 1;
    ClauseTextsParts(all, d, |binds| + 1, next);
    TextsLater(ClauseTexts(whole, d, 1), parts, ClauseTexts(all, d, |binds| + 1));
    ValuesLater(AllValues(whole), all, binds);
  }

  lemma Shift<T>(whole: seq<T>, done: seq<T>, next: seq<T>, left: seq<T>)
    requires whole == done + (next + left)
    ensures whole == (done + next) + left
  {
    Associates(done, next, left);
  }

  /** With the texts and binds so far, compiling what is left completes the whole. */
  ghost predicate Carries(whole: QueryOutcome<seq<Clause>>, left: QueryOutcome<seq<Clause>>, parts: seq<string>,
      binds: seq<Value>, d: Dialect)
  {
    if left.Err? then whole == Err(left.error) else whole.Ok? && Splits(whole.value, left.value, parts, binds, d)
  }

  lemma CarriesAtStart(clauses: seq<WhereClause>, schema: TableSchema, d: Dialect)
    ensures Carries(PlanClauses(clauses, schema), PlanClauses(clauses, schema), [], [], d)
  {
    PlannedClausesWf(clauses, schema);
    var planned := PlanClauses(clauses, schema);
    if planned.Ok? {
      var texts, values := ClauseTexts(planned.value, d, 1), AllValues(planned.value);
      assert [] + texts == texts && [] + values == values;
    }
  }

  lemma CarriesOn(whole: QueryOutcome<seq<Clause>>, c: Clause, left: QueryOutcome<seq<Clause>>, parts: seq<string>,
      binds: seq<Value>, d: Dialect)
    requires Carries(whole, if left.Ok? then Ok([c] + left.value) else Err(left.error), parts, binds, d)
    requires WfClause(c) && (left.Ok? ==> WfClauses(left.value))
    ensures Carries(whole, left, parts + [ClauseText(c, d, |binds| + 1)], binds + Values(c), d)
  {
    if left.Ok? {
      SplitsLater(whole.value, [c] + left.value, parts, binds, d);
      Cons(c, left.value);
    }
  }

  lemma CarriesAtEnd(whole: QueryOutcome<seq<Clause>>, parts: seq<string>, binds: seq<Value>, d: Dialect)
    requires Carries(whole, Ok([]), parts, binds, d)
    ensures whole.Ok? && WfClauses(whole.value) && parts == ClauseTexts(whole.value, d, 1) && binds == AllValues(whole.value)
  {
    assert parts + [] == parts && binds + [] == binds;
  }

  /** The conditions, one after another. */
  method CompileClauses(clauses: seq<WhereClause>, schema: TableSchema, placeholders: PlaceholderState)
    returns (r: QueryOutcome<seq<string>>, binds: seq<Value>)
    requires placeholders.Synced([])
    modifies placeholders
    ensures match PlanClauses(clauses, schema)
      case Ok(cs) =>
        && WfClauses(cs) && r == Ok(ClauseTexts(cs, placeholders.dialect, 1))
        && binds == AllValues(cs) && placeholders.Synced(binds)
      case Err(e) => r == Err(e)
  {
    ghost var whole := PlanClauses(clauses, schema);
    var parts := [];
    binds := [];
    Ends(clauses);
    CarriesAtStart(clauses, schema, placeholders.dialect);
    for i := 0 to |clauses|
      invariant placeholders.Synced(binds)
      invariant Carries(whole, PlanClauses(clauses[i..], schema), parts, binds, placeholders.dialect)
    {
      Peel(clauses, i);
      var column := ValidateColumn(clauses[i].col, schema);
      if column.Err? {
        return Err(column.error), binds;
      }
      var part, grown := CompileWhereClause(clauses[i], column.value, binds, placeholders);
      if part.Err? {
        return Err(part.error), binds;
      }
      PlannedClausesWf(clauses[i + 1..], schema);
      CarriesOn(whole, PlanClause(clauses[i], column.value).value, PlanClauses(clauses[i + 1..], schema),
                parts, binds, placeholders.dialect);
      parts, binds := parts + [part.value], grown;
    }
    CarriesAtEnd(whole, parts, binds, placeholders.dialect);
    r := Ok(parts);
  }

  method ValidateAll(columns: seq<string>, schema: TableSchema) returns (r: QueryOutcome<()>)
    ensures r == CheckColumns(columns, schema)
  {
    Ends(columns);
    for i := 0 to |columns|
      invariant CheckColumns(columns, schema) == CheckColumns(columns[i..], schema)
    {
      Peel(columns, i);
      var column := ValidateColumn(columns[i], schema);
      if column.Err? {
        return Err(column.error);
      }
    }
    r := Ok(());
  }

  lemma {:induction false} OrderGrows(order: seq<OrderBy>, o: OrderBy, d: Dialect)
    ensures OrderParts(order + [o], d) == OrderParts(order, d) + [OrderPart(o, d)]
    decreases |order|
  {
    if order != [] {
      assert (order + [o])[1..] == order[1..] + [o];
      OrderGrows(order[1..], o, d);
    }
  }

  method CompileOrder(order: seq<OrderBy>, schema: TableSchema, dialect: Dialect) returns (r: QueryOutcome<seq<string>>)
    ensures match CheckColumns(OrderColumns(order), schema)
      case Ok(_) => r == Ok(OrderParts(order, dialect))
      case Err(e) => r == Err(e)
  {
    var parts := [];
    Ends(order);
    for i := 0 to |order|
      invariant parts == OrderParts(order[..i], dialect)
      invariant CheckColumns(OrderColumns(order), schema) == CheckColumns(OrderColumns(order[i..]), schema)
    {
      Peel(order, i);
      Cons(order[i].col, OrderColumns(order[i + 1..]));
      var column := ValidateColumn(order[i].col, schema);
      if column.Err? {
        return Err(column.error);
      }
      OrderGrows(order[..i], order[i], dialect);
      Prefix(order, i);
      parts := parts + [OrderPart(order[i], dialect)];
    }
    r := Ok(parts);
  }

  lemma JoinOfOne(parts: seq<string>, a: string, b: string)
    requires |parts| < 2
    ensures Join(parts, a) == Join(parts, b)
  {
  }

  /** The text grown piece by piece is the text of the select. */
  lemma Assembled(head: string, table: string, filters: string, order: string, limit: string)
    ensures ("SELECT " + head + " FROM " + table) + filters + order + limit
         == "SELECT " + (head + (" FROM " + (table + (filters + (order + limit)))))
  {
    var a := "SELECT " + head + " FROM " + table;
    Associates(a, filters, order);
    Associates(a, filters + order, limit);
    Associates(filters, order, limit);
    var rest := filters + (order + limit);
    Associates("SELECT " + head + " FROM ", table, rest);
    Associates("SELECT " + head, " FROM ", table + rest);
    Associates("SELECT ", head, " FROM " + (table + rest));
  }

  /** The `WHERE` part, empty without clauses, and the values bound in it. */
  method CompileWhere(q: CannedQuery, schema: TableSchema, placeholders: PlaceholderState)
    returns (r: QueryOutcome<string>, binds: seq<Value>)
    requires placeholders.Synced([])
    modifies placeholders
    ensures match PlanClauses(OrEmpty(q.clauses), schema)
      case Ok(cs) =>
        && WfClauses(cs) && r == Ok(JoinedClauses(cs, Joiner(q.combinator, cs), placeholders.dialect))
        && binds == AllValues(cs) && placeholders.Synced(binds)
      case Err(e) => r == Err(e)
  {
    var parts;
    parts, binds := CompileClauses(OrEmpty(q.clauses), schema, placeholders);
    if parts.Err? {
      return Err(parts.error), binds;
    }
    ghost var clauses := PlanClauses(OrEmpty(q.clauses), schema).value;
    var combinator := CombinatorText(if q.combinator.Some? then q.combinator.value else And);
    if |clauses| < 2 {
      JoinOfOne(parts.value, combinator, CombinatorText(And));
    }
    r := Ok(if parts.value == [] then "" else " WHERE " + Join(parts.value, combinator));
  }

  method CompileLimit(limit: Option<nat>, cap: nat) returns (r: QueryOutcome<nat>)
    ensures r == PlanLimit(limit, cap)
  {
    if limit.Some? && limit.value > cap {
      return Err(LimitExceedsCap(limit.value, cap));
    }
    match limit
    case Some(requested) => r := Ok(if requested == cap then requested + 1 else requested);
    case None => r := Ok(cap + 1);
  }

  /** The `ORDER BY` part, empty without columns. */
  method CompileOrderBy(order: seq<OrderBy>, schema: TableSchema, dialect: Dialect) returns (r: QueryOutcome<string>)
    ensures match CheckColumns(OrderColumns(order), schema)
      case Ok(_) => r == Ok(OrderText(order, dialect))
      case Err(e) => r == Err(e)
  {
    var parts :- CompileOrder(order, schema, dialect);
    r := Ok(if parts == [] then "" else " ORDER BY " + Join(parts, ", "));
  }

  method CompileToSql(q: CannedQuery, schema: TableSchema, dialect: Dialect) returns (r: QueryOutcome<CompiledQuery>)
    ensures r == Compile(q, schema, dialect)
  {
    if q.table != schema.table {
      return Err(TableMismatch(q.table, schema.table));
    }
    var columns := SelectedColumns(q, schema);
    var _ :- ValidateAll(columns, schema);
    var sql := "SELECT " + ColumnsText(columns, dialect) + " FROM " + EscapeIdent(schema.table, dialect);
    var placeholders := new PlaceholderState(dialect);
    var filters, binds := CompileWhere(q, schema, placeholders);
    if filters.Err? {
      return Err(filters.error);
    }
    sql := sql + filters.value;
    var order :- CompileOrderBy(OrEmpty(q.orderBy), schema, dialect);
    sql := sql + order;
    var limit :- CompileLimit(q.limit, HardCap(schema));
    var next := placeholders.Next();
    sql := sql + (" LIMIT " + next);
    Assembled(ColumnsText(columns, dialect), EscapeIdent(schema.table, dialect), filters.value, order, " LIMIT " + next);
    r := Ok(CompiledQuery(sql, binds + [U64(limit)]));
  }
}
