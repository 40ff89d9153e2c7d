/** A reader of the emitted SQL, and the proof that text and binds alone give back
    the select they were made from. */
module QueryReader {
  import opened Queries
  import opened Sequences
  import opened Wrappers

  /** What was read, and the text after it. */
  datatype Read<+T> = Read(value: T, rest: string)

  predicate Starts(s: string, lit: string) {
    lit <= s
  }

  function After(s: string, lit: string): Option<string> {
    if Starts(s, lit) then Some(s[|lit|..]) else None
  }

  lemma AfterReads(lit: string, rest: string)
    ensures Starts(lit + rest, lit) && After(lit + rest, lit) == Some(rest)
  {
    Halves(lit, rest);
  }

  lemma Differs(s: string, lit: string, i: nat)
    requires i < |lit| && (i < |s| ==> s[i] != lit[i])
    ensures !Starts(s, lit)
  {
  }

  // ---- Lists

  /** Reads one item of a list that starts at bind `position`. */
  type Reader<!T> = (string, nat) -> Option<Read<T>>

  /** Items separated by `sep`; each moves the bind position on by its width. */
  function ReadList<T(!new)>(read: Reader<T>, width: T -> nat, sep: string, s: string, position: nat): Option<Read<seq<T>>>
    decreases |s|
  {
    match read(s, position)
    case None => None
    case Some(r) =>
      if Starts(r.rest, sep) && |r.rest[|sep|..]| < |s| then
        match ReadList(read, width, sep, r.rest[|sep|..], position + width(r.value))
        case None => None
        case Some(more) => Some(Read([r.value] + more.value, more.rest))
      else Some(Read([r.value], r.rest))
  }

  /** The reader gets `x` back from `text`, whatever text `stop` admits comes after it. */
  ghost predicate Inverts<T(!new)>(read: Reader<T>, stop: string -> bool, x: T, text: string, position: nat) {
    text != "" && forall rest: string | stop(rest) :: read(text + rest, position) == Some(Read(x, rest))
  }

  ghost predicate AllInvert<T(!new)>(read: Reader<T>, stop: string -> bool, width: T -> nat, items: seq<T>,
      texts: seq<string>, position: nat)
    decreases |items|
  {
    |items| == |texts| && (items != [] ==>
      && Inverts(read, stop, items[0], texts[0], position)
      && AllInvert(read, stop, width, items[1..], texts[1..], position + width(items[0])))
  }

  lemma AllInvertCons<T(!new)>(read: Reader<T>, stop: string -> bool, width: T -> nat, x: T, text: string,
      items: seq<T>, texts: seq<string>, position: nat)
    requires Inverts(read, stop, x, text, position)
    requires AllInvert(read, stop, width, items, texts, position + width(x))
    ensures AllInvert(read, stop, width, [x] + items, [text] + texts, position)
  {
    Cons(x, items);
    Cons(text, texts);
  }

  lemma ReadLast<T(!new)>(read: Reader<T>, width: T -> nat, sep: string, s: string, position: nat, x: T, rest: string)
    requires read(s, position) == Some(Read(x, rest)) && !Starts(rest, sep)
    ensures ReadList(read, width, sep, s, position) == Some(Read([x], rest))
  {
  }

  lemma ReadNext<T(!new)>(read: Reader<T>, width: T -> nat, sep: string, text: string, t: string, position: nat,
      x: T, xs: seq<T>, rest: string)
    requires text != "" && read(text + (sep + t), position) == Some(Read(x, sep + t))
    requires ReadList(read, width, sep, t, position + width(x)) == Some(Read(xs, rest))
    ensures ReadList(read, width, sep, text + (sep + t), position) == Some(Read([x] + xs, rest))
  {
    AfterReads(sep, t);
  }

  lemma JoinCons(texts: seq<string>, sep: string, rest: string)
    requires |texts| > 1
    ensures Join(texts, sep) + rest == texts[0] + (sep + (Join(texts[1..], sep) + rest))
  {
    var more := Join(texts[1..], sep);
    Associates(sep, more, rest);
    Associates(texts[0], sep + more, rest);
  }

  lemma Singleton<T>(s: seq<T>)
    requires |s| == 1
    ensures s == [s[0]]
  {
  }

  lemma {:induction false} ReadListExact<T(!new)>(read: Reader<T>, stop: string -> bool, width: T -> nat, sep: string,
      items: seq<T>, texts: seq<string>, position: nat, rest: string)
    requires items != [] && AllInvert(read, stop, width, items, texts, position)
    requires stop(rest) && !Starts(rest, sep) && forall t: string :: stop(sep + t)
    ensures ReadList(read, width, sep, Join(texts, sep) + rest, position) == Some(Read(items, rest))
    decreases |items|
  {
    if |items| == 1 {
      Singleton(items);
      ReadLast(read, width, sep, texts[0] + rest, position, items[0], rest);
    } else {
      var t := Join(texts[1..], sep) + rest;
      ReadListExact(read, stop, width, sep, items[1..], texts[1..], position + width(items[0]), rest);
      JoinCons(texts, sep, rest);
      assert stop(sep + t);
      ReadNext(read, width, sep, texts[0], t, position, items[0], items[1..], rest);
      Uncons(items);
    }
  }

  // ---- Quoted identifiers

  function ReadBody(s: string, q: char): Option<Read<string>>
    decreases |s|
  {
    if s == [] then None
    else if s[0] != q then
      match ReadBody(s[1..], q)
      case None => None
      case Some(r) => Some(Read([s[0]] + r.value, r.rest))
    else if |s| > 1 && s[1] == q then
      match ReadBody(s[2..], q)
      case None => None
      case Some(r) => Some(Read([q] + r.value, r.rest))
    else Some(Read("", s[1..]))
  }

  function ReadIdent(s: string, d: Dialect): Option<Read<string>> {
    if s != [] && s[0] == Delimiter(d) then ReadBody(s[1..], Delimiter(d)) else None
  }

  /** What a dialect puts around identifiers. */
  function Delimiter(d: Dialect): char {
    match d
    case Mysql => '`'
    case Sqlite => '`'
    case Postgres => '"'
  }

  lemma {:induction false} ReadBodyExact(id: string, q: char, rest: string)
    requires rest != [] ==> rest[0] != q
    ensures ReadBody(Doubled(id, q) + ([q] + rest), q) == Some(Read(id, rest))
    decreases |id|
  {
    var end := [q] + rest;
    if id == [] {
      assert Doubled(id, q) + end == end;
      Cons(q, rest);
    } else {
      var front := if id[0] == q then [q, q] else [id[0]];
      var tail := Doubled(id[1..], q);
      ReadBodyExact(id[1..], q, rest);
      Associates(front, tail, end);
      Halves(front, tail + end);
      assert (front + (tail + end))[0] == front[0];
      Uncons(id);
    }
  }

  lemma ReadIdentExact(id: string, d: Dialect, rest: string)
    requires rest != [] ==> rest[0] != Delimiter(d)
    ensures ReadIdent(EscapeIdent(id, d) + rest, d) == Some(Read(id, rest))
  {
    var q := Delimiter(d);
    assert q == QuoteOf(d);
    var body := Doubled(id, q) + [q];
    Associates([q], body, rest);
    Associates(Doubled(id, q), [q], rest);
    Cons(q, body + rest);
    ReadBodyExact(id, q, rest);
  }

  // ---- Placeholders

  predicate IsDigit(c: char) {
    '0' <= c <= '9'
  }

  function DigitRun(s: string): (n: nat)
    ensures n <= |s|
  {
    if s != [] && IsDigit(s[0]) then 1 + DigitRun(s[1..]) else 0
  }

  function Number(s: string): nat {
    if s == [] then 0
    else 10 * Number(s[..|s| - 1]) + (if IsDigit(s[|s| - 1]) then s[|s| - 1] as nat - '0' as nat else 0)
  }

  predicate AllDigits(s: string) {
    forall i | 0 <= i < |s| :: IsDigit(s[i])
  }

  predicate NoDigit(rest: string) {
    rest != [] ==> !IsDigit(rest[0])
  }

  lemma {:induction false} DecimalReads(n: nat)
    ensures AllDigits(Decimal(n)) && Number(Decimal(n)) == n
    decreases n
  {
    if n < 10 {
      assert Decimal(n)[..0] == [];
    } else {
      DecimalReads(n / 10);
      assert Decimal(n)[..|Decimal(n)| - 1] == Decimal(n / 10);
    }
  }

  lemma {:induction false} DigitRunIs(ds: string, rest: string)
    requires AllDigits(ds) && NoDigit(rest)
    ensures DigitRun(ds + rest) == |ds|
    decreases |ds|
  {
    if ds == [] {
      assert ds + rest == rest;
    } else {
      assert (ds + rest)[1..] == ds[1..] + rest;
      DigitRunIs(ds[1..], rest);
    }
  }

  /** The number of the bind a placeholder stands for: written in it, or its position. */
  function ReadPlaceholder(s: string, d: Dialect, position: nat): Option<Read<nat>> {
    if d.Postgres? then
      match After(s, "$")
      case None => None
      case Some(t) => if DigitRun(t) == 0 then None else Some(Read(Number(t[..DigitRun(t)]), t[DigitRun(t)..]))
    else
      match After(s, "?")
      case None => None
      case Some(t) => Some(Read(position, t))
  }

  function ReadValue(s: string, d: Dialect, binds: seq<Value>, position: nat): Option<Read<Value>> {
    match ReadPlaceholder(s, d, position)
    case None => None
    case Some(r) => if 1 <= r.value <= |binds| then Some(Read(binds[r.value - 1], r.rest)) else None
  }

  lemma ReadValueExact(d: Dialect, binds: seq<Value>, position: nat, rest: string)
    requires 1 <= position <= |binds| && NoDigit(rest)
    ensures ReadValue(Placeholder(d, position) + rest, d, binds, position) == Some(Read(binds[position - 1], rest))
  {
    if d.Postgres? {
      var t := Decimal(position);
      DecimalReads(position);
      Associates("$", t, rest);
      AfterReads("$", t + rest);
      DigitRunIs(t, rest);
      Halves(t, rest);
    } else {
      AfterReads("?", rest);
    }
  }

  // ---- Conditions

  function ReadOperator(s: string): Option<Read<WhereOp>> {
    if Starts(s, " = ") then Some(Read(Eq, s[3..]))
    else if Starts(s, " != ") then Some(Read(Ne, s[4..]))
    else if Starts(s, " > ") then Some(Read(Gt, s[3..]))
    else if Starts(s, " >= ") then Some(Read(Gte, s[4..]))
    else if Starts(s, " < ") then Some(Read(Lt, s[3..]))
    else if Starts(s, " <= ") then Some(Read(Lte, s[4..]))
    else if Starts(s, " LIKE ") then Some(Read(Like, s[6..]))
    else None
  }

  function OperatorToken(op: WhereOp): string
    requires IsComparison(op)
  {
    match op
    case Eq => " = "
    case Ne => " != "
    case Gt => " > "
    case Gte => " >= "
    case Lt => " < "
    case Lte => " <= "
    case Like => " LIKE "
  }

  lemma OperatorTokenIs(op: WhereOp, rest: string)
    requires IsComparison(op)
    ensures " " + (OperatorText(op) + (" " + rest)) == OperatorToken(op) + rest
  {
    assert " " + (OperatorText(op) + " ") == OperatorToken(op);
    Associates(OperatorText(op), " ", rest);
    Associates(" ", OperatorText(op) + " ", rest);
  }

  lemma ReadOperatorExact(op: WhereOp, rest: string)
    requires IsComparison(op)
    ensures ReadOperator(OperatorToken(op) + rest) == Some(Read(op, rest))
    ensures (OperatorToken(op) + rest)[1] != 'I'
  {
    var t := OperatorToken(op);
    var s := t + rest;
    AfterReads(t, rest);
    assert s[0] == t[0] && s[1] == t[1] && s[2] == t[2];
    if !op.Eq? { Differs(s, " = ", 1); }
    if !op.Ne? { Differs(s, " != ", 1); }
    if op.Gte? { Differs(s, " > ", 2); } else if !op.Gt? { Differs(s, " > ", 1); }
    if op.Gt? { Differs(s, " >= ", 2); } else if !op.Gte? { Differs(s, " >= ", 1); }
    if op.Lte? { Differs(s, " < ", 2); } else if !op.Lt? { Differs(s, " < ", 1); }
    if op.Lt? { Differs(s, " <= ", 2); } else if !op.Lte? { Differs(s, " <= ", 1); }
  }

  function ValueReader(d: Dialect, binds: seq<Value>): Reader<Value> {
    (s: string, position: nat) => ReadValue(s, d, binds, position)
  }

  function OneBind(v: Value): nat {
    1
  }

  /** Values separated by commas up to the closing parenthesis. */
  function ReadValues(s: string, d: Dialect, binds: seq<Value>, position: nat): Option<Read<seq<Value>>> {
    match ReadList(ValueReader(d, binds), OneBind, ", ", s, position)
    case None => None
    case Some(r) => if Starts(r.rest, ")") then Some(Read(r.value, r.rest[1..])) else None
  }

  function ReadCondition(col: string, s: string, d: Dialect, binds: seq<Value>, position: nat): Option<Read<Clause>> {
    if Starts(s, " IS NOT NULL") then Some(Read(Nullness(col, true), s[12..]))
    else if Starts(s, " IS NULL") then Some(Read(Nullness(col, false), s[8..]))
    else if Starts(s, " IN (") then
      match ReadValues(s[5..], d, binds, position)
      case None => None
      case Some(r) => Some(Read(Member(col, r.value), r.rest))
    else
      match ReadOperator(s)
      case None => None
      case Some(op) =>
        match ReadValue(op.rest, d, binds, position)
        case None => None
        case Some(r) => Some(Read(Compare(col, op.value, r.value), r.rest))
  }

  function ReadClause(s: string, d: Dialect, binds: seq<Value>, position: nat): Option<Read<Clause>> {
    match ReadIdent(s, d)
    case None => None
    case Some(id) => ReadCondition(id.value, id.rest, d, binds, position)
  }

  lemma ValueInverts(d: Dialect, binds: seq<Value>, position: nat)
    requires 1 <= position <= |binds|
    ensures Inverts(ValueReader(d, binds), NoDigit, binds[position - 1], Placeholder(d, position), position)
  {
    forall rest: string | NoDigit(rest) {
      ReadValueExact(d, binds, position, rest);
    }
  }

  lemma {:induction false} PlaceholdersInvert(read: Reader<Value>, d: Dialect, values: seq<Value>, position: nat)
    requires forall k: nat | k < |values| :: Inverts(read, NoDigit, values[k], Placeholder(d, position + k), position + k)
    ensures AllInvert(read, NoDigit, OneBind, values, Placeholders(d, position, |values|), position)
    decreases |values|
  {
    if values != [] {
      var more := values[1..];
      forall k: nat | k < |more|
        ensures Inverts(read, NoDigit, more[k], Placeholder(d, position + 1 + k), position + 1 + k)
      {
        assert more[k] == values[k + 1];
      }
      PlaceholdersInvert(read, d, more, position + 1);
      assert Inverts(read, NoDigit, values[0], Placeholder(d, position + 0), position + 0);
      AllInvertCons(read, NoDigit, OneBind, values[0], Placeholder(d, position), more, Placeholders(d, position + 1, |more|), position);
      Uncons(values);
    }
  }

  lemma SeparatorsStop(sep: string)
    requires sep != "" && !IsDigit(sep[0])
    ensures forall t: string :: NoDigit(sep + t)
  {
  }

  lemma ReadValuesExact(d: Dialect, binds: seq<Value>, position: nat, n: nat, rest: string)
    requires 0 < n && 1 <= position && position + n - 1 <= |binds|
    ensures ReadValues(Join(Placeholders(d, position, n), ", ") + (")" + rest), d, binds, position)
         == Some(Read(binds[position - 1..position - 1 + n], rest))
  {
    var end := ")" + rest;
    Differs(end, ", ", 0);
    var values := binds[position - 1..position - 1 + n];
    forall k: nat | k < |values|
      ensures Inverts(ValueReader(d, binds), NoDigit, values[k], Placeholder(d, position + k), position + k)
    {
      ValueInverts(d, binds, position + k);
    }
    PlaceholdersInvert(ValueReader(d, binds), d, values, position);
    SeparatorsStop(", ");
    ReadListExact(ValueReader(d, binds), NoDigit, OneBind, ", ", values, Placeholders(d, position, n), position, end);
    AfterReads(")", rest);
  }

  /** The values of `c` are the binds from `position` on. */
  ghost predicate Bound(c: Clause, binds: seq<Value>, position: nat) {
    1 <= position && position - 1 + |Values(c)| <= |binds|
    && binds[position - 1..position - 1 + |Values(c)|] == Values(c)
  }

  lemma ReadComparison(c: Clause, d: Dialect, binds: seq<Value>, position: nat, rest: string)
    requires WfClause(c) && Bound(c, binds, position) && NoDigit(rest) && c.Compare?
    ensures ReadCondition(c.col, ConditionText(c, d, position) + rest, d, binds, position) == Some(Read(c, rest))
  {
    var p, token := Placeholder(d, position), OperatorToken(c.op);
    OperatorTokenIs(c.op, p);
    Associates(token, p, rest);
    ReadOperatorExact(c.op, p + rest);
    NotKeyword(token + (p + rest));
    assert binds[position - 1] == Values(c)[0];
    ReadValueExact(d, binds, position, rest);
  }

  lemma ListCondition(col: string, t: string, d: Dialect, binds: seq<Value>, position: nat, values: seq<Value>, rest: string)
    requires ReadValues(t, d, binds, position) == Some(Read(values, rest))
    ensures ReadCondition(col, " IN (" + t, d, binds, position) == Some(Read(Member(col, values), rest))
  {
    AfterReads(" IN (", t);
    NotNullness(" IN (" + t, " IN (");
  }

  lemma ReadMember(c: Clause, d: Dialect, binds: seq<Value>, position: nat, rest: string)
    requires WfClause(c) && Bound(c, binds, position) && c.Member?
    ensures ReadCondition(c.col, ConditionText(c, d, position) + rest, d, binds, position) == Some(Read(c, rest))
  {
    var list := Join(Placeholders(d, position, |c.values|), ", ");
    Associates(list, ")", rest);
    Associates(" IN (", list + ")", rest);
    ReadValuesExact(d, binds, position, |c.values|, rest);
    ListCondition(c.col, list + (")" + rest), d, binds, position, c.values, rest);
  }

  lemma ReadNullness(c: Clause, d: Dialect, binds: seq<Value>, position: nat, rest: string)
    requires c.Nullness?
    ensures ReadCondition(c.col, ConditionText(c, d, position) + rest, d, binds, position) == Some(Read(c, rest))
  {
    if c.negated {
      AfterReads(" IS NOT NULL", rest);
    } else {
      AfterReads(" IS NULL", rest);
      var s := " IS NULL" + rest;
      assert s[5] == " IS NULL"[5];
      Differs(s, " IS NOT NULL", 5);
    }
  }

  lemma ReadConditionExact(c: Clause, d: Dialect, binds: seq<Value>, position: nat, rest: string)
    requires WfClause(c) && Bound(c, binds, position) && NoDigit(rest)
    ensures ReadCondition(c.col, ConditionText(c, d, position) + rest, d, binds, position) == Some(Read(c, rest))
  {
    match c
    case Compare(_, _, _) => ReadComparison(c, d, binds, position, rest);
    case Member(_, _) => ReadMember(c, d, binds, position, rest);
    case Nullness(_, _) => ReadNullness(c, d, binds, position, rest);
  }

  lemma NotKeyword(s: string)
    requires |s| > 1 && s[1] != 'I'
    ensures !Starts(s, " IS NOT NULL") && !Starts(s, " IS NULL") && !Starts(s, " IN (")
  {
    Differs(s, " IS NOT NULL", 1);
    Differs(s, " IS NULL", 1);
    Differs(s, " IN (", 1);
  }

  lemma NotNullness(s: string, lit: string)
    requires lit == " IN (" && Starts(s, lit)
    ensures !Starts(s, " IS NOT NULL") && !Starts(s, " IS NULL")
  {
    assert s[2] == lit[2];
    Differs(s, " IS NOT NULL", 2);
    Differs(s, " IS NULL", 2);
  }

  lemma ConditionStart(c: Clause, d: Dialect, position: nat, rest: string)
    requires WfClause(c)
    ensures var s := ConditionText(c, d, position) + rest; s != [] && s[0] == ' '
  {
  }

  lemma ReadClauseExact(c: Clause, d: Dialect, binds: seq<Value>, position: nat, rest: string)
    requires WfClause(c) && Bound(c, binds, position) && NoDigit(rest)
    ensures ReadClause(ClauseText(c, d, position) + rest, d, binds, position) == Some(Read(c, rest))
  {
    var t := ConditionText(c, d, position);
    Associates(EscapeIdent(c.col, d), t, rest);
    ConditionStart(c, d, position, rest);
    ReadIdentExact(c.col, d, t + rest);
    ReadConditionExact(c, d, binds, position, rest);
  }

  // ---- Conditions joined by one combinator

  function ClauseReader(d: Dialect, binds: seq<Value>): Reader<Clause> {
    (s: string, position: nat) => ReadClause(s, d, binds, position)
  }

  function BindCount(c: Clause): nat {
    |Values(c)|
  }

  /** The values of all the clauses are the binds from `position` on. */
  ghost predicate AllBound(cs: seq<Clause>, binds: seq<Value>, position: nat) {
    cs == [] || (Bound(cs[0], binds, position) && AllBound(cs[1..], binds, position + |Values(cs[0])|))
  }

  lemma Cut<T>(s: seq<T>, i: nat, a: seq<T>, b: seq<T>)
    requires i + |a| + |b| <= |s| && s[i..i + |a| + |b|] == a + b
    ensures s[i..i + |a|] == a && s[i + |a|..i + |a| + |b|] == b
  {
    Halves(a, b);
    assert s[i..i + |a| + |b|][..|a|] == s[i..i + |a|];
    assert s[i..i + |a| + |b|][|a|..] == s[i + |a|..i + |a| + |b|];
  }

  lemma {:induction false} ValuesBound(cs: seq<Clause>, binds: seq<Value>, position: nat)
    requires 1 <= position && position - 1 + |AllValues(cs)| <= |binds|
    requires binds[position - 1..position - 1 + |AllValues(cs)|] == AllValues(cs)
    ensures AllBound(cs, binds, position)
    decreases |cs|
  {
    if cs != [] {
      Cut(binds, position - 1, Values(cs[0]), AllValues(cs[1..]));
      ValuesBound(cs[1..], binds, position + |Values(cs[0])|);
    }
  }

  lemma ClauseInverts(c: Clause, d: Dialect, binds: seq<Value>, position: nat)
    requires WfClause(c) && Bound(c, binds, position)
    ensures Inverts(ClauseReader(d, binds), NoDigit, c, ClauseText(c, d, position), position)
  {
    forall rest: string | NoDigit(rest) {
      ReadClauseExact(c, d, binds, position, rest);
    }
  }

  lemma ClausesInvertStep(read: Reader<Clause>, cs: seq<Clause>, d: Dialect, position: nat, next: nat)
    requires cs != [] && WfClauses(cs) && next == position + BindCount(cs[0])
    requires Inverts(read, NoDigit, cs[0], ClauseText(cs[0], d, position), position)
    requires AllInvert(read, NoDigit, BindCount, cs[1..], ClauseTexts(cs[1..], d, next), next)
    ensures AllInvert(read, NoDigit, BindCount, cs, ClauseTexts(cs, d, position), position)
  {
    ClauseTextsParts(cs, d, position, next);
  }

  lemma RestBound(cs: seq<Clause>, binds: seq<Value>, position: nat, next: nat)
    requires cs != [] && WfClauses(cs) && AllBound(cs, binds, position) && next == position + BindCount(cs[0])
    ensures WfClauses(cs[1..]) && AllBound(cs[1..], binds, next) && WfClause(cs[0]) && Bound(cs[0], binds, position)
  {
  }

  lemma {:induction false} ClausesInvert(cs: seq<Clause>, d: Dialect, binds: seq<Value>, position: nat)
    requires WfClauses(cs) && AllBound(cs, binds, position)
    ensures AllInvert(ClauseReader(d, binds), NoDigit, BindCount, cs, ClauseTexts(cs, d, position), position)
    decreases |cs|
  {
    if cs != [] {
      var next := position + BindCount(cs[0]);
      RestBound(cs, binds, position, next);
      ClausesInvert(cs[1..], d, binds, next);
      ClauseInverts(cs[0], d, binds, position);
      ClausesInvertStep(ClauseReader(d, binds), cs, d, position, next);
    }
  }

  /** The whole condition; the separator after the first clause tells the combinator. */
  function ReadWhere(s: string, d: Dialect, binds: seq<Value>): Option<Read<(Combinator, seq<Clause>)>> {
    if !Starts(s, " WHERE ") then Some(Read((And, []), s))
    else
      match ReadClause(s[7..], d, binds, 1)
      case None => None
      case Some(first) =>
        var combinator := if Starts(first.rest, " OR ") then Or else And;
        match ReadList(ClauseReader(d, binds), BindCount, CombinatorText(combinator), s[7..], 1)
        case None => None
        case Some(r) => Some(Read((combinator, r.value), r.rest))
  }

  /** What follows the condition is the ordering or the limit. */
  predicate Tail(rest: string) {
    Starts(rest, " ORDER BY ") || Starts(rest, " LIMIT ")
  }

  lemma TailStarts(rest: string)
    requires Tail(rest)
    ensures NoDigit(rest) && !Starts(rest, " AND ") && !Starts(rest, " OR ") && !Starts(rest, " WHERE ") && rest[0] == ' '
  {
    if Starts(rest, " ORDER BY ") {
      TailDiffers(rest, " ORDER BY ");
      assert rest[3] == " ORDER BY "[3];
      Differs(rest, " OR ", 3);
    } else {
      TailDiffers(rest, " LIMIT ");
      Differs(rest, " OR ", 1);
    }
  }

  lemma TailDiffers(rest: string, lit: string)
    requires Starts(rest, lit) && |lit| > 3 && lit[0] == ' ' && lit[1] != 'A' && lit[1] != 'W'
    ensures rest[0] == lit[0] && rest[1] == lit[1] && NoDigit(rest)
    ensures !Starts(rest, " AND ") && !Starts(rest, " WHERE ")
  {
    Differs(rest, " AND ", 1);
    Differs(rest, " WHERE ", 1);
  }

  lemma ReadWhereExact(s: Select, d: Dialect, rest: string)
    requires Canonical(s) && Tail(rest)
    ensures ReadWhere(WhereText(s, d) + rest, d, Binds(s)) == Some(Read((s.combinator, s.clauses), rest))
  {
    TailStarts(rest);
    if s.clauses == [] {
      assert "" + rest == rest;
    } else {
      var sep := CombinatorText(s.combinator);
      var texts := Join(ClauseTexts(s.clauses, d, 1), sep);
      Associates(" WHERE ", texts, rest);
      AfterReads(" WHERE ", texts + rest);
      AllBoundInitially(s);
      FirstClause(s, d, rest);
      ClausesInvert(s.clauses, d, Binds(s), 1);
      SeparatorsStop(sep);
      ReadListExact(ClauseReader(d, Binds(s)), NoDigit, BindCount, sep, s.clauses, ClauseTexts(s.clauses, d, 1), 1, rest);
    }
  }

  lemma AllBoundInitially(s: Select)
    ensures AllBound(s.clauses, Binds(s), 1)
  {
    Halves(AllValues(s.clauses), [U64(s.limit)]);
    ValuesBound(s.clauses, Binds(s), 1);
  }

  /** After the first clause comes ` OR ` exactly when the clauses are joined by it. */
  lemma FirstClause(s: Select, d: Dialect, rest: string)
    requires Canonical(s) && Tail(rest) && s.clauses != []
    ensures var r := ReadClause(Join(ClauseTexts(s.clauses, d, 1), CombinatorText(s.combinator)) + rest, d, Binds(s), 1);
      r.Some? && (Starts(r.value.rest, " OR ") <==> s.combinator.Or?)
  {
    var sep, cs := CombinatorText(s.combinator), s.clauses;
    var texts := ClauseTexts(cs, d, 1);
    AllBoundInitially(s);
    TailStarts(rest);
    if |cs| == 1 {
      ReadClauseExact(cs[0], d, Binds(s), 1, rest);
    } else {
      var t := Join(texts[1..], sep) + rest;
      JoinCons(texts, sep, rest);
      SeparatorTells(s.combinator, t);
      ReadClauseExact(cs[0], d, Binds(s), 1, sep + t);
    }
  }

  lemma SeparatorTells(c: Combinator, tail: string)
    ensures var s := CombinatorText(c) + tail; NoDigit(s) && (Starts(s, " OR ") <==> c.Or?)
  {
    var s := CombinatorText(c) + tail;
    AfterReads(CombinatorText(c), tail);
    assert s[0] == CombinatorText(c)[0] && s[1] == CombinatorText(c)[1];
    if c.And? {
      Differs(s, " OR ", 1);
    }
  }

  // ---- Ordering

  function ReadOrder(s: string, d: Dialect): Option<Read<OrderBy>> {
    match ReadIdent(s, d)
    case None => None
    case Some(id) =>
      if Starts(id.rest, " ASC") then Some(Read(OrderBy(id.value, Asc), id.rest[4..]))
      else if Starts(id.rest, " DESC") then Some(Read(OrderBy(id.value, Desc), id.rest[5..]))
      else None
  }

  function OrderReader(d: Dialect): Reader<OrderBy> {
    (s: string, position: nat) => ReadOrder(s, d)
  }

  function NoBind<T>(x: T): nat {
    0
  }

  lemma ReadOrderExact(o: OrderBy, d: Dialect, rest: string)
    ensures ReadOrder(OrderPart(o, d) + rest, d) == Some(Read(o, rest))
  {
    var dir := if o.dir.Asc? then " ASC" else " DESC";
    Associates(EscapeIdent(o.col, d), dir, rest);
    assert (dir + rest)[0] == ' ';
    ReadIdentExact(o.col, d, dir + rest);
    AfterReads(dir, rest);
    if o.dir.Desc? {
      assert (dir + rest)[1] == dir[1];
      Differs(dir + rest, " ASC", 1);
    }
  }

  predicate Anything(rest: string) {
    true
  }

  lemma OrderInverts(o: OrderBy, d: Dialect)
    ensures Inverts(OrderReader(d), Anything, o, OrderPart(o, d), 0)
  {
    forall rest: string | Anything(rest) {
      ReadOrderExact(o, d, rest);
    }
  }

  lemma {:induction false} OrdersInvert(order: seq<OrderBy>, d: Dialect)
    ensures AllInvert(OrderReader(d), Anything, NoBind, order, OrderParts(order, d), 0)
    decreases |order|
  {
    if order != [] {
      OrderInverts(order[0], d);
      OrdersInvert(order[1..], d);
      AllInvertCons(OrderReader(d), Anything, NoBind, order[0], OrderPart(order[0], d), order[1..], OrderParts(order[1..], d), 0);
      Uncons(order);
    }
  }

  function ReadOrderBy(s: string, d: Dialect): Option<Read<seq<OrderBy>>> {
    if Starts(s, " ORDER BY ") then ReadList(OrderReader(d), NoBind, ", ", s[10..], 0) else Some(Read([], s))
  }

  lemma ReadOrderByExact(order: seq<OrderBy>, d: Dialect, rest: string)
    requires Starts(rest, " LIMIT ")
    ensures ReadOrderBy(OrderText(order, d) + rest, d) == Some(Read(order, rest))
    ensures Tail(OrderText(order, d) + rest)
  {
    LimitDiffers(rest);
    if order == [] {
      assert "" + rest == rest;
    } else {
      ReadOrderPartsExact(order, d, rest);
      var t := Join(OrderParts(order, d), ", ");
      Associates(" ORDER BY ", t, rest);
      AfterReads(" ORDER BY ", t + rest);
    }
  }

  lemma LimitDiffers(rest: string)
    requires Starts(rest, " LIMIT ")
    ensures !Starts(rest, ", ") && !Starts(rest, " ORDER BY ")
  {
    assert rest[0] == " LIMIT "[0] && rest[1] == " LIMIT "[1];
    Differs(rest, ", ", 0);
    Differs(rest, " ORDER BY ", 1);
  }

  lemma ReadOrderPartsExact(order: seq<OrderBy>, d: Dialect, rest: string)
    requires order != [] && Starts(rest, " LIMIT ")
    ensures ReadList(OrderReader(d), NoBind, ", ", Join(OrderParts(order, d), ", ") + rest, 0) == Some(Read(order, rest))
  {
    LimitDiffers(rest);
    OrdersInvert(order, d);
    ReadListExact(OrderReader(d), Anything, NoBind, ", ", order, OrderParts(order, d), 0, rest);
  }

  // ---- Columns

  function IdentReader(d: Dialect): Reader<string> {
    (s: string, position: nat) => ReadIdent(s, d)
  }

  function ReadColumns(s: string, d: Dialect): Option<Read<seq<string>>> {
    if Starts(s, "1") then Some(Read([], s[1..])) else ReadList(IdentReader(d), NoBind, ", ", s, 0)
  }

  predicate NoQuote(rest: string) {
    rest != [] ==> rest[0] in " ,"
  }

  lemma IdentInverts(id: string, d: Dialect)
    ensures Inverts(IdentReader(d), NoQuote, id, EscapeIdent(id, d), 0)
  {
    forall rest: string | NoQuote(rest) {
      ReadIdentExact(id, d, rest);
    }
  }

  lemma {:induction false} IdentsInvert(columns: seq<string>, d: Dialect)
    ensures AllInvert(IdentReader(d), NoQuote, NoBind, columns, Idents(columns, d), 0)
    decreases |columns|
  {
    if columns != [] {
      IdentInverts(columns[0], d);
      IdentsInvert(columns[1..], d);
      AllInvertCons(IdentReader(d), NoQuote, NoBind, columns[0], EscapeIdent(columns[0], d), columns[1..], Idents(columns[1..], d), 0);
      Uncons(columns);
    }
  }

  lemma JoinStart(texts: seq<string>, sep: string, rest: string, first: string)
    requires texts != [] && texts[0] == first != ""
    ensures (Join(texts, sep) + rest)[0] == first[0]
  {
  }

  lemma ReadColumnsExact(columns: seq<string>, d: Dialect, rest: string)
    requires rest != [] && rest[0] == ' '
    ensures ReadColumns(ColumnsText(columns, d) + rest, d) == Some(Read(columns, rest))
  {
    if columns == [] {
      AfterReads("1", rest);
    } else {
      IdentsInvert(columns, d);
      Differs(rest, ", ", 0);
      ReadListExact(IdentReader(d), NoQuote, NoBind, ", ", columns, Idents(columns, d), 0, rest);
      JoinStart(Idents(columns, d), ", ", rest, EscapeIdent(columns[0], d));
      Differs(ColumnsText(columns, d) + rest, "1", 0);
    }
  }

  // ---- The whole statement

  function ReadLimit(s: string, d: Dialect, binds: seq<Value>): Option<nat> {
    if !Starts(s, " LIMIT ") then None
    else
      match ReadValue(s[7..], d, binds, |binds|)
      case None => None
      case Some(r) => if r.value.U64? && r.rest == "" then Some(r.value.n) else None
  }

  function ReadSelect(s: string, d: Dialect, binds: seq<Value>): Option<Select> {
    match After(s, "SELECT ")
    case None => None
    case Some(a) =>
      match ReadColumns(a, d)
      case None => None
      case Some(columns) =>
        match After(columns.rest, " FROM ")
        case None => None
        case Some(b) =>
          match ReadIdent(b, d)
          case None => None
          case Some(table) => ReadFilters(columns.value, table.value, table.rest, d, binds)
  }

  function ReadFilters(columns: seq<string>, table: string, s: string, d: Dialect, binds: seq<Value>): Option<Select> {
    match ReadWhere(s, d, binds)
    case None => None
    case Some(w) =>
      match ReadOrderBy(w.rest, d)
      case None => None
      case Some(order) =>
        match ReadLimit(order.rest, d, binds)
        case None => None
        case Some(limit) => Some(Select(columns, table, w.value.0, w.value.1, order.value, limit))
  }

  function LimitText(s: Select, d: Dialect): string {
    " LIMIT " + Placeholder(d, |AllValues(s.clauses)| + 1)
  }

  lemma ReadLimitExact(s: Select, d: Dialect)
    ensures ReadLimit(LimitText(s, d), d, Binds(s)) == Some(s.limit)
    ensures Starts(LimitText(s, d), " LIMIT ")
  {
    var binds := Binds(s);
    var p := Placeholder(d, |binds|);
    AfterReads(" LIMIT ", p);
    ReadValueExact(d, binds, |binds|, "");
    assert p + "" == p;
  }

  function FiltersText(s: Select, d: Dialect): string
    requires WfClauses(s.clauses)
  {
    WhereText(s, d) + (OrderText(s.order, d) + LimitText(s, d))
  }

  lemma ReadFiltersExact(s: Select, d: Dialect)
    requires Canonical(s)
    ensures ReadFilters(s.columns, s.table, FiltersText(s, d), d, Binds(s)) == Some(s)
    ensures FiltersText(s, d) != "" && FiltersText(s, d)[0] == ' '
  {
    var limit := LimitText(s, d);
    ReadLimitExact(s, d);
    ReadOrderByExact(s.order, d, limit);
    ReadWhereExact(s, d, OrderText(s.order, d) + limit);
    FiltersStart(s, d, OrderText(s.order, d) + limit);
  }

  /** Reading the text of a select with its binds gives the select back, whatever
      characters its identifiers and values contain. */
  lemma RoundTrip(s: Select, d: Dialect)
    requires Canonical(s)
    ensures ReadSelect(SelectText(s, d), d, Binds(s)) == Some(s)
  {
    var from := EscapeIdent(s.table, d) + FiltersText(s, d);
    ReadFiltersExact(s, d);
    ReadIdentExact(s.table, d, FiltersText(s, d));
    AfterReads(" FROM ", from);
    assert (" FROM " + from)[0] == ' ';
    ReadColumnsExact(s.columns, d, " FROM " + from);
    AfterReads("SELECT ", ColumnsText(s.columns, d) + (" FROM " + from));
  }

  lemma FiltersStart(s: Select, d: Dialect, order: string)
    requires WfClauses(s.clauses) && Tail(order)
    ensures (WhereText(s, d) + order)[0] == ' '
  {
    TailStarts(order);
    if s.clauses == [] {
      assert "" + order == order;
    }
  }

  /** What was read is the normalised query: its table, its columns or the schema's allowed ones, its conditions
      in order, its ordering, its limit and, where it matters, its combinator. */
  ghost predicate Recovers(s: Select, q: CannedQuery, schema: TableSchema) {
    && s.table == q.table && Selects(q, schema, s.columns) && s.order == Ordering(q)
    && |s.clauses| == |Conditions(q)|
    && (forall i | 0 <= i < |s.clauses| :: AsRequested(s.clauses[i]) == Conditions(q)[i])
    && (|s.clauses| > 1 ==> s.combinator == if q.combinator.Some? then q.combinator.value else And)
    && s.limit == if q.limit.Some? && q.limit.value < Ceiling(schema) then q.limit.value else Ceiling(schema) + 1
  }

  /** For every query, schema and dialect for which compilation succeeds, the text and the binds alone give
      the normalised query back. */
  lemma CompiledQueryIsRecovered(q: CannedQuery, schema: TableSchema, d: Dialect)
    requires Compile(q, schema, d).Ok?
    ensures var c := Compile(q, schema, d).value;
      var s := ReadSelect(c.sql, d, c.binds); s.Some? && Recovers(s.value, q, schema)
  {
    PlannedCanonical(q, schema);
    RoundTrip(Plan(q, schema).value, d);
    PlannedRecovers(q, schema);
  }

  lemma PlannedRecovers(q: CannedQuery, schema: TableSchema)
    requires Plan(q, schema).Ok?
    ensures Recovers(Plan(q, schema).value, q, schema)
  {
    PlanClausesExact(Conditions(q), schema);
    SelectedExactly(q, schema);
  }

  /** Two queries compiled for one dialect to the same text and binds stand for the same select. */
  lemma CompilationInjective(a: CannedQuery, sa: TableSchema, b: CannedQuery, sb: TableSchema, d: Dialect)
    requires Plan(a, sa).Ok? && Plan(b, sb).Ok?
    requires Compile(a, sa, d) == Compile(b, sb, d)
    ensures Plan(a, sa) == Plan(b, sb)
  {
    var pa, pb := Plan(a, sa).value, Plan(b, sb).value;
    PlannedCanonical(a, sa);
    PlannedCanonical(b, sb);
    RoundTrip(pa, d);
    RoundTrip(pb, d);
  }
}
