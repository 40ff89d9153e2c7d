/** Presentation tokens for table and column names (src/source/db/schema.rs): stable and
    collision-free over any history of calls, whatever names are allowed through. */
module SchemaTokens {
  import opened Queries
  import opened QueryReader
  import opened Sequences

  datatype Kind = Table | Column

  function Prefix(k: Kind): string {
    if k.Table? then "TABLE" else "COL"
  }

  /** At least three digits. */
  function Padded(n: nat): string {
    if n < 10 then "00" + Decimal(n) else if n < 100 then "0" + Decimal(n) else Decimal(n)
  }

  function Token(k: Kind, n: nat): string {
    "<" + (Prefix(k) + ("_" + (Padded(n) + ">")))
  }

  type Tokens = map<string, string>

  /** How the token of a kind and number is spelled. */
  type Spelling = (Kind, nat) -> string

  ghost predicate Distinct(name: Spelling) {
    forall k: Kind, l: Kind, m: nat, n: nat :: name(k, m) == name(l, n) ==> k == l && m == n
  }

  datatype State = State(tables: Tokens, columns: Tokens) {
    function Of(k: Kind): Tokens {
      if k.Table? then tables else columns
    }
  }

  const EMPTY := State(map[], map[])

  predicate EndsWith(s: string, suffix: string) {
    |suffix| <= |s| && s[|s| - |suffix|..] == suffix
  }

  const DEFAULT_ALLOWED: set<string> := {"id", "created_at", "updated_at", "deleted_at", "status", "type"}

  predicate PassedThrough(value: string, allowed: set<string>) {
    value in allowed || EndsWith(value, "_at") || value in DEFAULT_ALLOWED
  }

  /** A request for a name's token, and whether the name is allowed through as it is. */
  datatype Call = Call(kind: Kind, value: string, passes: bool)

  function Asked(kind: Kind, value: string, allowed: set<string>): Call {
    Call(kind, value, PassedThrough(value, allowed))
  }

  function Grown(tokens: Tokens, k: Kind, value: string, name: Spelling): Tokens {
    if value in tokens then tokens else tokens[value := name(k, |tokens| + 1)]
  }

  function AfterCall(s: State, c: Call, name: Spelling): State {
    if c.passes then s
    else if c.kind.Table? then s.(tables := Grown(s.tables, c.kind, c.value, name))
    else s.(columns := Grown(s.columns, c.kind, c.value, name))
  }

  function ResultOf(s: State, c: Call, name: Spelling): string {
    if c.passes then c.value else Grown(s.Of(c.kind), c.kind, c.value, name)[c.value]
  }

  class SchemaTokenizer {
    var tables: Tokens
    var columns: Tokens

    constructor ()
      ensures Contents() == EMPTY
    {
      tables, columns := map[], map[];
    }

    function Contents(): State
      reads this
    {
      State(tables, columns)
    }

    method TokenFor(kind: Kind, value: string, allowed: set<string>) returns (token: string)
      modifies this
      ensures token == ResultOf(old(Contents()), Asked(kind, value, allowed), Token)
      ensures Contents() == AfterCall(old(Contents()), Asked(kind, value, allowed), Token)
    {
      if PassedThrough(value, allowed) {
        return value;
      }
      var tokens := if kind.Table? then tables else columns;
      if value in tokens {
        return tokens[value];
      }
      token := Token(kind, |tokens| + 1);
      if kind.Table? {
        tables := tables[value := token];
      } else {
        columns := columns[value := token];
      }
    }
  }

  // ---- Tokens tell their kind and number

  lemma {:induction false} NumberSkipsZero(s: string)
    ensures Number(['0'] + s) == Number(s)
    decreases |s|
  {
    if s == [] {
      assert ['0'] + s == ['0'] && ['0'][..0] == [];
    } else {
      NumberSkipsZero(s[..|s| - 1]);
      assert (['0'] + s)[..|s|] == ['0'] + s[..|s| - 1];
    }
  }

  lemma PaddedReads(n: nat)
    ensures Number(Padded(n)) == n
  {
    DecimalReads(n);
    var d := Decimal(n);
    NumberSkipsZero(d);
    NumberSkipsZero(['0'] + d);
    assert "0" == ['0'] && "00" + d == ['0'] + (['0'] + d);
  }

  lemma TokensDiffer(k: Kind, l: Kind, m: nat, n: nat)
    requires Token(k, m) == Token(l, n)
    ensures k == l && m == n
  {
    var a, b := Prefix(k) + ("_" + (Padded(m) + ">")), Prefix(l) + ("_" + (Padded(n) + ">"));
    Halves("<", a);
    Halves("<", b);
    assert a[0] == Prefix(k)[0] && b[0] == Prefix(l)[0];
    Halves(Prefix(k), "_" + (Padded(m) + ">"));
    Halves(Prefix(l), "_" + (Padded(n) + ">"));
    Halves("_", Padded(m) + ">");
    Halves("_", Padded(n) + ">");
    SameFront(Padded(m), Padded(n), ">");
    PaddedReads(m);
    PaddedReads(n);
  }

  lemma TokenIsDistinct()
    ensures Distinct(Token)
  {
    forall k: Kind, l: Kind, m: nat, n: nat | Token(k, m) == Token(l, n)
      ensures k == l && m == n
    {
      TokensDiffer(k, l, m, n);
    }
  }

  /** What a token looks like: its kind's prefix and its number in at least three digits, without further zeros in
      front, between angle brackets. */
  lemma TokenSpelled(k: Kind, n: nat) returns (digits: string)
    ensures Token(k, n) == (if k == Table then "<TABLE_" else "<COL_") + (digits + ">")
    ensures AllDigits(digits) && Number(digits) == n && |digits| >= 3 && (n < 1000 <==> |digits| == 3)
  {
    digits := Padded(n);
    PaddedReads(n);
    PaddedDigits(n);
    var rest := digits + ">";
    var u := "_" + rest;
    if k == Table {
      Associates("TABLE", "_", rest);
      Associates("<", "TABLE_", rest);
      assert "TABLE" + "_" == "TABLE_" && "<" + "TABLE_" == "<TABLE_";
    } else {
      Associates("COL", "_", rest);
      Associates("<", "COL_", rest);
      assert "COL" + "_" == "COL_" && "<" + "COL_" == "<COL_";
    }
  }

  lemma PaddedDigits(n: nat)
    ensures AllDigits(Padded(n)) && |Padded(n)| >= 3 && (n < 1000 <==> |Padded(n)| == 3)
  {
    DecimalReads(n);
    if n >= 10 {
      DecimalReads(n / 10);
      if n >= 100 {
        DecimalReads(n / 100);
      }
    }
  }

  /** The names shown as they are: those allowed, those that end in "_at", and six that are allowed by default. */
  lemma PassesExactly(value: string, allowed: set<string>)
    ensures PassedThrough(value, allowed) <==>
      || value in allowed
      || (|value| >= 3 && value[|value| - 3] == '_' && value[|value| - 2] == 'a' && value[|value| - 1] == 't')
      || value in ["id", "created_at", "updated_at", "deleted_at", "status", "type"]
  {
    if |value| >= 3 {
      var end := value[|value| - 3..];
      assert end[0] == value[|value| - 3] && end[1] == value[|value| - 2] && end[2] == value[|value| - 1];
      assert "_at"[0] == '_' && "_at"[1] == 'a' && "_at"[2] == 't';
      assert end == "_at" <==> end[0] == '_' && end[1] == 'a' && end[2] == 't';
    }
  }

  // ---- Histories

  /** Every token is numbered within the map, and no two names share one. */
  ghost predicate Numbered(tokens: Tokens, k: Kind, name: Spelling) {
    && (forall v | v in tokens :: exists n: nat :: n <= |tokens| && tokens[v] == name(k, n))
    && (forall v, w | v in tokens && w in tokens && tokens[v] == tokens[w] :: v == w)
  }

  /** A token of the map, grown by one name, is an old one or the next. */
  lemma GrownToken(tokens: Tokens, k: Kind, value: string, name: Spelling, v: string)
    requires Numbered(tokens, k, name) && value !in tokens && v in Grown(tokens, k, value, name)
    ensures exists n: nat :: n <= |Grown(tokens, k, value, name)| && Grown(tokens, k, value, name)[v] == name(k, n)
  {
    var grown := Grown(tokens, k, value, name);
    assert |grown| == |tokens| + 1;
    if v == value {
      assert grown[v] == name(k, |tokens| + 1);
    } else {
      var n: nat :| n <= |tokens| && tokens[v] == name(k, n);
      assert n <= |grown| && grown[v] == name(k, n);
    }
  }

  lemma NextTokenIsNew(tokens: Tokens, k: Kind, name: Spelling, v: string)
    requires Numbered(tokens, k, name) && Distinct(name) && v in tokens
    ensures tokens[v] != name(k, |tokens| + 1)
  {
    var n: nat :| n <= |tokens| && tokens[v] == name(k, n);
  }

  lemma GrownTokensDiffer(tokens: Tokens, k: Kind, value: string, name: Spelling, v: string, w: string)
    requires Numbered(tokens, k, name) && Distinct(name) && value !in tokens
    requires var grown := Grown(tokens, k, value, name); v in grown && w in grown && grown[v] == grown[w]
    ensures v == w
  {
    if v in tokens { NextTokenIsNew(tokens, k, name, v); }
    if w in tokens { NextTokenIsNew(tokens, k, name, w); }
  }

  lemma GrowingKeepsNumbered(tokens: Tokens, k: Kind, value: string, name: Spelling)
    requires Numbered(tokens, k, name) && Distinct(name)
    ensures Numbered(Grown(tokens, k, value, name), k, name)
  {
    if value !in tokens {
      var grown := Grown(tokens, k, value, name);
      forall v | v in grown
        ensures exists n: nat :: n <= |grown| && grown[v] == name(k, n)
      {
        GrownToken(tokens, k, value, name, v);
      }
      forall v, w | v in grown && w in grown && grown[v] == grown[w]
        ensures v == w
      {
        GrownTokensDiffer(tokens, k, value, name, v, w);
      }
    }
  }

  function StateAt(cs: seq<Call>, i: nat, name: Spelling): State
    requires i <= |cs|
    decreases i
  {
    if i == 0 then EMPTY else AfterCall(StateAt(cs, i - 1, name), cs[i - 1], name)
  }

  /** The map of a kind after the first `i` calls. */
  function TokensAt(cs: seq<Call>, k: Kind, i: nat, name: Spelling): Tokens
    requires i <= |cs|
  {
    StateAt(cs, i, name).Of(k)
  }

  function ResultAt(cs: seq<Call>, i: nat, name: Spelling): string
    requires i < |cs|
  {
    ResultOf(StateAt(cs, i, name), cs[i], name)
  }

  /** A call grows the map of its own kind, if it is not allowed through. */
  lemma TokensNext(cs: seq<Call>, k: Kind, i: nat, name: Spelling)
    requires i < |cs|
    ensures var before := TokensAt(cs, k, i, name);
      TokensAt(cs, k, i + 1, name) == if cs[i].kind == k && !cs[i].passes then Grown(before, k, cs[i].value, name) else before
  {
  }

  lemma {:induction false} AlwaysNumbered(cs: seq<Call>, k: Kind, i: nat, name: Spelling)
    requires i <= |cs| && Distinct(name)
    ensures Numbered(TokensAt(cs, k, i, name), k, name)
    decreases i
  {
    if i > 0 {
      AlwaysNumbered(cs, k, i - 1, name);
      NumberedNext(cs, k, i - 1, i, name);
    }
  }

  lemma NumberedNext(cs: seq<Call>, k: Kind, i: nat, next: nat, name: Spelling)
    requires i < |cs| && next == i + 1 && Numbered(TokensAt(cs, k, i, name), k, name) && Distinct(name)
    ensures Numbered(TokensAt(cs, k, next, name), k, name)
  {
    TokensNext(cs, k, i, name);
    GrowingKeepsNumbered(TokensAt(cs, k, i, name), k, cs[i].value, name);
  }

  /** A token once given stays in the map. */
  lemma {:induction false} TokenStays(cs: seq<Call>, i: nat, j: nat, name: Spelling)
    requires i < j <= |cs| && !cs[i].passes
    ensures cs[i].value in TokensAt(cs, cs[i].kind, j, name)
    ensures TokensAt(cs, cs[i].kind, j, name)[cs[i].value] == ResultAt(cs, i, name)
    decreases j
  {
    TokensNext(cs, cs[i].kind, j - 1, name);
    if i + 1 < j {
      TokenStays(cs, i, j - 1, name);
    }
  }

  lemma StableAndDistinct(cs: seq<Call>, i: nat, j: nat, name: Spelling)
    requires i < |cs| && j < |cs| && !cs[i].passes && !cs[j].passes && Distinct(name)
    ensures ResultAt(cs, i, name) == ResultAt(cs, j, name) <==> cs[i].kind == cs[j].kind && cs[i].value == cs[j].value
  {
    TokenStays(cs, i, |cs|, name);
    TokenStays(cs, j, |cs|, name);
    AlwaysNumbered(cs, cs[i].kind, |cs|, name);
    AlwaysNumbered(cs, cs[j].kind, |cs|, name);
  }

  // ---- The number of a token, from the calls alone

  /** The distinct names of the kind asked for and not allowed through in the first `n` calls. */
  function NamesBefore(cs: seq<Call>, k: Kind, n: nat): set<string>
    requires n <= |cs|
  {
    set i | 0 <= i < n && cs[i].kind == k && !cs[i].passes :: cs[i].value
  }

  /** The first call that asks for the name and is not allowed through, no later than call `n`. */
  function FirstAsked(cs: seq<Call>, k: Kind, value: string, n: nat): (i: nat)
    requires n < |cs|
    ensures i <= n
    decreases n
  {
    if n > 0 && value in NamesBefore(cs, k, n) then FirstAsked(cs, k, value, n - 1) else n
  }

  /** One more than the number of names tokenised before the name of call `j` was. */
  function TokenNumber(cs: seq<Call>, j: nat): nat
    requires j < |cs|
  {
    |NamesBefore(cs, cs[j].kind, FirstAsked(cs, cs[j].kind, cs[j].value, j))| + 1
  }

  lemma NamesNext(cs: seq<Call>, k: Kind, n: nat)
    requires n < |cs|
    ensures NamesBefore(cs, k, n + 1)
         == NamesBefore(cs, k, n) + (if cs[n].kind == k && !cs[n].passes then {cs[n].value} else {})
  {
  }

  lemma {:induction false} KeysAreNames(cs: seq<Call>, k: Kind, n: nat, name: Spelling)
    requires n <= |cs|
    ensures TokensAt(cs, k, n, name).Keys == NamesBefore(cs, k, n)
    decreases n
  {
    if n > 0 {
      KeysAreNames(cs, k, n - 1, name);
      TokensNext(cs, k, n - 1, name);
      NamesNext(cs, k, n - 1);
    }
  }

  lemma SizeIsNames(cs: seq<Call>, k: Kind, n: nat, name: Spelling)
    requires n <= |cs|
    ensures |TokensAt(cs, k, n, name)| == |NamesBefore(cs, k, n)|
  {
    KeysAreNames(cs, k, n, name);
    assert |TokensAt(cs, k, n, name)| == |TokensAt(cs, k, n, name).Keys|;
  }

  /** A name already in the map has the token of its first call. */
  lemma {:induction false} NameIsNumbered(cs: seq<Call>, k: Kind, value: string, n: nat, name: Spelling)
    requires n < |cs| && value in NamesBefore(cs, k, n)
    ensures value in TokensAt(cs, k, n, name)
    ensures TokensAt(cs, k, n, name)[value] == name(k, |NamesBefore(cs, k, FirstAsked(cs, k, value, n))| + 1)
    decreases n
  {
    NamesNext(cs, k, n - 1);
    if value in NamesBefore(cs, k, n - 1) {
      NameIsNumbered(cs, k, value, n - 1, name);
      TokensNext(cs, k, n - 1, name);
    } else {
      NewNameIsNumbered(cs, k, value, n - 1, n, name);
    }
  }

  lemma NewNameIsNumbered(cs: seq<Call>, k: Kind, value: string, i: nat, next: nat, name: Spelling)
    requires i < |cs| && next == i + 1 && cs[i].kind == k && !cs[i].passes && cs[i].value == value && value !in NamesBefore(cs, k, i)
    ensures value in TokensAt(cs, k, next, name)
    ensures TokensAt(cs, k, next, name)[value] == name(k, |NamesBefore(cs, k, i)| + 1)
  {
    TokensNext(cs, k, i, name);
    KeysAreNames(cs, k, i, name);
    SizeIsNames(cs, k, i, name);
  }

  lemma NumberedByCalls(cs: seq<Call>, j: nat, name: Spelling)
    requires j < |cs| && !cs[j].passes
    ensures ResultAt(cs, j, name) == name(cs[j].kind, TokenNumber(cs, j))
  {
    var k, value := cs[j].kind, cs[j].value;
    KeysAreNames(cs, k, j, name);
    if value in NamesBefore(cs, k, j) {
      NameIsNumbered(cs, k, value, j, name);
    } else {
      SizeIsNames(cs, k, j, name);
    }
  }

  lemma CollidesExactly(cs: seq<Call>, i: nat, j: nat, name: Spelling)
    requires i < |cs| && j < |cs| && cs[i].kind == cs[j].kind && cs[i].value != cs[j].value && Distinct(name)
    ensures ResultAt(cs, i, name) == ResultAt(cs, j, name) <==>
      || (cs[i].passes && !cs[j].passes && cs[i].value == name(cs[j].kind, TokenNumber(cs, j)))
      || (cs[j].passes && !cs[i].passes && cs[j].value == name(cs[i].kind, TokenNumber(cs, i)))
  {
    if !cs[i].passes {
      NumberedByCalls(cs, i, name);
    }
    if !cs[j].passes {
      NumberedByCalls(cs, j, name);
    }
    if !cs[i].passes && !cs[j].passes {
      StableAndDistinct(cs, i, j, name);
    }
  }

  // ---- Main results

  /** Over any history, two calls that are not allowed through give the same token exactly when they ask for
      the same name of the same kind, whatever is allowed through in between. */
  lemma TokensAreStableAndDistinct(cs: seq<Call>, i: nat, j: nat)
    requires i < |cs| && j < |cs| && !cs[i].passes && !cs[j].passes
    ensures ResultAt(cs, i, Token) == ResultAt(cs, j, Token) <==> cs[i].kind == cs[j].kind && cs[i].value == cs[j].value
  {
    TokenIsDistinct();
    StableAndDistinct(cs, i, j, Token);
  }

  /** The token of a name that is not allowed through carries one more than the number of names of its kind
      tokenised before its first call. */
  lemma TokenIsNumbered(cs: seq<Call>, j: nat)
    requires j < |cs| && !cs[j].passes
    ensures ResultAt(cs, j, Token) == Token(cs[j].kind, TokenNumber(cs, j))
  {
    NumberedByCalls(cs, j, Token);
  }

  /** Two different names of a kind are shown alike exactly when one is allowed through and is spelled as the
      token of the other, whose number the calls determine. */
  lemma CollisionNeedsAllowedToken(cs: seq<Call>, i: nat, j: nat)
    requires i < |cs| && j < |cs| && cs[i].kind == cs[j].kind && cs[i].value != cs[j].value
    ensures ResultAt(cs, i, Token) == ResultAt(cs, j, Token) <==>
      || (cs[i].passes && !cs[j].passes && cs[i].value == Token(cs[j].kind, TokenNumber(cs, j)))
      || (cs[j].passes && !cs[i].passes && cs[j].value == Token(cs[i].kind, TokenNumber(cs, i)))
  {
    TokenIsDistinct();
    CollidesExactly(cs, i, j, Token);
  }

  /** Spelled as some token of the kind. */
  ghost predicate TokenShaped(k: Kind, value: string) {
    exists n: nat :: value == Token(k, n)
  }

  /** A history that allows no token-shaped name through shows different names differently. */
  lemma NoAllowedTokenNoCollision(cs: seq<Call>, i: nat, j: nat)
    requires i < |cs| && j < |cs| && cs[i].kind == cs[j].kind && cs[i].value != cs[j].value
    requires forall k | 0 <= k < |cs| && cs[k].passes :: !TokenShaped(cs[k].kind, cs[k].value)
    ensures ResultAt(cs, i, Token) != ResultAt(cs, j, Token)
  {
    CollisionNeedsAllowedToken(cs, i, j);
  }

  /** And it happens: a profile that allows the name `<COL_001>`. */
  lemma AllowedTokenCollides(value: string)
    requires !PassedThrough(value, {}) && value != Token(Column, 1)
    ensures var cs := [Asked(Column, value, {}), Asked(Column, Token(Column, 1), {Token(Column, 1)})];
      ResultAt(cs, 0, Token) == ResultAt(cs, 1, Token)
  {
    var cs := [Asked(Column, value, {}), Asked(Column, Token(Column, 1), {Token(Column, 1)})];
    assert ResultAt(cs, 0, Token) == Token(Column, 1);
  }
}
