/** Keyword search over a window of log lines through a postings index (src/mcp/tools/log_grep.rs). */
module LogSearch {
  import opened LogTail
  import opened Sequences
  import opened Wrappers

  // ---- Increasing positions

  predicate Increasing(s: seq<nat>) {
    forall i, j | 0 <= i < j < |s| :: s[i] < s[j]
  }

  /** The positions below `n` that satisfy `p`, in order. */
  function Select(n: nat, p: nat -> bool): seq<nat>
    decreases n
  {
    if n == 0 then [] else Select(n - 1, p) + if p(n - 1) then [n - 1] else []
  }

  lemma {:induction false} SelectIs(n: nat, p: nat -> bool)
    ensures Increasing(Select(n, p)) && forall x: nat :: x in Select(n, p) <==> x < n && p(x)
    decreases n
  {
    if n > 0 {
      SelectIs(n - 1, p);
      var front := Select(n - 1, p);
      assert forall i | 0 <= i < |front| :: front[i] in front;
    }
  }

  /** An increasing list is determined by its elements. */
  lemma {:induction false} IncreasingIsUnique(a: seq<nat>, b: seq<nat>)
    requires Increasing(a) && Increasing(b) && forall x: nat :: x in a <==> x in b
    ensures a == b
    decreases |a|
  {
    FirstIsIn(a);
    FirstIsIn(b);
    if a != [] {
      var i :| 0 <= i < |b| && b[i] == a[0];
      var j :| 0 <= j < |a| && a[j] == b[0];
      assert a[0] == b[0];
      forall x: nat
        ensures x in a[1..] <==> x in b[1..]
      {
        RestHas(a, x);
        RestHas(b, x);
      }
      IncreasingIsUnique(a[1..], b[1..]);
      Uncons(a);
      Uncons(b);
    }
  }

  lemma RestHas(s: seq<nat>, x: nat)
    requires s != [] && Increasing(s)
    ensures x in s[1..] <==> x in s && x != s[0]
  {
    if x in s && x != s[0] {
      var i :| 0 <= i < |s| && s[i] == x;
      assert s[1..][i - 1] == x;
    }
  }

  /** The list has exactly the elements of both. */
  ghost predicate Common(out: seq<nat>, a: seq<nat>, b: seq<nat>) {
    forall x: nat :: x in out <==> x in a && x in b
  }

  /** Both lists walked once, in step. */
  method IntersectSorted(left: seq<nat>, right: seq<nat>) returns (out: seq<nat>)
    requires Increasing(left) && Increasing(right)
    ensures Increasing(out) && forall x: nat :: x in out <==> x in left && x in right
  {
    out := [];
    var i, j := 0, 0;
    while i < |left| && j < |right|
      invariant i <= |left| && j <= |right|
      invariant Increasing(out) && Common(out, left[..i], right[..j])
      invariant i < |left| ==> forall k | 0 <= k < j :: right[k] < left[i]
      invariant j < |right| ==> forall k | 0 <= k < i :: left[k] < right[j]
    {
      if left[i] < right[j] {
        SkipsLeft(out, left, i, right, j);
        i := i + 1;
      } else if left[i] > right[j] {
        SkipsRight(out, left, i, right, j);
        j := j + 1;
      } else {
        TakesBoth(out, left, i, right, j);
        out := out + [left[i]];
        i, j := i + 1, j + 1;
      }
    }
    if i == |left| {
      assert left[..i] == left;
      RestIsAbove(left, right, j);
    } else {
      assert right[..j] == right;
      RestIsAbove(right, left, i);
    }
  }

  lemma SkipsLeft(out: seq<nat>, left: seq<nat>, i: nat, right: seq<nat>, j: nat)
    requires i < |left| && j <= |right| && Common(out, left[..i], right[..j]) && forall k | 0 <= k < j :: right[k] < left[i]
    ensures Common(out, left[..i + 1], right[..j])
  {
    Extends(left, i);
    BelowAll(right, j, left[i]);
  }

  lemma SkipsRight(out: seq<nat>, left: seq<nat>, i: nat, right: seq<nat>, j: nat)
    requires i <= |left| && j < |right| && Common(out, left[..i], right[..j]) && forall k | 0 <= k < i :: left[k] < right[j]
    ensures Common(out, left[..i], right[..j + 1])
  {
    Extends(right, j);
    BelowAll(left, i, right[j]);
  }

  lemma TakesBoth(out: seq<nat>, left: seq<nat>, i: nat, right: seq<nat>, j: nat)
    requires i < |left| && j < |right| && left[i] == right[j] && Increasing(left) && Increasing(out)
    requires Common(out, left[..i], right[..j])
    ensures Increasing(out + [left[i]]) && Common(out + [left[i]], left[..i + 1], right[..j + 1])
  {
    Extends(left, i);
    Extends(right, j);
    forall k | 0 <= k < |out|
      ensures out[k] < left[i]
    {
      assert out[k] in out && out[k] in left[..i];
    }
  }

  /** Once one list is used up, what is left of the other has nothing in common with it. */
  lemma RestIsAbove(whole: seq<nat>, other: seq<nat>, j: nat)
    requires Increasing(other) && j <= |other| && (j < |other| ==> forall k | 0 <= k < |whole| :: whole[k] < other[j])
    ensures forall x: nat | x in whole && x in other :: x in other[..j]
  {
    forall x: nat | x in whole && x in other
      ensures x in other[..j]
    {
      var w :| 0 <= w < |whole| && whole[w] == x;
      var k :| 0 <= k < |other| && other[k] == x;
      if k < j {
        assert other[..j][k] == x;
      }
    }
  }

  /** What is above the first `j` elements is not among them. */
  lemma BelowAll(s: seq<nat>, j: nat, x: nat)
    requires j <= |s| && forall k | 0 <= k < j :: s[k] < x
    ensures x !in s[..j]
  {
  }

  lemma Extends(s: seq<nat>, i: nat)
    requires i < |s|
    ensures forall x: nat :: x in s[..i + 1] <==> x in s[..i] || x == s[i]
  {
    assert s[..i + 1] == s[..i] + [s[i]];
  }

  // ---- Terms

  /** What Unicode decides, and the key-value, token and segment terms of a line. */
  datatype Language = Language(space: char -> bool, lower: string -> string, extra: string -> set<string>)

  predicate Punctuation(c: char) {
    '!' <= c <= '/' || ':' <= c <= '@' || '[' <= c <= '`' || '{' <= c <= '~'
  }

  /** Trimmed from the ends of a term: ASCII punctuation that does not occur in tokens, keys and addresses. */
  predicate Trimmed(c: char) {
    Punctuation(c) && c != '<' && c != '>' && c != '_' && c != '-' && c != '=' && c != ':' && c != '@' && c != '.'
  }

  /** The characters trimmed, listed: ASCII punctuation other than < > _ - = : @ and the full stop. */
  lemma TrimmedExactly(c: char)
    ensures Trimmed(c) <==> c in {'!', '"', '#', '$', '%', '&', '\'', '(', ')', '*', '+', ',', '/', ';', '?', '[', '\\', ']', '^', '`',
                                  '{', '|', '}', '~'}
  {
  }

  function TrimFront(s: string): string {
    if s != [] && Trimmed(s[0]) then TrimFront(s[1..]) else s
  }

  function TrimBack(s: string): string {
    if s != [] && Trimmed(s[|s| - 1]) then TrimBack(s[..|s| - 1]) else s
  }

  function Normalize(term: string, lang: Language): Option<string> {
    var t := TrimBack(TrimFront(term));
    if t == [] then None else Some(lang.lower(t))
  }

  predicate AllTrimmed(s: string) {
    forall i | 0 <= i < |s| :: Trimmed(s[i])
  }

  lemma {:induction false} TrimFrontIs(s: string) returns (a: string)
    ensures s == a + TrimFront(s) && AllTrimmed(a) && (TrimFront(s) != [] ==> !Trimmed(TrimFront(s)[0]))
    decreases |s|
  {
    if s != [] && Trimmed(s[0]) {
      var more := TrimFrontIs(s[1..]);
      a := [s[0]] + more;
      Uncons(s);
      Associates([s[0]], more, TrimFront(s));
    } else {
      a := [];
      assert [] + s == s;
    }
  }

  lemma {:induction false} TrimBackIs(s: string) returns (b: string)
    ensures s == TrimBack(s) + b && AllTrimmed(b)
    ensures TrimBack(s) != [] ==> TrimBack(s)[0] == s[0] && !Trimmed(TrimBack(s)[|TrimBack(s)| - 1])
    decreases |s|
  {
    if s != [] && Trimmed(s[|s| - 1]) {
      var more := TrimBackIs(s[..|s| - 1]);
      b := more + [s[|s| - 1]];
      Associates(TrimBack(s), more, [s[|s| - 1]]);
      assert s == s[..|s| - 1] + [s[|s| - 1]];
    } else {
      b := [];
      assert s + [] == s;
    }
  }

  /** A term is the lower-cased middle of its word: punctuation goes from both ends and nothing else does;
      a word of punctuation alone has no term. */
  lemma NormalizeExact(word: string, lang: Language) returns (a: string, middle: string, b: string)
    ensures word == a + (middle + b) && AllTrimmed(a) && AllTrimmed(b)
    ensures middle != [] ==> !Trimmed(middle[0]) && !Trimmed(middle[|middle| - 1])
    ensures Normalize(word, lang) == if middle == [] then None else Some(lang.lower(middle))
  {
    a := TrimFrontIs(word);
    b := TrimBackIs(TrimFront(word));
    middle := TrimBack(TrimFront(word));
  }

  function WordLength(s: string, space: char -> bool): (n: nat)
    ensures n <= |s| && (s != [] && !space(s[0]) ==> n > 0)
  {
    if s == [] || space(s[0]) then 0 else 1 + WordLength(s[1..], space)
  }

  function Words(s: string, space: char -> bool): seq<string>
    decreases |s|
  {
    if s == [] then []
    else if space(s[0]) then Words(s[1..], space)
    else
      var n := WordLength(s, space);
      [s[..n]] + Words(s[n..], space)
  }

  predicate Wordlike(w: string, space: char -> bool) {
    w != [] && forall i | 0 <= i < |w| :: !space(w[i])
  }

  /** Words with one blank between any two. */
  function Spaced(words: seq<string>, blank: char): string {
    if words == [] then [] else if |words| == 1 then words[0] else words[0] + ([blank] + Spaced(words[1..], blank))
  }

  lemma {:induction false} WordLengthOf(w: string, rest: string, space: char -> bool)
    requires (forall i | 0 <= i < |w| :: !space(w[i])) && (rest != [] ==> space(rest[0]))
    ensures WordLength(w + rest, space) == |w|
    decreases |w|
  {
    if w == [] {
      assert w + rest == rest;
    } else {
      assert (w + rest)[1..] == w[1..] + rest;
      WordLengthOf(w[1..], rest, space);
    }
  }

  lemma WordsFrom(w: string, rest: string, space: char -> bool)
    requires Wordlike(w, space) && (rest != [] ==> space(rest[0]))
    ensures Words(w + rest, space) == [w] + Words(rest, space)
  {
    WordLengthOf(w, rest, space);
    Halves(w, rest);
    assert (w + rest)[0] == w[0];
  }

  /** Splitting undoes joining. */
  lemma {:induction false} WordsOfSpaced(words: seq<string>, blank: char, space: char -> bool)
    requires space(blank) && forall i | 0 <= i < |words| :: Wordlike(words[i], space)
    ensures Words(Spaced(words, blank), space) == words
    decreases |words|
  {
    if |words| == 1 {
      WordsFrom(words[0], [], space);
      assert words[0] + [] == words[0] && words == [words[0]] + [];
    } else if words != [] {
      var more := Spaced(words[1..], blank);
      assert forall i | 0 <= i < |words[1..]| :: words[1..][i] == words[i + 1];
      WordsOfSpaced(words[1..], blank, space);
      Cons(blank, more);
      WordsFrom(words[0], [blank] + more, space);
      Uncons(words);
    }
  }

  function Terms(words: seq<string>, lang: Language): seq<string> {
    if words == [] then []
    else (match Normalize(words[0], lang) case Some(t) => [t] case None => []) + Terms(words[1..], lang)
  }

  function QueryTerms(pattern: string, lang: Language): seq<string> {
    Terms(Words(pattern, lang.space), lang)
  }

  function Elements(terms: seq<string>): (r: set<string>)
    ensures forall t: string :: t in r <==> t in terms
  {
    set t | t in terms
  }

  function LineTerms(line: string, lang: Language): set<string> {
    Elements(Terms(Words(line, lang.space), lang)) + lang.extra(line)
  }

  lemma {:induction false} TermsHave(words: seq<string>, lang: Language, t: string)
    ensures t in Terms(words, lang) <==> exists i :: 0 <= i < |words| && Normalize(words[i], lang) == Some(t)
    decreases |words|
  {
    if words != [] {
      TermsHave(words[1..], lang, t);
      if t in Terms(words[1..], lang) {
        var i :| 0 <= i < |words[1..]| && Normalize(words[1..][i], lang) == Some(t);
        assert words[i + 1] == words[1..][i];
      }
      if i :| 0 <= i < |words| && Normalize(words[i], lang) == Some(t) {
        if i > 0 { assert words[1..][i - 1] == words[i]; }
      }
    }
  }

  // ---- The index

  /** The lines whose terms include `t`. */
  predicate LineHas(lines: seq<string>, lang: Language, t: string, i: nat) {
    i < |lines| && t in LineTerms(lines[i], lang)
  }

  function HavingTerm(lines: seq<string>, lang: Language, t: string): nat -> bool {
    (i: nat) => LineHas(lines, lang, t, i)
  }

  function Occurrences(lines: seq<string>, lang: Language, t: string, n: nat): seq<nat> {
    Select(n, HavingTerm(lines, lang, t))
  }

  type Postings = map<string, seq<nat>>

  function PostingsOf(p: Postings, t: string): seq<nat> {
    if t in p then p[t] else []
  }

  /** The postings of the first `n` lines. */
  ghost predicate Indexes(p: Postings, lines: seq<string>, lang: Language, n: nat) {
    && (forall t: string :: PostingsOf(p, t) == Occurrences(lines, lang, t, n))
    && (forall t | t in p :: p[t] != [])
  }

  lemma OccurrencesNext(lines: seq<string>, lang: Language, t: string, n: nat)
    requires n < |lines|
    ensures Occurrences(lines, lang, t, n + 1)
         == Occurrences(lines, lang, t, n) + if t in LineTerms(lines[n], lang) then [n] else []
  {
  }

  lemma OccurrencesAre(lines: seq<string>, lang: Language, t: string)
    ensures Increasing(Occurrences(lines, lang, t, |lines|))
    ensures forall i: nat :: i in Occurrences(lines, lang, t, |lines|) <==> LineHas(lines, lang, t, i)
  {
    SelectIs(|lines|, HavingTerm(lines, lang, t));
  }

  predicate HasAll(lines: seq<string>, lang: Language, terms: seq<string>, i: nat) {
    forall k | 0 <= k < |terms| :: LineHas(lines, lang, terms[k], i)
  }

  function HavingAll(lines: seq<string>, lang: Language, terms: seq<string>): nat -> bool {
    (i: nat) => HasAll(lines, lang, terms, i)
  }

  /** The line is filed under the terms in `done`. */
  ghost predicate Filed(was: Postings, postings: Postings, done: set<string>, i: nat) {
    forall t: string :: PostingsOf(postings, t) == PostingsOf(was, t) + if t in done then [i] else []
  }

  lemma FiledMore(was: Postings, postings: Postings, done: set<string>, term: string, i: nat)
    requires Filed(was, postings, done, i) && term !in done
    ensures Filed(was, postings[term := PostingsOf(postings, term) + [i]], done + {term}, i)
  {
    assert PostingsOf(was, term) + [] == PostingsOf(was, term);
  }

  class KeywordIndex {
    var postings: Postings

    constructor ()
      ensures postings == map[]
    {
      postings := map[];
    }

    /** Files one line under each of its terms. */
    method AddLine(i: nat, terms: set<string>)
      modifies this
      ensures forall t: string :: PostingsOf(postings, t) == PostingsOf(old(postings), t) + if t in terms then [i] else []
      ensures (forall t | t in old(postings) :: old(postings)[t] != []) ==> forall t | t in postings :: postings[t] != []
    {
      var left := terms;
      ghost var was := postings;
      assert forall t: string :: PostingsOf(was, t) + [] == PostingsOf(was, t);
      assert terms - left == {};
      while left != {}
        invariant left <= terms
        invariant Filed(was, postings, terms - left, i)
        invariant (forall t | t in was :: was[t] != []) ==> forall t | t in postings :: postings[t] != []
        decreases |left|
      {
        var term :| term in left;
        FiledMore(was, postings, terms - left, term, i);
        assert terms - (left - {term}) == (terms - left) + {term};
        postings := postings[term := PostingsOf(postings, term) + [i]];
        left := left - {term};
      }
    }

    method Build(lines: seq<string>, lang: Language)
      requires postings == map[]
      modifies this
      ensures Indexes(postings, lines, lang, |lines|)
    {
      for i := 0 to |lines|
        invariant Indexes(postings, lines, lang, i)
      {
        forall t: string {
          OccurrencesNext(lines, lang, t, i);
        }
        AddLine(i, LineTerms(lines[i], lang));
      }
    }

    /** The lines that have every term, in order; no terms match nothing. */
    method MatchingLines(terms: seq<string>, ghost lines: seq<string>, ghost lang: Language) returns (matches: seq<nat>)
      requires Indexes(postings, lines, lang, |lines|)
      ensures terms == [] ==> matches == []
      ensures terms != [] ==> matches == Select(|lines|, HavingAll(lines, lang, terms))
    {
      if terms == [] {
        return [];
      }
      matches := PostingsOf(postings, terms[0]);
      FirstTerm(lines, lang, terms);
      for k := 1 to |terms|
        invariant matches == Select(|lines|, HavingAll(lines, lang, terms[..k]))
      {
        SelectIs(|lines|, HavingAll(lines, lang, terms[..k]));
        OccurrencesAre(lines, lang, terms[k]);
        ghost var before := matches;
        matches := IntersectSorted(matches, PostingsOf(postings, terms[k]));
        NextTerm(lines, lang, terms, k, before, matches);
        if matches == [] {
          NoneLater(lines, lang, terms, k + 1);
          return;
        }
      }
      assert terms[..|terms|] == terms;
    }
  }

  lemma HasOne(lines: seq<string>, lang: Language, t: string, i: nat)
    ensures HasAll(lines, lang, [t], i) <==> LineHas(lines, lang, t, i)
  {
    if HasAll(lines, lang, [t], i) {
      assert LineHas(lines, lang, [t][0], i);
    }
  }

  lemma FirstTerm(lines: seq<string>, lang: Language, terms: seq<string>)
    requires terms != []
    ensures Occurrences(lines, lang, terms[0], |lines|) == Select(|lines|, HavingAll(lines, lang, terms[..1]))
  {
    assert terms[..1] == [terms[0]];
    forall i: nat
      ensures HavingTerm(lines, lang, terms[0])(i) == HavingAll(lines, lang, terms[..1])(i)
    {
      HasOne(lines, lang, terms[0], i);
    }
    SelectExtensional(|lines|, HavingTerm(lines, lang, terms[0]), HavingAll(lines, lang, terms[..1]));
  }

  lemma NextTerm(lines: seq<string>, lang: Language, terms: seq<string>, k: nat, before: seq<nat>, after: seq<nat>)
    requires k < |terms| && before == Select(|lines|, HavingAll(lines, lang, terms[..k])) && Increasing(after)
    requires forall i: nat :: i in after <==> i in before && i in Occurrences(lines, lang, terms[k], |lines|)
    ensures after == Select(|lines|, HavingAll(lines, lang, terms[..k + 1]))
  {
    SelectIs(|lines|, HavingAll(lines, lang, terms[..k]));
    OccurrencesAre(lines, lang, terms[k]);
    HasAllMore(lines, lang, terms, k);
    SelectIs(|lines|, HavingAll(lines, lang, terms[..k + 1]));
    IncreasingIsUnique(after, Select(|lines|, HavingAll(lines, lang, terms[..k + 1])));
  }

  lemma {:induction false} SelectExtensional(n: nat, p: nat -> bool, q: nat -> bool)
    requires forall i: nat | i < n :: p(i) == q(i)
    ensures Select(n, p) == Select(n, q)
    decreases n
  {
    if n > 0 {
      SelectExtensional(n - 1, p, q);
    }
  }

  lemma HasAllMore(lines: seq<string>, lang: Language, terms: seq<string>, k: nat)
    requires k < |terms|
    ensures forall i: nat :: HasAll(lines, lang, terms[..k + 1], i) <==> HasAll(lines, lang, terms[..k], i) && LineHas(lines, lang, terms[k], i)
  {
    assert terms[..k + 1] == terms[..k] + [terms[k]];
  }

  lemma {:induction false} NoneOfFewer(n: nat, p: nat -> bool, q: nat -> bool)
    requires Select(n, p) == [] && forall i: nat :: q(i) ==> p(i)
    ensures Select(n, q) == []
    decreases n
  {
    if n > 0 {
      NoneOfFewer(n - 1, p, q);
    }
  }

  lemma AllHaveFirst(lines: seq<string>, lang: Language, terms: seq<string>, k: nat, i: nat)
    requires k <= |terms| && HasAll(lines, lang, terms, i)
    ensures HasAll(lines, lang, terms[..k], i)
  {
    forall j | 0 <= j < k
      ensures LineHas(lines, lang, terms[..k][j], i)
    {
      assert terms[..k][j] == terms[j];
    }
  }

  lemma NoneLater(lines: seq<string>, lang: Language, terms: seq<string>, k: nat)
    requires k <= |terms| && Select(|lines|, HavingAll(lines, lang, terms[..k])) == []
    ensures Select(|lines|, HavingAll(lines, lang, terms)) == []
  {
    forall i: nat | HavingAll(lines, lang, terms)(i)
      ensures HavingAll(lines, lang, terms[..k])(i)
    {
      AllHaveFirst(lines, lang, terms, k, i);
    }
    NoneOfFewer(|lines|, HavingAll(lines, lang, terms[..k]), HavingAll(lines, lang, terms));
  }

  lemma TermsCarryOver(words: seq<string>, more: seq<string>, lang: Language, t: string)
    requires t in Terms(words, lang) && forall k | 0 <= k < |words| :: words[k] in more
    ensures t in Terms(more, lang)
  {
    TermsHave(words, lang, t);
    var w :| 0 <= w < |words| && Normalize(words[w], lang) == Some(t);
    var x :| 0 <= x < |more| && more[x] == words[w];
    TermsHave(more, lang, t);
  }

  /** A query made of any words of a line finds that line. */
  lemma WordsFindTheirLine(lines: seq<string>, lang: Language, i: nat, pattern: string)
    requires i < |lines|
    requires forall k | 0 <= k < |Words(pattern, lang.space)| :: Words(pattern, lang.space)[k] in Words(lines[i], lang.space)
    requires QueryTerms(pattern, lang) != []
    ensures i in Select(|lines|, HavingAll(lines, lang, QueryTerms(pattern, lang)))
  {
    var words, terms := Words(pattern, lang.space), QueryTerms(pattern, lang);
    forall k | 0 <= k < |terms|
      ensures LineHas(lines, lang, terms[k], i)
    {
      TermsCarryOver(words, Words(lines[i], lang.space), lang, terms[k]);
    }
    SelectIs(|lines|, HavingAll(lines, lang, terms));
  }

  // ---- The answer

  datatype Answer = Answer(lines: seq<string>, matched: nat, truncatedAt: seq<Reason>)

  function Pick(lines: seq<string>, at: seq<nat>): (r: seq<string>)
    requires forall i | 0 <= i < |at| :: at[i] < |lines|
    ensures |r| == |at| && forall i | 0 <= i < |at| :: r[i] == lines[at[i]]
  {
    seq(|at|, i requires 0 <= i < |at| => lines[at[i]])
  }

  function Taken<T>(s: seq<T>, limit: nat): seq<T> {
    if |s| <= limit then s else s[..limit]
  }

  function PushTruncation(truncatedAt: seq<Reason>, reason: Reason): seq<Reason> {
    if reason in truncatedAt then truncatedAt else truncatedAt + [reason]
  }

  /** The lines answering a request, by a scan of the window. */
  function Scan(lines: seq<string>, hit: nat -> bool, limit: nat, truncatedAt: seq<Reason>): Answer {
    var found := Select(|lines|, hit);
    SelectIs(|lines|, hit);
    assert forall i | 0 <= i < |found| :: found[i] in found;
    Answer(Pick(lines, Taken(found, limit)), |found|,
           if |found| > limit then PushTruncation(truncatedAt, Rows) else truncatedAt)
  }

  /** How many of the first `k` lines are hits. */
  function HitsBefore(hit: nat -> bool, k: nat): nat {
    if k == 0 then 0 else HitsBefore(hit, k - 1) + if hit(k - 1) then 1 else 0
  }

  lemma {:induction false} SelectedAt(hit: nat -> bool, k: nat, n: nat)
    requires k <= n
    ensures |Select(n, hit)| == HitsBefore(hit, n)
    ensures k < n && hit(k) ==> HitsBefore(hit, k) < |Select(n, hit)| && Select(n, hit)[HitsBefore(hit, k)] == k
    decreases n
  {
    if k < n {
      SelectedAt(hit, k, n - 1);
    } else if n > 0 {
      SelectedAt(hit, n - 1, n - 1);
    }
  }

  /** The answer, written out: the number of hits; the first hits in order, as many as the limit lets through; and
      all the reasons given before, with `Rows` exactly when it was among them or a hit is missing. */
  lemma ScanExactly(lines: seq<string>, hit: nat -> bool, limit: nat, truncatedAt: seq<Reason>)
    ensures var r, all := Scan(lines, hit, limit, truncatedAt), HitsBefore(hit, |lines|);
      && r.matched == all && |r.lines| == (if all <= limit then all else limit)
      && (forall i: nat | i < |lines| && hit(i) && HitsBefore(hit, i) < |r.lines| :: r.lines[HitsBefore(hit, i)] == lines[i])
      && truncatedAt <= r.truncatedAt
      && (forall x: Reason :: x in r.truncatedAt <==> x in truncatedAt || (x == Rows && all > limit))
  {
    SelectedAt(hit, |lines|, |lines|);
    SelectIs(|lines|, hit);
    var found := Select(|lines|, hit);
    assert forall i | 0 <= i < |found| :: found[i] in found;
    var shown := Pick(lines, Taken(found, limit));
    forall i: nat | i < |lines| && hit(i) && HitsBefore(hit, i) < |shown|
      ensures shown[HitsBefore(hit, i)] == lines[i]
    {
      SelectedAt(hit, i, |lines|);
      assert Taken(found, limit)[HitsBefore(hit, i)] == i;
    }
    PushKeeps(truncatedAt, Rows);
  }

  lemma PushKeeps(truncatedAt: seq<Reason>, reason: Reason)
    ensures truncatedAt <= PushTruncation(truncatedAt, reason)
    ensures forall x: Reason :: x in PushTruncation(truncatedAt, reason) <==> x in truncatedAt || x == reason
  {
  }

  /** Some word of the line has the term. */
  predicate WordHas(words: seq<string>, lang: Language, t: string) {
    exists i :: 0 <= i < |words| && Normalize(words[i], lang) == Some(t)
  }

  /** The terms a line is found by: those of its words, and the further ones. */
  lemma LineTermsExactly(line: string, lang: Language, t: string)
    ensures t in LineTerms(line, lang) <==> t in lang.extra(line) || WordHas(Words(line, lang.space), lang, t)
  {
    var words := Words(line, lang.space);
    TermsHave(words, lang, t);
    assert t in Terms(words, lang) <==> WordHas(words, lang, t);
  }

  function Both(p: nat -> bool, q: nat -> bool): nat -> bool {
    (i: nat) => p(i) && q(i)
  }

  function LineIs(lines: seq<string>, matches: string -> bool): nat -> bool {
    (i: nat) => i < |lines| && matches(lines[i])
  }

  lemma {:induction false} SelectOfMore(n: nat, p: nat -> bool, q: nat -> bool)
    ensures KeepIf(Select(n, p), q) == Select(n, Both(p, q))
    decreases n
  {
    if n > 0 {
      SelectOfMore(n - 1, p, q);
      KeepIfSplits(Select(n - 1, p), if p(n - 1) then [n - 1] else [], q);
    }
  }

  function KeepIf(s: seq<nat>, q: nat -> bool): seq<nat> {
    if s == [] then [] else (if q(s[0]) then [s[0]] else []) + KeepIf(s[1..], q)
  }

  lemma {:induction false} KeepIfSplits(a: seq<nat>, b: seq<nat>, q: nat -> bool)
    ensures KeepIf(a + b, q) == KeepIf(a, q) + KeepIf(b, q)
    decreases |a|
  {
    if a == [] {
      assert a + b == b;
    } else {
      KeepIfSplits(a[1..], b, q);
      assert (a + b)[1..] == a[1..] + b;
      Associates(if q(a[0]) then [a[0]] else [], KeepIf(a[1..], q), KeepIf(b, q));
    }
  }

  /** The indexed search gives the answer of a linear scan for the lines that have every term and the level;
      `Rows` is added exactly when matches were cut. */
  method FilterIndexedWindow(lines: seq<string>, truncatedAt: seq<Reason>, index: KeywordIndex, pattern: string,
      level: string -> bool, limit: nat, lang: Language) returns (r: Answer)
    requires Indexes(index.postings, lines, lang, |lines|) && QueryTerms(pattern, lang) != []
    ensures r == Scan(lines, Both(HavingAll(lines, lang, QueryTerms(pattern, lang)), LineIs(lines, level)), limit, truncatedAt)
  {
    var terms := QueryTerms(pattern, lang);
    var matches := index.MatchingLines(terms, lines, lang);
    var found := KeepIf(matches, LineIs(lines, level));
    ghost var hit := Both(HavingAll(lines, lang, terms), LineIs(lines, level));
    SelectOfMore(|lines|, HavingAll(lines, lang, terms), LineIs(lines, level));
    SelectIs(|lines|, hit);
    assert forall i | 0 <= i < |found| :: found[i] in found;
    var returned := Taken(found, limit);
    var reasons := truncatedAt;
    if |found| > |returned| {
      reasons := PushTruncation(reasons, Rows);
    }
    r := Answer(Pick(lines, returned), |found|, reasons);
  }

  /** The linear scan of a window against a compiled pattern: the same answer. */
  method FilterGrepOutput(lines: seq<string>, truncatedAt: seq<Reason>, matches: string -> bool, limit: nat) returns (r: Answer)
    ensures r == Scan(lines, LineIs(lines, matches), limit, truncatedAt)
  {
    ghost var hit := LineIs(lines, matches);
    var matched := 0;
    var returned: seq<string> := [];
    for i := 0 to |lines|
      invariant matched == |Select(i, hit)|
      invariant |returned| == if matched <= limit then matched else limit
      invariant forall k | 0 <= k < |returned| :: Select(i, hit)[k] < |lines| && returned[k] == lines[Select(i, hit)[k]]
    {
      if matches(lines[i]) {
        matched := matched + 1;
        if |returned| < limit {
          returned := returned + [lines[i]];
        }
      }
    }
    var reasons := truncatedAt;
    if matched > |returned| {
      reasons := PushTruncation(reasons, Rows);
    }
    r := Answer(returned, matched, reasons);
    ghost var found := Select(|lines|, hit);
    SelectIs(|lines|, hit);
    assert forall i | 0 <= i < |found| :: found[i] in found;
    assert returned == Pick(lines, Taken(found, limit));
  }
}
