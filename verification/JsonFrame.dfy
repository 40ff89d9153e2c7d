/** What frames admit (crates/gaze-lens-protocol/src/bounds.rs), node by node: each rule depends only on the path
    from the top of the tree to the node, and is written without the scanner's terms. */
module JsonFrame {
  import opened Bounds
  import opened Sequences
  import opened JsonGrammar
  import opened JsonScan
  import opened JsonScanner
  import opened Utf8Text

  // ---- Paths

  /** From an object to a member with a decoded key, or from an array to an element. */
  datatype Step = Key(key: bytes) | Item

  type Path = seq<Step>

  /** The bytes of an ASCII text. */
  function Ascii(s: string): bytes {
    if s == [] then [] else [if s[0] as int < 128 then s[0] as int as byte else 0] + Ascii(s[1..])
  }

  function StepOf(e: Elem, keyed: bool): Step {
    if keyed then Key(Field(e.name)) else Item
  }

  predicate HasElem(es: Elems, e: Elem) {
    e == es.head || (es.More? && HasElem(es.tail, e))
  }

  /** `v` is the node of `t` at the path `p`. */
  ghost predicate At(t: Json, p: Path, v: Json)
    decreases |p|
  {
    if p == [] then t == v
    else t.Full? && exists e :: HasElem(t.elems, e) && StepOf(e, t.keyed) == p[0] && At(e.value, p[1..], v)
  }

  // ---- The rules

  predicate IsObject(v: Json) {
    (v.Empty? || v.Full?) && v.keyed
  }

  /** 32 lower-case hexadecimal digits. */
  predicate BindingDigits(s: bytes) {
    |s| == 32 && forall i | 0 <= i < 32 :: 48 <= s[i] <= 57 || 97 <= s[i] <= 102
  }

  /** A member of the top-level object under `binding`. */
  predicate BindingMember(p: Path) {
    |p| == 2 && p[0] == Key(Ascii("binding")) && p[1].Key?
  }

  /** What a string at the path may decode to. */
  predicate StringRule(p: Path, decoded: bytes) {
    if BindingMember(p) then BindingDigits(decoded)
    else if p != [] && p[|p| - 1] == Key(Ascii("base64")) then |decoded| <= 16_384
    else |decoded| <= 8_192
  }

  /** The rule for the node at the path. */
  predicate FrameRule(p: Path, v: Json) {
    && |p| < 32
    && (p != [] && p[|p| - 1].Key? ==> |p[|p| - 1].key| <= 8_192)
    && (v.Scalar? ==> |v.token| <= 8_192)
    && (v.Text? && WfChars(v.chars) ==> StringRule(p, Decoded(v.chars)))
    && (p == [Key(Ascii("binding"))] ==> IsObject(v))
    && (BindingMember(p) ==> v.Text?)
    && (p == [Key(Ascii("args"))] ==> |Bytes(v)| <= 65_536)
    && (p == [Key(Ascii("result"))] ==> |Bytes(v)| <= 131_072)
  }

  /** A frame: an RFC 8259 text with distinct decoded keys, of at most 16384 values and keys, every node of
      which obeys the rule of its path. */
  ghost predicate FrameJson(s: bytes) {
    exists lead: bytes, t: Json, trail: bytes :: IsDocument(s, lead, t, trail) && FrameTree(t)
  }

  ghost predicate FrameTree(t: Json) {
    && Rfc(t) && DistinctKeys(t) && Nodes(t) <= 16_384
    && forall p: Path, v: Json | At(t, p, v) :: FrameRule(p, v)
  }

  // ---- The rules along the tree

  /** Every node below the path `c` obeys its rule. */
  ghost predicate Obeys(t: Json, c: Path)
    decreases t, 0
  {
    FrameRule(c, t) && (t.Full? ==> ObeyIn(t.elems, t.keyed, c))
  }

  ghost predicate ObeyIn(es: Elems, keyed: bool, c: Path)
    decreases es, 0
  {
    Obeys(es.head.value, c + [StepOf(es.head, keyed)]) && (es.More? ==> ObeyIn(es.tail, keyed, c))
  }

  lemma {:induction false} ElemObeys(es: Elems, keyed: bool, c: Path, e: Elem)
    requires ObeyIn(es, keyed, c) && HasElem(es, e)
    ensures Obeys(e.value, c + [StepOf(e, keyed)])
    decreases es
  {
    if e != es.head {
      ElemObeys(es.tail, keyed, c, e);
    }
  }

  lemma {:induction false} ObeysAt(t: Json, c: Path, p: Path, v: Json)
    requires Obeys(t, c) && At(t, p, v)
    ensures FrameRule(c + p, v)
    decreases |p|
  {
    if p == [] {
      assert c + p == c;
    } else {
      var e :| HasElem(t.elems, e) && StepOf(e, t.keyed) == p[0] && At(e.value, p[1..], v);
      ElemObeys(t.elems, t.keyed, c, e);
      ObeysAt(e.value, c + [p[0]], p[1..], v);
      Associates(c, [p[0]], p[1..]);
      Uncons(p);
    }
  }

  lemma AtElem(t: Json, e: Elem, p: Path, v: Json)
    requires t.Full? && HasElem(t.elems, e) && At(e.value, p, v)
    ensures At(t, [StepOf(e, t.keyed)] + p, v)
  {
    Cons(StepOf(e, t.keyed), p);
  }

  lemma {:induction false} AllObey(t: Json, c: Path)
    requires forall p: Path, v: Json | At(t, p, v) :: FrameRule(c + p, v)
    ensures Obeys(t, c)
    decreases t, 0
  {
    assert At(t, [], t) && c + [] == c;
    if t.Full? {
      AllObeyIn(t, t.elems, c);
    }
  }

  lemma {:induction false} AllObeyIn(t: Json, es: Elems, c: Path)
    requires t.Full? && forall e | HasElem(es, e) :: HasElem(t.elems, e)
    requires forall p: Path, v: Json | At(t, p, v) :: FrameRule(c + p, v)
    ensures ObeyIn(es, t.keyed, c)
    decreases es, 1
  {
    var e := es.head;
    var s := StepOf(e, t.keyed);
    assert HasElem(es, e);
    forall p: Path, v: Json | At(e.value, p, v)
      ensures FrameRule(c + [s] + p, v)
    {
      AtElem(t, e, p, v);
      Associates(c, [s], p);
      assert At(t, [s] + p, v);
    }
    AllObey(e.value, c + [s]);
    if es.More? {
      assert forall e | HasElem(es.tail, e) :: HasElem(es, e);
      AllObeyIn(t, es.tail, c);
    }
  }

  lemma {:induction false} ObeysExact(t: Json)
    ensures Obeys(t, []) <==> forall p: Path, v: Json | At(t, p, v) :: FrameRule(p, v)
  {
    if Obeys(t, []) {
      forall p: Path, v: Json | At(t, p, v)
        ensures FrameRule(p, v)
      {
        ObeysAt(t, [], p, v);
        assert [] + p == p;
      }
    }
    if forall p: Path, v: Json | At(t, p, v) :: FrameRule(p, v) {
      forall p: Path, v: Json | At(t, p, v)
        ensures FrameRule([] + p, v)
      {
        assert [] + p == p;
      }
      AllObey(t, []);
    }
  }

  // ---- The scanner's rules are these

  const FRAME: Mode := Mode(true, SCALAR_BYTES)

  lemma BindingNames()
    ensures Ascii("binding") == BINDING && Ascii("base64") == BASE64
  {
    AsciiIs("binding", BINDING);
    AsciiIs("base64", BASE64);
  }

  lemma SizedNames()
    ensures Ascii("args") == ARGS && Ascii("result") == RESULT
  {
    AsciiIs("args", ARGS);
    AsciiIs("result", RESULT);
  }

  lemma {:induction false} AsciiIs(text: string, name: bytes)
    requires |text| == |name| && forall i | 0 <= i < |text| :: (text[i] as int) == name[i] as int && text[i] as int < 128
    ensures Ascii(text) == name
    decreases |text|
  {
    if text != [] {
      AsciiIs(text[1..], name[1..]);
      Uncons(name);
    }
  }

  /** What the scanner knows of a place: whether it is in a binding, and its cap on strings. */
  predicate BindingAt(c: Path) {
    c == [Key(BINDING)] || (|c| == 2 && c[0] == Key(BINDING) && c[1].Key?)
  }

  function CapAt(c: Path): nat {
    if |c| == 2 && c[0] == Key(BINDING) && c[1].Key? then 32
    else if c != [] && c[|c| - 1] == Key(BASE64) then 2 * SCALAR_BYTES
    else SCALAR_BYTES
  }

  /** The scanner's rules for a node whose place it knows, apart from those for what is below it. */
  ghost predicate Fits(t: Json, c: Path) {
    && (c == [Key(BINDING)] ==> IsObject(t)) && (|c| == 2 && BindingAt(c) ==> t.Text?)
    && (c == [Key(ARGS)] ==> |Bytes(t)| <= REQUEST_BYTES) && (c == [Key(RESULT)] ==> |Bytes(t)| <= RESULT_BYTES)
    && (c != [] && c[|c| - 1].Key? ==> |c[|c| - 1].key| <= SCALAR_BYTES)
  }

  ghost predicate LegalHere(t: Json, c: Path) {
    Fits(t, c) && Legal(t, |c| + 1, BindingAt(c), CapAt(c), FRAME)
  }

  lemma StringRuleIs(c: Path, decoded: bytes)
    ensures StringRule(c, decoded) <==>
      if |c| == 2 && BindingAt(c) then Opaque(decoded) else |decoded| <= CapAt(c)
  {
    BindingNames();
  }

  lemma FitsIs(c: Path, t: Json)
    ensures Fits(t, c) <==>
      && (c != [] && c[|c| - 1].Key? ==> |c[|c| - 1].key| <= 8_192)
      && (c == [Key(Ascii("binding"))] ==> IsObject(t)) && (BindingMember(c) ==> t.Text?)
      && (c == [Key(Ascii("args"))] ==> |Bytes(t)| <= 65_536) && (c == [Key(Ascii("result"))] ==> |Bytes(t)| <= 131_072)
  {
    BindingNames();
    SizedNames();
  }

  lemma RuleIs(c: Path, t: Json)
    ensures FrameRule(c, t) <==>
      && Fits(t, c) && |c| < MAX_DEPTH && (t.Scalar? ==> |t.token| <= SCALAR_BYTES)
      && (t.Text? && WfChars(t.chars) ==> StringRule(c, Decoded(t.chars)))
  {
    FitsIs(c, t);
  }

  lemma LeafIsLegal(t: Json, c: Path)
    requires !t.Full?
    ensures LegalHere(t, c) <==> Rfc(t) && DistinctKeys(t) && FrameRule(c, t)
  {
    RuleIs(c, t);
    if t.Text? && WfChars(t.chars) {
      StringRuleIs(c, Decoded(t.chars));
    }
  }

  /** The scanner knows the place of an element from the place of its container. */
  lemma PlaceOfElem(c: Path, e: Elem, keyed: bool)
    requires (BindingAt(c) ==> |c| == 1 && keyed) && WfName(e.name, keyed)
    ensures var d := c + [StepOf(e, keyed)];
      && BindingAt(d) == InBinding(Field(e.name), |c| + 1, BindingAt(c), keyed, FRAME)
      && CapAt(d) == ValueCap(Field(e.name), BindingAt(c) && keyed, FRAME)
  {
    var d, f := c + [StepOf(e, keyed)], Field(e.name);
    assert d[|d| - 1] == if keyed then Key(f) else Item;
    assert !keyed ==> |f| == 0;
    assert |c| == 0 ==> d == [d[0]];
    assert |c| == 1 ==> d == [c[0], d[1]];
  }

  lemma ElemFits(c: Path, e: Elem, keyed: bool)
    requires (BindingAt(c) ==> |c| == 1 && keyed) && WfName(e.name, keyed)
    ensures var f, v := Field(e.name), e.value;
      Fits(v, c + [StepOf(e, keyed)]) <==>
        && |f| <= SCALAR_BYTES && (BindingAt(c) && keyed ==> v.Text?)
        && (|c| == 0 && f == BINDING ==> IsObject(v)) && SizeAllowed(f, |Bytes(v)|, |c| + 1, FRAME)
  {
    assert e.name.NoName? ==> |Field(e.name)| == 0;
  }

  /** At most one step below the top lies a binding, and it is an object. */
  predicate Open(c: Path, keyed: bool) {
    BindingAt(c) ==> |c| == 1 && keyed
  }

  lemma FullMustBeOpen(t: Json, c: Path)
    requires t.Full? && Fits(t, c)
    ensures Open(c, t.keyed)
  {
  }

  lemma {:induction false} LegalIsObeyed(t: Json, c: Path)
    ensures LegalHere(t, c) <==> Rfc(t) && DistinctKeys(t) && Obeys(t, c)
    decreases t, 0
  {
    if t.Full? {
      RuleIs(c, t);
      if Fits(t, c) {
        FullMustBeOpen(t, c);
        ElemsAreObeyed(t.elems, t.keyed, c);
      }
    } else {
      LeafIsLegal(t, c);
    }
  }

  lemma {:induction false} ElemsAreObeyed(es: Elems, keyed: bool, c: Path)
    requires Open(c, keyed)
    ensures LegalElems(es, keyed, |c| + 1, BindingAt(c), FRAME) <==> RfcElems(es, keyed) && DistinctKeysOf(es, keyed) && ObeyIn(es, keyed, c)
    decreases es, 1
  {
    ElemIsObeyed(es.head, keyed, c);
    if es.More? {
      ElemsAreObeyed(es.tail, keyed, c);
    }
  }

  lemma {:induction false} ElemIsObeyed(e: Elem, keyed: bool, c: Path)
    requires Open(c, keyed)
    ensures LegalElem(e, keyed, |c| + 1, BindingAt(c), FRAME) <==>
      && WfName(e.name, keyed) && Blank(e.gap) && Blank(e.trail)
      && Rfc(e.value) && DistinctKeys(e.value) && Obeys(e.value, c + [StepOf(e, keyed)])
    decreases e, 1
  {
    if WfName(e.name, keyed) {
      LegalIsObeyed(e.value, c + [StepOf(e, keyed)]);
      PlaceOfElem(c, e, keyed);
      ElemFits(c, e, keyed);
    }
  }

  // ---- The main result

  lemma TreeExact(t: Json)
    ensures Legal(t, 1, false, SCALAR_BYTES, FRAME) && Nodes(t) <= MAX_NODES <==> FrameTree(t)
  {
    LegalIsObeyed(t, []);
    ObeysExact(t);
  }

  /** The scanner in frame mode accepts exactly the frames. */
  lemma FrameScanExact(s: bytes)
    ensures Admitted(s, Mode(true, SCALAR_BYTES)) <==> FrameJson(s)
    ensures ScanDocument(s, Mode(true, SCALAR_BYTES)).Ok? <==> FrameJson(s)
  {
    ScanExact(s, FRAME);
    forall t: Json
      ensures Legal(t, 1, false, FRAME.scalarMax, FRAME) && Nodes(t) <= MAX_NODES <==> FrameTree(t)
    {
      TreeExact(t);
    }
  }

  /** `frame_json`: the scan of a frame's body. */
  method FrameScan(s: bytes, max: nat) returns (r: Result<()>)
    ensures r.Ok? <==> |s| <= max && ValidUtf8(s) && FrameJson(s)
  {
    FrameScanExact(s);
    r := ScanJson(s, max, true, SCALAR_BYTES);
  }
}
