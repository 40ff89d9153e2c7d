/** Pages of an inventory (crates/gaze-lens-protocol/src/wire.rs): a walk over validated pages. */
module Pages {
  import opened Bounds
  import opened Wrappers

  datatype Reason = Bytes | Rows | Lines | ScanBytes | ScanLines | Boundary | Records {
    function Rank(): nat {
      match this
      case Bytes => 0 case Rows => 1 case Lines => 2 case ScanBytes => 3
      case ScanLines => 4 case Boundary => 5 case Records => 6
    }
  }

  const INVENTORY_RECORDS: nat := 100_000
  const MAX_PACKAGES: nat := 500

  datatype View = Host | Php | Packages

  datatype Request = Request(view: View, offset: Option<nat>, limit: nat) {
    function Start(): nat {
      if offset.Some? then offset.value else 0
    }
  }

  datatype PackagePage = PackagePage(offset: nat, returned: nat, total: nat, nextOffset: Option<nat>)

  /** Reasons come strictly in order, from the allowed ones. */
  predicate ReasonsAllowed(rs: seq<Reason>, allowed: set<Reason>) {
    && (forall i | 0 <= i < |rs| - 1 :: rs[i].Rank() < rs[i + 1].Rank())
    && forall i | 0 <= i < |rs| :: rs[i] in allowed
  }

  function Validate(p: PackagePage, q: Request, returned: nat, truncated: seq<Reason>): Result<()> {
    var _ :- Require(q.view.Packages? && p.offset == q.Start() && p.returned == returned);
    var _ :- Cap(p.offset, INVENTORY_RECORDS);
    var _ :- Cap(p.total, INVENTORY_RECORDS);
    var _ :- Require(q.limit > 0);
    var _ :- Cap(q.limit, MAX_PACKAGES);
    var _ :- Require(ReasonsAllowed(truncated, {Bytes, Records}));
    var _ :- Cap(returned, q.limit);
    var end := p.offset + returned;
    if p.offset >= p.total then Require(returned == 0 && p.nextOffset.None? && truncated == [])
    else
      var _ :- Require(returned > 0 && end <= p.total);
      var _ :- Require(p.nextOffset == if end < p.total then Some(end) else None);
      var _ :- Require(if end < p.total then truncated != [] else truncated == []);
      Require(Records !in truncated || end < p.total)
  }

  lemma RanksRise(rs: seq<Reason>, allowed: set<Reason>)
    requires ReasonsAllowed(rs, allowed) && |rs| > 2
    ensures rs[0].Rank() < rs[1].Rank() < rs[2].Rank() && rs[0] in allowed && rs[1] in allowed && rs[2] in allowed
  {
    assert rs[0].Rank() < rs[0 + 1].Rank() && rs[1].Rank() < rs[1 + 1].Rank();
  }

  lemma ReasonsAre(rs: seq<Reason>)
    ensures ReasonsAllowed(rs, {Bytes, Records}) <==> rs == [] || rs == [Bytes] || rs == [Records] || rs == [Bytes, Records]
  {
    if |rs| == 1 {
      assert rs == [rs[0]];
    } else if |rs| == 2 {
      assert rs == [rs[0], rs[1]];
    } else if |rs| > 2 && ReasonsAllowed(rs, {Bytes, Records}) {
      RanksRise(rs, {Bytes, Records});
    }
  }

  /** A page passes exactly when it answers the request and is a slice of the inventory: behind the end it is empty,
      before it it is not, and it names the next offset and a reason exactly when more is to come. */
  lemma ValidatedExactly(p: PackagePage, q: Request, returned: nat, truncated: seq<Reason>)
    ensures Validate(p, q, returned, truncated).Ok? <==>
      && q.view == Packages && p.offset == (if q.offset.Some? then q.offset.value else 0) && p.returned == returned
      && p.offset <= 100_000 && p.total <= 100_000 && 1 <= q.limit <= 500 && returned <= q.limit
      && (if p.offset >= p.total then returned == 0 && p.nextOffset == None && truncated == []
          else
            && 1 <= returned <= p.total - p.offset
            && (if p.offset + returned == p.total then p.nextOffset == None && truncated == []
                else p.nextOffset == Some(p.offset + returned) && truncated in [[Bytes], [Records], [Bytes, Records]]))
    ensures Validate(p, q, returned, truncated).Err? ==> Validate(p, q, returned, truncated).error in [InvalidRequest, CapExceeded]
  {
    ReasonsAre(truncated);
  }

  /** One accepted exchange. */
  datatype Step = Step(request: Request, page: PackagePage, truncated: seq<Reason>)

  predicate AcceptedStep(s: Step) {
    Validate(s.page, s.request, s.page.returned, s.truncated).Ok?
  }

  /** A client asks from the start, then for each next offset it was given, until there is none;
      the inventory's size does not change meanwhile. */
  predicate Walk(steps: seq<Step>, total: nat) {
    && steps != [] && steps[0].request.Start() == 0
    && (forall i | 0 <= i < |steps| :: AcceptedStep(steps[i]) && steps[i].page.total == total)
    && (forall i | 0 <= i < |steps| - 1 ::
          steps[i].page.nextOffset.Some? && steps[i + 1].request.Start() == steps[i].page.nextOffset.value)
    && steps[|steps| - 1].page.nextOffset.None?
  }

  /** The record is on the page. */
  predicate OnPage(p: PackagePage, record: nat) {
    p.offset <= record < p.offset + p.returned
  }

  lemma {:induction false} PagesAreAdjacent(steps: seq<Step>, total: nat, i: nat, j: nat)
    requires Walk(steps, total) && i < j < |steps|
    ensures steps[i].page.offset + steps[i].page.returned <= steps[j].page.offset
    decreases j
  {
    assert AcceptedStep(steps[i]) && AcceptedStep(steps[j]);
    assert steps[j - 1].page.nextOffset.Some? && steps[j].request.Start() == steps[j - 1].page.nextOffset.value;
    assert AcceptedStep(steps[j - 1]);
    if i + 1 < j {
      PagesAreAdjacent(steps, total, i, j - 1);
    }
  }

  lemma {:induction false} PageOf(steps: seq<Step>, total: nat, i: nat, record: nat) returns (k: nat)
    requires Walk(steps, total) && i < |steps| && record < steps[i].page.offset + steps[i].page.returned
    ensures k <= i && OnPage(steps[k].page, record)
    decreases i
  {
    assert AcceptedStep(steps[i]);
    if record >= steps[i].page.offset {
      k := i;
    } else {
      assert i > 0;
      assert steps[i - 1].page.nextOffset.Some? && steps[i].request.Start() == steps[i - 1].page.nextOffset.value;
      assert AcceptedStep(steps[i - 1]);
      k := PageOf(steps, total, i - 1, record);
    }
  }

  /** Page `k` is the one page with the record. */
  predicate OnlyOn(steps: seq<Step>, k: nat, record: nat) {
    k < |steps| && OnPage(steps[k].page, record) && forall j: nat | j < |steps| && OnPage(steps[j].page, record) :: j == k
  }

  ghost predicate ShownOnce(steps: seq<Step>, record: nat) {
    exists k: nat :: OnlyOn(steps, k, record)
  }

  /** A complete walk shows every record on exactly one page and ends after at most one page per record. */
  lemma {:induction false} WalkCoversOnce(steps: seq<Step>, total: nat)
    requires Walk(steps, total)
    ensures forall record: nat | record < total :: ShownOnce(steps, record)
    ensures forall k: nat, record: nat | k < |steps| && OnPage(steps[k].page, record) :: record < total
  {
    var last := |steps| - 1;
    assert AcceptedStep(steps[last]);
    forall record: nat | record < total
      ensures ShownOnce(steps, record)
    {
      var k := PageOf(steps, total, last, record);
      forall j: nat | j < |steps| && OnPage(steps[j].page, record)
        ensures j == k
      {
        if j < k { PagesAreAdjacent(steps, total, j, k); }
        if k < j { PagesAreAdjacent(steps, total, k, j); }
      }
      assert OnlyOn(steps, k, record);
    }
    forall k: nat, record: nat | k < |steps| && OnPage(steps[k].page, record)
      ensures record < total
    {
      assert AcceptedStep(steps[k]);
    }
  }

  /** Every page but the last moves the offset on, so a walk of an inventory has at most as many pages as
      records, or the one empty page. */
  lemma {:induction false} WalkIsShort(steps: seq<Step>, total: nat, i: nat)
    requires Walk(steps, total) && i < |steps|
    ensures steps[i].page.offset >= i && (i > 0 ==> i < total)
    decreases i
  {
    assert AcceptedStep(steps[i]);
    if i > 0 {
      assert steps[i - 1].page.nextOffset.Some? && steps[i].request.Start() == steps[i - 1].page.nextOffset.value;
      assert AcceptedStep(steps[i - 1]);
      WalkIsShort(steps, total, i - 1);
    }
  }
}
