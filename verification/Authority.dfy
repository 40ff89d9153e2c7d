/** The authority file: who may do what, and until when (crates/gaze-lens-server/src/auth.rs). */
module Authority {
  import opened Bounds
  import opened Identities
  import opened Sequences
  import opened Wire
  import opened Wrappers

  datatype ResourceClass = Database | Log

  datatype PrincipalDef = PrincipalDef(id: string, generation: string, sha256: string)

  datatype ResourceDef = ResourceDef(alias: string, id: string, generation: string, class_: ResourceClass)

  datatype Grant = Grant(principal: string, resource: string, operation: Operation, enabled: bool, expires: nat)

  datatype AuthorityFile = AuthorityFile(principals: seq<PrincipalDef>, resources: seq<ResourceDef>, grants: seq<Grant>)

  const MAX_PRINCIPALS: nat := 128
  const MAX_RESOURCES: nat := 128
  const MAX_GRANTS: nat := 1024

  // ---- Accepting a file

  predicate PrincipalAllowed(a: AuthorityFile, i: nat)
    requires i < |a.principals|
  {
    var p := a.principals[i];
    && Hex(p.id, ID_HEX) && Hex(p.generation, ID_HEX) && Hex(p.sha256, DIGEST_HEX)
    && forall j | 0 <= j < i :: a.principals[j].id != p.id && a.principals[j].sha256 != p.sha256
  }

  predicate ResourceAllowed(a: AuthorityFile, i: nat)
    requires i < |a.resources|
  {
    var r := a.resources[i];
    && Hex(r.id, ID_HEX) && Hex(r.generation, ID_HEX)
    && (forall j | 0 <= j < |a.principals| :: a.principals[j].id != r.id)
    && forall j | 0 <= j < i :: a.resources[j].id != r.id && a.resources[j].alias != r.alias
  }

  predicate SameRight(g: Grant, h: Grant) {
    g.principal == h.principal && g.resource == h.resource && g.operation == h.operation
  }

  predicate GrantAllowed(a: AuthorityFile, i: nat)
    requires i < |a.grants|
  {
    var g := a.grants[i];
    && (exists j :: 0 <= j < |a.principals| && a.principals[j].id == g.principal)
    && (exists j :: 0 <= j < |a.resources| && a.resources[j].id == g.resource)
    && forall j | 0 <= j < i :: !SameRight(a.grants[j], g)
  }

  /** Resources are checked in order; a malformed alias is reported as such. */
  function CheckResources(a: AuthorityFile, i: nat): Result<()>
    requires i <= |a.resources|
    decreases |a.resources| - i
  {
    if i == |a.resources| then Ok(())
    else if !ConfiguredId(a.resources[i].alias) then Err(InvalidRequest)
    else if !ResourceAllowed(a, i) then Err(Unauthorized)
    else CheckResources(a, i + 1)
  }

  function CheckAuthority(a: AuthorityFile): Result<()> {
    var _ :- Cap(|a.principals|, MAX_PRINCIPALS);
    var _ :- Cap(|a.resources|, MAX_RESOURCES);
    var _ :- Cap(|a.grants|, MAX_GRANTS);
    if exists i: nat :: i < |a.principals| && !PrincipalAllowed(a, i) then Err(Unauthorized)
    else
      var _ :- CheckResources(a, 0);
      if exists i: nat :: i < |a.grants| && !GrantAllowed(a, i) then Err(Unauthorized) else Ok(())
  }

  /** A usable file: digests, ids and aliases are unique, principals and resources share no id,
      and every grant names a known pair at most once per operation. */
  ghost predicate WfAuthority(a: AuthorityFile) {
    && |a.principals| <= MAX_PRINCIPALS && |a.resources| <= MAX_RESOURCES && |a.grants| <= MAX_GRANTS
    && (forall i: nat | i < |a.principals| :: PrincipalAllowed(a, i))
    && (forall i: nat | i < |a.resources| :: ConfiguredId(a.resources[i].alias) && ResourceAllowed(a, i))
    && (forall i: nat | i < |a.grants| :: GrantAllowed(a, i))
  }

  lemma {:induction false} ResourcesChecked(a: AuthorityFile, i: nat)
    requires i <= |a.resources|
    ensures CheckResources(a, i).Ok? <==>
      forall k: nat | i <= k < |a.resources| :: ConfiguredId(a.resources[k].alias) && ResourceAllowed(a, k)
    decreases |a.resources| - i
  {
    if i < |a.resources| {
      ResourcesChecked(a, i + 1);
    }
  }

  lemma CheckedIsWf(a: AuthorityFile)
    ensures CheckAuthority(a).Ok? <==> WfAuthority(a)
  {
    ResourcesChecked(a, 0);
  }

  /** Acceptance written out, over all pairs: what must be distinct, what must be of hexadecimal form, and what a
      grant must name. */
  lemma CheckedExactly(a: AuthorityFile)
    ensures CheckAuthority(a).Ok? <==>
      && |a.principals| <= 128 && |a.resources| <= 128 && |a.grants| <= 1024
      && (forall p | p in a.principals :: Hex(p.id, 32) && Hex(p.generation, 32) && Hex(p.sha256, 64))
      && (forall i, j | 0 <= j < i < |a.principals| ::
            a.principals[j].id != a.principals[i].id && a.principals[j].sha256 != a.principals[i].sha256)
      && (forall r | r in a.resources :: Hex(r.id, 32) && Hex(r.generation, 32) && ConfiguredId(r.alias))
      && (forall p, r | p in a.principals && r in a.resources :: p.id != r.id)
      && (forall i, j | 0 <= j < i < |a.resources| ::
            a.resources[j].id != a.resources[i].id && a.resources[j].alias != a.resources[i].alias)
      && (forall g | g in a.grants :: HasPrincipal(a, g.principal) && HasResource(a, g.resource))
      && (forall i, j | 0 <= j < i < |a.grants| ::
            a.grants[j].principal != a.grants[i].principal || a.grants[j].resource != a.grants[i].resource
            || a.grants[j].operation != a.grants[i].operation)
  {
    CheckedIsWf(a);
    if WfAuthority(a) {
      WfPrincipals(a);
      WfResources(a);
      WfGrants(a);
    }
  }

  lemma {:induction false} ResourcesRefusedTruly(a: AuthorityFile, i: nat)
    requires i <= |a.resources| && CheckResources(a, i).Err?
    ensures match CheckResources(a, i)
      case Err(InvalidRequest) => exists k: nat :: k < |a.resources| && !ConfiguredId(a.resources[k].alias)
      case Err(Unauthorized) => exists k: nat :: k < |a.resources| && !ResourceAllowed(a, k)
      case _ => false
    decreases |a.resources| - i
  {
    if ConfiguredId(a.resources[i].alias) && ResourceAllowed(a, i) {
      ResourcesRefusedTruly(a, i + 1);
    }
  }

  /** A refused file is over a cap, has a malformed alias, or breaks one of the rules, as its error says. */
  lemma CheckRefusedTruly(a: AuthorityFile)
    ensures match CheckAuthority(a)
      case Ok(_) => true
      case Err(CapExceeded) => |a.principals| > 128 || |a.resources| > 128 || |a.grants| > 1024
      case Err(InvalidRequest) => exists k: nat :: k < |a.resources| && !ConfiguredId(a.resources[k].alias)
      case Err(Unauthorized) =>
        || (exists k: nat :: k < |a.principals| && !PrincipalAllowed(a, k))
        || (exists k: nat :: k < |a.resources| && !ResourceAllowed(a, k))
        || (exists k: nat :: k < |a.grants| && !GrantAllowed(a, k))
      case Err(_) => false
  {
    if CheckResources(a, 0).Err? {
      ResourcesRefusedTruly(a, 0);
    }
  }

  ghost predicate HasPrincipal(a: AuthorityFile, id: string) {
    exists p: PrincipalDef :: p in a.principals && p.id == id
  }

  ghost predicate HasResource(a: AuthorityFile, id: string) {
    exists r: ResourceDef :: r in a.resources && r.id == id
  }

  lemma WfPrincipals(a: AuthorityFile)
    requires WfAuthority(a)
    ensures forall p | p in a.principals :: Hex(p.id, 32) && Hex(p.generation, 32) && Hex(p.sha256, 64)
    ensures forall i, j | 0 <= j < i < |a.principals| ::
      a.principals[j].id != a.principals[i].id && a.principals[j].sha256 != a.principals[i].sha256
  {
    forall i, j | 0 <= j < i < |a.principals|
      ensures a.principals[j].id != a.principals[i].id && a.principals[j].sha256 != a.principals[i].sha256
    {
      assert PrincipalAllowed(a, i);
    }
    forall p | p in a.principals
      ensures Hex(p.id, 32) && Hex(p.generation, 32) && Hex(p.sha256, 64)
    {
      var i: nat :| i < |a.principals| && a.principals[i] == p;
      assert PrincipalAllowed(a, i);
    }
  }

  lemma WfResources(a: AuthorityFile)
    requires WfAuthority(a)
    ensures forall r | r in a.resources :: Hex(r.id, 32) && Hex(r.generation, 32) && ConfiguredId(r.alias)
    ensures forall p, r | p in a.principals && r in a.resources :: p.id != r.id
    ensures forall i, j | 0 <= j < i < |a.resources| ::
      a.resources[j].id != a.resources[i].id && a.resources[j].alias != a.resources[i].alias
  {
    forall i, j | 0 <= j < i < |a.resources|
      ensures a.resources[j].id != a.resources[i].id && a.resources[j].alias != a.resources[i].alias
    {
      assert ResourceAllowed(a, i);
    }
    forall r | r in a.resources
      ensures Hex(r.id, 32) && Hex(r.generation, 32) && ConfiguredId(r.alias)
      ensures forall p | p in a.principals :: p.id != r.id
    {
      var i: nat :| i < |a.resources| && a.resources[i] == r;
      assert ResourceAllowed(a, i);
    }
  }

  lemma WfGrants(a: AuthorityFile)
    requires WfAuthority(a)
    ensures forall g | g in a.grants :: HasPrincipal(a, g.principal) && HasResource(a, g.resource)
    ensures forall i, j | 0 <= j < i < |a.grants| ::
      a.grants[j].principal != a.grants[i].principal || a.grants[j].resource != a.grants[i].resource
      || a.grants[j].operation != a.grants[i].operation
  {
    forall i, j | 0 <= j < i < |a.grants|
      ensures !SameRight(a.grants[j], a.grants[i])
    {
      assert GrantAllowed(a, i);
    }
    forall g | g in a.grants
      ensures HasPrincipal(a, g.principal) && HasResource(a, g.resource)
    {
      var i: nat :| i < |a.grants| && a.grants[i] == g;
      assert GrantAllowed(a, i);
      var j :| 0 <= j < |a.principals| && a.principals[j].id == g.principal;
      var k :| 0 <= k < |a.resources| && a.resources[k].id == g.resource;
      assert a.principals[j] in a.principals && a.resources[k] in a.resources;
    }
  }

  // ---- The identities a file defines

  datatype Definition = P(principal: PrincipalDef) | R(resource: ResourceDef)

  /** The digest of a definition's serialised form. */
  type Fingerprint = Definition -> string

  function IdentityOf(d: Definition, fp: Fingerprint): Identity {
    match d
    case P(p) => Identity(Kind.Principal, p.id, p.generation, fp(d))
    case R(r) => Identity(Kind.Resource, r.id, r.generation, fp(d))
  }

  function Definitions(a: AuthorityFile): (r: seq<Definition>)
    ensures |r| == |a.principals| + |a.resources|
    ensures forall i | 0 <= i < |a.principals| :: r[i] == P(a.principals[i])
    ensures forall i | 0 <= i < |a.resources| :: r[|a.principals| + i] == R(a.resources[i])
  {
    seq(|a.principals|, i requires 0 <= i < |a.principals| => P(a.principals[i]))
    + seq(|a.resources|, i requires 0 <= i < |a.resources| => R(a.resources[i]))
  }

  /** The order of ids: by the first character that differs. */
  predicate Before(a: string, b: string) {
    b != [] && (a == [] || a[0] < b[0] || (a[0] == b[0] && Before(a[1..], b[1..])))
  }

  /** `a` and `b` agree on their first `k` characters, and then `a` ends or has the smaller one. */
  predicate ComesFirst(a: string, b: string, k: nat) {
    k <= |a| && k < |b| && a[..k] == b[..k] && (k == |a| || a[k] < b[k])
  }

  lemma {:induction false} BeforeExactly(a: string, b: string)
    ensures Before(a, b) <==> exists k: nat :: ComesFirst(a, b, k)
    decreases |a|
  {
    if a != [] && b != [] && a[0] == b[0] {
      BeforeExactly(a[1..], b[1..]);
      if Before(a[1..], b[1..]) {
        var k: nat :| ComesFirst(a[1..], b[1..], k);
        FirstAgrees(a, b, k);
      }
      if k: nat :| ComesFirst(a, b, k) {
        assert k > 0 && a[..k][0] == b[..k][0];
        assert a[1..][..k - 1] == a[..k][1..] && b[1..][..k - 1] == b[..k][1..];
        assert ComesFirst(a[1..], b[1..], k - 1);
      }
    } else if Before(a, b) {
      assert ComesFirst(a, b, 0);
    } else if k: nat :| ComesFirst(a, b, k) {
      if k > 0 {
        FirstIsShared(a, b, k);
      }
    }
  }

  lemma FirstIsShared(a: string, b: string, k: nat)
    requires ComesFirst(a, b, k) && k > 0
    ensures a != [] && b != [] && a[0] == b[0]
  {
    assert a[0] == a[..k][0] && b[0] == b[..k][0];
  }

  lemma FirstAgrees(a: string, b: string, k: nat)
    requires a != [] && b != [] && a[0] == b[0] && ComesFirst(a[1..], b[1..], k)
    ensures ComesFirst(a, b, k + 1)
  {
    assert a[..k + 1] == [a[0]] + a[1..][..k] && b[..k + 1] == [b[0]] + b[1..][..k];
  }

  lemma {:induction false} BeforeIsTotal(a: string, b: string)
    ensures Before(a, b) || Before(b, a) || a == b
    ensures !(Before(a, b) && Before(b, a))
    decreases |a|
  {
    if a != [] && b != [] && a[0] == b[0] {
      BeforeIsTotal(a[1..], b[1..]);
      Uncons(a);
      Uncons(b);
    }
  }

  lemma {:induction false} BeforeChains(a: string, b: string, c: string)
    requires Before(a, b) && Before(b, c)
    ensures Before(a, c)
    decreases |a|
  {
    if a != [] && a[0] == b[0] && b[0] == c[0] {
      BeforeChains(a[1..], b[1..], c[1..]);
    }
  }

  ghost predicate Sorted(vs: seq<Identity>) {
    forall i, j | 0 <= i < j < |vs| :: Before(vs[i].id, vs[j].id)
  }

  function Insert(v: Identity, vs: seq<Identity>): seq<Identity> {
    if vs == [] || Before(v.id, vs[0].id) then [v] + vs else [vs[0]] + Insert(v, vs[1..])
  }

  /** The identities of the first `n` definitions, in the order of their ids. */
  function SortedIdentities(ds: seq<Definition>, fp: Fingerprint, n: nat): seq<Identity>
    requires n <= |ds|
  {
    if n == 0 then [] else Insert(IdentityOf(ds[n - 1], fp), SortedIdentities(ds, fp, n - 1))
  }

  function IdentitiesOf(a: AuthorityFile, fp: Fingerprint): seq<Identity> {
    SortedIdentities(Definitions(a), fp, |Definitions(a)|)
  }

  method ListIdentities(a: AuthorityFile, fp: Fingerprint) returns (vs: seq<Identity>)
    ensures vs == IdentitiesOf(a, fp)
  {
    vs := [];
    var ds := Definitions(a);
    for n := 0 to |ds|
      invariant vs == SortedIdentities(ds, fp, n)
    {
      vs := Insert(IdentityOf(ds[n], fp), vs);
    }
  }

  lemma {:induction false} InsertHas(v: Identity, vs: seq<Identity>, x: Identity)
    ensures x in Insert(v, vs) <==> x == v || x in vs
    decreases |vs|
  {
    if vs == [] || Before(v.id, vs[0].id) {
    } else {
      InsertHas(v, vs[1..], x);
      Uncons(vs);
      assert x in vs <==> x == vs[0] || x in vs[1..];
    }
  }

  lemma {:induction false} InsertSorts(v: Identity, vs: seq<Identity>)
    requires Sorted(vs) && forall i | 0 <= i < |vs| :: vs[i].id != v.id
    ensures Sorted(Insert(v, vs))
    decreases |vs|
  {
    if vs == [] {
    } else if Before(v.id, vs[0].id) {
      forall j | 0 <= j < |vs|
        ensures Before(v.id, vs[j].id)
      {
        if j > 0 { BeforeChains(v.id, vs[0].id, vs[j].id); }
      }
    } else {
      InsertSorts(v, vs[1..]);
      var more := Insert(v, vs[1..]);
      BeforeIsTotal(v.id, vs[0].id);
      forall j | 0 <= j < |more|
        ensures Before(vs[0].id, more[j].id)
      {
        InsertHas(v, vs[1..], more[j]);
        assert more[j] == v || more[j] in vs;
        if more[j] != v {
          var k :| 0 <= k < |vs[1..]| && vs[1..][k] == more[j];
          assert vs[k + 1] == more[j];
        }
      }
    }
  }

  predicate DistinctDefinitions(ds: seq<Definition>, fp: Fingerprint) {
    forall i, j | 0 <= i < j < |ds| :: IdentityOf(ds[i], fp).id != IdentityOf(ds[j], fp).id
  }

  lemma {:induction false} SortedHas(ds: seq<Definition>, fp: Fingerprint, n: nat, x: Identity)
    requires n <= |ds|
    ensures x in SortedIdentities(ds, fp, n) <==> exists i :: 0 <= i < n && IdentityOf(ds[i], fp) == x
    decreases n
  {
    if n > 0 {
      SortedHas(ds, fp, n - 1, x);
      InsertHas(IdentityOf(ds[n - 1], fp), SortedIdentities(ds, fp, n - 1), x);
    }
  }

  lemma {:induction false} SortedIsSorted(ds: seq<Definition>, fp: Fingerprint, n: nat)
    requires n <= |ds| && DistinctDefinitions(ds, fp)
    ensures Sorted(SortedIdentities(ds, fp, n))
    decreases n
  {
    if n > 0 {
      SortedIsSorted(ds, fp, n - 1);
      var v, vs := IdentityOf(ds[n - 1], fp), SortedIdentities(ds, fp, n - 1);
      forall i | 0 <= i < |vs|
        ensures vs[i].id != v.id
      {
        SortedHas(ds, fp, n - 1, vs[i]);
      }
      InsertSorts(v, vs);
    }
  }

  lemma IdsDiffer(a: AuthorityFile, i: nat, j: nat, fp: Fingerprint)
    requires i < j < |Definitions(a)|
    requires j < |a.principals| ==> PrincipalAllowed(a, j)
    requires j >= |a.principals| ==> ResourceAllowed(a, j - |a.principals|)
    ensures IdentityOf(Definitions(a)[i], fp).id != IdentityOf(Definitions(a)[j], fp).id
  {
    DefinitionAt(a, i, fp);
    DefinitionAt(a, j, fp);
  }

  lemma DefinitionAt(a: AuthorityFile, i: nat, fp: Fingerprint)
    requires i < |Definitions(a)|
    ensures IdentityOf(Definitions(a)[i], fp).id
         == if i < |a.principals| then a.principals[i].id else a.resources[i - |a.principals|].id
  {
    if i >= |a.principals| {
      assert Definitions(a)[i] == R(a.resources[i - |a.principals|]);
    }
  }

  lemma DefinitionsAreDistinct(a: AuthorityFile, fp: Fingerprint)
    requires WfAuthority(a)
    ensures DistinctDefinitions(Definitions(a), fp)
  {
    forall i, j | 0 <= i < j < |Definitions(a)|
      ensures IdentityOf(Definitions(a)[i], fp).id != IdentityOf(Definitions(a)[j], fp).id
    {
      IdsDiffer(a, i, j, fp);
    }
  }

  lemma {:induction false} SortedUnique(a: seq<Identity>, b: seq<Identity>)
    requires Sorted(a) && Sorted(b) && forall x: Identity :: x in a <==> x in b
    ensures a == b
    decreases |a|
  {
    FirstIsIn(a);
    FirstIsIn(b);
    if a != [] {
      var i :| 0 <= i < |a| && a[i] == b[0];
      var j :| 0 <= j < |b| && b[j] == a[0];
      BeforeIsTotal(a[0].id, b[0].id);
      assert a[0] == b[0];
      forall x: Identity
        ensures x in a[1..] <==> x in b[1..]
      {
        TailHas(a, x);
        TailHas(b, x);
      }
      SortedUnique(a[1..], b[1..]);
      Uncons(a);
      Uncons(b);
    }
  }

  lemma TailHas(a: seq<Identity>, x: Identity)
    requires Sorted(a) && a != []
    ensures x in a[1..] <==> x in a && x != a[0]
  {
    BeforeIsTotal(a[0].id, a[0].id);
    Uncons(a);
    if x in a[1..] {
      var i :| 0 <= i < |a[1..]| && a[1..][i] == x;
      assert a[i + 1] == x;
    }
    if x in a && x != a[0] {
      var i :| 0 <= i < |a| && a[i] == x;
      assert a[1..][i - 1] == x;
    }
  }

  lemma IdentityIsWf(a: AuthorityFile, fp: Fingerprint, k: nat)
    requires WfAuthority(a) && k < |Definitions(a)| && Hex(fp(Definitions(a)[k]), DIGEST_HEX)
    ensures WfIdentity(IdentityOf(Definitions(a)[k], fp))
  {
    if k < |a.principals| {
      assert PrincipalAllowed(a, k);
    } else {
      assert ResourceAllowed(a, k - |a.principals|) && Definitions(a)[k] == R(a.resources[k - |a.principals|]);
    }
  }

  lemma SortedIdsDiffer(vs: seq<Identity>)
    requires Sorted(vs)
    ensures DistinctIds(vs)
  {
    forall i, j | 0 <= i < j < |vs|
      ensures vs[i].id != vs[j].id
    {
      BeforeIsTotal(vs[i].id, vs[j].id);
    }
  }

  function PrincipalIdentity(p: PrincipalDef, fp: Fingerprint): Identity {
    Identity(Kind.Principal, p.id, p.generation, fp(P(p)))
  }

  function ResourceIdentity(r: ResourceDef, fp: Fingerprint): Identity {
    Identity(Kind.Resource, r.id, r.generation, fp(R(r)))
  }

  lemma PrincipalIsListed(a: AuthorityFile, fp: Fingerprint, i: nat)
    requires i < |a.principals|
    ensures PrincipalIdentity(a.principals[i], fp) in IdentitiesOf(a, fp)
  {
    var ds := Definitions(a);
    SortedHas(ds, fp, |ds|, PrincipalIdentity(a.principals[i], fp));
    assert IdentityOf(ds[i], fp) == PrincipalIdentity(a.principals[i], fp);
  }

  lemma ResourceIsListed(a: AuthorityFile, fp: Fingerprint, i: nat)
    requires i < |a.resources|
    ensures ResourceIdentity(a.resources[i], fp) in IdentitiesOf(a, fp)
  {
    var ds := Definitions(a);
    SortedHas(ds, fp, |ds|, ResourceIdentity(a.resources[i], fp));
    assert IdentityOf(ds[|a.principals| + i], fp) == ResourceIdentity(a.resources[i], fp);
  }

  lemma ListedIsDefined(a: AuthorityFile, fp: Fingerprint, x: Identity) returns (i: nat)
    requires x in IdentitiesOf(a, fp)
    ensures || (i < |a.principals| && x == PrincipalIdentity(a.principals[i], fp))
            || (i < |a.resources| && x == ResourceIdentity(a.resources[i], fp))
  {
    var ds, n := Definitions(a), |a.principals|;
    SortedHas(ds, fp, |ds|, x);
    i :| 0 <= i < |ds| && IdentityOf(ds[i], fp) == x;
    if i >= n {
      assert ds[i] == R(a.resources[i - n]);
      i := i - n;
    }
  }

  /** The list holds exactly the identities of the principals and resources, each with its own kind, id, generation
      and digest. */
  lemma IdentitiesExactly(a: AuthorityFile, fp: Fingerprint, x: Identity)
    ensures x in IdentitiesOf(a, fp) <==>
      || (exists i :: 0 <= i < |a.principals| && x == PrincipalIdentity(a.principals[i], fp))
      || (exists i :: 0 <= i < |a.resources| && x == ResourceIdentity(a.resources[i], fp))
  {
    if x in IdentitiesOf(a, fp) {
      var i := ListedIsDefined(a, fp, x);
    }
    if i :| 0 <= i < |a.principals| && x == PrincipalIdentity(a.principals[i], fp) {
      PrincipalIsListed(a, fp, i);
    }
    if i :| 0 <= i < |a.resources| && x == ResourceIdentity(a.resources[i], fp) {
      ResourceIsListed(a, fp, i);
    }
  }

  /** Accepted files enrol well-formed identities with distinct ids. */
  lemma IdentitiesAreRequestable(a: AuthorityFile, fp: Fingerprint)
    requires WfAuthority(a) && forall i | 0 <= i < |Definitions(a)| :: Hex(fp(Definitions(a)[i]), DIGEST_HEX)
    ensures Requestable(IdentitiesOf(a, fp)) && Sorted(IdentitiesOf(a, fp))
  {
    var ds, vs := Definitions(a), IdentitiesOf(a, fp);
    DefinitionsAreDistinct(a, fp);
    SortedIsSorted(ds, fp, |ds|);
    SortedIdsDiffer(vs);
    forall i | 0 <= i < |vs|
      ensures WfIdentity(vs[i])
    {
      SortedHas(ds, fp, |ds|, vs[i]);
      var k :| 0 <= k < |ds| && IdentityOf(ds[k], fp) == vs[i];
      IdentityIsWf(a, fp, k);
    }
  }

  /** No two different definitions of the two files have the same digest. */
  predicate NoCollision(a: AuthorityFile, b: AuthorityFile, fp: Fingerprint) {
    forall i, j | 0 <= i < |Definitions(a)| && 0 <= j < |Definitions(b)| ::
      fp(Definitions(a)[i]) == fp(Definitions(b)[j]) ==> Definitions(a)[i] == Definitions(b)[j]
  }

  ghost predicate SameDefinitions(a: AuthorityFile, b: AuthorityFile) {
    && (forall p: PrincipalDef :: p in a.principals <==> p in b.principals)
    && (forall r: ResourceDef :: r in a.resources <==> r in b.resources)
  }

  lemma DefinitionsHave(a: AuthorityFile, d: Definition)
    ensures d in Definitions(a) <==> match d case P(p) => p in a.principals case R(r) => r in a.resources
  {
    var ds, n := Definitions(a), |a.principals|;
    assert forall i | n <= i < |ds| :: ds[i] == R(a.resources[i - n]) by {
      assert forall k | 0 <= k < |a.resources| :: ds[n + k] == R(a.resources[k]);
    }
    match d
    case P(p) =>
      if p in a.principals {
        var i :| 0 <= i < n && a.principals[i] == p;
        assert ds[i] == d;
      }
    case R(r) =>
      if r in a.resources {
        var i :| 0 <= i < |a.resources| && a.resources[i] == r;
        assert ds[n + i] == d;
      }
  }

  lemma DefinitionEnrolled(a: AuthorityFile, fp: Fingerprint, d: Definition)
    requires d in Definitions(a)
    ensures IdentityOf(d, fp) in IdentitiesOf(a, fp)
  {
    var ds := Definitions(a);
    SortedHas(ds, fp, |ds|, IdentityOf(d, fp));
    var i :| 0 <= i < |ds| && ds[i] == d;
  }

  lemma DefinitionShared(a: AuthorityFile, b: AuthorityFile, fp: Fingerprint, d: Definition)
    requires NoCollision(a, b, fp) && d in Definitions(a) && IdentityOf(d, fp) in IdentitiesOf(b, fp)
    ensures d in Definitions(b)
  {
    var ds := Definitions(b);
    SortedHas(ds, fp, |ds|, IdentityOf(d, fp));
    var j :| 0 <= j < |ds| && IdentityOf(ds[j], fp) == IdentityOf(d, fp);
    var i :| 0 <= i < |Definitions(a)| && Definitions(a)[i] == d;
    assert fp(Definitions(a)[i]) == fp(ds[j]);
  }

  /** Two accepted files enrol equal identity lists exactly when they define the same principals and
      resources, in whatever order; so a running server accepts reordered files and no changed definition. */
  lemma IdentitiesCompareDefinitions(a: AuthorityFile, b: AuthorityFile, fp: Fingerprint)
    requires WfAuthority(a) && WfAuthority(b) && NoCollision(a, b, fp)
    ensures IdentitiesOf(a, fp) == IdentitiesOf(b, fp) <==> SameDefinitions(a, b)
  {
    var da, db := Definitions(a), Definitions(b);
    if IdentitiesOf(a, fp) == IdentitiesOf(b, fp) {
      forall d: Definition
        ensures d in da <==> d in db
      {
        if d in da { DefinitionEnrolled(a, fp, d); DefinitionShared(a, b, fp, d); }
        if d in db { DefinitionEnrolled(b, fp, d); NoCollisionSym(a, b, fp); DefinitionShared(b, a, fp, d); }
      }
      SameFromDefinitions(a, b);
    }
    if SameDefinitions(a, b) {
      SortedFromSame(a, b, fp);
    }
  }

  lemma NoCollisionSym(a: AuthorityFile, b: AuthorityFile, fp: Fingerprint)
    requires NoCollision(a, b, fp)
    ensures NoCollision(b, a, fp)
  {
  }

  lemma SameFromDefinitions(a: AuthorityFile, b: AuthorityFile)
    requires forall d: Definition :: d in Definitions(a) <==> d in Definitions(b)
    ensures SameDefinitions(a, b)
  {
    forall p: PrincipalDef
      ensures p in a.principals <==> p in b.principals
    {
      DefinitionsHave(a, P(p));
      DefinitionsHave(b, P(p));
    }
    forall r: ResourceDef
      ensures r in a.resources <==> r in b.resources
    {
      DefinitionsHave(a, R(r));
      DefinitionsHave(b, R(r));
    }
  }

  lemma SameMeansIn(a: AuthorityFile, b: AuthorityFile, fp: Fingerprint, x: Identity)
    requires SameDefinitions(a, b) && x in IdentitiesOf(a, fp)
    ensures x in IdentitiesOf(b, fp)
  {
    var da := Definitions(a);
    SortedHas(da, fp, |da|, x);
    var i :| 0 <= i < |da| && IdentityOf(da[i], fp) == x;
    DefinitionsHave(a, da[i]);
    DefinitionsHave(b, da[i]);
    DefinitionEnrolled(b, fp, da[i]);
  }

  lemma SortedFromSame(a: AuthorityFile, b: AuthorityFile, fp: Fingerprint)
    requires WfAuthority(a) && WfAuthority(b) && SameDefinitions(a, b)
    ensures IdentitiesOf(a, fp) == IdentitiesOf(b, fp)
  {
    DefinitionsAreDistinct(a, fp);
    DefinitionsAreDistinct(b, fp);
    SortedIsSorted(Definitions(a), fp, |Definitions(a)|);
    SortedIsSorted(Definitions(b), fp, |Definitions(b)|);
    forall x: Identity
      ensures x in IdentitiesOf(a, fp) <==> x in IdentitiesOf(b, fp)
    {
      if x in IdentitiesOf(a, fp) { SameMeansIn(a, b, fp, x); }
      if x in IdentitiesOf(b, fp) { SameMeansIn(b, a, fp, x); }
    }
    SortedUnique(IdentitiesOf(a, fp), IdentitiesOf(b, fp));
  }

  // ---- Pinning a request and checking it again

  datatype Pinned = Pinned(principal: PrincipalDef, resource: ResourceDef, operation: Operation) {
    function Binding(): Binding {
      Wire.Binding(principal.id, principal.generation, resource.id, resource.generation)
    }
  }

  /** An enabled grant of the right that outlasts `now`. */
  predicate Granted(a: AuthorityFile, principal: string, resource: string, op: Operation, now: nat) {
    exists i :: 0 <= i < |a.grants| && a.grants[i].principal == principal && a.grants[i].resource == resource
      && a.grants[i].operation == op && a.grants[i].enabled && a.grants[i].expires > now
  }

  function CheckGrant(a: AuthorityFile, principal: string, resource: string, op: Operation, now: nat): Result<()> {
    if Granted(a, principal, resource, op, now) then Ok(()) else Err(Unauthorized)
  }

  /** The last principal with the digest; the whole list is always compared. */
  function FoldPrincipals(ps: seq<PrincipalDef>, digest: string): Option<PrincipalDef> {
    if ps == [] then None
    else if ps[|ps| - 1].sha256 == digest then Some(ps[|ps| - 1])
    else FoldPrincipals(ps[..|ps| - 1], digest)
  }

  function FindResource(rs: seq<ResourceDef>, alias: string): Option<ResourceDef> {
    if rs == [] then None else if rs[0].alias == alias then Some(rs[0]) else FindResource(rs[1..], alias)
  }

  /** `digest` is the digest of the credential that was sent. */
  function PrepareRequest(a: AuthorityFile, p: Prepare, digest: string, now: nat): Result<Pinned> {
    match FoldPrincipals(a.principals, digest)
    case None => Err(Unauthorized)
    case Some(principal) =>
      match FindResource(a.resources, p.resource)
      case None => Err(Unauthorized)
      case Some(resource) =>
        var _ :- CheckGrant(a, principal.id, resource.id, p.operation, now);
        Ok(Pinned(principal, resource, p.operation))
  }

  function Revalidate(a: AuthorityFile, pin: Pinned, now: nat): Result<()> {
    if pin.principal !in a.principals || pin.resource !in a.resources then Err(BindingChanged)
    else CheckGrant(a, pin.principal.id, pin.resource.id, pin.operation, now)
  }

  /** Some grant of the file names the pin's principal, resource and operation, is enabled and expires after `now`. */
  ghost predicate LiveGrant(a: AuthorityFile, pin: Pinned, now: nat) {
    exists g: Grant :: g in a.grants && g.principal == pin.principal.id && g.resource == pin.resource.id
                       && g.operation == pin.operation && g.enabled && g.expires > now
  }

  lemma GrantedExactly(a: AuthorityFile, pin: Pinned, now: nat)
    ensures CheckGrant(a, pin.principal.id, pin.resource.id, pin.operation, now)
         == if LiveGrant(a, pin, now) then Ok(()) else Err(Unauthorized)
  {
    if LiveGrant(a, pin, now) {
      var g: Grant :| g in a.grants && g.principal == pin.principal.id && g.resource == pin.resource.id
                      && g.operation == pin.operation && g.enabled && g.expires > now;
      var i :| 0 <= i < |a.grants| && a.grants[i] == g;
    }
    if Granted(a, pin.principal.id, pin.resource.id, pin.operation, now) {
      var i :| 0 <= i < |a.grants| && a.grants[i].principal == pin.principal.id && a.grants[i].resource == pin.resource.id
        && a.grants[i].operation == pin.operation && a.grants[i].enabled && a.grants[i].expires > now;
      assert a.grants[i] in a.grants;
    }
  }

  lemma {:induction false} FoldFindsOnly(ps: seq<PrincipalDef>, digest: string)
    requires forall i, j | 0 <= i < j < |ps| :: ps[i].sha256 != ps[j].sha256
    ensures forall p: PrincipalDef :: FoldPrincipals(ps, digest) == Some(p) <==> p in ps && p.sha256 == digest
    decreases |ps|
  {
    if ps != [] {
      FoldFindsOnly(ps[..|ps| - 1], digest);
      Rejoin(ps, |ps| - 1);
    }
  }

  lemma {:induction false} FindFindsOnly(rs: seq<ResourceDef>, alias: string)
    requires forall i, j | 0 <= i < j < |rs| :: rs[i].alias != rs[j].alias
    ensures forall r: ResourceDef :: FindResource(rs, alias) == Some(r) <==> r in rs && r.alias == alias
    decreases |rs|
  {
    if rs != [] {
      FindFindsOnly(rs[1..], alias);
      Uncons(rs);
    }
  }

  /** A request is pinned exactly to the one principal with its credential's digest and the one resource
      with its alias, when some grant of the file names both and the operation, is enabled and has not expired;
      otherwise it is refused. */
  lemma PreparedExactly(a: AuthorityFile, p: Prepare, digest: string, now: nat)
    requires WfAuthority(a)
    ensures forall pin: Pinned :: PrepareRequest(a, p, digest, now) == Ok(pin) <==>
      && pin.principal in a.principals && pin.principal.sha256 == digest
      && pin.resource in a.resources && pin.resource.alias == p.resource && pin.operation == p.operation
      && LiveGrant(a, pin, now)
    ensures PrepareRequest(a, p, digest, now).Err? ==> PrepareRequest(a, p, digest, now) == Err(Unauthorized)
  {
    forall i, j | 0 <= i < j < |a.principals|
      ensures a.principals[i].sha256 != a.principals[j].sha256
    {
      assert PrincipalAllowed(a, j);
    }
    forall i, j | 0 <= i < j < |a.resources|
      ensures a.resources[i].alias != a.resources[j].alias
    {
      assert ResourceAllowed(a, j);
    }
    FoldFindsOnly(a.principals, digest);
    FindFindsOnly(a.resources, p.resource);
    var principal, resource := FoldPrincipals(a.principals, digest), FindResource(a.resources, p.resource);
    if principal.Some? && resource.Some? {
      GrantedExactly(a, Pinned(principal.value, resource.value, p.operation), now);
    }
  }

  /** A later check answers by the pin's own definitions first, then by the grants. */
  lemma RevalidatedExactly(a: AuthorityFile, pin: Pinned, now: nat)
    ensures Revalidate(a, pin, now) ==
      if pin.principal !in a.principals || pin.resource !in a.resources then Err(BindingChanged)
      else if LiveGrant(a, pin, now) then Ok(()) else Err(Unauthorized)
  {
    GrantedExactly(a, pin, now);
  }

  /** Behind the identity check a second check can only fail for want of a grant. */
  lemma RevalidationOnlyChecksGrants(a: AuthorityFile, b: AuthorityFile, fp: Fingerprint, pin: Pinned, now: nat)
    requires WfAuthority(a) && WfAuthority(b) && NoCollision(a, b, fp)
    requires IdentitiesOf(a, fp) == IdentitiesOf(b, fp)
    requires pin.principal in a.principals && pin.resource in a.resources
    ensures Revalidate(b, pin, now) == if LiveGrant(b, pin, now) then Ok(()) else Err(Unauthorized)
  {
    RevalidatedExactly(b, pin, now);
    IdentitiesCompareDefinitions(a, b, fp);
  }
}
