/**
 The certificate is no stronger than needed: every site the estimator knows has one, read off
 from the declarations it reaches. So a site is known if and only if it can be certified.
 */
module CertificateExists {
  import opened AccountSpace
  import opened KnownEstimates
  import opened SizeCertificate

  // ---- what a site reaches

  ghost function Declared(w: World): set<string> {
    w.structs.Keys + w.enums.Keys + w.workspace.Keys
  }

  ghost predicate Leads(w: World, from: string, to: string) {
    exists path :: IsChain(w, path) && path[0] == from && path[|path| - 1] == to
  }

  /** The declarations that `name` leads to, itself included. */
  ghost function Below(w: World, name: string): set<string> {
    set n | n in Declared(w) && Leads(w, name, n)
  }

  /** The declarations that sizing a type reaches. */
  ghost function Scope(w: World, ty: Type): set<string> {
    set n | n in Declared(w) && exists m :: m in Mentions(ty) && Leads(w, m, n)
  }

  lemma ChainJoin(w: World, a: seq<string>, b: seq<string>)
    requires IsChain(w, a) && IsChain(w, b) && Refers(w, a[|a| - 1], b[0])
    ensures IsChain(w, a + b)
  {
    var path := a + b;
    forall i | 0 < i < |path| ensures Refers(w, path[i - 1], path[i]) {
      if i > |a| {
        assert path[i - 1] == b[i - 1 - |a|] && path[i] == b[i - |a|];
      }
    }
  }

  lemma LeadsStep(w: World, a: string, m: string, n: string)
    requires Refers(w, a, m) && Leads(w, m, n)
    ensures Leads(w, a, n)
  {
    var path :| IsChain(w, path) && path[0] == m && path[|path| - 1] == n;
    ChainJoin(w, [a], path);
    assert ([a] + path)[|path|] == n;
  }

  lemma LeadsOn(w: World, a: string, m: string, n: string)
    requires Leads(w, a, m) && Refers(w, m, n)
    ensures Leads(w, a, n)
  {
    var path :| IsChain(w, path) && path[0] == a && path[|path| - 1] == m;
    ChainJoin(w, path, [n]);
    assert (path + [n])[|path|] == n;
  }

  lemma LeadsSelf(w: World, n: string)
    ensures Leads(w, n, n)
  {
    assert IsChain(w, [n]);
  }

  lemma {:induction false} MentionsAreNames(ty: Type, name: string)
    requires name in Mentions(ty)
    ensures KindOf(name).NamedPath?
  {
    match ty
    case ArrayT(elem, _) => MentionsAreNames(elem, name);
    case TupleT(elems) =>
      var i :| 0 <= i < |elems| && name in Mentions(elems[i]);
      MentionsAreNames(elems[i], name);
    case PathT(n, params) =>
      if KindOf(n).OptionPath? || KindOf(n).VecPath? {
        MentionsAreNames(params[0], name);
      }
  }

  // ---- everything reached is known

  lemma {:induction false} KnownChain(w: World, name: string, seen: Seen, path: seq<string>)
    requires !NamedSpace(w, name, seen).Unknown?
    requires IsChain(w, path) && path[0] == name
    ensures !NamedSpace(w, path[|path| - 1], UNSEEN).Unknown?
    decreases |path|
  {
    if |path| == 1 {
      SmallerNamed(w, name, UNSEEN, seen);
    } else {
      assert Refers(w, path[0], path[1]);
      var field :| IsFieldOf(w, name, field) && path[1] in Mentions(field.ty);
      KnownField(w, name, seen, field);
      KnownMention(w, field, Inside(w, name, seen), path[1]);
      ChainRest(w, path);
      KnownChain(w, path[1], Inside(w, name, seen), path[1..]);
    }
  }

  lemma KnownLead(w: World, name: string, n: string)
    requires !NamedSpace(w, name, UNSEEN).Unknown? && Leads(w, name, n)
    ensures !NamedSpace(w, n, UNSEEN).Unknown? && n in Declared(w)
  {
    var path :| IsChain(w, path) && path[0] == name && path[|path| - 1] == n;
    KnownChain(w, name, UNSEEN, path);
  }

  // ---- nothing reached comes back

  /** Along a chain of enums each is being sized when the next one is met. */
  lemma {:induction false} EnumsStayOpen(w: World, seen: Seen, path: seq<string>)
    requires IsChain(w, path) && !NamedSpace(w, path[0], seen).Unknown?
    requires forall i | 0 <= i < |path| :: Resolve(w, path[i]).EnumDef?
    ensures forall i | 0 <= i < |path| :: path[i] !in seen.enums
    ensures forall i | 0 < i < |path| :: path[i] != path[0]
    decreases |path|
  {
    if |path| > 1 {
      var inside := InEnum(seen, path[0]);
      assert Refers(w, path[0], path[1]);
      var field :| IsFieldOf(w, path[0], field) && path[1] in Mentions(field.ty);
      KnownField(w, path[0], seen, field);
      KnownMention(w, field, inside, path[1]);
      ChainRest(w, path);
      EnumsStayOpen(w, inside, path[1..]);
      assert forall i | 0 < i < |path| :: path[i] == path[1..][i - 1];
    }
  }

  /** A chain from a known declaration has no struct twice. */
  lemma NoStructTwice(w: World, path: seq<string>, i: nat, j: nat)
    requires IsChain(w, path) && KindOf(path[0]).NamedPath? && !NamedSpace(w, path[0], UNSEEN).Unknown?
    requires i < j < |path| && Resolve(w, path[i]).StructDef?
    ensures path[i] != path[j]
  {
    var s := Site(PathT(path[0], []), "", []);
    assert Mentions(s.ty) == {path[0]};
    assert SiteSpace(w, s, UNSEEN) == NamedSpace(w, path[0], UNSEEN);
    KnownMeansWellFounded(w, s, UNSEEN, path);
  }

  /** A known declaration is not mentioned by anything that it leads to. */
  lemma NoCycle(w: World, path: seq<string>)
    requires IsChain(w, path) && KindOf(path[0]).NamedPath? && !NamedSpace(w, path[0], UNSEEN).Unknown?
    requires |path| > 1
    ensures path[|path| - 1] != path[0]
  {
    if path[|path| - 1] == path[0] {
      if k :| 0 <= k < |path| && Resolve(w, path[k]).StructDef? {
        ChainRest(w, path);
        assert Refers(w, path[0], path[1]);
        ChainJoin(w, path, path[1..]);
        var round := path + path[1..];
        var again := k + |path| - 1;
        assert round[k] == path[k] && round[again] == path[k];
        NoStructTwice(w, round, k, again);
      } else {
        forall i | 0 <= i < |path| ensures Resolve(w, path[i]).EnumDef? {
          assert path[..i + 1][|path[..i + 1]| - 1] == path[i];
          KnownChain(w, path[0], UNSEEN, path[..i + 1]);
        }
        EnumsStayOpen(w, UNSEEN, path);
      }
    }
  }

  // ---- the certificate of a site

  lemma SmallerSet(a: set<string>, b: set<string>, x: string)
    requires a <= b && x in b && x !in a
    ensures |a| < |b|
  {
    var rest := b - a;
    assert b == a + rest && a * rest == {};
    assert x in rest && |rest| > 0;
  }

  /** References fall in rank: `name` leads to all that `m` does, and to itself. */
  lemma RankFalls(w: World, name: string, m: string)
    requires KindOf(name).NamedPath? && !NamedSpace(w, name, UNSEEN).Unknown? && name in Declared(w)
    requires Refers(w, name, m)
    ensures |Below(w, m)| < |Below(w, name)|
  {
    forall n | n in Below(w, m) ensures n in Below(w, name) {
      LeadsStep(w, name, m, n);
    }
    LeadsSelf(w, name);
    if name in Below(w, m) {
      var path :| IsChain(w, path) && path[0] == m && path[|path| - 1] == name;
      ChainJoin(w, [name], path);
      assert ([name] + path)[|path|] == name;
      NoCycle(w, [name] + path);
    }
    SmallerSet(Below(w, m), Below(w, name), name);
  }

  /** Every name in the scope is known by itself. */
  ghost predicate KnownScope(w: World, scope: set<string>)
  {
    forall n | n in scope :: n in Declared(w) && KindOf(n).NamedPath? && !NamedSpace(w, n, UNSEEN).Unknown?
  }

  ghost function Evidence(w: World, scope: set<string>): (c: Certificate)
    requires KnownScope(w, scope)
    ensures Complete(c) && c.scope == scope
  {
    Certificate(
      scope,
      map n | n in scope :: |Below(w, n)|,
      map n | n in scope :: FixedBytes(NamedSpace(w, n, UNSEEN)),
      set n | n in scope && NamedSpace(w, n, UNSEEN).Exact?)
  }

  /** The names a type mentions are in scope, with the fixed bytes they have where the type is sized. */
  ghost predicate Covers(w: World, c: Certificate, ty: Type, seen: Seen)
    requires Complete(c)
  {
    forall m | m in Mentions(ty) ::
      var e := NamedSpace(w, m, seen);
      && m in c.scope && !e.Unknown? && c.cap[m] == FixedBytes(e)
      && (Resolve(w, m).StructDef? && e.Exact? ==> m in c.literal)
  }

  lemma ArrayKnown(owner: string, length: ArrayLength, elem: Estimate)
    requires !ArrayEstimate(owner, length, elem).Unknown?
    ensures !elem.Unknown? && Times(NumberOf(length), FixedBytes(elem)) <= MAX_U64
  {
  }

  lemma VecKnown(owner: string, args: seq<string>, item: Estimate)
    requires !VecEstimate(owner, FirstArg(args), item).Unknown?
    ensures !item.Unknown? && BORSH_LENGTH_PREFIX_BYTES + Times(SlotNumber(args), FixedBytes(item)) <= MAX_U64
  {
  }

  /** The fixed bytes of a known estimate are a 64-bit number. */
  lemma {:induction false} KnownFits(w: World, c: Certificate, s: Site, seen: Seen)
    requires Complete(c) && !SiteSpace(w, s, seen).Unknown? && Covers(w, c, s.ty, seen)
    requires forall m | m in c.scope :: c.cap[m] <= MAX_U64
    ensures Supported(w, c, s.ty) && Fits(c, s) && Fixed(c, s) == FixedBytes(SiteSpace(w, s, seen))
    ensures SiteSpace(w, s, seen).Exact? ==> Literal(w, c, s)
    decreases TypeSize(s.ty), 1
  {
    match s.ty
    case ArrayT(elem, length) =>
      var item := SiteSpace(w, s.(ty := elem), seen);
      ArrayKnown(s.owner, length, item);
      ArrayFixed(s.owner, length, item);
      KnownFits(w, c, s.(ty := elem), seen);
    case TupleT(elems) =>
      var sites := TupleSites(elems, s.owner, s.args);
      TupleCovered(w, c, s, elems, seen);
      PayloadKnown(w, c, sites, seen, Exact(0));
      forall e | e in elems ensures Supported(w, c, e) {
        var i :| 0 <= i < |elems| && elems[i] == e;
        TupleSiteAt(elems, s.owner, s.args, i);
        assert sites[i] in sites;
      }
    case PathT(name, params) =>
      match KindOf(name) {
        case OptionPath => KnownFits(w, c, s.(ty := params[0]), seen);
        case VecPath =>
          var inner := s.(ty := params[0], args := Drop(s.args, 1));
          VecKnown(s.owner, s.args, SiteSpace(w, inner, seen));
          VecFixed(s.owner, s.args, SiteSpace(w, inner, seen));
          KnownFits(w, c, inner, seen);
        case NamedPath => assert name in Mentions(s.ty);
        case _ =>
      }
  }

  lemma TupleCovered(w: World, c: Certificate, s: Site, elems: seq<Type>, seen: Seen)
    requires Complete(c) && s.ty == TupleT(elems) && Covers(w, c, s.ty, seen)
    ensures forall site | site in TupleSites(elems, s.owner, s.args) :: Covers(w, c, site.ty, seen)
  {
    var sites := TupleSites(elems, s.owner, s.args);
    forall site | site in sites ensures Covers(w, c, site.ty, seen) {
      var i :| 0 <= i < |sites| && sites[i] == site;
      TupleSiteAt(elems, s.owner, s.args, i);
      assert forall m | m in Mentions(elems[i]) :: m in Mentions(s.ty);
    }
  }

  lemma {:induction false} PayloadKnown(w: World, c: Certificate, sites: seq<Site>, seen: Seen,
                                        total: Estimate)
    requires Complete(c) && !PayloadFold(w, sites, seen, total).Unknown? && !total.Unknown?
    requires forall site | site in sites :: Covers(w, c, site.ty, seen)
    requires forall m | m in c.scope :: c.cap[m] <= MAX_U64
    requires FixedBytes(total) <= MAX_U64
    ensures AllFit(c, sites) && (forall site | site in sites :: Supported(w, c, site.ty))
    ensures FixedBytes(total) + FixedAll(c, sites) == FixedBytes(PayloadFold(w, sites, seen, total)) <= MAX_U64
    ensures PayloadFold(w, sites, seen, total).Exact? ==> total.Exact? && AllLiteral(w, c, sites)
    decreases SitesSize(sites), 0
  {
    if sites != [] {
      assert sites[0] in sites;
      KnownFits(w, c, sites[0], seen);
      PayloadKnown(w, c, sites[1..], seen, AddEstimates(total, SiteSpace(w, sites[0], seen)));
    }
  }

  // ---- the evidence checks out

  lemma {:induction false} FoldBytes(w: World, sites: seq<Site>, seen: Seen, total: Estimate)
    requires !PayloadFold(w, sites, seen, total).Unknown?
    requires !total.Unknown? && FixedBytes(total) <= MAX_U64
    ensures FixedBytes(PayloadFold(w, sites, seen, total)) <= MAX_U64
    decreases |sites|
  {
    if sites != [] {
      FoldBytes(w, sites[1..], seen, AddEstimates(total, SiteSpace(w, sites[0], seen)));
    }
  }

  lemma {:induction false} VariantWithin(w: World, variants: seq<seq<Site>>, seen: Seen, largest: nat,
                                         variant: seq<Site>)
    requires !EnumFold(w, variants, seen, largest).Unknown?
    ensures EnumFold(w, variants, seen, largest).Exact?
    ensures SaturatingAdd(ENUM_TAG_BYTES, largest) <= EnumFold(w, variants, seen, largest).bytes <= MAX_U64
    ensures variant in variants ==>
              var payload := PayloadFold(w, variant, seen, Exact(0));
              payload.Exact?
              && SaturatingAdd(ENUM_TAG_BYTES, payload.bytes) <= EnumFold(w, variants, seen, largest).bytes
    decreases |variants|
  {
    if variants != [] {
      var first := PayloadFold(w, variants[0], seen, Exact(0)).bytes;
      VariantWithin(w, variants[1..], seen, Max(largest, first), variant);
    }
  }

  lemma NamedBytes(w: World, name: string, seen: Seen)
    requires !NamedSpace(w, name, seen).Unknown?
    ensures FixedBytes(NamedSpace(w, name, seen)) <= MAX_U64
  {
    if Resolve(w, name).StructDef? {
      KnownStruct(w, name, seen);
      FoldBytes(w, Resolve(w, name).strukt.fields, InStruct(seen, name), Exact(0));
    } else {
      VariantWithin(w, Resolve(w, name).variants, InEnum(seen, name), 0, []);
    }
  }

  /** What every name of the scope refers to is in the scope. */
  ghost predicate Closed(w: World, scope: set<string>) {
    forall n, m | n in scope && Refers(w, n, m) :: m in scope
  }

  /** A field of a declaration mentions names with the bytes that the evidence gives them. */
  lemma FieldCovered(w: World, scope: set<string>, name: string, field: Site)
    requires KnownScope(w, scope) && Closed(w, scope)
    requires name in scope && IsFieldOf(w, name, field)
    ensures Covers(w, Evidence(w, scope), field.ty, Inside(w, name, UNSEEN))
    ensures forall m | m in Mentions(field.ty) && m in scope :: |Below(w, m)| < |Below(w, name)|
  {
    var seen := Inside(w, name, UNSEEN);
    KnownField(w, name, UNSEEN, field);
    forall m | m in Mentions(field.ty)
      ensures m in scope && !NamedSpace(w, m, seen).Unknown? && NamedSpace(w, m, seen) == NamedSpace(w, m, UNSEEN)
      ensures |Below(w, m)| < |Below(w, name)|
    {
      assert Refers(w, name, m);
      KnownMention(w, field, seen, m);
      SmallerNamed(w, m, UNSEEN, seen);
      RankFalls(w, name, m);
    }
  }

  lemma EvidenceBytes(w: World, scope: set<string>)
    requires KnownScope(w, scope)
    ensures forall m | m in scope :: Evidence(w, scope).cap[m] <= MAX_U64
  {
    forall m | m in scope ensures Evidence(w, scope).cap[m] <= MAX_U64 {
      NamedBytes(w, m, UNSEEN);
    }
  }

  /** The fields of a struct, or of one variant, check out. */
  lemma FieldsChecked(w: World, scope: set<string>, name: string, fields: seq<Site>)
    requires KnownScope(w, scope) && Closed(w, scope)
    requires name in scope && forall field | field in fields :: IsFieldOf(w, name, field)
    requires !PayloadFold(w, fields, Inside(w, name, UNSEEN), Exact(0)).Unknown?
    ensures var c := Evidence(w, scope);
            var total := PayloadFold(w, fields, Inside(w, name, UNSEEN), Exact(0));
            && FieldsOk(w, c, name, fields) && AllFit(c, fields)
            && FixedAll(c, fields) == FixedBytes(total) <= MAX_U64
            && (total.Exact? ==> AllLiteral(w, c, fields))
  {
    var c := Evidence(w, scope);
    forall field | field in fields
      ensures Covers(w, c, field.ty, Inside(w, name, UNSEEN))
      ensures forall m | m in Mentions(field.ty) && m in c.scope :: c.rank[m] < c.rank[name]
    {
      FieldCovered(w, scope, name, field);
    }
    EvidenceBytes(w, scope);
    PayloadKnown(w, c, fields, Inside(w, name, UNSEEN), Exact(0));
  }

  lemma EvidenceChecks(w: World, scope: set<string>, name: string)
    requires KnownScope(w, scope) && Closed(w, scope) && name in scope
    ensures Checked(w, Evidence(w, scope), name)
  {
    var c := Evidence(w, scope);
    NamedBytes(w, name, UNSEEN);
    match Resolve(w, name)
    case StructDef(strukt) =>
      KnownStruct(w, name, UNSEEN);
      FieldsChecked(w, scope, name, strukt.fields);
    case EnumDef(variants) =>
      VariantWithin(w, variants, InEnum(UNSEEN, name), 0, []);
      forall v | v in variants ensures FieldsOk(w, c, name, v) && PayloadFits(w, c, v, c.cap[name]) {
        VariantWithin(w, variants, InEnum(UNSEEN, name), 0, v);
        FieldsChecked(w, scope, name, v);
      }
  }

  lemma ScopeName(w: World, s: Site, m: string, n: string)
    requires !SiteSpace(w, s, UNSEEN).Unknown? && m in Mentions(s.ty) && Leads(w, m, n)
    ensures n in Scope(w, s.ty) && KindOf(n).NamedPath? && !NamedSpace(w, n, UNSEEN).Unknown?
  {
    KnownMention(w, s, UNSEEN, m);
    KnownLead(w, m, n);
    LeadIsName(w, s.ty, m, n);
  }

  lemma ScopeIsKnown(w: World, s: Site)
    requires !SiteSpace(w, s, UNSEEN).Unknown?
    ensures KnownScope(w, Scope(w, s.ty))
  {
    forall n | n in Scope(w, s.ty) ensures KindOf(n).NamedPath? && !NamedSpace(w, n, UNSEEN).Unknown? {
      var m :| m in Mentions(s.ty) && Leads(w, m, n);
      ScopeName(w, s, m, n);
    }
  }

  lemma ScopeIsClosed(w: World, s: Site)
    requires !SiteSpace(w, s, UNSEEN).Unknown?
    ensures Closed(w, Scope(w, s.ty)) && forall m | m in Mentions(s.ty) :: m in Scope(w, s.ty)
  {
    forall n, k | n in Scope(w, s.ty) && Refers(w, n, k) ensures k in Scope(w, s.ty) {
      var m :| m in Mentions(s.ty) && Leads(w, m, n);
      LeadsOn(w, m, n, k);
      ScopeName(w, s, m, k);
    }
    forall m | m in Mentions(s.ty) ensures m in Scope(w, s.ty) {
      LeadsSelf(w, m);
      ScopeName(w, s, m, m);
    }
  }

  lemma LeadIsName(w: World, ty: Type, m: string, n: string)
    requires m in Mentions(ty) && Leads(w, m, n)
    ensures KindOf(n).NamedPath?
  {
    var path :| IsChain(w, path) && path[0] == m && path[|path| - 1] == n;
    MentionsAreNames(ty, m);
    if |path| > 1 {
      assert Refers(w, path[|path| - 2], n);
      var field :| IsFieldOf(w, path[|path| - 2], field) && n in Mentions(field.ty);
      MentionsAreNames(field.ty, n);
    }
  }

  ghost predicate CertifiedSite(w: World, c: Certificate, s: Site) {
    Certified(w, c) && Supported(w, c, s.ty) && Fits(c, s)
  }

  /** A site gets a known estimate if and only if some certificate checks out for it. */
  lemma KnownIffCertified(w: World, s: Site)
    ensures !SiteSpace(w, s, UNSEEN).Unknown? <==> exists c :: CertifiedSite(w, c, s)
  {
    if c :| CertifiedSite(w, c, s) {
      CertifiedIsKnown(w, c, s, UNSEEN);
    }
    if !SiteSpace(w, s, UNSEEN).Unknown? {
      var c := SiteEvidence(w, s);
    }
  }

  /** And an exact one if and only if its lengths are literal too. */
  lemma ExactIffLiteral(w: World, s: Site)
    ensures SiteSpace(w, s, UNSEEN).Exact? <==> exists c :: CertifiedSite(w, c, s) && Literal(w, c, s)
  {
    if c :| CertifiedSite(w, c, s) && Literal(w, c, s) {
      CertifiedIsKnown(w, c, s, UNSEEN);
    }
    if SiteSpace(w, s, UNSEEN).Exact? {
      var c := SiteEvidence(w, s);
    }
  }

  lemma SiteEvidence(w: World, s: Site) returns (c: Certificate)
    requires !SiteSpace(w, s, UNSEEN).Unknown?
    ensures CertifiedSite(w, c, s) && (SiteSpace(w, s, UNSEEN).Exact? ==> Literal(w, c, s))
  {
    ScopeIsKnown(w, s);
    ScopeIsClosed(w, s);
    var scope := Scope(w, s.ty);
    c := Evidence(w, scope);
    forall name | name in c.scope ensures Checked(w, c, name) {
      EvidenceChecks(w, scope, name);
    }
    EvidenceBytes(w, scope);
    forall m | m in Mentions(s.ty) ensures !NamedSpace(w, m, UNSEEN).Unknown? {
      KnownMention(w, s, UNSEEN, m);
    }
    KnownFits(w, c, s, UNSEEN);
  }
}
