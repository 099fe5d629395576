/**
 The inputs on which the estimator never comes back. `RunSite` is the program with a bound on how
 many declarations may be open at a time; it knows nothing of the enums that `SiteSpace` keeps
 track of. It finishes under some bound exactly where `SiteSpace` does not say `Endless`.
 */
module EndlessEnums {
  import opened Text
  import opened AccountSpace
  import opened KnownEstimates

  // ---- the program with bounded depth

  function RunSite(w: World, s: Site, visited: set<string>, depth: nat): Option<Estimate>
    decreases depth, TypeSize(s.ty)
  {
    match s.ty
    case ArrayT(elem, length) =>
      (match RunSite(w, s.(ty := elem), visited, depth)
       case Some(item) => Some(ArrayEstimate(s.owner, length, item))
       case None => None)
    case TupleT(elems) => RunPayload(w, TupleSites(elems, s.owner, s.args), visited, Exact(0), depth)
    case PathT(name, params) =>
      (match KindOf(name)
       case Primitive(bytes) => Some(Exact(bytes))
       case StringPath => Some(StringEstimate(s.owner, s.args))
       case OptionPath =>
         if params == [] then Some(Unknown(UnsupportedType))
         else
           (match RunSite(w, s.(ty := params[0]), visited, depth)
            case Some(item) => Some(AddEstimates(Exact(OPTION_TAG_BYTES), item))
            case None => None)
       case VecPath =>
         if params == [] then Some(Unknown(UnsupportedType))
         else
           (match RunSite(w, s.(ty := params[0], args := Drop(s.args, 1)), visited, depth)
            case Some(item) => Some(VecEstimate(s.owner, FirstArg(s.args), item))
            case None => None)
       case NamedPath => RunNamed(w, name, visited, depth))
    case OtherT => Some(Unknown(UnsupportedType))
  }

  function RunPayload(w: World, sites: seq<Site>, visited: set<string>, total: Estimate, depth: nat): Option<Estimate>
    decreases depth, SitesSize(sites)
  {
    if sites == [] then Some(total)
    else
      match RunSite(w, sites[0], visited, depth)
      case None => None
      case Some(first) =>
        var sum := TryAddEstimates(total, first);
        if sum.Unknown? then Some(sum) else RunPayload(w, sites[1..], visited, sum, depth)
  }

  function RunNamed(w: World, name: string, visited: set<string>, depth: nat): Option<Estimate>
    decreases depth, 0
  {
    if depth == 0 then None
    else if name in visited then Some(Unknown(RecursiveType))
    else
      match Resolve(w, name)
      case StructDef(strukt) =>
        if strukt.zeroCopy then Some(Unknown(ZeroCopy))
        else RunFields(w, strukt.fields, visited + {name}, Exact(0), depth - 1)
      case EnumDef(variants) => RunVariants(w, variants, visited, 0, depth - 1)
      case NoDef => Some(Unknown(UnresolvableType))
  }

  function RunFields(w: World, fields: seq<Site>, visited: set<string>, total: Estimate, depth: nat): Option<Estimate>
    decreases depth, SitesSize(fields)
  {
    if fields == [] then Some(total)
    else
      match RunSite(w, fields[0], visited, depth)
      case None => None
      case Some(field) =>
        if field.Unknown? then Some(field) else RunFields(w, fields[1..], visited, AddEstimates(total, field), depth)
  }

  function RunVariants(w: World, variants: seq<seq<Site>>, visited: set<string>, largest: nat, depth: nat)
    : Option<Estimate>
    decreases depth, VariantsSize(variants) + 1
  {
    if variants == [] then Some(Exact(SaturatingAdd(ENUM_TAG_BYTES, largest)))
    else
      match RunPayload(w, variants[0], visited, Exact(0), depth)
      case None => None
      case Some(payload) =>
        if payload.Exact? then RunVariants(w, variants[1..], visited, Max(largest, payload.bytes), depth)
        else Some(Unknown(UnsupportedType))
  }

  /** What a run that finishes returns, and that it does not finish where the answer is `Endless`. */
  predicate Agrees(run: Option<Estimate>, e: Estimate) {
    run.Some? ==> run.value == e && e != ENDLESS
  }

  // ---- what does not finish under a bound

  /** No enum being sized comes back within the bound. */
  ghost predicate OpenOnesHang(w: World, seen: Seen, depth: nat) {
    forall name | name in seen.enums && name !in seen.structs && Resolve(w, name).EnumDef? ::
      forall d: nat | d <= depth :: RunNamed(w, name, seen.structs, d) == None
  }

  lemma {:induction false} RunAgrees(w: World, s: Site, seen: Seen, depth: nat)
    requires OpenOnesHang(w, seen, depth)
    ensures Agrees(RunSite(w, s, seen.structs, depth), SiteSpace(w, s, seen))
    decreases depth, TypeSize(s.ty)
  {
    match s.ty
    case ArrayT(elem, _) => RunAgrees(w, s.(ty := elem), seen, depth);
    case TupleT(elems) => PayloadAgrees(w, TupleSites(elems, s.owner, s.args), seen, Exact(0), depth);
    case PathT(name, params) =>
      match KindOf(name) {
        case OptionPath => if params != [] { RunAgrees(w, s.(ty := params[0]), seen, depth); }
        case VecPath => if params != [] { RunAgrees(w, s.(ty := params[0], args := Drop(s.args, 1)), seen, depth); }
        case NamedPath => NamedAgrees(w, name, seen, depth);
        case _ =>
      }
    case OtherT =>
  }

  lemma {:induction false} PayloadAgrees(w: World, sites: seq<Site>, seen: Seen, total: Estimate, depth: nat)
    requires OpenOnesHang(w, seen, depth) && !total.Unknown?
    ensures Agrees(RunPayload(w, sites, seen.structs, total, depth), PayloadFold(w, sites, seen, total))
    decreases depth, SitesSize(sites)
  {
    if sites != [] {
      RunAgrees(w, sites[0], seen, depth);
      var sum := TryAddEstimates(total, SiteSpace(w, sites[0], seen));
      if !sum.Unknown? {
        PayloadAgrees(w, sites[1..], seen, sum, depth);
      }
    }
  }

  lemma {:induction false} FieldsAgree(w: World, fields: seq<Site>, seen: Seen, total: Estimate, depth: nat)
    requires OpenOnesHang(w, seen, depth) && total != ENDLESS
    ensures Agrees(RunFields(w, fields, seen.structs, total, depth), FieldsFold(w, fields, seen, total))
    decreases depth, SitesSize(fields)
  {
    if fields != [] {
      RunAgrees(w, fields[0], seen, depth);
      var field := SiteSpace(w, fields[0], seen);
      if !field.Unknown? {
        FieldsAgree(w, fields[1..], seen, AddEstimates(total, field), depth);
      }
    }
  }

  lemma {:induction false} VariantsAgree(w: World, variants: seq<seq<Site>>, seen: Seen, largest: nat, depth: nat)
    requires OpenOnesHang(w, seen, depth)
    ensures Agrees(RunVariants(w, variants, seen.structs, largest, depth), EnumFold(w, variants, seen, largest))
    decreases depth, VariantsSize(variants) + 1
  {
    if variants != [] {
      PayloadAgrees(w, variants[0], seen, Exact(0), depth);
      var payload := PayloadFold(w, variants[0], seen, Exact(0));
      if payload.Exact? {
        VariantsAgree(w, variants[1..], seen, Max(largest, payload.bytes), depth);
      }
    }
  }

  /** An enum that needs itself hangs one level deeper, and so at every level. */
  lemma {:induction false} NamedAgrees(w: World, name: string, seen: Seen, depth: nat)
    requires OpenOnesHang(w, seen, depth)
    ensures Agrees(RunNamed(w, name, seen.structs, depth), NamedSpace(w, name, seen))
    decreases depth, 0
  {
    if depth > 0 && name !in seen.structs {
      match Resolve(w, name)
      case StructDef(strukt) =>
        if !strukt.zeroCopy {
          FieldsAgree(w, strukt.fields, InStruct(seen, name), Exact(0), depth - 1);
        }
      case EnumDef(variants) =>
        if name !in seen.enums {
          EnumAgrees(w, name, variants, seen, depth);
        }
      case NoDef =>
    }
  }

  lemma EnumAgrees(w: World, name: string, variants: seq<seq<Site>>, seen: Seen, depth: nat)
    requires OpenOnesHang(w, seen, depth) && depth > 0 && Resolve(w, name) == EnumDef(variants)
    requires name !in seen.structs && name !in seen.enums
    ensures Agrees(RunNamed(w, name, seen.structs, depth), NamedSpace(w, name, seen))
    decreases depth, 0, 0
  {
    if d: nat :| d < depth && RunNamed(w, name, seen.structs, d).Some? {
      NamedAgrees(w, name, seen, d);
      NamedMore(w, name, seen.structs, d, depth);
    } else {
      VariantsAgree(w, variants, InEnum(seen, name), 0, depth - 1);
    }
  }

  // ---- a larger bound changes nothing that has finished

  lemma {:induction false} RunMore(w: World, s: Site, visited: set<string>, depth: nat, more: nat)
    requires depth <= more && RunSite(w, s, visited, depth).Some?
    ensures RunSite(w, s, visited, more) == RunSite(w, s, visited, depth)
    decreases depth, TypeSize(s.ty)
  {
    match s.ty
    case ArrayT(elem, _) => RunMore(w, s.(ty := elem), visited, depth, more);
    case TupleT(elems) => PayloadMore(w, TupleSites(elems, s.owner, s.args), visited, Exact(0), depth, more);
    case PathT(name, params) =>
      match KindOf(name) {
        case OptionPath => if params != [] { RunMore(w, s.(ty := params[0]), visited, depth, more); }
        case VecPath =>
          if params != [] {
            RunMore(w, s.(ty := params[0], args := Drop(s.args, 1)), visited, depth, more);
          }
        case NamedPath => NamedMore(w, name, visited, depth, more);
        case _ =>
      }
    case OtherT =>
  }

  lemma {:induction false} PayloadMore(w: World, sites: seq<Site>, visited: set<string>, total: Estimate, depth: nat,
                                       more: nat)
    requires depth <= more && RunPayload(w, sites, visited, total, depth).Some?
    ensures RunPayload(w, sites, visited, total, more) == RunPayload(w, sites, visited, total, depth)
    decreases depth, SitesSize(sites)
  {
    if sites != [] {
      RunMore(w, sites[0], visited, depth, more);
      var sum := TryAddEstimates(total, RunSite(w, sites[0], visited, depth).value);
      if !sum.Unknown? {
        PayloadMore(w, sites[1..], visited, sum, depth, more);
      }
    }
  }

  lemma {:induction false} FieldsMore(w: World, fields: seq<Site>, visited: set<string>, total: Estimate, depth: nat,
                                      more: nat)
    requires depth <= more && RunFields(w, fields, visited, total, depth).Some?
    ensures RunFields(w, fields, visited, total, more) == RunFields(w, fields, visited, total, depth)
    decreases depth, SitesSize(fields)
  {
    if fields != [] {
      RunMore(w, fields[0], visited, depth, more);
      var field := RunSite(w, fields[0], visited, depth).value;
      if !field.Unknown? {
        FieldsMore(w, fields[1..], visited, AddEstimates(total, field), depth, more);
      }
    }
  }

  lemma {:induction false} VariantsMore(w: World, variants: seq<seq<Site>>, visited: set<string>, largest: nat,
                                        depth: nat, more: nat)
    requires depth <= more && RunVariants(w, variants, visited, largest, depth).Some?
    ensures RunVariants(w, variants, visited, largest, more) == RunVariants(w, variants, visited, largest, depth)
    decreases depth, VariantsSize(variants) + 1
  {
    if variants != [] {
      PayloadMore(w, variants[0], visited, Exact(0), depth, more);
      var payload := RunPayload(w, variants[0], visited, Exact(0), depth).value;
      if payload.Exact? {
        VariantsMore(w, variants[1..], visited, Max(largest, payload.bytes), depth, more);
      }
    }
  }

  lemma {:induction false} NamedMore(w: World, name: string, visited: set<string>, depth: nat, more: nat)
    requires depth <= more && RunNamed(w, name, visited, depth).Some?
    ensures RunNamed(w, name, visited, more) == RunNamed(w, name, visited, depth)
    decreases depth, 0
  {
    if name !in visited {
      match Resolve(w, name)
      case StructDef(strukt) =>
        if !strukt.zeroCopy {
          FieldsMore(w, strukt.fields, visited + {name}, Exact(0), depth - 1, more - 1);
        }
      case EnumDef(variants) => VariantsMore(w, variants, visited, 0, depth - 1, more - 1);
      case NoDef =>
    }
  }

  // ---- what is not endless finishes

  lemma {:induction false} Finishes(w: World, s: Site, seen: Seen) returns (depth: nat)
    requires SiteSpace(w, s, seen) != ENDLESS
    ensures RunSite(w, s, seen.structs, depth) == Some(SiteSpace(w, s, seen))
    decreases StructsLeft(w, seen), EnumsLeft(w, seen), TypeSize(s.ty)
  {
    depth := 0;
    match s.ty
    case ArrayT(elem, _) => depth := Finishes(w, s.(ty := elem), seen);
    case TupleT(elems) => depth := PayloadFinishes(w, TupleSites(elems, s.owner, s.args), seen, Exact(0));
    case PathT(name, params) =>
      match KindOf(name) {
        case OptionPath => if params != [] { depth := Finishes(w, s.(ty := params[0]), seen); }
        case VecPath =>
          if params != [] {
            depth := Finishes(w, s.(ty := params[0], args := Drop(s.args, 1)), seen);
          }
        case NamedPath => depth := NamedFinishes(w, name, seen);
        case _ =>
      }
    case OtherT =>
  }

  lemma {:induction false} PayloadFinishes(w: World, sites: seq<Site>, seen: Seen, total: Estimate)
    returns (depth: nat)
    requires PayloadFold(w, sites, seen, total) != ENDLESS
    ensures RunPayload(w, sites, seen.structs, total, depth) == Some(PayloadFold(w, sites, seen, total))
    decreases StructsLeft(w, seen), EnumsLeft(w, seen), SitesSize(sites)
  {
    depth := 0;
    if sites != [] {
      var first := Finishes(w, sites[0], seen);
      depth := first;
      var sum := TryAddEstimates(total, SiteSpace(w, sites[0], seen));
      if !sum.Unknown? {
        var rest := PayloadFinishes(w, sites[1..], seen, sum);
        depth := Max(first, rest);
        RunMore(w, sites[0], seen.structs, first, depth);
        PayloadMore(w, sites[1..], seen.structs, sum, rest, depth);
      }
    }
  }

  lemma {:induction false} FieldsFinish(w: World, fields: seq<Site>, seen: Seen, total: Estimate)
    returns (depth: nat)
    requires FieldsFold(w, fields, seen, total) != ENDLESS
    ensures RunFields(w, fields, seen.structs, total, depth) == Some(FieldsFold(w, fields, seen, total))
    decreases StructsLeft(w, seen), EnumsLeft(w, seen), SitesSize(fields)
  {
    depth := 0;
    if fields != [] {
      var first := Finishes(w, fields[0], seen);
      depth := first;
      var field := SiteSpace(w, fields[0], seen);
      if !field.Unknown? {
        var rest := FieldsFinish(w, fields[1..], seen, AddEstimates(total, field));
        depth := Max(first, rest);
        RunMore(w, fields[0], seen.structs, first, depth);
        FieldsMore(w, fields[1..], seen.structs, AddEstimates(total, field), rest, depth);
      }
    }
  }

  lemma {:induction false} VariantsFinish(w: World, variants: seq<seq<Site>>, seen: Seen, largest: nat)
    returns (depth: nat)
    requires EnumFold(w, variants, seen, largest) != ENDLESS
    ensures RunVariants(w, variants, seen.structs, largest, depth) == Some(EnumFold(w, variants, seen, largest))
    decreases StructsLeft(w, seen), EnumsLeft(w, seen), VariantsSize(variants) + 1
  {
    depth := 0;
    if variants != [] {
      var first := PayloadFinishes(w, variants[0], seen, Exact(0));
      depth := first;
      var payload := PayloadFold(w, variants[0], seen, Exact(0));
      if payload.Exact? {
        var rest := VariantsFinish(w, variants[1..], seen, Max(largest, payload.bytes));
        depth := Max(first, rest);
        PayloadMore(w, variants[0], seen.structs, Exact(0), first, depth);
        VariantsMore(w, variants[1..], seen.structs, Max(largest, payload.bytes), rest, depth);
      }
    }
  }

  lemma {:induction false} NamedFinishes(w: World, name: string, seen: Seen) returns (depth: nat)
    requires NamedSpace(w, name, seen) != ENDLESS
    ensures RunNamed(w, name, seen.structs, depth) == Some(NamedSpace(w, name, seen))
    decreases StructsLeft(w, seen), EnumsLeft(w, seen), 0
  {
    depth := 1;
    if name !in seen.structs {
      match Resolve(w, name)
      case StructDef(strukt) =>
        assert NamedSpace(w, name, seen) == StructSpace(w, name, strukt, seen);
        if !strukt.zeroCopy {
          var inside := FieldsFinish(w, strukt.fields, InStruct(seen, name), Exact(0));
          depth := inside + 1;
        }
      case EnumDef(variants) =>
        var inside := VariantsFinish(w, variants, InEnum(seen, name), 0);
        depth := inside + 1;
      case NoDef =>
    }
  }

  // ---- main results

  /** The program comes back from sizing a site. */
  ghost predicate Terminates(w: World, s: Site, visited: set<string>) {
    exists depth: nat :: RunSite(w, s, visited, depth).Some?
  }

  /** It comes back exactly where no enum is met again while it is being sized. */
  lemma TerminatesIff(w: World, s: Site, visited: set<string>)
    ensures Terminates(w, s, visited) <==> SiteSpace(w, s, Seen(visited, {})) != ENDLESS
  {
    var seen := Seen(visited, {});
    if depth: nat :| RunSite(w, s, visited, depth).Some? {
      RunAgrees(w, s, seen, depth);
    }
    if SiteSpace(w, s, seen) != ENDLESS {
      var depth := Finishes(w, s, seen);
    }
  }

  /** Whenever it comes back its answer is the specified one. */
  lemma AnswerIsSpecified(w: World, s: Site, visited: set<string>, depth: nat)
    requires RunSite(w, s, visited, depth).Some?
    ensures RunSite(w, s, visited, depth).value == SiteSpace(w, s, Seen(visited, {}))
  {
    RunAgrees(w, s, Seen(visited, {}), depth);
  }

  /** `enum Tree { Leaf, Node(Vec<Tree>) }` */
  const TREE := World(map[], map["Tree" := [[], [Site(PathT("Vec", [PathT("Tree", [])]), "0", [])]]], map[])

  lemma TreeNeverTerminates(owner: string, args: seq<string>)
    ensures !Terminates(TREE, Site(PathT("Tree", []), owner, args), {})
  {
    var seen := InEnum(UNSEEN, "Tree");
    var inner := Site(PathT("Tree", []), "0", []);
    var node := [Site(PathT("Vec", [PathT("Tree", [])]), "0", [])];
    assert node[0].(ty := node[0].ty.params[0], args := Drop(node[0].args, 1)) == inner;
    assert SiteSpace(TREE, inner, seen) == NamedSpace(TREE, "Tree", seen) == ENDLESS;
    assert SiteSpace(TREE, node[0], seen) == ENDLESS;
    assert PayloadFold(TREE, node, seen, Exact(0)) == ENDLESS;
    assert [[], node][1..] == [node];
    assert EnumFold(TREE, [node], seen, 0) == ENDLESS;
    assert EnumFold(TREE, [[], node], seen, 0) == ENDLESS;
    TerminatesIff(TREE, Site(PathT("Tree", []), owner, args), {});
  }

  /** An enum that contains itself behind something unsupported is given up before the loop is entered. */
  lemma UnsupportedFirst(w: World, name: string, payload: seq<Site>, more: seq<seq<Site>>, visited: set<string>)
    requires KindOf(name).NamedPath? && name !in visited && Resolve(w, name) == EnumDef([payload] + more)
    requires payload != [] && payload[0].ty == OtherT
    ensures Terminates(w, Site(PathT(name, []), "", []), visited)
    ensures SiteSpace(w, Site(PathT(name, []), "", []), Seen(visited, {})) == Unknown(UnsupportedType)
  {
    var seen, variants := Seen(visited, {}), [payload] + more;
    assert SiteSpace(w, payload[0], InEnum(seen, name)) == Unknown(UnsupportedType);
    assert PayloadFold(w, payload, InEnum(seen, name), Exact(0)) == Unknown(UnsupportedType);
    assert variants[0] == payload;
    assert EnumFold(w, variants, InEnum(seen, name), 0) == Unknown(UnsupportedType);
    assert SiteSpace(w, Site(PathT(name, []), "", []), seen) == NamedSpace(w, name, seen);
    TerminatesIff(w, Site(PathT(name, []), "", []), visited);
  }

  // ---- a loop of enums is what it takes

  ghost predicate AllEnums(w: World, path: seq<string>) {
    forall i | 0 <= i < |path| :: Resolve(w, path[i]).EnumDef?
  }

  /** From `j` on there are only enums, and the last is the one at `j`. */
  ghost predicate LoopsFrom(w: World, path: seq<string>, j: nat) {
    j < |path| - 1 && path[j] == path[|path| - 1] && AllEnums(w, path[j..])
  }

  /** The chain ends with a loop of enums, or consists of enums and ends at one being sized. */
  ghost predicate EndsInLoop(w: World, path: seq<string>, seen: Seen) {
    path != [] && ((exists j: nat :: LoopsFrom(w, path, j)) || (AllEnums(w, path) && path[|path| - 1] in seen.enums))
  }

  lemma {:induction false} EndlessHasLoop(w: World, s: Site, seen: Seen) returns (path: seq<string>)
    requires SiteSpace(w, s, seen) == ENDLESS
    ensures RefPath(w, s.ty, path) && EndsInLoop(w, path, seen)
    decreases StructsLeft(w, seen), EnumsLeft(w, seen), TypeSize(s.ty)
  {
    match s.ty
    case ArrayT(elem, _) => path := EndlessHasLoop(w, s.(ty := elem), seen);
    case TupleT(elems) =>
      var sites := TupleSites(elems, s.owner, s.args);
      var i := PayloadBlame(w, sites, seen, Exact(0));
      TupleSiteAt(elems, s.owner, s.args, i);
      path := EndlessHasLoop(w, sites[i], seen);
    case PathT(name, params) =>
      match KindOf(name) {
        case OptionPath => path := EndlessHasLoop(w, s.(ty := params[0]), seen);
        case VecPath => path := EndlessHasLoop(w, s.(ty := params[0], args := Drop(s.args, 1)), seen);
        case NamedPath => path := NamedHasLoop(w, name, seen);
      }
  }

  lemma {:induction false} PayloadBlame(w: World, sites: seq<Site>, seen: Seen, total: Estimate) returns (i: nat)
    requires PayloadFold(w, sites, seen, total) == ENDLESS && !total.Unknown?
    ensures i < |sites| && SiteSpace(w, sites[i], seen) == ENDLESS && TypeSize(sites[i].ty) < SitesSize(sites)
    decreases |sites|
  {
    i := 0;
    if SiteSpace(w, sites[0], seen) != ENDLESS {
      var k := PayloadBlame(w, sites[1..], seen, TryAddEstimates(total, SiteSpace(w, sites[0], seen)));
      i := k + 1;
    }
  }

  lemma {:induction false} EnumBlame(w: World, variants: seq<seq<Site>>, seen: Seen, largest: nat)
    returns (variant: seq<Site>)
    requires EnumFold(w, variants, seen, largest) == ENDLESS
    ensures variant in variants && PayloadFold(w, variant, seen, Exact(0)) == ENDLESS
    decreases |variants|
  {
    variant := variants[0];
    if PayloadFold(w, variant, seen, Exact(0)) != ENDLESS {
      variant := EnumBlame(w, variants[1..], seen, Max(largest, PayloadFold(w, variant, seen, Exact(0)).bytes));
    }
  }

  lemma {:induction false} NamedHasLoop(w: World, name: string, seen: Seen) returns (path: seq<string>)
    requires NamedSpace(w, name, seen) == ENDLESS
    ensures IsChain(w, path) && path[0] == name && EndsInLoop(w, path, seen)
    decreases StructsLeft(w, seen), EnumsLeft(w, seen), 0
  {
    path := [name];
    if name !in seen.enums || Resolve(w, name).StructDef? {
      var field := NamedBlame(w, name, seen);
      var rest := EndlessHasLoop(w, field, Inside(w, name, seen));
      path := [name] + rest;
      assert Refers(w, name, rest[0]);
      assert forall i | 0 < i < |path| :: path[i] == rest[i - 1];
      LoopOneUp(w, name, rest, seen);
    }
  }

  lemma NamedBlame(w: World, name: string, seen: Seen) returns (field: Site)
    requires NamedSpace(w, name, seen) == ENDLESS && (name !in seen.enums || Resolve(w, name).StructDef?)
    ensures IsFieldOf(w, name, field) && SiteSpace(w, field, Inside(w, name, seen)) == ENDLESS
    ensures name !in seen.structs && !Resolve(w, name).NoDef?
  {
    match Resolve(w, name)
    case StructDef(strukt) =>
      assert NamedSpace(w, name, seen) == StructSpace(w, name, strukt, seen);
      field := FieldsBlame(w, strukt.fields, InStruct(seen, name), Exact(0), Endless);
    case EnumDef(variants) =>
      var variant := EnumBlame(w, variants, InEnum(seen, name), 0);
      var i := PayloadBlame(w, variant, InEnum(seen, name), Exact(0));
      field := variant[i];
  }

  lemma LoopOneUp(w: World, name: string, rest: seq<string>, seen: Seen)
    requires EndsInLoop(w, rest, Inside(w, name, seen)) && !Resolve(w, name).NoDef?
    ensures EndsInLoop(w, [name] + rest, seen)
  {
    var path := [name] + rest;
    if j: nat :| LoopsFrom(w, rest, j) {
      assert path[j + 1..] == rest[j..];
      assert LoopsFrom(w, path, j + 1);
    } else if rest[|rest| - 1] == name {
      assert path[0..] == path;
      assert LoopsFrom(w, path, 0);
    }
  }

  /** So a program whose enums do not contain each other is always sized. */
  lemma NoLoopTerminates(w: World, s: Site, visited: set<string>)
    requires forall path, j: nat | RefPath(w, s.ty, path) :: !LoopsFrom(w, path, j)
    ensures Terminates(w, s, visited)
  {
    TerminatesIff(w, s, visited);
    if SiteSpace(w, s, Seen(visited, {})) == ENDLESS {
      var path := EndlessHasLoop(w, s, Seen(visited, {}));
    }
  }
}
