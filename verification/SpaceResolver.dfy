/**
 The estimator as it runs: one mutable `visited` set shared by every nested call and one
 `max_len` queue per field. Each method is proved to return the specified estimate and to
 leave `visited` as it found it on every path out, for every input on which it comes back.
 */
module SpaceResolution {
  import opened Text
  import opened AccountSpace

  datatype FieldReport = FieldReport(field: string, estimate: Estimate)

  datatype AccountReport = AccountReport(estimate: Estimate, fields: seq<FieldReport>)

  class MaxLenArgs {
    var args: seq<string>

    constructor (args: seq<string>)
      ensures this.args == args
    {
      this.args := args;
    }

    method Next() returns (arg: Option<string>)
      modifies this
      ensures arg == FirstArg(old(args)) && args == Drop(old(args), 1)
    {
      if args == [] {
        arg := None;
      } else {
        arg := Some(args[0]);
        args := args[1..];
      }
    }
  }

  /** One element of a tuple, which takes its arguments off the queue. */
  lemma TupleStep(w: World, elems: seq<Type>, i: nat, owner: string, args: seq<string>, seen: Seen, total: Estimate)
    requires i < |elems| && !total.Unknown?
    ensures var first := SiteSpace(w, Site(elems[i], owner, args), seen);
            var sum := TryAddEstimates(total, first);
            PayloadFold(w, TupleSites(elems[i..], owner, args), seen, total)
            == if first == ENDLESS then ENDLESS else if sum.Unknown? then sum
               else PayloadFold(w, TupleSites(elems[i + 1..], owner, Drop(args, Slots(elems[i]))), seen, sum)
    ensures TypeSize(elems[i]) < TypesSize(elems)
    ensures SlotsOfAll(elems[i..]) == Slots(elems[i]) + SlotsOfAll(elems[i + 1..])
  {
    SizeAt(elems, i);
    assert elems[i..][0] == elems[i] && elems[i..][1..] == elems[i + 1..];
  }

  class SpaceResolver {
    const world: World
    var visited: set<string>
    // the enums being sized since the last struct was entered, which the program does not record
    ghost var open: set<string>

    ghost function State(): Seen
      reads this
    {
      Seen(visited, open)
    }

    constructor (world: World)
      ensures this.world == world && State() == UNSEEN
    {
      this.world := world;
      visited, open := {}, {};
    }

    method SizeAccount(name: string, strukt: Struct) returns (report: AccountReport)
      requires StructSpace(world, name, strukt, State()) != ENDLESS
      modifies this
      ensures State() == old(State())
      ensures report.estimate == StructSpace(world, name, strukt, State())
      ensures |report.fields| <= |strukt.fields|
      ensures forall i | 0 <= i < |report.fields| ::
                && report.fields[i].field == strukt.fields[i].owner
                && report.fields[i].estimate == SiteSpace(world, strukt.fields[i], InStruct(State(), name))
                && !report.fields[i].estimate.Unknown?
      ensures |report.fields| < |strukt.fields| ==>
                || strukt.zeroCopy || name in visited
                || SiteSpace(world, strukt.fields[|report.fields|], InStruct(State(), name)).Unknown?
      decreases StructsLeft(world, InStruct(State(), name)), world.enums.Keys, SitesSize(strukt.fields) + 1
    {
      if strukt.zeroCopy {
        return AccountReport(Unknown(ZeroCopy), []);
      }
      if name in visited {
        return AccountReport(Unknown(RecursiveType), []);
      }
      ghost var outside := open;
      visited, open := visited + {name}, {};
      var fields := strukt.fields;
      var reports: seq<FieldReport> := [];
      var total := Exact(0);
      for i := 0 to |fields|
        invariant State() == InStruct(old(State()), name)
        invariant |reports| == i
        invariant forall k | 0 <= k < i ::
                    && reports[k].field == fields[k].owner
                    && reports[k].estimate == SiteSpace(world, fields[k], State())
                    && !reports[k].estimate.Unknown?
        invariant FieldsFold(world, fields, State(), Exact(0)) == FieldsFold(world, fields[i..], State(), total)
      {
        SiteSizeAt(fields, i);
        assert fields[i..][0] == fields[i] && fields[i..][1..] == fields[i + 1..];
        var estimate := SizeField(fields[i]);
        if estimate.Unknown? {
          visited, open := visited - {name}, outside;
          return AccountReport(estimate, reports);
        }
        total := AddEstimates(total, estimate);
        reports := reports + [FieldReport(fields[i].owner, estimate)];
      }
      visited, open := visited - {name}, outside;
      report := AccountReport(total, reports);
    }

    method SizeField(field: Site) returns (e: Estimate)
      requires SiteSpace(world, field, State()) != ENDLESS
      modifies this
      ensures State() == old(State()) && e == SiteSpace(world, field, State())
      decreases StructsLeft(world, State()), EnumsLeft(world, State()), TypeSize(field.ty), 1
    {
      var queue := new MaxLenArgs(field.args);
      e := SizeType(field.ty, field.owner, queue);
    }

    method SizeType(ty: Type, owner: string, queue: MaxLenArgs) returns (e: Estimate)
      requires SiteSpace(world, Site(ty, owner, queue.args), State()) != ENDLESS
      modifies this, queue
      ensures State() == old(State())
      ensures e == SiteSpace(world, Site(ty, owner, old(queue.args)), State())
      ensures !e.Unknown? ==> queue.args == Drop(old(queue.args), Slots(ty))
      decreases StructsLeft(world, State()), EnumsLeft(world, State()), TypeSize(ty), 0
    {
      match ty
      case ArrayT(elem, length) =>
        var item := SizeType(elem, owner, queue);
        e := ArrayEstimate(owner, length, item);
      case TupleT(elems) => e := SizeTuple(elems, owner, queue);
      case PathT(name, params) =>
        match KindOf(name) {
          case Primitive(bytes) => e := Exact(bytes);
          case StringPath =>
            var length := queue.Next();
            e := StringEstimate(owner, if length.Some? then [length.value] else []);
          case OptionPath =>
            if params == [] {
              e := Unknown(UnsupportedType);
            } else {
              var item := SizeType(params[0], owner, queue);
              e := AddEstimates(Exact(OPTION_TAG_BYTES), item);
            }
          case VecPath =>
            if params == [] {
              e := Unknown(UnsupportedType);
            } else {
              var length := queue.Next();
              DropDrop(old(queue.args), 1, Slots(params[0]));
              var item := SizeType(params[0], owner, queue);
              e := VecEstimate(owner, length, item);
            }
          case NamedPath => e := SizeNamed(name);
        }
      case OtherT => e := Unknown(UnsupportedType);
    }

    method SizeTuple(elems: seq<Type>, owner: string, queue: MaxLenArgs) returns (e: Estimate)
      requires PayloadFold(world, TupleSites(elems, owner, queue.args), State(), Exact(0)) != ENDLESS
      modifies this, queue
      ensures State() == old(State())
      ensures e == PayloadFold(world, TupleSites(elems, owner, old(queue.args)), State(), Exact(0))
      ensures !e.Unknown? ==> queue.args == Drop(old(queue.args), SlotsOfAll(elems))
      decreases StructsLeft(world, State()), EnumsLeft(world, State()), TypesSize(elems)
    {
      e := Exact(0);
      for i := 0 to |elems|
        invariant State() == old(State()) && !e.Unknown?
        invariant PayloadFold(world, TupleSites(elems, owner, old(queue.args)), State(), Exact(0))
               == PayloadFold(world, TupleSites(elems[i..], owner, queue.args), State(), e)
        invariant Drop(queue.args, SlotsOfAll(elems[i..])) == Drop(old(queue.args), SlotsOfAll(elems))
      {
        ghost var args := queue.args;
        TupleStep(world, elems, i, owner, args, State(), e);
        var item := SizeType(elems[i], owner, queue);
        e := TryAddEstimates(e, item);
        if e.Unknown? {
          return;
        }
        DropDrop(args, Slots(elems[i]), SlotsOfAll(elems[i + 1..]));
      }
    }

    method SizeNamed(name: string) returns (e: Estimate)
      requires NamedSpace(world, name, State()) != ENDLESS
      modifies this
      ensures State() == old(State()) && e == NamedSpace(world, name, State())
      decreases StructsLeft(world, State()), EnumsLeft(world, State()), 0, 0
    {
      if name in visited {
        return Unknown(RecursiveType);
      }
      match Resolve(world, name)
      case StructDef(strukt) =>
        var report := SizeAccount(name, strukt);
        e := report.estimate;
      case EnumDef(variants) =>
        ghost var outside := open;
        open := open + {name};
        e := SizeEnum(variants);
        open := outside;
      case NoDef => e := Unknown(UnresolvableType);
    }

    method SizeEnum(variants: seq<seq<Site>>) returns (e: Estimate)
      requires EnumFold(world, variants, State(), 0) != ENDLESS
      modifies this
      ensures State() == old(State()) && e == EnumFold(world, variants, State(), 0)
      decreases StructsLeft(world, State()), EnumsLeft(world, State()), VariantsSize(variants) + 1
    {
      var largest := 0;
      for i := 0 to |variants|
        invariant State() == old(State())
        invariant EnumFold(world, variants, State(), 0) == EnumFold(world, variants[i..], State(), largest)
      {
        VariantSizeAt(variants, i);
        assert variants[i..][0] == variants[i] && variants[i..][1..] == variants[i + 1..];
        var payload := SizePayload(variants[i]);
        if !payload.Exact? {
          return Unknown(UnsupportedType);
        }
        largest := Max(largest, payload.bytes);
      }
      e := Exact(SaturatingAdd(ENUM_TAG_BYTES, largest));
    }

    method SizePayload(fields: seq<Site>) returns (e: Estimate)
      requires PayloadFold(world, fields, State(), Exact(0)) != ENDLESS
      modifies this
      ensures State() == old(State()) && e == PayloadFold(world, fields, State(), Exact(0))
      decreases StructsLeft(world, State()), EnumsLeft(world, State()), SitesSize(fields) + 1
    {
      e := Exact(0);
      for i := 0 to |fields|
        invariant State() == old(State()) && !e.Unknown?
        invariant PayloadFold(world, fields, State(), Exact(0)) == PayloadFold(world, fields[i..], State(), e)
      {
        SiteSizeAt(fields, i);
        assert fields[i..][0] == fields[i] && fields[i..][1..] == fields[i + 1..];
        var item := SizeField(fields[i]);
        e := TryAddEstimates(e, item);
        if e.Unknown? {
          return;
        }
      }
    }
  }
}
