/**
 The regions of a Rust source that decide which lints may speak where: a visitor pushes one span
 per item, body, attribute and literal, keeping one flag for "inside a program module", and the
 smallest span at an offset names the region.
 */
module Regions {
  import opened Text

  datatype Region =
    | InstructionBody | HelperFnBody | AccountsStructField | AttributeArguments | DocComment
    | StringLiteral | UseItem | ItemDecl | Other

  /** Where a syntax node starts and ends in bytes; `None` where its position is not in the source. */
  datatype Place = Place(start: Option<nat>, end: Option<nat>)

  /**
   A syntax tree with the nodes the visitor looks at; all others are `Plain`. The children are in
   the order of the default traversal, an item's attributes among them. An attribute's `list` is
   the text of its parenthesised tokens, if it has any.
   */
  datatype Node =
    | Attribute(path: string, list: Option<string>, place: Place, children: seq<Node>)
    | Function(place: Place, body: Place, children: seq<Node>)
    | Method(signature: Place, body: Place, children: seq<Node>)
    | Module(place: Place, children: seq<Node>)
    | Struct(place: Place, fields: seq<Place>, children: seq<Node>)
    | Use(place: Place, children: seq<Node>)
    | Literal(place: Place, children: seq<Node>)
    | Plain(children: seq<Node>)

  datatype RegionSpan = RegionSpan(start: nat, end: nat, region: Region) {
    predicate Contains(offset: nat) {
      start <= offset < end
    }

    function Length(): nat {
      if start <= end then end - start else 0
    }
  }

  // ---- what a node pushes

  /** Only nonempty spans within the source are pushed. */
  function Pushed(place: Place, region: Region): seq<RegionSpan> {
    if place.start.Some? && place.end.Some? && place.start.value < place.end.value
    then [RegionSpan(place.start.value, place.end.value, region)]
    else []
  }

  function PushedFields(fields: seq<Place>): seq<RegionSpan> {
    if fields == [] then [] else Pushed(fields[0], AccountsStructField) + PushedFields(fields[1..])
  }

  /** The words of a token list, cut at commas and white space. */
  function Words(text: string, word: string): seq<string>
    decreases |text|
  {
    if text == [] then [word]
    else if text[0] == ',' || IsSpace(text[0]) then [word] + Words(text[1..], [])
    else Words(text[1..], word + [text[0]])
  }

  predicate IsProgramModule(node: Node) {
    && node.Module?
    && exists i | 0 <= i < |node.children| :: node.children[i].Attribute? && node.children[i].path == "program"
  }

  predicate DerivesAccounts(node: Node) {
    exists i | 0 <= i < |node.children| ::
      var attribute := node.children[i];
      attribute.Attribute? && attribute.path == "derive" && attribute.list.Some?
      && "Accounts" in Words(attribute.list.value, [])
  }

  /** What the visitor pushes for `node` itself. */
  function Own(node: Node, inProgram: bool): seq<RegionSpan> {
    match node
    case Attribute(path, _, place, _) => Pushed(place, if path == "doc" then DocComment else AttributeArguments)
    case Function(place, body, _) =>
      Pushed(place, ItemDecl) + Pushed(body, if inProgram then InstructionBody else HelperFnBody)
    case Method(signature, body, _) => Pushed(signature, ItemDecl) + Pushed(body, HelperFnBody)
    case Module(place, _) => Pushed(place, ItemDecl)
    case Struct(place, fields, _) =>
      Pushed(place, ItemDecl) + if DerivesAccounts(node) then PushedFields(fields) else []
    case Use(place, _) => Pushed(place, UseItem)
    case Literal(place, _) => Pushed(place, StringLiteral)
    case Plain(_) => []
  }

  // ---- places in the tree, and what encloses them

  /** The node that a path of child numbers leads to. */
  function NodeAt(node: Node, path: seq<nat>): Option<Node>
    decreases |path|
  {
    if path == [] then Some(node)
    else if path[0] < |node.children| then NodeAt(node.children[path[0]], path[1..])
    else None
  }

  /** Some module that encloses the end of the path carries `#[program]`. */
  predicate InProgram(node: Node, path: seq<nat>)
    decreases |path|
  {
    path != [] && path[0] < |node.children|
    && (IsProgramModule(node) || InProgram(node.children[path[0]], path[1..]))
  }

  /** The same, said by the path's proper beginnings. */
  lemma {:induction false} InProgramIff(node: Node, path: seq<nat>)
    requires NodeAt(node, path).Some?
    ensures InProgram(node, path)
       <==> exists k | 0 <= k < |path| ::
              NodeAt(node, path[..k]).Some? && IsProgramModule(NodeAt(node, path[..k]).value)
    decreases |path|
  {
    if path != [] {
      var child, rest := node.children[path[0]], path[1..];
      InProgramIff(child, rest);
      assert path[..0] == [];
      forall k | 0 <= k < |rest| ensures NodeAt(node, path[..k + 1]) == NodeAt(child, rest[..k]) {
        assert path[..k + 1][1..] == rest[..k];
      }
      if k :| 0 <= k < |rest| && NodeAt(child, rest[..k]).Some? && IsProgramModule(NodeAt(child, rest[..k]).value) {
        assert NodeAt(node, path[..k + 1]) == NodeAt(child, rest[..k]);
      }
      if k :| 0 <= k < |path| && NodeAt(node, path[..k]).Some? && IsProgramModule(NodeAt(node, path[..k]).value) {
        if k > 0 {
          assert NodeAt(node, path[..(k - 1) + 1]) == NodeAt(child, rest[..k - 1]);
        }
      }
    }
  }

  // ---- the visitor

  /** All spans of a tree, the flag passed down. */
  function SpansOf(node: Node, inProgram: bool): seq<RegionSpan>
    decreases node, 1
  {
    Own(node, inProgram) + SpansOfChildren(node, |node.children|, inProgram || IsProgramModule(node))
  }

  function SpansOfChildren(node: Node, n: nat, inProgram: bool): seq<RegionSpan>
    requires n <= |node.children|
    decreases node, 0, n
  {
    if n == 0 then [] else SpansOfChildren(node, n - 1, inProgram) + SpansOf(node.children[n - 1], inProgram)
  }

  class RegionVisitor {
    var inProgramModule: bool
    var spans: seq<RegionSpan>

    constructor ()
      ensures !inProgramModule && spans == []
    {
      inProgramModule, spans := false, [];
    }

    method PushSpan(place: Place, region: Region)
      modifies this`spans
      ensures spans == old(spans) + Pushed(place, region)
    {
      if place.start == None || place.end == None {
        return;
      }
      if place.start.value < place.end.value {
        spans := spans + [RegionSpan(place.start.value, place.end.value, region)];
      }
    }

    method Visit(node: Node)
      modifies this
      ensures spans == old(spans) + SpansOf(node, old(inProgramModule))
      ensures inProgramModule == old(inProgramModule)
      decreases node, 2
    {
      ghost var before, flag := spans, inProgramModule;
      if node.Module? {
        VisitItemMod(node);
      } else {
        PushOwn(node);
        VisitChildren(node);
      }
      SpansUnfold(before, node, flag);
    }

    method VisitItemMod(node: Node)
      requires node.Module?
      modifies this
      ensures spans == old(spans) + Own(node, old(inProgramModule))
                       + SpansOfChildren(node, |node.children|, old(inProgramModule) || IsProgramModule(node))
      ensures inProgramModule == old(inProgramModule)
      decreases node, 1
    {
      var wasInProgramModule := inProgramModule;
      inProgramModule := inProgramModule || IsProgramModule(node);
      PushSpan(node.place, ItemDecl);
      VisitChildren(node);
      inProgramModule := wasInProgramModule;
    }

    method PushOwn(node: Node)
      requires !node.Module?
      modifies this`spans
      ensures spans == old(spans) + Own(node, inProgramModule)
    {
      match node
      case Attribute(path, _, place, _) => PushSpan(place, if path == "doc" then DocComment else AttributeArguments);
      case Function(place, body, _) => PushItemFn(node);
      case Method(signature, body, _) => PushImplItemFn(node);
      case Struct(place, fields, _) => PushItemStruct(node);
      case Use(place, _) => PushSpan(place, UseItem);
      case Literal(place, _) => PushSpan(place, StringLiteral);
      case Plain(_) =>
    }

    method PushItemFn(node: Node)
      requires node.Function?
      modifies this`spans
      ensures spans == old(spans) + Own(node, inProgramModule)
    {
      PushSpan(node.place, ItemDecl);
      PushSpan(node.body, if inProgramModule then InstructionBody else HelperFnBody);
    }

    method PushImplItemFn(node: Node)
      requires node.Method?
      modifies this`spans
      ensures spans == old(spans) + Own(node, inProgramModule)
    {
      PushSpan(node.signature, ItemDecl);
      PushSpan(node.body, HelperFnBody);
    }

    method PushItemStruct(node: Node)
      requires node.Struct?
      modifies this`spans
      ensures spans == old(spans) + Own(node, inProgramModule)
    {
      PushSpan(node.place, ItemDecl);
      if DerivesAccounts(node) {
        PushFields(node.fields);
      }
    }

    method PushFields(fields: seq<Place>)
      modifies this`spans
      ensures spans == old(spans) + PushedFields(fields)
    {
      ghost var before := spans;
      assert fields[0..] == fields;
      for i := 0 to |fields|
        invariant spans + PushedFields(fields[i..]) == before + PushedFields(fields)
      {
        assert fields[i..][1..] == fields[i + 1..];
        PushSpan(fields[i], AccountsStructField);
      }
    }

    method VisitChildren(node: Node)
      modifies this
      ensures spans == old(spans) + SpansOfChildren(node, |node.children|, old(inProgramModule))
      ensures inProgramModule == old(inProgramModule)
      decreases node, 0
    {
      ghost var before, flag := spans, inProgramModule;
      for i := 0 to |node.children|
        invariant spans == before + SpansOfChildren(node, i, flag) && inProgramModule == flag
      {
        Visit(node.children[i]);
        ChildStep(before, node, i, flag);
      }
    }
  }

  lemma SpansUnfold(before: seq<RegionSpan>, node: Node, flag: bool)
    ensures before + SpansOf(node, flag)
         == before + Own(node, flag) + SpansOfChildren(node, |node.children|, flag || IsProgramModule(node))
  {
  }

  lemma ChildStep(before: seq<RegionSpan>, node: Node, i: nat, flag: bool)
    requires i < |node.children|
    ensures before + SpansOfChildren(node, i + 1, flag)
         == before + SpansOfChildren(node, i, flag) + SpansOf(node.children[i], flag)
  {
  }

  // ---- the flag is the ancestor test

  /** All places of a tree, parents before children. */
  function Paths(node: Node): seq<seq<nat>>
    decreases node, 1
  {
    [[]] + PathsOfChildren(node, |node.children|)
  }

  function PathsOfChildren(node: Node, n: nat): seq<seq<nat>>
    requires n <= |node.children|
    decreases node, 0, n
  {
    if n == 0 then [] else PathsOfChildren(node, n - 1) + Below(n - 1, Paths(node.children[n - 1]))
  }

  function Below(i: nat, paths: seq<seq<nat>>): (below: seq<seq<nat>>)
    ensures |below| == |paths| && forall k | 0 <= k < |paths| :: below[k] == [i] + paths[k]
  {
    if paths == [] then [] else [[i] + paths[0]] + Below(i, paths[1..])
  }

  /** What the visitor pushes at a place of `root`, the flag being decided by what encloses the place. */
  function SpansAt(root: Node, path: seq<nat>, outside: bool): seq<RegionSpan> {
    match NodeAt(root, path)
    case Some(node) => Own(node, outside || InProgram(root, path))
    case None => []
  }

  function SpansAtAll(root: Node, paths: seq<seq<nat>>, outside: bool): seq<RegionSpan> {
    if paths == [] then [] else SpansAt(root, paths[0], outside) + SpansAtAll(root, paths[1..], outside)
  }

  lemma {:induction false} SpansAtConcat(root: Node, a: seq<seq<nat>>, b: seq<seq<nat>>, outside: bool)
    ensures SpansAtAll(root, a + b, outside) == SpansAtAll(root, a, outside) + SpansAtAll(root, b, outside)
    decreases |a|
  {
    if a == [] {
      assert a + b == b;
    } else {
      assert (a + b)[0] == a[0] && (a + b)[1..] == a[1..] + b;
      SpansAtConcat(root, a[1..], b, outside);
    }
  }

  lemma {:induction false} SpansBelow(root: Node, i: nat, paths: seq<seq<nat>>, outside: bool)
    requires i < |root.children|
    ensures SpansAtAll(root, Below(i, paths), outside)
         == SpansAtAll(root.children[i], paths, outside || IsProgramModule(root))
    decreases |paths|
  {
    if paths != [] {
      assert ([i] + paths[0])[1..] == paths[0];
      assert Below(i, paths)[1..] == Below(i, paths[1..]);
      SpansBelow(root, i, paths[1..], outside);
    }
  }

  /** The one flag, saved and restored, tells at every place whether some enclosing module carries `#[program]`. */
  lemma {:induction false} FlagIsAncestorTest(node: Node, outside: bool)
    ensures SpansOf(node, outside) == SpansAtAll(node, Paths(node), outside)
    decreases node, 1
  {
    var all := PathsOfChildren(node, |node.children|);
    ChildrenFlags(node, |node.children|, outside);
    assert ([[]] + all)[1..] == all;
    assert SpansAt(node, [], outside) == Own(node, outside);
  }

  /** The last child's places add what its own tree has there. */
  lemma LastChild(node: Node, n: nat, outside: bool)
    requires 0 < n <= |node.children|
    ensures SpansAtAll(node, PathsOfChildren(node, n), outside)
         == SpansAtAll(node, PathsOfChildren(node, n - 1), outside)
            + SpansAtAll(node.children[n - 1], Paths(node.children[n - 1]), outside || IsProgramModule(node))
  {
    var before, below := PathsOfChildren(node, n - 1), Below(n - 1, Paths(node.children[n - 1]));
    assert PathsOfChildren(node, n) == before + below;
    SpansAtConcat(node, before, below, outside);
    SpansBelow(node, n - 1, Paths(node.children[n - 1]), outside);
  }

  lemma {:induction false} ChildrenFlags(node: Node, n: nat, outside: bool)
    requires n <= |node.children|
    ensures SpansOfChildren(node, n, outside || IsProgramModule(node))
         == SpansAtAll(node, PathsOfChildren(node, n), outside)
    decreases node, 0, n
  {
    if n > 0 {
      ChildrenFlags(node, n - 1, outside);
      FlagIsAncestorTest(node.children[n - 1], outside || IsProgramModule(node));
      LastChild(node, n, outside);
    }
  }

  /** Every place of the tree is visited. */
  lemma {:induction false} AllPlacesVisited(node: Node, path: seq<nat>)
    requires NodeAt(node, path).Some?
    ensures path in Paths(node)
    decreases node, 1
  {
    if path == [] {
      assert Paths(node)[0] == [];
    } else {
      AllPlacesVisited(node.children[path[0]], path[1..]);
      InBelow(path, Paths(node.children[path[0]]));
      PlaceBelow(node, |node.children|, path);
    }
  }

  lemma InBelow(path: seq<nat>, paths: seq<seq<nat>>)
    requires path != [] && path[1..] in paths
    ensures path in Below(path[0], paths)
  {
    var k :| 0 <= k < |paths| && paths[k] == path[1..];
    assert path == [path[0]] + path[1..];
    assert Below(path[0], paths)[k] == path;
  }

  lemma PlaceStep(node: Node, n: nat, path: seq<nat>)
    requires 0 < n <= |node.children|
    requires path in PathsOfChildren(node, n - 1) || path in Below(n - 1, Paths(node.children[n - 1]))
    ensures path in PathsOfChildren(node, n)
  {
  }

  lemma {:induction false} PlaceBelow(node: Node, n: nat, path: seq<nat>)
    requires path != [] && path[0] < n <= |node.children| && path in Below(path[0], Paths(node.children[path[0]]))
    ensures path in PathsOfChildren(node, n)
    decreases n
  {
    if path[0] < n - 1 {
      PlaceBelow(node, n - 1, path);
    }
    PlaceStep(node, n, path);
  }

  lemma {:induction false} SpanSource(root: Node, paths: seq<seq<nat>>, outside: bool, span: RegionSpan)
    ensures span in SpansAtAll(root, paths, outside) <==> exists p | p in paths :: span in SpansAt(root, p, outside)
    decreases |paths|
  {
    if paths != [] {
      SpanSource(root, paths[1..], outside, span);
      assert forall p :: p in paths <==> p == paths[0] || p in paths[1..];
    }
  }

  lemma {:induction false} FieldRegions(fields: seq<Place>, span: RegionSpan)
    requires span in PushedFields(fields)
    ensures span.region == AccountsStructField
  {
    if span !in Pushed(fields[0], AccountsStructField) {
      FieldRegions(fields[1..], span);
    }
  }

  /** `span` is the body of a function at `path` that some `#[program]` module encloses. */
  predicate IsInstruction(root: Node, path: seq<nat>, span: RegionSpan) {
    var node := NodeAt(root, path);
    && node.Some? && node.value.Function? && InProgram(root, path)
    && span.start < span.end && node.value.body == Place(Some(span.start), Some(span.end))
  }

  lemma InstructionAt(root: Node, path: seq<nat>, span: RegionSpan)
    requires span.region == InstructionBody
    ensures span in SpansAt(root, path, false) <==> IsInstruction(root, path, span)
  {
    var node := NodeAt(root, path);
    if node.Some? && node.value.Struct? && span in PushedFields(node.value.fields) {
      FieldRegions(node.value.fields, span);
    }
  }

  /** Instruction bodies are exactly the bodies of functions that some `#[program]` module encloses. */
  lemma InstructionBodyIff(root: Node, span: RegionSpan)
    requires span.region == InstructionBody
    ensures span in SpansOf(root, false) <==> exists path :: IsInstruction(root, path, span)
  {
    FlagIsAncestorTest(root, false);
    SpanSource(root, Paths(root), false, span);
    if span in SpansOf(root, false) {
      var p :| p in Paths(root) && span in SpansAt(root, p, false);
      InstructionAt(root, p, span);
    }
    if path :| IsInstruction(root, path, span) {
      InstructionAt(root, path, span);
      AllPlacesVisited(root, path);
    }
  }

  // ---- the region at an offset

  /** The first of the shortest spans among the first `n` that contain `offset`. */
  function Smallest(spans: seq<RegionSpan>, offset: nat, n: nat): (r: Option<nat>)
    requires n <= |spans|
    ensures r.Some? ==> r.value < n
  {
    if n == 0 then None
    else
      var best, span := Smallest(spans, offset, n - 1), spans[n - 1];
      if span.Contains(offset) && (best == None || span.Length() < spans[best.value].Length()) then Some(n - 1)
      else best
  }

  function RegionAt(spans: seq<RegionSpan>, offset: nat): Region {
    match Smallest(spans, offset, |spans|)
    case Some(i) => spans[i].region
    case None => Other
  }

  /** Span `i` contains `offset`, none that does is shorter, and none before it is as short. */
  ghost predicate IsSmallest(spans: seq<RegionSpan>, offset: nat, n: nat, i: nat)
    requires n <= |spans|
  {
    && i < n && spans[i].Contains(offset)
    && forall j | 0 <= j < n && spans[j].Contains(offset) ::
         spans[i].Length() <= spans[j].Length() && (j < i ==> spans[i].Length() < spans[j].Length())
  }

  lemma {:induction false} SmallestIff(spans: seq<RegionSpan>, offset: nat, n: nat)
    requires n <= |spans|
    ensures forall i: nat :: Smallest(spans, offset, n) == Some(i) <==> IsSmallest(spans, offset, n, i)
    ensures Smallest(spans, offset, n) == None <==> forall j | 0 <= j < n :: !spans[j].Contains(offset)
  {
    if n > 0 {
      SmallestIff(spans, offset, n - 1);
      var best := Smallest(spans, offset, n - 1);
      if best.Some? {
        assert IsSmallest(spans, offset, n - 1, best.value);
      }
    }
  }

  predicate AllowsExecutableLints(spans: seq<RegionSpan>, offset: nat) {
    var region := RegionAt(spans, offset);
    region == InstructionBody || region == HelperFnBody
  }

  method FromDocument(root: Node) returns (spans: seq<RegionSpan>)
    ensures spans == SpansAtAll(root, Paths(root), false)
  {
    var visitor := new RegionVisitor();
    visitor.Visit(root);
    FlagIsAncestorTest(root, false);
    spans := visitor.spans;
  }

  /** An offset is in an instruction body only where the smallest span around it is the body of such a function. */
  lemma InstructionRegionSource(root: Node, offset: nat) returns (path: seq<nat>, span: RegionSpan)
    requires RegionAt(SpansOf(root, false), offset) == InstructionBody
    ensures IsInstruction(root, path, span) && span.Contains(offset)
    ensures forall other | other in SpansOf(root, false) && other.Contains(offset) :: span.Length() <= other.Length()
  {
    var spans := SpansOf(root, false);
    SmallestIff(spans, offset, |spans|);
    var i := Smallest(spans, offset, |spans|).value;
    assert IsSmallest(spans, offset, |spans|, i);
    span := spans[i];
    InstructionBodyIff(root, span);
    path :| IsInstruction(root, path, span);
  }

  /** Executable lints may speak exactly where the smallest span, the first such, is a function's body. */
  lemma ExecutableIff(spans: seq<RegionSpan>, offset: nat)
    ensures AllowsExecutableLints(spans, offset)
       <==> exists i: nat :: IsSmallest(spans, offset, |spans|, i)
                             && (spans[i].region == InstructionBody || spans[i].region == HelperFnBody)
  {
    SmallestIff(spans, offset, |spans|);
  }
}
