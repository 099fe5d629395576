/**
 Where each region's spans come from, kind by kind: which nodes push them, with which of their
 places, and what decides between instruction bodies and other function bodies.
 */
module RegionSources {
  import opened Text
  import opened Regions

  // ---- words of a token list

  predicate IsCut(c: char) {
    c == ',' || IsSpace(c)
  }

  /** `word` occurs at `i` with a comma, white space or an end of the text on both sides. */
  predicate StandsAlone(text: string, word: string, i: nat) {
    && i + |word| <= |text| && (forall k | 0 <= k < |word| :: text[i + k] == word[k])
    && (i == 0 || IsCut(text[i - 1]))
    && (i + |word| == |text| || IsCut(text[i + |word|]))
  }

  predicate Uncut(s: string) {
    forall i | 0 <= i < |s| :: !IsCut(s[i])
  }

  /** Behind an uncut beginning and a cut, a word stands where it stands in the rest. */
  lemma AloneAfterCut(before: string, cut: char, rest: string, word: string, i: nat)
    requires Uncut(before) && IsCut(cut) && word != [] && Uncut(word) && i > |before|
    ensures StandsAlone(before + [cut] + rest, word, i) <==> StandsAlone(rest, word, i - |before| - 1)
  {
    var whole, j := before + [cut] + rest, i - |before| - 1;
    if i + |word| <= |whole| {
      assert whole[i - 1] == if j == 0 then cut else rest[j - 1];
      assert whole[i..] == rest[j..];
      assert forall k | 0 <= k < |word| :: whole[i + k] == word[k] <==> rest[j + k] == word[k];
    }
  }

  lemma AloneBeforeCut(before: string, cut: char, rest: string, word: string, i: nat)
    requires Uncut(before) && IsCut(cut) && word != [] && Uncut(word) && i <= |before|
    ensures StandsAlone(before + [cut] + rest, word, i) <==> i == 0 && word == before
  {
    var whole := before + [cut] + rest;
    assert whole[|before|] == cut && forall k | 0 <= k < |before| :: whole[k] == before[k];
    if i + |word| > |before| {
      assert !IsCut(word[|before| - i]);
    } else if i + |word| < |before| {
      assert !IsCut(whole[i + |word|]);
    } else if i == 0 {
      assert word == before <==> forall k | 0 <= k < |word| :: whole[0 + k] == word[k];
    }
  }

  lemma AloneUncut(text: string, word: string, i: nat)
    requires Uncut(text) && word != []
    ensures StandsAlone(text, word, i) <==> i == 0 && word == text
  {
    if |word| == |text| {
      assert word == text <==> forall k | 0 <= k < |word| :: text[0 + k] == word[k];
    }
  }

  lemma {:induction false} WordFrom(text: string, before: string, word: string)
    requires Uncut(before) && word != [] && Uncut(word)
    ensures word in Words(text, before) <==> exists i: nat :: StandsAlone(before + text, word, i)
    decreases |text|
  {
    if text == [] {
      assert before + text == before;
      AloneUncut(before, word, 0);
      forall i: nat ensures StandsAlone(before, word, i) <==> i == 0 && word == before {
        AloneUncut(before, word, i);
      }
    } else if IsCut(text[0]) {
      WordFrom(text[1..], [], word);
      assert [] + text[1..] == text[1..];
      assert before + text == before + [text[0]] + text[1..];
      WordAfterCut(before, text[0], text[1..], word);
    } else {
      WordFrom(text[1..], before + [text[0]], word);
      assert before + text == before + [text[0]] + text[1..];
    }
  }

  lemma WordAfterCut(before: string, cut: char, rest: string, word: string)
    requires Uncut(before) && IsCut(cut) && word != [] && Uncut(word)
    ensures (exists i: nat :: StandsAlone(before + [cut] + rest, word, i))
       <==> word == before || exists i: nat :: StandsAlone(rest, word, i)
  {
    if i: nat :| StandsAlone(before + [cut] + rest, word, i) {
      if i > |before| {
        AloneAfterCut(before, cut, rest, word, i);
        assert StandsAlone(rest, word, i - |before| - 1);
      } else {
        AloneBeforeCut(before, cut, rest, word, i);
      }
    }
    AloneBeforeCut(before, cut, rest, word, 0);
    if i: nat :| StandsAlone(rest, word, i) {
      AloneAfterCut(before, cut, rest, word, i + |before| + 1);
    }
  }

  /** A word is among those cut from a list exactly where it stands alone in it. */
  lemma WordIff(text: string, word: string)
    requires word != [] && Uncut(word)
    ensures word in Words(text, []) <==> exists i: nat :: StandsAlone(text, word, i)
  {
    WordFrom(text, [], word);
    assert [] + text == text;
  }

  // ---- what a node gives

  predicate Spans(place: Place, span: RegionSpan) {
    place.start == Some(span.start) && place.end == Some(span.end) && span.start < span.end
  }

  /** The node has an attribute `#[derive(..)]` with the word `Accounts` in it. */
  ghost predicate DerivesAnAccountsStruct(node: Node) {
    exists i | 0 <= i < |node.children| ::
      var attribute := node.children[i];
      attribute.Attribute? && attribute.path == "derive" && attribute.list.Some?
      && exists k: nat :: StandsAlone(attribute.list.value, "Accounts", k)
  }

  /** The node is a module with an attribute `#[program]`. */
  predicate IsMarkedProgram(node: Node) {
    node.Module? && exists attribute | attribute in node.children :: attribute.Attribute? && attribute.path == "program"
  }

  /** The span and its region come from this node. */
  ghost predicate Gives(node: Node, inProgram: bool, span: RegionSpan) {
    match span.region
    case InstructionBody => node.Function? && inProgram && Spans(node.body, span)
    case HelperFnBody => ((node.Function? && !inProgram) || node.Method?) && Spans(node.body, span)
    case AccountsStructField =>
      node.Struct? && DerivesAnAccountsStruct(node) && exists field | field in node.fields :: Spans(field, span)
    case AttributeArguments => node.Attribute? && node.path != "doc" && Spans(node.place, span)
    case DocComment => node.Attribute? && node.path == "doc" && Spans(node.place, span)
    case StringLiteral => node.Literal? && Spans(node.place, span)
    case UseItem => node.Use? && Spans(node.place, span)
    case ItemDecl =>
      if node.Method? then Spans(node.signature, span)
      else (node.Function? || node.Module? || node.Struct?) && Spans(node.place, span)
    case Other => false
  }

  lemma PushedIff(place: Place, region: Region, span: RegionSpan)
    ensures span in Pushed(place, region) <==> span.region == region && Spans(place, span)
  {
  }

  lemma {:induction false} PushedFieldsIff(fields: seq<Place>, span: RegionSpan)
    ensures span in PushedFields(fields)
       <==> span.region == AccountsStructField && exists field | field in fields :: Spans(field, span)
    decreases |fields|
  {
    if fields != [] {
      PushedIff(fields[0], AccountsStructField, span);
      PushedFieldsIff(fields[1..], span);
      assert forall field :: field in fields <==> field == fields[0] || field in fields[1..];
    }
  }

  lemma DerivesIff(node: Node)
    ensures DerivesAccounts(node) <==> DerivesAnAccountsStruct(node)
  {
    forall i | 0 <= i < |node.children| && node.children[i].Attribute? && node.children[i].list.Some?
      ensures "Accounts" in Words(node.children[i].list.value, [])
         <==> exists k: nat :: StandsAlone(node.children[i].list.value, "Accounts", k)
    {
      WordIff(node.children[i].list.value, "Accounts");
    }
  }

  lemma OwnIff(node: Node, inProgram: bool, span: RegionSpan)
    ensures span in Own(node, inProgram) <==> Gives(node, inProgram, span)
  {
    if node.Struct? {
      DerivesIff(node);
      PushedFieldsIff(node.fields, span);
    }
  }

  /** A `#[program]` module encloses the end of the path. */
  ghost predicate Enclosed(root: Node, path: seq<nat>) {
    exists k | 0 <= k < |path| :: NodeAt(root, path[..k]).Some? && IsMarkedProgram(NodeAt(root, path[..k]).value)
  }

  lemma ProgramIff(node: Node)
    ensures IsProgramModule(node) <==> IsMarkedProgram(node)
  {
    if attribute :| attribute in node.children && attribute.Attribute? && attribute.path == "program" {
      var i :| 0 <= i < |node.children| && node.children[i] == attribute;
    }
  }

  lemma EnclosedIff(root: Node, path: seq<nat>)
    requires NodeAt(root, path).Some?
    ensures InProgram(root, path) <==> Enclosed(root, path)
  {
    InProgramIff(root, path);
    forall k | 0 <= k < |path| && NodeAt(root, path[..k]).Some?
      ensures IsProgramModule(NodeAt(root, path[..k]).value) <==> IsMarkedProgram(NodeAt(root, path[..k]).value)
    {
      ProgramIff(NodeAt(root, path[..k]).value);
    }
  }

  /** The span comes from the node at this place. */
  ghost predicate ComesFrom(root: Node, path: seq<nat>, span: RegionSpan) {
    NodeAt(root, path).Some? && Gives(NodeAt(root, path).value, Enclosed(root, path), span)
  }

  lemma SpanAtIff(root: Node, path: seq<nat>, span: RegionSpan)
    ensures span in SpansAt(root, path, false) <==> ComesFrom(root, path, span)
  {
    if NodeAt(root, path).Some? {
      EnclosedIff(root, path);
      OwnIff(NodeAt(root, path).value, InProgram(root, path), span);
    }
  }

  /** The spans of a document are exactly those that some node of its tree gives. */
  lemma SpanIff(root: Node, span: RegionSpan)
    ensures span in SpansOf(root, false) <==> exists path :: ComesFrom(root, path, span)
  {
    FlagIsAncestorTest(root, false);
    SpanSource(root, Paths(root), false, span);
    if span in SpansOf(root, false) {
      var path :| path in Paths(root) && span in SpansAt(root, path, false);
      SpanAtIff(root, path, span);
    }
    if path :| ComesFrom(root, path, span) {
      SpanAtIff(root, path, span);
      AllPlacesVisited(root, path);
    }
  }
}
