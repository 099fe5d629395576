/**
 The rewrite of a code-action response for clients that take snippets: at most one text document
 edit of the whole response may carry snippets. JSON values are values; the templates on record
 and the order in which an object lists its keys are parameters.
 */
module SnippetEdits {
  import opened Text

  datatype Json =
    | Null | Bool(b: bool) | Num(n: int) | Str(s: string) | Arr(items: seq<Json>) | Obj(fields: map<string, Json>)

  /** The snippet template on record for a range and the text materialised from it. */
  type Templates = (Json, string) -> Option<string>

  /** The order in which an object's keys are listed. */
  type KeyOrder = map<string, Json> -> seq<string>

  const SNIPPET_INSERT_TEXT_FORMAT := 2

  ghost predicate ListsKeys(keys: seq<string>, fields: map<string, Json>) {
    && (forall i | 0 <= i < |keys| :: keys[i] in fields)
    && (forall key | key in fields :: key in keys)
    && forall i, j | 0 <= i < j < |keys| :: keys[i] != keys[j]
  }

  /** Every object lists each of its keys once. */
  ghost predicate Orderly(order: KeyOrder) {
    forall fields :: ListsKeys(order(fields), fields)
  }

  function Get(value: Json, key: string): Option<Json> {
    if value.Obj? && key in value.fields then Some(value.fields[key]) else None
  }

  // ---- one text edit

  function Template(edit: Json, t: Templates): Option<string> {
    var range, newText := Get(edit, "range"), Get(edit, "newText");
    if range.Some? && newText.Some? && newText.value.Str? then t(range.value, newText.value.s) else None
  }

  predicate Eligible(edit: Json, t: Templates) {
    Template(edit, t).Some?
  }

  function RewrittenEdit(edit: Json, t: Templates): (r: Json)
    ensures !Eligible(edit, t) ==> r == edit
  {
    match Template(edit, t)
    case Some(template) =>
      Obj(edit.fields["newText" := Str(template)]["insertTextFormat" := Num(SNIPPET_INSERT_TEXT_FORMAT)])
    case None => edit
  }

  // ---- one document

  /** The text edits of a text document edit; other document changes (file operations) have none. */
  function EditsOf(doc: Json): Option<seq<Json>> {
    var edits := Get(doc, "edits");
    if Get(doc, "textDocument").Some? && edits.Some? && edits.value.Arr? then Some(edits.value.items) else None
  }

  predicate SomeEligible(edits: seq<Json>, t: Templates) {
    exists i | 0 <= i < |edits| :: Eligible(edits[i], t)
  }

  predicate EligibleDoc(doc: Json, t: Templates) {
    EditsOf(doc).Some? && SomeEligible(EditsOf(doc).value, t)
  }

  function RewrittenEdits(edits: seq<Json>, t: Templates): (r: seq<Json>)
    ensures |r| == |edits| && forall i | 0 <= i < |edits| :: r[i] == RewrittenEdit(edits[i], t)
  {
    seq(|edits|, i requires 0 <= i < |edits| => RewrittenEdit(edits[i], t))
  }

  /** Every eligible edit of the document becomes a snippet. */
  function RewrittenDoc(doc: Json, t: Templates): Json {
    match EditsOf(doc)
    case Some(edits) => Obj(doc.fields["edits" := Arr(RewrittenEdits(edits, t))])
    case None => doc
  }

  lemma IneligibleDocUnchanged(doc: Json, t: Templates)
    requires !EligibleDoc(doc, t)
    ensures RewrittenDoc(doc, t) == doc
  {
    var edits := EditsOf(doc);
    if edits.Some? {
      assert forall i | 0 <= i < |edits.value| :: !Eligible(edits.value[i], t);
      assert RewrittenEdits(edits.value, t) == edits.value;
      assert doc.fields["edits" := Arr(edits.value)] == doc.fields;
    }
  }

  // ---- the documents of a workspace edit

  /** The first of the first `n` documents that has an eligible edit. */
  function FirstDoc(docs: seq<Json>, n: nat, t: Templates): (r: Option<nat>)
    requires n <= |docs|
    ensures r.Some? ==> r.value < n && EligibleDoc(docs[r.value], t)
                        && forall d | 0 <= d < r.value :: !EligibleDoc(docs[d], t)
    ensures r.None? ==> forall d | 0 <= d < n :: !EligibleDoc(docs[d], t)
  {
    if n == 0 then None
    else
      var before := FirstDoc(docs, n - 1, t);
      if before.Some? then before else if EligibleDoc(docs[n - 1], t) then Some(n - 1) else None
  }

  function RewrittenDocs(docs: seq<Json>, n: nat, t: Templates): seq<Json>
    requires n <= |docs|
  {
    match FirstDoc(docs, n, t)
    case Some(d) => docs[d := RewrittenDoc(docs[d], t)]
    case None => docs
  }

  function Document(uri: string, edits: Json): Json {
    Obj(map["textDocument" := Obj(map["uri" := Str(uri), "version" := Null]), "edits" := edits])
  }

  /** A `changes` object as text document edits, one per URI. */
  function Converted(changes: Json, order: KeyOrder): (docs: seq<Json>) {
    if !changes.Obj? then []
    else
      var keys := order(changes.fields);
      seq(|keys|, i requires 0 <= i < |keys| =>
        Document(keys[i], if keys[i] in changes.fields then changes.fields[keys[i]] else Null))
  }

  /** The documents that a workspace edit changes. `documentChanges` hides `changes`. */
  function DocsOf(edit: Json, order: KeyOrder): seq<Json> {
    match Get(edit, "documentChanges")
    case Some(docs) => if docs.Arr? then docs.items else []
    case None => Converted(Get(edit, "changes").GetOr(Null), order)
  }

  predicate CandidateEdit(edit: Json, t: Templates, order: KeyOrder) {
    var docs := DocsOf(edit, order);
    FirstDoc(docs, |docs|, t).Some?
  }

  function RewrittenWorkspaceEdit(edit: Json, t: Templates, order: KeyOrder): Json {
    var docs := DocsOf(edit, order);
    if !CandidateEdit(edit, t, order) then edit
    else
      var kept := if "documentChanges" in edit.fields then edit.fields else edit.fields - {"changes"};
      Obj(kept["documentChanges" := Arr(RewrittenDocs(docs, |docs|, t))])
  }

  predicate ChangesContainSnippet(changes: Json, t: Templates) {
    changes.Obj? && exists key | key in changes.fields ::
      changes.fields[key].Arr? && SomeEligible(changes.fields[key].items, t)
  }

  /** The early test finds a snippet exactly when some converted document has one. */
  lemma ContainSnippetIff(changes: Json, t: Templates, order: KeyOrder)
    requires Orderly(order)
    ensures var docs := Converted(changes, order);
            ChangesContainSnippet(changes, t) <==> FirstDoc(docs, |docs|, t).Some?
  {
    if changes.Obj? {
      var keys, docs := order(changes.fields), Converted(changes, order);
      assert ListsKeys(keys, changes.fields);
      forall i | 0 <= i < |keys|
        ensures EligibleDoc(docs[i], t)
           <==> changes.fields[keys[i]].Arr? && SomeEligible(changes.fields[keys[i]].items, t)
      {
      }
      if ChangesContainSnippet(changes, t) {
        var key :| key in changes.fields && changes.fields[key].Arr? && SomeEligible(changes.fields[key].items, t);
        var i :| 0 <= i < |keys| && keys[i] == key;
        assert EligibleDoc(docs[i], t);
      }
    }
  }

  // ---- the actions of a response

  predicate CandidateAction(action: Json, t: Templates, order: KeyOrder) {
    var edit := Get(action, "edit");
    edit.Some? && CandidateEdit(edit.value, t, order)
  }

  function RewrittenAction(action: Json, t: Templates, order: KeyOrder): Json {
    match Get(action, "edit")
    case Some(edit) => Obj(action.fields["edit" := RewrittenWorkspaceEdit(edit, t, order)])
    case None => action
  }

  /** The first of the first `n` actions that can carry snippets. */
  function FirstAction(actions: seq<Json>, n: nat, t: Templates, order: KeyOrder): (r: Option<nat>)
    requires n <= |actions|
    ensures r.Some? ==> r.value < n && CandidateAction(actions[r.value], t, order)
                        && forall a | 0 <= a < r.value :: !CandidateAction(actions[a], t, order)
    ensures r.None? ==> forall a | 0 <= a < n :: !CandidateAction(actions[a], t, order)
  {
    if n == 0 then None
    else
      var before := FirstAction(actions, n - 1, t, order);
      if before.Some? then before else if CandidateAction(actions[n - 1], t, order) then Some(n - 1) else None
  }

  /** The whole rewrite: only the first action that can carry snippets changes. */
  function RewrittenActions(actions: seq<Json>, n: nat, t: Templates, order: KeyOrder): seq<Json>
    requires n <= |actions|
  {
    match FirstAction(actions, n, t, order)
    case Some(a) => actions[a := RewrittenAction(actions[a], t, order)]
    case None => actions
  }

  class SnippetRewriter {
    const templates: Templates
    const order: KeyOrder
    var snippetDocumentEditUsed: bool

    constructor (templates: Templates, order: KeyOrder)
      ensures this.templates == templates && this.order == order && !snippetDocumentEditUsed
    {
      this.templates, this.order, snippetDocumentEditUsed := templates, order, false;
    }

    method RewriteTextEdit(edit: Json) returns (edit': Json, rewrote: bool)
      ensures edit' == RewrittenEdit(edit, templates) && rewrote == Eligible(edit, templates)
    {
      var template := Template(edit, templates);
      if template == None || !edit.Obj? {
        return edit, false;
      }
      var fields := edit.fields;
      fields := fields["newText" := Str(template.value)];
      fields := fields["insertTextFormat" := Num(SNIPPET_INSERT_TEXT_FORMAT)];
      return Obj(fields), true;
    }

    method RewriteTextDocumentEdit(doc: Json) returns (doc': Json, rewrote: bool)
      ensures doc' == RewrittenDoc(doc, templates) && rewrote == EligibleDoc(doc, templates)
    {
      if Get(doc, "textDocument") == None {
        return doc, false;
      }
      var found := Get(doc, "edits");
      if found == None || !found.value.Arr? {
        return doc, false;
      }
      var edits := found.value.items;
      rewrote := false;
      for i := 0 to |edits|
        invariant |edits| == |found.value.items|
        invariant forall k | 0 <= k < i :: edits[k] == RewrittenEdit(found.value.items[k], templates)
        invariant forall k | i <= k < |edits| :: edits[k] == found.value.items[k]
        invariant rewrote == exists k | 0 <= k < i :: Eligible(found.value.items[k], templates)
      {
        var edit, rewritten := RewriteTextEdit(edits[i]);
        edits := edits[i := edit];
        rewrote := rewrote || rewritten;
      }
      assert edits == RewrittenEdits(found.value.items, templates);
      doc' := Obj(doc.fields["edits" := Arr(edits)]);
    }

    /** Goes through documents until one has been used. */
    method RewriteDocuments(before: seq<Json>) returns (docs: seq<Json>)
      requires !snippetDocumentEditUsed
      modifies this
      ensures docs == RewrittenDocs(before, |before|, templates)
      ensures snippetDocumentEditUsed == FirstDoc(before, |before|, templates).Some?
    {
      docs := before;
      for d := 0 to |before|
        invariant docs == RewrittenDocs(before, d, templates)
        invariant snippetDocumentEditUsed == FirstDoc(before, d, templates).Some?
      {
        if !snippetDocumentEditUsed {
          var doc, rewrote := RewriteTextDocumentEdit(docs[d]);
          if rewrote {
            snippetDocumentEditUsed := true;
          } else {
            IneligibleDocUnchanged(docs[d], templates);
          }
          docs := docs[d := doc];
        }
      }
    }

    method RewriteWorkspaceEdit(edit: Json) returns (edit': Json)
      requires Orderly(order)
      modifies this
      ensures edit' == if old(snippetDocumentEditUsed) then edit else RewrittenWorkspaceEdit(edit, templates, order)
      ensures snippetDocumentEditUsed == (old(snippetDocumentEditUsed) || CandidateEdit(edit, templates, order))
    {
      edit' := edit;
      if !edit.Obj? {
        return;
      }
      if "documentChanges" in edit.fields {
        var found := edit.fields["documentChanges"];
        if found.Arr? && !snippetDocumentEditUsed {
          var docs := RewriteDocuments(found.items);
          edit' := Obj(edit.fields["documentChanges" := Arr(docs)]);
          SameField(edit.fields, "documentChanges");
        }
        return;
      }
      if "changes" !in edit.fields {
        return;
      }
      var changes := edit.fields["changes"];
      var fields := edit.fields - {"changes"};
      ContainSnippetIff(changes, templates, order);
      if snippetDocumentEditUsed || !ChangesContainSnippet(changes, templates) {
        fields := fields["changes" := changes];
        assert fields == edit.fields;
        return;
      }
      var docs := RewriteDocuments(Converted(changes, order));
      edit' := Obj(fields["documentChanges" := Arr(docs)]);
    }

    method RewriteAction(action: Json) returns (action': Json)
      requires Orderly(order)
      modifies this
      ensures action' == if old(snippetDocumentEditUsed) then action else RewrittenAction(action, templates, order)
      ensures snippetDocumentEditUsed == (old(snippetDocumentEditUsed) || CandidateAction(action, templates, order))
    {
      action' := action;
      var edit := Get(action, "edit");
      if edit.Some? {
        var rewritten := RewriteWorkspaceEdit(edit.value);
        action' := Obj(action.fields["edit" := rewritten]);
        SameField(action.fields, "edit");
      }
    }
  }

  lemma SameField(fields: map<string, Json>, key: string)
    requires key in fields
    ensures fields[key := fields[key]] == fields
  {
  }

  method RewriteCodeActionResult(result: Json, templates: Templates, order: KeyOrder) returns (result': Json)
    requires Orderly(order)
    ensures result'
         == if result.Arr? then Arr(RewrittenActions(result.items, |result.items|, templates, order)) else result
  {
    if !result.Arr? {
      return result;
    }
    var rewriter := new SnippetRewriter(templates, order);
    var actions := result.items;
    for i := 0 to |result.items|
      invariant rewriter.templates == templates && rewriter.order == order
      invariant actions == RewrittenActions(result.items, i, templates, order)
      invariant rewriter.snippetDocumentEditUsed == FirstAction(result.items, i, templates, order).Some?
    {
      var action := rewriter.RewriteAction(actions[i]);
      IdleAction(result.items[i], templates, order);
      actions := actions[i := action];
    }
    result' := Arr(actions);
  }

  lemma IdleAction(action: Json, t: Templates, order: KeyOrder)
    ensures !CandidateAction(action, t, order) ==> RewrittenAction(action, t, order) == action
  {
    if Get(action, "edit").Some? {
      SameField(action.fields, "edit");
    }
  }

  // ---- what a rewritten response keeps

  ghost predicate SameExcept(before: Json, after: Json, keys: set<string>) {
    before.Obj? && after.Obj? && forall key :: key in keys || Get(before, key) == Get(after, key)
  }

  /** A text edit became the snippet on record for it, or stayed as it was. */
  ghost predicate SnippetOrSame(before: Json, after: Json, t: Templates) {
    match Template(before, t)
    case None => after == before
    case Some(template) =>
      && SameExcept(before, after, {"newText", "insertTextFormat"})
      && Get(after, "newText") == Some(Str(template))
      && Get(after, "insertTextFormat") == Some(Num(SNIPPET_INSERT_TEXT_FORMAT))
  }

  /** The documents' edits, their number and order and everything else about them stay. */
  ghost predicate SnippetsIn(before: Json, after: Json, t: Templates) {
    var edits, edits' := EditsOf(before), EditsOf(after);
    && SameExcept(before, after, {"edits"}) && edits.Some? && edits'.Some? && |edits.value| == |edits'.value|
    && forall i | 0 <= i < |edits.value| :: SnippetOrSame(edits.value[i], edits'.value[i], t)
  }

  lemma RewrittenEditKeeps(edit: Json, t: Templates)
    ensures SnippetOrSame(edit, RewrittenEdit(edit, t), t)
  {
  }

  lemma RewrittenDocKeeps(doc: Json, t: Templates)
    requires EditsOf(doc).Some?
    ensures SnippetsIn(doc, RewrittenDoc(doc, t), t)
  {
    var edits := EditsOf(doc).value;
    assert EditsOf(RewrittenDoc(doc, t)) == Some(RewrittenEdits(edits, t));
    forall i | 0 <= i < |edits| ensures SnippetOrSame(edits[i], RewrittenEdits(edits, t)[i], t) {
      RewrittenEditKeeps(edits[i], t);
    }
  }

  /** Seen as documents, a rewritten workspace edit is the old one with its first eligible document rewritten. */
  lemma DocsOfRewritten(edit: Json, t: Templates, order: KeyOrder)
    requires CandidateEdit(edit, t, order)
    ensures DocsOf(RewrittenWorkspaceEdit(edit, t, order), order)
         == RewrittenDocs(DocsOf(edit, order), |DocsOf(edit, order)|, t)
    ensures SameExcept(edit, RewrittenWorkspaceEdit(edit, t, order), {"changes", "documentChanges"})
  {
  }

  /** The documents of action `a`. */
  function ActionDocs(actions: seq<Json>, a: nat, order: KeyOrder): seq<Json>
    requires a < |actions|
  {
    DocsOf(Get(actions[a], "edit").GetOr(Null), order)
  }

  /** The place of the one document that may carry snippets, if any document can. */
  function SnippetPlace(actions: seq<Json>, t: Templates, order: KeyOrder): Option<(nat, nat)> {
    match FirstAction(actions, |actions|, t, order)
    case None => None
    case Some(a) =>
      var docs := ActionDocs(actions, a, order);
      match FirstDoc(docs, |docs|, t)
      case None => None
      case Some(d) => Some((a, d))
  }

  /** A response is conserved but for one document edit, the first that has a snippet to offer. */
  lemma ResponseConserved(actions: seq<Json>, t: Templates, order: KeyOrder, a: nat, d: nat)
    requires a < |actions| && d < |ActionDocs(actions, a, order)|
    ensures var rewritten := RewrittenActions(actions, |actions|, t, order);
            && |rewritten| == |actions|
            && |ActionDocs(rewritten, a, order)| == |ActionDocs(actions, a, order)|
            && var before, after := ActionDocs(actions, a, order)[d], ActionDocs(rewritten, a, order)[d];
               if SnippetPlace(actions, t, order) == Some((a, d)) then SnippetsIn(before, after, t) else after == before
  {
    var first := FirstAction(actions, |actions|, t, order);
    if first == Some(a) {
      var edit := Get(actions[a], "edit").value;
      DocsOfRewritten(edit, t, order);
      var docs := DocsOf(edit, order);
      var chosen := FirstDoc(docs, |docs|, t).value;
      RewrittenDocKeeps(docs[chosen], t);
    }
  }

  /** Actions without the chosen document stay; the chosen one keeps all but how its edit lists documents. */
  lemma ActionsConserved(actions: seq<Json>, t: Templates, order: KeyOrder, a: nat)
    requires a < |actions|
    ensures var rewritten := RewrittenActions(actions, |actions|, t, order);
            && |rewritten| == |actions|
            && if FirstAction(actions, |actions|, t, order) != Some(a) then rewritten[a] == actions[a]
               else
                 && SameExcept(actions[a], rewritten[a], {"edit"})
                 && SameExcept(Get(actions[a], "edit").GetOr(Null), Get(rewritten[a], "edit").GetOr(Null),
                               {"changes", "documentChanges"})
  {
    if FirstAction(actions, |actions|, t, order) == Some(a) {
      DocsOfRewritten(Get(actions[a], "edit").value, t, order);
    }
  }

  // ---- at most one document with snippets

  predicate IsSnippet(edit: Json) {
    Get(edit, "insertTextFormat").Some?
  }

  predicate CarriesSnippets(doc: Json) {
    EditsOf(doc).Some? && exists i | 0 <= i < |EditsOf(doc).value| :: IsSnippet(EditsOf(doc).value[i])
  }

  ghost predicate CarriesAt(actions: seq<Json>, order: KeyOrder, a: nat, d: nat) {
    a < |actions| && d < |ActionDocs(actions, a, order)| && CarriesSnippets(ActionDocs(actions, a, order)[d])
  }

  lemma RewrittenCarries(doc: Json, t: Templates)
    requires EligibleDoc(doc, t)
    ensures CarriesSnippets(RewrittenDoc(doc, t))
  {
    var edits := EditsOf(doc).value;
    var i :| 0 <= i < |edits| && Eligible(edits[i], t);
    assert EditsOf(RewrittenDoc(doc, t)) == Some(RewrittenEdits(edits, t));
    assert IsSnippet(RewrittenEdits(edits, t)[i]);
  }

  /** There is a place for snippets exactly when some edit of some document has a template. */
  lemma PlaceIff(actions: seq<Json>, t: Templates, order: KeyOrder)
    ensures SnippetPlace(actions, t, order).Some?
       <==> exists a, d | 0 <= a < |actions| && 0 <= d < |ActionDocs(actions, a, order)| ::
              EligibleDoc(ActionDocs(actions, a, order)[d], t)
  {
    if a, d :| 0 <= a < |actions| && 0 <= d < |ActionDocs(actions, a, order)|
               && EligibleDoc(ActionDocs(actions, a, order)[d], t) {
      assert CandidateAction(actions[a], t, order);
    }
    if SnippetPlace(actions, t, order).Some? {
      var place := SnippetPlace(actions, t, order).value;
      assert EligibleDoc(ActionDocs(actions, place.0, order)[place.1], t);
    }
  }

  /** A response without snippets gets them in exactly one document if one has them to offer, else in none. */
  lemma OneSnippetDocument(actions: seq<Json>, t: Templates, order: KeyOrder, a: nat, d: nat)
    requires forall x, y :: !CarriesAt(actions, order, x, y)
    ensures CarriesAt(RewrittenActions(actions, |actions|, t, order), order, a, d)
       <==> SnippetPlace(actions, t, order) == Some((a, d))
  {
    var rewritten := RewrittenActions(actions, |actions|, t, order);
    assert !CarriesAt(actions, order, a, d);
    if SnippetPlace(actions, t, order) == Some((a, d)) {
      var edit := Get(actions[a], "edit").value;
      DocsOfRewritten(edit, t, order);
      RewrittenCarries(DocsOf(edit, order)[d], t);
    } else if CarriesAt(rewritten, order, a, d) {
      ActionDocsLength(actions, t, order, a);
      ResponseConserved(actions, t, order, a, d);
    }
  }

  lemma ActionDocsLength(actions: seq<Json>, t: Templates, order: KeyOrder, a: nat)
    requires a < |actions|
    ensures |ActionDocs(RewrittenActions(actions, |actions|, t, order), a, order)| == |ActionDocs(actions, a, order)|
  {
    if FirstAction(actions, |actions|, t, order) == Some(a) {
      DocsOfRewritten(Get(actions[a], "edit").value, t, order);
    }
  }
}
