/**
 The snippet rewrite said of the JSON itself, key by key: what one edit becomes, what a list of
 document changes becomes, and how `changes` turns into document changes.
 */
module SnippetJson {
  import opened Text
  import opened SnippetEdits

  // ---- one text edit

  /** The edit has a range and a text for which a template is on record. */
  predicate HasTemplate(edit: Json, t: Templates) {
    && edit.Obj? && "range" in edit.fields && "newText" in edit.fields && edit.fields["newText"].Str?
    && t(edit.fields["range"], edit.fields["newText"].s).Some?
  }

  /** The template in place of the text, marked as a snippet; everything else about the edit stays. */
  predicate AsSnippet(edit: Json, after: Json, t: Templates)
    requires HasTemplate(edit, t)
  {
    && after.Obj? && after.fields.Keys == edit.fields.Keys + {"insertTextFormat"}
    && after.fields["newText"] == Str(t(edit.fields["range"], edit.fields["newText"].s).value)
    && after.fields["insertTextFormat"] == Num(2)
    && forall key | key in edit.fields && key != "newText" && key != "insertTextFormat" ::
         after.fields[key] == edit.fields[key]
  }

  lemma EligibleIff(edit: Json, t: Templates)
    ensures Eligible(edit, t) <==> HasTemplate(edit, t)
  {
  }

  lemma EditRewritten(edit: Json, t: Templates)
    ensures if HasTemplate(edit, t) then AsSnippet(edit, RewrittenEdit(edit, t), t) else RewrittenEdit(edit, t) == edit
  {
  }

  // ---- the edits of a document

  predicate Offers(edits: Json, t: Templates) {
    edits.Arr? && exists i | 0 <= i < |edits.items| :: HasTemplate(edits.items[i], t)
  }

  predicate SnippetOrNot(edit: Json, after: Json, t: Templates) {
    if HasTemplate(edit, t) then AsSnippet(edit, after, t) else after == edit
  }

  /** All edits that have a template are snippets now, and the others are as they were. */
  predicate AreSnippets(before: Json, after: Json, t: Templates) {
    && before.Arr? && after.Arr? && |after.items| == |before.items|
    && forall i | 0 <= i < |before.items| :: SnippetOrNot(before.items[i], after.items[i], t)
  }

  lemma OffersIff(edits: Json, t: Templates)
    requires edits.Arr?
    ensures SomeEligible(edits.items, t) <==> Offers(edits, t)
  {
    forall i | 0 <= i < |edits.items| ensures Eligible(edits.items[i], t) <==> HasTemplate(edits.items[i], t) {
      EligibleIff(edits.items[i], t);
    }
  }

  lemma EditsRewritten(edits: seq<Json>, t: Templates)
    ensures AreSnippets(Arr(edits), Arr(RewrittenEdits(edits, t)), t)
  {
    forall i | 0 <= i < |edits| ensures SnippetOrNot(edits[i], RewrittenEdits(edits, t)[i], t) {
      EditRewritten(edits[i], t);
    }
  }

  /** A document change with text edits that have a template. */
  predicate IsEligible(doc: Json, t: Templates) {
    doc.Obj? && "textDocument" in doc.fields && "edits" in doc.fields && Offers(doc.fields["edits"], t)
  }

  /** Its edits are snippets now, and everything else about it stays. */
  predicate IsRewritten(doc: Json, after: Json, t: Templates)
    requires IsEligible(doc, t)
  {
    && after.Obj? && after.fields.Keys == doc.fields.Keys
    && AreSnippets(doc.fields["edits"], after.fields["edits"], t)
    && forall key | key in doc.fields && key != "edits" :: after.fields[key] == doc.fields[key]
  }

  lemma DocumentRewritten(doc: Json, t: Templates)
    ensures EligibleDoc(doc, t) <==> IsEligible(doc, t)
    ensures IsEligible(doc, t) ==> IsRewritten(doc, RewrittenDoc(doc, t), t)
  {
    if EditsOf(doc).Some? {
      OffersIff(doc.fields["edits"], t);
      EditsRewritten(EditsOf(doc).value, t);
    }
  }

  // ---- a list of document changes

  /** The first eligible document is rewritten, and the others stay. */
  ghost predicate FirstRewritten(docs: seq<Json>, after: seq<Json>, t: Templates) {
    && |after| == |docs|
    && forall d | 0 <= d < |docs| ::
         if IsEligible(docs[d], t) && forall e | 0 <= e < d :: !IsEligible(docs[e], t)
         then IsRewritten(docs[d], after[d], t)
         else after[d] == docs[d]
  }

  lemma DocumentsRewritten(docs: seq<Json>, t: Templates)
    ensures FirstRewritten(docs, RewrittenDocs(docs, |docs|, t), t)
  {
    forall d | 0 <= d < |docs|
      ensures EligibleDoc(docs[d], t) <==> IsEligible(docs[d], t)
      ensures IsEligible(docs[d], t) ==> IsRewritten(docs[d], RewrittenDoc(docs[d], t), t)
    {
      DocumentRewritten(docs[d], t);
    }
  }

  /** A workspace edit that has document changes has its first eligible one rewritten, and nothing else. */
  lemma DocumentChangesRewritten(edit: Json, t: Templates, order: KeyOrder)
    requires edit.Obj? && "documentChanges" in edit.fields && edit.fields["documentChanges"].Arr?
    ensures var after := RewrittenWorkspaceEdit(edit, t, order);
            && after.Obj? && after.fields.Keys == edit.fields.Keys && after.fields["documentChanges"].Arr?
            && FirstRewritten(edit.fields["documentChanges"].items, after.fields["documentChanges"].items, t)
            && forall key | key in edit.fields && key != "documentChanges" :: after.fields[key] == edit.fields[key]
  {
    var docs := edit.fields["documentChanges"].items;
    DocumentsRewritten(docs, t);
    if FirstDoc(docs, |docs|, t).None? {
      assert RewrittenDocs(docs, |docs|, t) == docs;
    }
  }

  // ---- changes become document changes

  /** The document change for one key of `changes`: its URI, no version, and these edits. */
  predicate IsDocumentFor(doc: Json, uri: string, edits: Json) {
    && doc.Obj? && doc.fields.Keys == {"textDocument", "edits"} && doc.fields["edits"] == edits
    && doc.fields["textDocument"].Obj? && doc.fields["textDocument"].fields.Keys == {"uri", "version"}
    && doc.fields["textDocument"].fields["uri"] == Str(uri) && doc.fields["textDocument"].fields["version"] == Null
  }

  /** `doc` is for `uri`, with its edits as they were, or as snippets if it is the chosen one. */
  predicate ConvertedFor(doc: Json, uri: string, edits: Json, chosen: bool, t: Templates) {
    && doc.Obj? && "edits" in doc.fields && IsDocumentFor(doc, uri, doc.fields["edits"])
    && if chosen then AreSnippets(edits, doc.fields["edits"], t) else doc.fields["edits"] == edits
  }

  ghost predicate OffersSome(changes: map<string, Json>, t: Templates) {
    exists uri | uri in changes :: Offers(changes[uri], t)
  }

  lemma ConvertedAt(changes: map<string, Json>, order: KeyOrder, i: nat)
    requires Orderly(order) && i < |order(changes)|
    ensures var uri, docs := order(changes)[i], Converted(Obj(changes), order);
            |docs| == |order(changes)| && uri in changes && IsDocumentFor(docs[i], uri, changes[uri])
  {
    assert ListsKeys(order(changes), changes);
  }

  /** Every key once: as many documents as keys. */
  lemma {:induction false} AsManyAsKeys(keys: seq<string>, fields: map<string, Json>)
    requires ListsKeys(keys, fields)
    ensures |keys| == |fields|
    decreases |keys|
  {
    if keys == [] {
      assert fields == map[];
    } else {
      var last := keys[|keys| - 1];
      var rest := fields - {last};
      assert ListsKeys(keys[..|keys| - 1], rest);
      AsManyAsKeys(keys[..|keys| - 1], rest);
      assert fields == rest[last := fields[last]];
    }
  }

  /** One document for every URI; the chosen one is the first with a snippet to offer, and has its snippets. */
  ghost predicate DocumentsFor(docs: seq<Json>, uris: seq<string>, changes: map<string, Json>, chosen: nat,
                               t: Templates)
  {
    && |docs| == |changes| == |uris| && ListsKeys(uris, changes)
    && chosen < |docs| && Offers(changes[uris[chosen]], t)
    && (forall i | 0 <= i < chosen :: !Offers(changes[uris[i]], t))
    && forall i | 0 <= i < |docs| :: ConvertedFor(docs[i], uris[i], changes[uris[i]], i == chosen, t)
  }

  /** `doc` is for `uri` with its edits as they were, and its rewriting has their snippets. */
  predicate Rewritable(doc: Json, uri: string, edits: Json, t: Templates) {
    && (EligibleDoc(doc, t) <==> Offers(edits, t))
    && ConvertedFor(doc, uri, edits, false, t)
    && (Offers(edits, t) ==> ConvertedFor(RewrittenDoc(doc, t), uri, edits, true, t))
  }

  lemma ConvertedIsRewritable(changes: map<string, Json>, t: Templates, order: KeyOrder, i: nat)
    requires Orderly(order) && i < |order(changes)|
    ensures |Converted(Obj(changes), order)| == |order(changes)| && order(changes)[i] in changes
    ensures var uri := order(changes)[i]; Rewritable(Converted(Obj(changes), order)[i], uri, changes[uri], t)
  {
    ConvertedAt(changes, order, i);
    DocumentRewritten(Converted(Obj(changes), order)[i], t);
  }

  lemma FirstOffer(docs: seq<Json>, uris: seq<string>, changes: map<string, Json>, t: Templates) returns (chosen: nat)
    requires |docs| == |uris| && ListsKeys(uris, changes) && OffersSome(changes, t)
    requires forall i | 0 <= i < |docs| :: Rewritable(docs[i], uris[i], changes[uris[i]], t)
    ensures FirstDoc(docs, |docs|, t) == Some(chosen)
    ensures Offers(changes[uris[chosen]], t) && forall i | 0 <= i < chosen :: !Offers(changes[uris[i]], t)
  {
    var uri :| uri in changes && Offers(changes[uri], t);
    var k :| 0 <= k < |uris| && uris[k] == uri;
    assert Rewritable(docs[k], uris[k], changes[uris[k]], t);
    chosen := FirstDoc(docs, |docs|, t).value;
    assert Rewritable(docs[chosen], uris[chosen], changes[uris[chosen]], t);
  }

  lemma DocumentsConverted(changes: map<string, Json>, t: Templates, order: KeyOrder) returns (chosen: nat)
    requires Orderly(order) && OffersSome(changes, t)
    ensures var docs := Converted(Obj(changes), order);
            && FirstDoc(docs, |docs|, t).Some?
            && DocumentsFor(RewrittenDocs(docs, |docs|, t), order(changes), changes, chosen, t)
  {
    var uris, docs := order(changes), Converted(Obj(changes), order);
    assert ListsKeys(uris, changes);
    AsManyAsKeys(uris, changes);
    forall i | 0 <= i < |uris| ensures Rewritable(docs[i], uris[i], changes[uris[i]], t) {
      ConvertedIsRewritable(changes, t, order, i);
    }
    chosen := FirstOffer(docs, uris, changes, t);
    var after := docs[chosen := RewrittenDoc(docs[chosen], t)];
    forall i | 0 <= i < |uris| ensures ConvertedFor(after[i], uris[i], changes[uris[i]], i == chosen, t) {
      assert Rewritable(docs[i], uris[i], changes[uris[i]], t);
    }
  }

  lemma OnlyDocumentListChanges(edit: Json, t: Templates, order: KeyOrder)
    requires edit.Obj? && "documentChanges" !in edit.fields && "changes" in edit.fields
    requires var docs := Converted(edit.fields["changes"], order); FirstDoc(docs, |docs|, t).Some?
    ensures var after, docs := RewrittenWorkspaceEdit(edit, t, order), Converted(edit.fields["changes"], order);
            && after.Obj? && after.fields.Keys == edit.fields.Keys - {"changes"} + {"documentChanges"}
            && (forall key | key in edit.fields && key != "changes" :: after.fields[key] == edit.fields[key])
            && after.fields["documentChanges"] == Arr(RewrittenDocs(docs, |docs|, t))
  {
    assert DocsOf(edit, order) == Converted(edit.fields["changes"], order);
  }

  /**
   `changes` with a snippet to offer is replaced by document changes, one for each key and under its
   URI. In the first of them that has one to offer the edits are snippets; in the others they are
   what `changes` had. Everything else about the workspace edit stays.
   */
  lemma ChangesBecomeDocuments(edit: Json, t: Templates, order: KeyOrder) returns (chosen: nat)
    requires Orderly(order) && edit.Obj? && "documentChanges" !in edit.fields
    requires "changes" in edit.fields && edit.fields["changes"].Obj? && OffersSome(edit.fields["changes"].fields, t)
    ensures var changes, after := edit.fields["changes"].fields, RewrittenWorkspaceEdit(edit, t, order);
            && after.Obj? && after.fields.Keys == edit.fields.Keys - {"changes"} + {"documentChanges"}
            && (forall key | key in edit.fields && key != "changes" :: after.fields[key] == edit.fields[key])
            && after.fields["documentChanges"].Arr?
            && DocumentsFor(after.fields["documentChanges"].items, order(changes), changes, chosen, t)
  {
    var changes := edit.fields["changes"].fields;
    assert edit.fields["changes"] == Obj(changes);
    chosen := DocumentsConverted(changes, t, order);
    OnlyDocumentListChanges(edit, t, order);
  }

  /** Exactly one of these documents is for a given key of `changes`. */
  lemma OneForEachKey(docs: seq<Json>, uris: seq<string>, changes: map<string, Json>, chosen: nat, t: Templates,
                      uri: string)
    requires DocumentsFor(docs, uris, changes, chosen, t) && uri in changes
    ensures exists i | 0 <= i < |docs| :: ConvertedFor(docs[i], uri, changes[uri], i == chosen, t)
    ensures forall i, j | 0 <= i < j < |docs| ::
              docs[i].fields["textDocument"].fields["uri"] != docs[j].fields["textDocument"].fields["uri"]
  {
    var i :| 0 <= i < |uris| && uris[i] == uri;
    assert ConvertedFor(docs[i], uri, changes[uri], i == chosen, t);
  }

  /** Without one to offer the workspace edit is returned as it is. */
  lemma NothingToOffer(edit: Json, t: Templates, order: KeyOrder)
    requires Orderly(order)
    requires edit.Obj? ==> "documentChanges" !in edit.fields
    requires edit.Obj? && "changes" in edit.fields && edit.fields["changes"].Obj? ==>
               !OffersSome(edit.fields["changes"].fields, t)
    ensures RewrittenWorkspaceEdit(edit, t, order) == edit
  {
    if edit.Obj? && "changes" in edit.fields && edit.fields["changes"].Obj? {
      var changes := edit.fields["changes"].fields;
      var docs := Converted(Obj(changes), order);
      forall i | 0 <= i < |docs| ensures !EligibleDoc(docs[i], t) {
        ConvertedAt(changes, order, i);
        DocumentRewritten(docs[i], t);
      }
    }
  }

  // ---- a response

  /** An action's workspace edit offers a snippet. */
  ghost predicate ActionOffers(action: Json, t: Templates) {
    && action.Obj? && "edit" in action.fields && action.fields["edit"].Obj?
    && var edit := action.fields["edit"].fields;
       if "documentChanges" in edit then
         edit["documentChanges"].Arr?
         && exists d | 0 <= d < |edit["documentChanges"].items| :: IsEligible(edit["documentChanges"].items[d], t)
       else "changes" in edit && edit["changes"].Obj? && OffersSome(edit["changes"].fields, t)
  }

  lemma OffersIfCandidate(action: Json, t: Templates, order: KeyOrder)
    requires Orderly(order)
    ensures CandidateAction(action, t, order) <==> ActionOffers(action, t)
  {
    if action.Obj? && "edit" in action.fields && action.fields["edit"].Obj? {
      CandidateIff(action.fields["edit"], t, order);
    }
  }

  lemma CandidateIff(edit: Json, t: Templates, order: KeyOrder)
    requires Orderly(order) && edit.Obj?
    ensures CandidateEdit(edit, t, order)
       <==> if "documentChanges" in edit.fields then
              var docs := edit.fields["documentChanges"];
              docs.Arr? && exists d | 0 <= d < |docs.items| :: IsEligible(docs.items[d], t)
            else
              "changes" in edit.fields && edit.fields["changes"].Obj? && OffersSome(edit.fields["changes"].fields, t)
  {
    var docs := DocsOf(edit, order);
    forall d | 0 <= d < |docs| ensures EligibleDoc(docs[d], t) <==> IsEligible(docs[d], t) {
      DocumentRewritten(docs[d], t);
    }
    if "documentChanges" !in edit.fields && "changes" in edit.fields && edit.fields["changes"].Obj? {
      if OffersSome(edit.fields["changes"].fields, t) {
        var chosen := ChangesBecomeDocuments(edit, t, order);
      } else if d :| 0 <= d < |docs| && EligibleDoc(docs[d], t) {
        ConvertedAt(edit.fields["changes"].fields, order, d);
      }
    }
  }

  /** Of a response only the first action that offers a snippet changes, and only in its `edit`. */
  lemma ResponseRewritten(actions: seq<Json>, t: Templates, order: KeyOrder, a: nat)
    requires Orderly(order) && a < |actions|
    ensures var after := RewrittenActions(actions, |actions|, t, order);
            && |after| == |actions|
            && if ActionOffers(actions[a], t) && forall b | 0 <= b < a :: !ActionOffers(actions[b], t)
               then
                 && after[a].Obj? && after[a].fields.Keys == actions[a].fields.Keys
                 && after[a].fields["edit"] == RewrittenWorkspaceEdit(actions[a].fields["edit"], t, order)
                 && forall key | key in actions[a].fields && key != "edit" ::
                      after[a].fields[key] == actions[a].fields[key]
               else after[a] == actions[a]
  {
    forall b | 0 <= b < |actions| ensures CandidateAction(actions[b], t, order) <==> ActionOffers(actions[b], t) {
      OffersIfCandidate(actions[b], t, order);
    }
  }
}
