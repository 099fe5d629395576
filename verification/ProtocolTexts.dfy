/**
 The stored texts: after every run in which documents are closed with no analysis in flight the
 server has the client's texts, and loses one exactly when a change is invalid.
 */
module ProtocolTexts {
  import opened Text
  import opened TextSync
  import opened DocumentProtocol
  import opened ProtocolRuns

  /** After every such run the server has the client's text of every open document that is not astray. */
  lemma StoredTextIsClientText(c: Config, events: seq<Event>, uri: Uri)
    requires IsRun(c, events, TEXT) && uri in Run(c, events).client && uri !in Run(c, events).astray
    ensures uri in Run(c, events).server.documents
    ensures Run(c, events).server.documents[uri].text == Run(c, events).client[uri].text
  {
    TextHolds(c, events);
  }

  /** Only open documents are stored, under no newer version than the client's. */
  lemma StoredIsOpen(c: Config, events: seq<Event>, uri: Uri)
    requires IsRun(c, events, TEXT) && uri in Run(c, events).server.documents
    ensures uri in Run(c, events).client
    ensures Run(c, events).server.documents[uri].version <= Run(c, events).client[uri].version
  {
    TextHolds(c, events);
  }

  /** A document that is not astray is forgotten exactly when a change is invalid on the client's own text. */
  lemma RejectsExactlyInvalidChanges(c: Config, events: seq<Event>, e: Event)
    requires IsRun(c, events, TEXT) && e.DidChange? && Possible(Run(c, events), e) && e.uri !in Run(c, events).astray
    ensures e.uri in Step(c, Run(c, events), e).server.documents
       <==> ApplyAll(Run(c, events).client[e.uri].text, e.changes).Edited?
    ensures e.uri in Step(c, Run(c, events), e).server.documents
       <==> e.uri !in Step(c, Run(c, events), e).astray
  {
    TextHolds(c, events);
    var sys := Run(c, events);
    assert sys.server.documents[e.uri].text == sys.client[e.uri].text;
  }

  /** The server has the client's text of the document. */
  predicate InStep(sys: System, uri: Uri) {
    && uri in sys.client && uri in sys.server.documents
    && sys.server.documents[uri].text == sys.client[uri].text
  }

  /**
   A change list with a whole new text at `i` brings any open document back in step exactly when
   the changes before `i` have a meaning on the text the server has.
   */
  lemma FullTextRestores(c: Config, sys: System, e: Event, i: nat)
    requires e.DidChange? && Possible(sys, e) && ApplyAll(sys.client[e.uri].text, e.changes).Edited?
    requires i < |e.changes| && e.changes[i].range.None?
    ensures InStep(Step(c, sys, e), e.uri) <==> ApplyAll(StoredText(sys.server, e.uri), e.changes[..i]).Edited?
  {
    var theirs, mine := StoredText(sys.server, e.uri), sys.client[e.uri].text;
    SameFromReplacement(theirs, mine, e.changes, i);
    SameFromReplacement(mine, theirs, e.changes, i);
    FullTextAccepted(theirs, mine, e.changes, i);
  }

  lemma FullTextAccepted(s: string, t: string, changes: seq<TextSync.Change>, i: nat)
    requires i < |changes| && changes[i].range.None? && ApplyAll(t, changes).Edited?
    ensures ApplyAll(s, changes[..i]).Edited? <==> ApplyAll(s, changes).Edited?
  {
    SameFromReplacement(s, t, changes, i);
    SameFromReplacement(t, s, changes, i);
  }

  /**
   The next change to a document that the server has forgotten brings it back in step exactly when
   it is a whole new text, or the client's text is as empty as the one the server goes on from.
   */
  lemma ForgottenRestores(c: Config, sys: System, e: Event, change: TextSync.Change)
    requires e.DidChange? && Possible(sys, e) && e.changes == [change] && e.uri !in sys.server.documents
    requires Apply(sys.client[e.uri].text, change).Edited?
    ensures InStep(Step(c, sys, e), e.uri) <==> change.range.None? || sys.client[e.uri].text == ""
  {
    ApplyToNothing(change, sys.client[e.uri].text);
    OneChange("", change);
    OneChange(sys.client[e.uri].text, change);
    ChangeForgotten(c, sys, e);
  }

  lemma OneChange(s: string, change: TextSync.Change)
    ensures ApplyAll(s, [change]) == Apply(s, change)
  {
    assert [change][1..] == [];
  }

  lemma ChangeForgotten(c: Config, sys: System, e: Event)
    requires e.DidChange? && e.changes != [] && e.uri in sys.client && e.uri !in sys.server.documents
    requires ApplyAll(sys.client[e.uri].text, e.changes).Edited?
    ensures InStep(Step(c, sys, e), e.uri) <==> ApplyAll("", e.changes) == ApplyAll(sys.client[e.uri].text, e.changes)
  {
  }

  lemma ApplyToNothing(change: TextSync.Change, mine: string)
    requires Apply(mine, change).Edited?
    ensures Apply("", change) == Apply(mine, change) <==> change.range.None? || mine == ""
  {
    if change.range.Some? && Apply("", change).Edited? {
      OnlyAtStart(change);
      InsertAtStart(mine, change.text);
      InsertAtStart("", change.text);
    }
  }

  const TOP := Range(Position(0, 0), Position(0, 0))

  lemma OnlyAtStart(change: TextSync.Change)
    requires change.range.Some? && Apply("", change).Edited?
    ensures change.range == Some(TOP)
  {
  }

  lemma InsertAtStart(s: string, text: string)
    ensures Apply(s, TextSync.Change(Some(TOP), text)) == Edited(text + s)
  {
    ApplyBetween(s, 0, 0, text);
    assert s[..0] + text + s[0..] == text + s;
  }
}
