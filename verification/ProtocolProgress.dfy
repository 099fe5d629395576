/**
 What the server gets round to. Every text it takes in starts an analysis of the client's text; an
 analysis that comes back publishes unless something newer has been stored since; and an answer
 that has been computed is there for the next request.
 */
module ProtocolProgress {
  import opened Text
  import opened TextSync
  import opened DocumentProtocol
  import opened ProtocolRuns
  import opened ProtocolTexts
  import opened ProtocolIdle
  import opened ProtocolCaches

  // ---- what is started

  /** The step from `s` to `t` starts this analysis, and no other. */
  predicate Starts(s: Server, t: Server, uri: Uri, text: string, version: int, lane: Lane) {
    t.inFlight == s.inFlight + multiset{Analysis(uri, Document(text, version), lane)}
  }

  /** Opening a document stores it and starts an analysis of its text. */
  lemma OpenStarts(c: Config, sys: System, uri: Uri, text: string, version: int)
    ensures var next := Step(c, sys, DidOpen(uri, Document(text, version)));
            && next.server.documents == sys.server.documents[uri := Document(text, version)]
            && Starts(sys.server, next.server, uri, text, version, Hot)
  {
  }

  /**
   Changes to a document that is not astray start an analysis of the client's new text under the new
   version, if they have a meaning on the client's text, and otherwise none.
   */
  lemma ChangeStarts(c: Config, events: seq<Event>, e: Event)
    requires IsRun(c, events, TEXT) && e.DidChange? && Possible(Run(c, events), e)
    requires e.uri !in Run(c, events).astray && e.changes != []
    ensures var sys, next := Run(c, events), Step(c, Run(c, events), e);
            if ApplyAll(sys.client[e.uri].text, e.changes).Edited? then
              && e.uri in next.client && next.client[e.uri].version == e.version
              && next.server.documents == sys.server.documents[e.uri := next.client[e.uri]]
              && Starts(sys.server, next.server, e.uri, next.client[e.uri].text, e.version, Hot)
            else
              e.uri !in next.server.documents && next.server.inFlight == sys.server.inFlight
  {
    TextHolds(c, events);
    ChangeOutcome(Run(c, events).server, e.uri, e.version, e.changes);
  }

  /** Saving a document that is not astray, with its text or without, starts an analysis of the client's text. */
  lemma SaveStarts(c: Config, events: seq<Event>, uri: Uri, text: Option<string>)
    requires IsRun(c, events, TEXT) && Possible(Run(c, events), DidSave(uri, text)) && uri !in Run(c, events).astray
    ensures var sys, next := Run(c, events), Step(c, Run(c, events), DidSave(uri, text));
            && uri in sys.server.documents && next.server.documents == sys.server.documents
            && Starts(sys.server, next.server, uri, sys.client[uri].text, sys.server.documents[uri].version, Save)
  {
    TextHolds(c, events);
  }

  /** Any save with a text, or of a document that is stored, starts an analysis; others start none. */
  lemma SaveStartsIff(c: Config, sys: System, uri: Uri, text: Option<string>)
    ensures var next := Step(c, sys, DidSave(uri, text));
            if text.Some? || uri in sys.server.documents
            then |next.server.inFlight| == |sys.server.inFlight| + 1 else next.server == sys.server
  {
  }

  // ---- what comes back

  /** The step from `s` to `t` publishes this version on this lane, and nothing else. */
  predicate Publishes(s: Server, t: Server, uri: Uri, version: int, lane: Lane) {
    t.published == s.published + [Publication(uri, version, lane, Session(s, uri))]
  }

  /** A result that nothing newer has overtaken is stored and published; any other is dropped. */
  lemma CompletionPublishes(c: Config, s: Server, a: Analysis)
    requires c.pushes
    ensures var t, held := Complete(c, s, a), CurrentVersion(s, a.uri);
            && (Publishes(s, t, a.uri, a.document.version, a.lane) <==> a.document.version >= held)
            && (t.published == s.published <==> a.document.version < held)
            && t.documents == (if a.document.version < held then s.documents else s.documents[a.uri := a.document])
  {
    CompleteTouches(c, s, a);
    var version := a.document.version;
    assert Complete(c, s, a).published == s.published
        || Complete(c, s, a).published == s.published + [Publication(a.uri, version, a.lane, Session(s, a.uri))];
  }

  /** Step `k` of the run opens, changes or saves the document and thereby starts the analysis. */
  ghost predicate StartedAt(c: Config, events: seq<Event>, k: nat, a: Analysis) {
    && k < |events|
    && (events[k].DidOpen? || events[k].DidChange? || events[k].DidSave?) && events[k].uri == a.uri
    && Starts(Run(c, events[..k]).server, Run(c, events[..k + 1]).server, a.uri, a.document.text,
              a.document.version, a.lane)
  }

  predicate IsHeldAt(s: Server, uri: Uri, version: int) {
    uri in s.documents ==> version == s.documents[uri].version
  }

  lemma JustStarted(c: Config, sys: System, e: Event, a: Analysis)
    requires (e.DidOpen? || e.DidChange? || e.DidSave?) && e.uri == a.uri
    requires Starts(sys.server, ServerStep(c, sys.server, e), a.uri, a.document.text, a.document.version, a.lane)
    ensures IsHeldAt(ServerStep(c, sys.server, e), a.uri, a.document.version)
  {
    var s, t := sys.server, ServerStep(c, sys.server, e);
    assert t.inFlight[a] == s.inFlight[a] + 1;
    match e
    case DidOpen(_, _) =>
    case DidChange(_, _, _) => ChangeOutcome(s, e.uri, e.version, e.changes);
    case DidSave(_, _) => SaveTouches(s, e.uri, e.text);
  }

  /** An analysis in flight for a document that is not astray and held under its version has the client's text. */
  lemma HeldIsCurrent(sys: System, a: Analysis)
    requires TextInv(sys) && a in sys.server.inFlight && a.uri !in sys.astray
    requires CurrentVersion(sys.server, a.uri) == a.document.version
    ensures a.document.text == sys.client[a.uri].text
  {
    assert Behind(ViewOf(sys), a.uri, a.document);
  }

  lemma StartedIsHeld(c: Config, events: seq<Event>, k: nat, a: Analysis)
    requires IsRun(c, events, TEXT) && StartedAt(c, events, k, a)
    ensures IsHeldAt(Run(c, events[..k + 1]).server, a.uri, a.document.version)
  {
    StepOf(c, events, k, TEXT);
    JustStarted(c, Run(c, events[..k]), events[k], a);
  }

  /** Within a stay the version it was started with is still held exactly when nothing newer was stored. */
  lemma StillHeldIff(c: Config, events: seq<Event>, k: nat, a: Analysis)
    requires IsRun(c, events, TEXT) && StartedAt(c, events, k, a)
    requires a.uri in Run(c, events[..k + 1]).server.documents && a.uri in Run(c, events).client
    requires Stay(Run(c, events[..k + 1]).server, a.uri) == Stay(Run(c, events).server, a.uri)
    ensures a.document.version <= CurrentVersion(Run(c, events).server, a.uri)
    ensures a.document.version == CurrentVersion(Run(c, events).server, a.uri)
       <==> StoresNothingNewer(Trace(c, events), k + 1, |events|, a.uri)
  {
    StartedIsHeld(c, events, k, a);
    TraceGrows(c, events, a.uri);
    assert events[..|events|] == events;
    WithinStay(Trace(c, events), k + 1, |events|, a.uri);
  }

  /**
   As long as the document is open and no change has been rejected, an analysis that comes back
   publishes its version exactly when no newer text was stored since it was started. Unless the
   document is astray, what was analysed is then the client's text.
   */
  lemma AnalysisPublishesIff(c: Config, events: seq<Event>, k: nat, a: Analysis)
    requires c.pushes && IsRun(c, events, TEXT) && Possible(Run(c, events), Completed(a))
    requires StartedAt(c, events, k, a) && a.uri in Run(c, events[..k + 1]).server.documents
    requires a.uri in Run(c, events).client
    requires Stay(Run(c, events[..k + 1]).server, a.uri) == Stay(Run(c, events).server, a.uri)
    ensures var sys, next := Run(c, events), Step(c, Run(c, events), Completed(a));
            && (Publishes(sys.server, next.server, a.uri, a.document.version, a.lane)
                <==> StoresNothingNewer(Trace(c, events), k + 1, |events|, a.uri))
            && (Publishes(sys.server, next.server, a.uri, a.document.version, a.lane) && a.uri !in sys.astray ==>
                  a.document.text == sys.client[a.uri].text)
  {
    StillHeldIff(c, events, k, a);
    CompletionPublishes(c, Run(c, events).server, a);
    TextHolds(c, events);
    if a.uri !in Run(c, events).astray && CurrentVersion(Run(c, events).server, a.uri) == a.document.version {
      HeldIsCurrent(Run(c, events), a);
    }
  }

  /** A republish takes every stored document along once. */
  lemma RepublishTakesAll(c: Config, s: Server, item: (Uri, Document))
    ensures ServerStep(c, s, RepublishStarted).republishing[item]
         == s.republishing[item] + if item.0 in s.documents && s.documents[item.0] == item.1 then 1 else 0
  {
  }

  lemma RepublishedIff(c: Config, s: Server, item: (Uri, Document))
    requires c.pushes
    ensures var t := RepublishOne(c, s, item);
            && (Publishes(s, t, item.0, item.1.version, Republish) <==> item.1.version >= CurrentVersion(s, item.0))
            && t.documents == s.documents
  {
    RepublishTouches(c, s, item);
    assert RepublishOne(c, s, item).published == s.published
        || RepublishOne(c, s, item).published
           == s.published + [Publication(item.0, item.1.version, Republish, Session(s, item.0))];
  }

  /**
   As long as the document is open and no change has been rejected, a document that a republish took
   along at step `k` is published exactly when no newer text has been stored since.
   */
  lemma RepublishPublishesIff(c: Config, events: seq<Event>, k: nat, item: (Uri, Document))
    requires c.pushes && IsRun(c, events, TEXT) && Possible(Run(c, events), Republished(item))
    requires k < |events| && events[k].RepublishStarted? && item.0 in Run(c, events[..k]).server.documents
    requires Run(c, events[..k]).server.documents[item.0] == item.1 && item.0 in Run(c, events).client
    requires Stay(Run(c, events[..k]).server, item.0) == Stay(Run(c, events).server, item.0)
    ensures Publishes(Run(c, events).server, ServerStep(c, Run(c, events).server, Republished(item)), item.0,
                      item.1.version, Republish)
       <==> StoresNothingNewer(Trace(c, events), k, |events|, item.0)
  {
    TraceGrows(c, events, item.0);
    assert events[..|events|] == events;
    WithinStay(Trace(c, events), k, |events|, item.0);
    RepublishedIff(c, Run(c, events).server, item);
  }

  // ---- what is answered

  lemma QueryTakes(s: Server, uri: Uri, kind: Kind)
    requires uri in s.documents
    ensures var hit, t := Find(s, uri, kind, CurrentVersion(s, uri)), StartQuery(s, uri, kind);
            if hit.Some? then t == s
            else t.documents == s.documents && t.queries == s.queries + multiset{Query(uri, kind, s.documents[uri])}
  {
    LookupTouches(s, uri, kind, CurrentVersion(s, uri));
  }

  /** Without a hit, a request takes away the client's text and the version held. */
  lemma RequestTakesText(c: Config, events: seq<Event>, uri: Uri, kind: Kind)
    requires IsRun(c, events, TEXT) && uri in Run(c, events).client && uri !in Run(c, events).astray
    ensures var sys, t := Run(c, events), StartQuery(Run(c, events).server, uri, kind);
            var held := CurrentVersion(sys.server, uri);
            var query := Query(uri, kind, Document(sys.client[uri].text, held));
            if Find(sys.server, uri, kind, held).Some? then t == sys.server
            else t.queries == sys.server.queries + multiset{query}
  {
    StoredTextIsClientText(c, events, uri);
    QueryTakes(Run(c, events).server, uri, kind);
  }

  /** What comes back is the answer to the same request under the same version, and nothing else is lost. */
  lemma AnswerIsStored(c: Config, s: Server, q: Query, uri: Uri, kind: Kind, token: int)
    ensures Find(FinishQuery(c, s, q), q.uri, q.kind, q.document.version) == Some(c.compute(q.kind, q.document.text))
    ensures (uri, kind) != (q.uri, q.kind) ==>
              Find(FinishQuery(c, s, q), uri, kind, token) == Find(s, uri, kind, token)
  {
  }

  lemma ActionsAreStored(s: Server, b: Build, answer: string, uri: Uri, kind: Kind, token: int)
    ensures Find(FinishCodeActions(s, b, answer), b.uri, CodeActions, b.token) == Some(answer)
    ensures (uri, kind) != (b.uri, CodeActions) ==>
              Find(FinishCodeActions(s, b, answer), uri, kind, token) == Find(s, uri, kind, token)
  {
  }

  /** A lookup finds nothing it did not find before, and drops what it is looking for under another token. */
  lemma LookupDrops(s: Server, uri: Uri, kind: Kind, token: int, other: int)
    ensures Find(Lookup(s, uri, kind, token), uri, kind, other)
         == if other == token then Find(s, uri, kind, token) else None
  {
  }

  /** The step ends a request for the same answer that was made under another version than the current one. */
  predicate Overwrites(s: Server, e: Event, uri: Uri, kind: Kind) {
    e.Answered? && e.query.uri == uri && e.query.kind == kind && e.query.document.version != CurrentVersion(s, uri)
  }

  lemma LookupKeeps(s: Server, looked: Uri, k: Kind, token: int, uri: Uri, kind: Kind, entry: Entry)
    requires Holds(s, uri, kind, entry) && (looked == uri && k == kind ==> token == entry.token)
    ensures Holds(Lookup(s, looked, k, token), uri, kind, entry)
  {
  }

  lemma RequestKeeps(s: Server, looked: Uri, k: Kind, uri: Uri, kind: Kind, entry: Entry)
    requires Holds(s, uri, kind, entry) && entry.token == CurrentVersion(s, uri)
    ensures Holds(StartQuery(s, looked, k), uri, kind, entry)
  {
    LookupKeeps(s, looked, k, CurrentVersion(s, looked), uri, kind, entry);
  }

  lemma ActionsRequestKeeps(s: Server, looked: Uri, uri: Uri, kind: Kind, entry: Entry)
    requires Holds(s, uri, kind, entry) && !kind.CodeActions?
    ensures Holds(StartCodeActions(s, looked), uri, kind, entry)
  {
    LookupKeeps(s, looked, CodeActions, Epoch(s, looked), uri, kind, entry);
  }

  lemma AnswersKeep(c: Config, s: Server, e: Event, uri: Uri, kind: Kind, entry: Entry)
    requires Holds(s, uri, kind, entry) && !kind.CodeActions? && (e.Answered? || e.CodeActionsBuilt?)
    requires !(e.Answered? && e.query.uri == uri && e.query.kind == kind)
    ensures Holds(ServerStep(c, s, e), uri, kind, entry)
  {
  }

  /** An entry stays unless it is dropped, written over, or looked up under another token. */
  lemma EntryStays(c: Config, s: Server, e: Event, uri: Uri, kind: Kind, entry: Entry)
    requires Holds(s, uri, kind, entry) && !kind.CodeActions? && entry.token == CurrentVersion(s, uri)
    requires !((e.DidOpen? || (e.DidChange? && e.changes != [])) && e.uri == uri)
    requires !(e.Answered? && e.query.uri == uri && e.query.kind == kind)
    ensures Holds(ServerStep(c, s, e), uri, kind, entry)
  {
    match e
    case DidChange(_, _, _) => ChangeOutcome(s, e.uri, e.version, e.changes);
    case DidSave(_, _) => SaveTouches(s, e.uri, e.text);
    case Completed(a) => CompleteTouches(c, s, a);
    case IdleFired(task) => FiringTouches(c, s, task);
    case Republished(item) => RepublishTouches(c, s, item);
    case Requested(looked, k) => RequestKeeps(s, looked, k, uri, kind, entry);
    case CodeActionsRequested(looked) => ActionsRequestKeeps(s, looked, uri, kind, entry);
    case Answered(_) => AnswersKeep(c, s, e, uri, kind, entry);
    case CodeActionsBuilt(_, _) => AnswersKeep(c, s, e, uri, kind, entry);
    case _ =>
  }

  /** A hit for a document that is not astray stays one until the text changes or an older answer comes in. */
  lemma HitStaysIff(c: Config, events: seq<Event>, e: Event, uri: Uri, kind: Kind)
    requires IsRun(c, events, CACHE) && Allowed(Run(c, events), e, CACHE) && !kind.CodeActions?
    requires uri in Run(c, events).client && uri !in Run(c, events).astray && uri in Step(c, Run(c, events), e).client
    requires Find(Run(c, events).server, uri, kind, CurrentVersion(Run(c, events).server, uri)).Some?
    ensures var s, t := Run(c, events).server, Step(c, Run(c, events), e).server;
            Find(t, uri, kind, CurrentVersion(t, uri)) == Find(s, uri, kind, CurrentVersion(s, uri))
            <==> !(e.DidChange? && e.uri == uri && e.changes != []) && !Overwrites(s, e, uri, kind)
  {
    CacheHolds(c, events);
    HitStays(c, Run(c, events), e, uri, kind);
  }

  lemma HitStays(c: Config, sys: System, e: Event, uri: Uri, kind: Kind)
    requires TextInv(sys) && CacheInv(c, sys) && Possible(sys, e) && !kind.CodeActions?
    requires uri in sys.client && uri !in sys.astray && uri in Step(c, sys, e).client
    requires Find(sys.server, uri, kind, CurrentVersion(sys.server, uri)).Some?
    ensures var s, t := sys.server, ServerStep(c, sys.server, e);
            Find(t, uri, kind, CurrentVersion(t, uri)) == Find(s, uri, kind, CurrentVersion(s, uri))
            <==> !(e.DidChange? && e.uri == uri && e.changes != []) && !Overwrites(s, e, uri, kind)
  {
    var s, t := sys.server, ServerStep(c, sys.server, e);
    var entry := s.cache[uri][kind];
    if Drops(e, uri) {
      ChangeOutcome(s, e.uri, e.version, e.changes);
    } else {
      DocumentStaysPut(c, sys, e, uri);
      if e.Answered? && e.query.uri == uri && e.query.kind == kind {
        AnswerIsStored(c, s, e.query, uri, kind, CurrentVersion(s, uri));
        AnswerMatches(c, sys, e.query);
      } else {
        EntryStays(c, s, e, uri, kind, entry);
      }
    }
  }

  lemma AnswerMatches(c: Config, sys: System, q: Query)
    requires TextInv(sys) && CacheInv(c, sys) && q in sys.server.queries && q.uri !in sys.astray
    requires Find(sys.server, q.uri, q.kind, CurrentVersion(sys.server, q.uri)).Some?
    ensures q.document.version == CurrentVersion(sys.server, q.uri) ==>
              Find(sys.server, q.uri, q.kind, q.document.version) == Some(c.compute(q.kind, q.document.text))
  {
    var entry := sys.server.cache[q.uri][q.kind];
    assert Behind(ViewOf(sys), q.uri, q.document) && !q.kind.CodeActions?;
    assert Holds(sys.server, q.uri, q.kind, entry);
    assert EntryOk(c, ViewOf(sys), q.uri, q.kind, entry);
  }
}
