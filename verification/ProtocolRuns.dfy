/**
 Runs of the document protocol: any interleaving of edits, saves, requests, republishes and
 analyses coming back, with a client that keeps to LSP's rules. A client is not told that a change
 was rejected: it keeps its text and goes on. What a result needs beyond that is a set of rules;
 this module has the first result, that the server follows the client's texts.
 */
module ProtocolRuns {
  import opened Text
  import opened TextSync
  import opened DocumentProtocol

  datatype Event =
    | DidOpen(uri: Uri, document: Document)
    | DidChange(uri: Uri, version: int, changes: seq<TextSync.Change>)
    | DidSave(uri: Uri, text: Option<string>)
    | DidClose(uri: Uri)
    | Completed(analysis: Analysis)
    | IdleScheduled(uri: Uri, document: Document)
    | IdleFired(task: IdleTask)
    | RepublishStarted
    | Republished(item: (Uri, Document))
    | Requested(uri: Uri, kind: Kind)
    | Answered(query: Query)
    | CodeActionsRequested(uri: Uri)
    | CodeActionsBuilt(build: Build, answer: string)

  /**
   The server; the open documents as the client has them; the documents that went astray when a
   change was rejected; and the updates whose handlers have yet to schedule the idle analysis.
   */
  datatype System = System(server: Server, client: map<Uri, Document>, astray: set<Uri>, due: multiset<(Uri, Document)>)

  const START := System(NEW_SERVER, map[], {}, multiset{})

  /** Every change is applied to the client's own text; one that has no meaning there leaves it alone. */
  ghost function ClientStep(client: map<Uri, Document>, e: Event): map<Uri, Document> {
    match e
    case DidOpen(uri, document) => client[uri := document]
    case DidChange(uri, version, changes) =>
      if uri !in client then client
      else
        (match ApplyAll(client[uri].text, changes)
         case Edited(text) => client[uri := Document(text, version)]
         case Invalid(_, _) => client[uri := Document(client[uri].text, version)])
    case DidClose(uri) => client - {uri}
    case _ => client
  }

  ghost function ServerStep(c: Config, s: Server, e: Event): Server {
    match e
    case DidOpen(uri, document) => Open(s, uri, document)
    case DidChange(uri, version, changes) => DocumentProtocol.Change(s, uri, version, changes)
    case DidSave(uri, text) => StartSave(s, uri, text)
    case DidClose(uri) => Close(s, uri)
    case Completed(analysis) => Complete(c, s, analysis)
    case IdleScheduled(uri, document) => ScheduleIdle(s, uri, document)
    case IdleFired(task) => FireIdle(c, s, task)
    case RepublishStarted => StartRepublish(s)
    case Republished(item) => RepublishOne(c, s, item)
    case Requested(uri, kind) => StartQuery(s, uri, kind)
    case Answered(query) => FinishQuery(c, s, query)
    case CodeActionsRequested(uri) => StartCodeActions(s, uri)
    case CodeActionsBuilt(build, answer) => FinishCodeActions(s, build, answer)
  }

  /** The server turns the changes down. */
  ghost predicate Rejects(s: Server, uri: Uri, changes: seq<TextSync.Change>) {
    ApplyAll(StoredText(s, uri), changes).Invalid?
  }

  /** One of the changes is a whole new text. */
  predicate ReplacesAll(changes: seq<TextSync.Change>) {
    exists i | 0 <= i < |changes| :: changes[i].range.None?
  }

  /** A rejection loses a document; opening it again or replacing its whole text finds it again. */
  ghost function AstrayStep(sys: System, e: Event): set<Uri> {
    match e
    case DidOpen(uri, _) => sys.astray - {uri}
    case DidClose(uri) => sys.astray - {uri}
    case DidChange(uri, _, changes) =>
      if uri !in sys.client then sys.astray
      else if Rejects(sys.server, uri, changes) then sys.astray + {uri}
      else if ReplacesAll(changes) && ApplyAll(sys.client[uri].text, changes).Edited? then sys.astray - {uri}
      else sys.astray
    case _ => sys.astray
  }

  function DueStep(due: multiset<(Uri, Document)>, e: Event): multiset<(Uri, Document)> {
    match e
    case Completed(a) => if a.lane.Hot? then due + multiset{(a.uri, a.document)} else due
    case IdleScheduled(uri, document) => due - multiset{(uri, document)}
    case _ => due
  }

  ghost function Step(c: Config, sys: System, e: Event): System {
    System(ServerStep(c, sys.server, e), ClientStep(sys.client, e), AstrayStep(sys, e), DueStep(sys.due, e))
  }

  /** What the client and the runtime may do next. */
  ghost predicate Possible(sys: System, e: Event) {
    match e
    case DidOpen(uri, _) => uri !in sys.client
    case DidChange(uri, version, changes) => uri in sys.client && sys.client[uri].version < version
    case DidSave(uri, text) => uri in sys.client && (text.Some? ==> text.value == sys.client[uri].text)
    case DidClose(uri) => uri in sys.client
    case Completed(analysis) => analysis in sys.server.inFlight && !analysis.lane.Idle?
    case IdleScheduled(uri, document) => (uri, document) in sys.due
    case IdleFired(task) => task in sys.server.idle
    case Republished(item) => item in sys.server.republishing
    case Requested(_, kind) => !kind.CodeActions?
    case Answered(query) => query in sys.server.queries
    case CodeActionsBuilt(build, _) => build in sys.server.builds
    case _ => true
  }

  // ---- rules of a run

  /**
   What may not be on its way when the server loses track of a document. `Analyses`: none is in
   flight when it is closed. `Saves`: a document that is not stored, which counts as version 0, is
   not saved under a negative version. `Republishes`, `Builds`, `Schedules`: none is pending when it
   is closed or a change to it is rejected. `Queries`: none is pending when it is closed. `Order`: what
   is left to publish when a change is rejected, or saved afterwards, is not older than what has been.
   */
  datatype Rule = Analyses | Saves | Republishes | Queries | Builds | Schedules | Order

  /** The server turns a change to the document down. */
  ghost predicate IsRejected(sys: System, e: Event) {
    e.DidChange? && Rejects(sys.server, e.uri, e.changes)
  }

  /** The server forgets the document. */
  ghost predicate Forgets(sys: System, e: Event) {
    e.DidClose? || IsRejected(sys, e)
  }

  /** Guarded publishes of the document's current session are no newer than `version`. */
  predicate NoNewerPublish(s: Server, uri: Uri, version: int) {
    forall p | p in s.published && p.uri == uri && !p.lane.Idle? && p.session == Session(s, uri) :: p.version <= version
  }

  /** No analysis in flight that counts for the document is older than its newest guarded publish. */
  predicate NoOlderAnalysis(s: Server, uri: Uri) {
    forall a | a in s.inFlight && a.uri == uri && a.document.version >= 0 :: NoNewerPublish(s, uri, a.document.version)
  }

  ghost predicate Respects(sys: System, e: Event, rule: Rule)
    requires Possible(sys, e)
  {
    match rule
    case Analyses => e.DidClose? ==> forall a | a in sys.server.inFlight :: a.uri != e.uri
    case Saves => e.DidSave? ==> e.uri in sys.server.documents || sys.client[e.uri].version >= 0
    case Republishes => Forgets(sys, e) ==> forall item | item in sys.server.republishing :: item.0 != e.uri
    case Queries => e.DidClose? ==> forall q | q in sys.server.queries :: q.uri != e.uri
    case Builds => Forgets(sys, e) ==> forall b | b in sys.server.builds :: b.uri != e.uri
    case Schedules =>
      && (Forgets(sys, e) ==> forall item | item in sys.due :: item.0 != e.uri)
      && (IsRejected(sys, e) ==> forall a | a in sys.server.inFlight && a.uri == e.uri :: a.document.version >= 0)
    case Order =>
      && (IsRejected(sys, e) ==> NoOlderAnalysis(sys.server, e.uri))
      && (e.DidSave? && e.uri !in sys.server.documents && e.text.Some? ==> NoNewerPublish(sys.server, e.uri, 0))
  }

  ghost predicate Allowed(sys: System, e: Event, rules: set<Rule>) {
    Possible(sys, e) && forall rule | rule in rules :: Respects(sys, e, rule)
  }

  ghost predicate IsRun(c: Config, events: seq<Event>, rules: set<Rule>) {
    events == [] ||
    (IsRun(c, events[..|events| - 1], rules)
     && Allowed(Run(c, events[..|events| - 1]), events[|events| - 1], rules))
  }

  ghost function Run(c: Config, events: seq<Event>): System {
    if events == [] then START else Step(c, Run(c, events[..|events| - 1]), events[|events| - 1])
  }

  lemma {:induction false} FewerRules(c: Config, events: seq<Event>, more: set<Rule>, less: set<Rule>)
    requires less <= more && IsRun(c, events, more)
    ensures IsRun(c, events, less)
    decreases |events|
  {
    if events != [] {
      FewerRules(c, events[..|events| - 1], more, less);
    }
  }

  // ---- the server follows the client's texts

  /** What work under way is compared with. */
  datatype View = View(stored: map<Uri, Document>, client: map<Uri, Document>, astray: set<Uri>)

  function ViewOf(sys: System): View {
    View(sys.server.documents, sys.client, sys.astray)
  }

  /** What is stored is the client's text, except for documents that are astray. */
  predicate Agrees(v: View) {
    && v.astray <= v.client.Keys && v.stored.Keys <= v.client.Keys
    && (forall uri | uri in v.client && uri !in v.astray :: uri in v.stored && v.stored[uri].text == v.client[uri].text)
    && (forall uri | uri in v.stored :: v.stored[uri].version <= v.client[uri].version)
  }

  /** No newer than what the client has; unless astray, an older version of what is stored, or exactly that. */
  predicate Behind(v: View, uri: Uri, d: Document) {
    && uri in v.client && d.version <= v.client[uri].version
    && (uri !in v.astray ==>
          && uri in v.stored && d.version <= v.stored[uri].version
          && (d.version == v.stored[uri].version ==> d.text == v.stored[uri].text))
  }

  predicate AnalysesBehind(v: View, inFlight: multiset<Analysis>) {
    forall a | a in inFlight :: !a.lane.Idle? && Behind(v, a.uri, a.document)
  }

  predicate TextInv(sys: System) {
    Agrees(ViewOf(sys)) && AnalysesBehind(ViewOf(sys), sys.server.inFlight)
  }

  const TEXT: set<Rule> := {Analyses, Saves}

  /** All that is behind stays behind. */
  ghost predicate MovesOn(v: View, w: View) {
    forall uri, d | Behind(v, uri, d) :: Behind(w, uri, d)
  }

  /** The document is stored under a newer version than the client had, and the client has a text for it. */
  predicate Stored(v: View, w: View, uri: Uri, document: Document) {
    && w.stored == v.stored[uri := document]
    && uri in w.client && w.client == v.client[uri := w.client[uri]] && w.client[uri].version == document.version
    && (if uri in v.client then v.client[uri].version < document.version else uri !in v.stored)
    && w.astray - {uri} == v.astray - {uri} && (uri in w.astray || w.client[uri].text == document.text)
  }

  lemma SameElsewhere(a: set<Uri>, b: set<Uri>, uri: Uri)
    requires a - {uri} == b - {uri}
    ensures forall u | u != uri :: u in a <==> u in b
  {
    forall u | u != uri ensures u in a <==> u in b {
      assert u in a - {uri} <==> u in b - {uri};
    }
  }

  lemma StoredKeeps(v: View, w: View, uri: Uri, document: Document)
    requires Agrees(v) && Stored(v, w, uri, document)
    ensures Agrees(w) && MovesOn(v, w) && Behind(w, uri, document)
  {
    SameElsewhere(v.astray, w.astray, uri);
  }

  lemma OpenKeepsTexts(c: Config, sys: System, e: Event)
    requires TextInv(sys) && e.DidOpen? && Possible(sys, e)
    ensures TextInv(Step(c, sys, e)) && MovesOn(ViewOf(sys), ViewOf(Step(c, sys, e)))
  {
    var next := Step(c, sys, e);
    StoredKeeps(ViewOf(sys), ViewOf(next), e.uri, e.document);
    OneMore(ViewOf(sys), ViewOf(next), sys.server.inFlight, Analysis(e.uri, e.document, Hot));
  }

  /** Analyses in flight stay behind, and one more that is behind may join them. */
  lemma OneMore(v: View, w: View, inFlight: multiset<Analysis>, a: Analysis)
    requires AnalysesBehind(v, inFlight) && MovesOn(v, w) && Behind(w, a.uri, a.document) && !a.lane.Idle?
    ensures AnalysesBehind(w, inFlight + multiset{a})
  {
  }

  lemma ChangeKeepsTexts(c: Config, sys: System, e: Event)
    requires TextInv(sys) && e.DidChange? && Possible(sys, e)
    ensures TextInv(Step(c, sys, e)) && MovesOn(ViewOf(sys), ViewOf(Step(c, sys, e)))
  {
    if e.changes == [] {
      UnchangedKeepsTexts(c, sys, e);
    } else if Rejects(sys.server, e.uri, e.changes) {
      RejectionKeepsTexts(c, sys, e);
    } else {
      AcceptedKeepsTexts(c, sys, e);
    }
  }

  /** A notification without changes only takes the client's version on. */
  lemma UnchangedKeepsTexts(c: Config, sys: System, e: Event)
    requires TextInv(sys) && e.DidChange? && Possible(sys, e) && e.changes == []
    ensures TextInv(Step(c, sys, e)) && MovesOn(ViewOf(sys), ViewOf(Step(c, sys, e)))
  {
    assert MovesOn(ViewOf(sys), ViewOf(Step(c, sys, e)));
  }

  lemma RejectionKeepsTexts(c: Config, sys: System, e: Event)
    requires TextInv(sys) && IsRejected(sys, e) && Possible(sys, e) && e.changes != []
    ensures TextInv(Step(c, sys, e)) && MovesOn(ViewOf(sys), ViewOf(Step(c, sys, e)))
  {
    assert MovesOn(ViewOf(sys), ViewOf(Step(c, sys, e)));
  }

  lemma AcceptedKeepsTexts(c: Config, sys: System, e: Event)
    requires TextInv(sys) && e.DidChange? && !IsRejected(sys, e) && Possible(sys, e) && e.changes != []
    ensures TextInv(Step(c, sys, e)) && MovesOn(ViewOf(sys), ViewOf(Step(c, sys, e)))
  {
    var s, next := sys.server, Step(c, sys, e);
    var document := Document(ApplyAll(StoredText(s, e.uri), e.changes).text, e.version);
    assert next.server == Update(s, e.uri, document);
    if e.uri in sys.astray && e.uri !in next.astray {
      SameAfterReplacement(StoredText(s, e.uri), sys.client[e.uri].text, e.changes);
    }
    StoredKeeps(ViewOf(sys), ViewOf(next), e.uri, document);
    OneMore(ViewOf(sys), ViewOf(next), s.inFlight, Analysis(e.uri, document, Hot));
  }

  lemma SaveKeepsTexts(c: Config, sys: System, e: Event)
    requires TextInv(sys) && e.DidSave? && Possible(sys, e) && Respects(sys, e, Saves)
    ensures TextInv(Step(c, sys, e)) && MovesOn(ViewOf(sys), ViewOf(Step(c, sys, e)))
  {
    var s, next := sys.server, Step(c, sys, e);
    if next.server != s {
      var text := if e.text.Some? then e.text.value else StoredText(s, e.uri);
      OneMore(ViewOf(sys), ViewOf(next), s.inFlight,
              Analysis(e.uri, Document(text, CurrentVersion(s, e.uri)), Save));
    }
  }

  lemma CloseKeepsTexts(c: Config, sys: System, e: Event)
    requires TextInv(sys) && e.DidClose? && Possible(sys, e) && Respects(sys, e, Analyses)
    ensures TextInv(Step(c, sys, e))
  {
    var v, w := ViewOf(sys), ViewOf(Step(c, sys, e));
    forall a | a in sys.server.inFlight ensures Behind(w, a.uri, a.document) {
      assert Behind(v, a.uri, a.document) && a.uri != e.uri;
    }
  }

  /** A result that is not stale is stored: nothing new for a document that is not astray. */
  lemma ReturnKeeps(v: View, uri: Uri, document: Document)
    requires Agrees(v) && Behind(v, uri, document) && (uri in v.stored ==> v.stored[uri].version <= document.version)
    ensures Agrees(v.(stored := v.stored[uri := document])) && MovesOn(v, v.(stored := v.stored[uri := document]))
  {
    if uri !in v.astray {
      assert v.stored[uri := document] == v.stored;
    }
  }

  lemma CompleteKeepsTexts(c: Config, sys: System, e: Event)
    requires TextInv(sys) && e.Completed? && Possible(sys, e)
    ensures TextInv(Step(c, sys, e)) && MovesOn(ViewOf(sys), ViewOf(Step(c, sys, e)))
  {
    var a, next := e.analysis, Step(c, sys, e);
    CompleteTouches(c, sys.server, a);
    if next.server.documents != sys.server.documents {
      ReturnKeeps(ViewOf(sys), a.uri, a.document);
    }
  }

  // ---- what the steps touch

  lemma PublishTouches(c: Config, s: Server, uri: Uri, version: int, lane: Lane)
    ensures var t := PublishAnalysis(c, s, uri, version, lane);
            t == s.(epochs := t.epochs, publishes := t.publishes, published := t.published)
    ensures var t := Publish(c, s, uri, version, lane);
            t == s.(epochs := t.epochs, publishes := t.publishes, published := t.published)
  {
  }

  lemma CompleteTouches(c: Config, s: Server, a: Analysis)
    ensures var t := Complete(c, s, a);
            t == s.(inFlight := s.inFlight - multiset{a}, documents := t.documents,
                    epochs := t.epochs, publishes := t.publishes, published := t.published)
    ensures Complete(c, s, a).documents
         == if IsStale(CurrentVersion(s, a.uri), a.document.version) then s.documents
            else s.documents[a.uri := a.document]
  {
    var rest := s.(inFlight := s.inFlight - multiset{a}, documents := s.documents[a.uri := a.document]);
    PublishTouches(c, rest, a.uri, a.document.version, a.lane);
  }

  lemma FiringTouches(c: Config, s: Server, task: IdleTask)
    ensures var t := FireIdle(c, s, task);
            t == s.(idle := s.idle - multiset{task}, epochs := t.epochs, publishes := t.publishes,
                    published := t.published)
  {
    PublishTouches(c, s.(idle := s.idle - multiset{task}), task.uri, task.document.version, Idle);
  }

  lemma RepublishTouches(c: Config, s: Server, item: (Uri, Document))
    ensures var t := RepublishOne(c, s, item);
            t == s.(republishing := s.republishing - multiset{item}, epochs := t.epochs, publishes := t.publishes,
                    published := t.published)
  {
    PublishTouches(c, s.(republishing := s.republishing - multiset{item}), item.0, item.1.version, Republish);
  }

  lemma LookupTouches(s: Server, uri: Uri, kind: Kind, token: int)
    ensures Lookup(s, uri, kind, token) == s.(cache := Lookup(s, uri, kind, token).cache)
  {
  }

  lemma QueryTouches(s: Server, uri: Uri, kind: Kind)
    ensures var t := StartQuery(s, uri, kind); t == s.(cache := t.cache, queries := t.queries)
  {
    LookupTouches(s, uri, kind, CurrentVersion(s, uri));
  }

  lemma BuildTouches(s: Server, uri: Uri)
    ensures var t := StartCodeActions(s, uri); t == s.(cache := t.cache, builds := t.builds)
  {
    LookupTouches(s, uri, CodeActions, Epoch(s, uri));
  }

  lemma SaveTouches(s: Server, uri: Uri, text: Option<string>)
    ensures StartSave(s, uri, text) == s.(inFlight := StartSave(s, uri, text).inFlight)
  {
  }

  /** A change is ignored, rejected or stored. */
  lemma ChangeOutcome(s: Server, uri: Uri, version: int, changes: seq<TextSync.Change>)
    ensures DocumentProtocol.Change(s, uri, version, changes)
         == if changes == [] then s
            else if Rejects(s, uri, changes) then RejectChange(s, uri)
            else Update(s, uri, Document(ApplyAll(StoredText(s, uri), changes).text, version))
  {
  }

  /** The steps that leave the documents alone. */
  predicate IsSideStep(e: Event) {
    !e.DidOpen? && !e.DidChange? && !e.DidSave? && !e.DidClose? && !e.Completed?
  }

  predicate SameDocuments(s: Server, t: Server) {
    t.documents == s.documents && t.inFlight == s.inFlight && t.sessions == s.sessions && t.stays == s.stays
  }

  lemma SideStepStoresNothing(c: Config, s: Server, e: Event)
    requires IsSideStep(e)
    ensures SameDocuments(s, ServerStep(c, s, e))
  {
    match e
    case IdleFired(task) => FiringTouches(c, s, task);
    case Republished(item) => RepublishTouches(c, s, item);
    case Requested(uri, kind) => QueryTouches(s, uri, kind);
    case CodeActionsRequested(uri) => BuildTouches(s, uri);
    case _ =>
  }

  lemma TextStep(c: Config, sys: System, e: Event)
    requires TextInv(sys) && Allowed(sys, e, TEXT)
    ensures TextInv(Step(c, sys, e))
  {
    assert Respects(sys, e, Analyses) && Respects(sys, e, Saves);
    match e
    case DidOpen(_, _) => OpenKeepsTexts(c, sys, e);
    case DidChange(_, _, _) => ChangeKeepsTexts(c, sys, e);
    case DidSave(_, _) => SaveKeepsTexts(c, sys, e);
    case DidClose(_) => CloseKeepsTexts(c, sys, e);
    case Completed(_) => CompleteKeepsTexts(c, sys, e);
    case _ => SideStepStoresNothing(c, sys.server, e);
  }

  /** Unless its document is closed, work that is behind stays behind. */
  lemma StaysBehind(c: Config, sys: System, e: Event, uri: Uri, d: Document)
    requires TextInv(sys) && Possible(sys, e) && Respects(sys, e, Saves)
    requires Behind(ViewOf(sys), uri, d) && !(e.DidClose? && e.uri == uri)
    ensures Behind(ViewOf(Step(c, sys, e)), uri, d)
  {
    match e
    case DidOpen(_, _) => OpenKeepsTexts(c, sys, e);
    case DidChange(_, _, _) => ChangeKeepsTexts(c, sys, e);
    case DidSave(_, _) => SaveKeepsTexts(c, sys, e);
    case DidClose(_) =>
    case Completed(_) => CompleteKeepsTexts(c, sys, e);
    case _ => SideStepStoresNothing(c, sys.server, e);
  }

  lemma {:induction false} TextHolds(c: Config, events: seq<Event>)
    requires IsRun(c, events, TEXT)
    ensures TextInv(Run(c, events))
    decreases |events|
  {
    if events != [] {
      TextHolds(c, events[..|events| - 1]);
      TextStep(c, Run(c, events[..|events| - 1]), events[|events| - 1]);
    }
  }

  // ---- what a step does to a stored document

  ghost predicate Loses(sys: System, e: Event, uri: Uri) {
    Forgets(sys, e) && e.uri == uri
  }

  predicate IsHeld(s: Server, uri: Uri, version: int) {
    uri in s.documents && version <= s.documents[uri].version
  }

  /** The document stays stored, never under an older version. */
  predicate Advances(s: Server, t: Server, uri: Uri) {
    && uri in t.documents && s.documents.Keys >= {uri} && s.documents[uri].version <= t.documents[uri].version
    && Stay(t, uri) == Stay(s, uri) && Session(t, uri) == Session(s, uri)
  }

  lemma StoredAdvances(c: Config, sys: System, e: Event, uri: Uri)
    requires TextInv(sys) && Possible(sys, e) && uri in sys.server.documents && !Loses(sys, e, uri)
    ensures Advances(sys.server, ServerStep(c, sys.server, e), uri)
  {
    match e
    case DidOpen(_, _) => OpenAdvances(sys.server, e.uri, e.document, uri);
    case DidChange(_, _, _) => ChangeAdvances(c, sys, e, uri);
    case DidSave(_, _) => SaveTouches(sys.server, e.uri, e.text);
    case DidClose(_) => CloseAdvances(sys.server, e.uri, uri);
    case Completed(a) => CompleteTouches(c, sys.server, a);
    case _ => SideStepStoresNothing(c, sys.server, e);
  }

  lemma OpenAdvances(s: Server, other: Uri, document: Document, uri: Uri)
    requires uri in s.documents && uri != other
    ensures Advances(s, Open(s, other, document), uri)
  {
  }

  lemma CloseAdvances(s: Server, other: Uri, uri: Uri)
    requires uri in s.documents && uri != other
    ensures Advances(s, Close(s, other), uri)
  {
  }

  lemma ChangeAdvances(c: Config, sys: System, e: Event, uri: Uri)
    requires TextInv(sys) && Possible(sys, e) && e.DidChange? && uri in sys.server.documents && !Loses(sys, e, uri)
    ensures Advances(sys.server, ServerStep(c, sys.server, e), uri)
  {
    ChangeOutcome(sys.server, e.uri, e.version, e.changes);
    if uri == e.uri && e.changes != [] {
      var document := Document(ApplyAll(StoredText(sys.server, uri), e.changes).text, e.version);
      assert Update(sys.server, uri, document).documents[uri].version == e.version;
      assert sys.server.documents[uri].version <= sys.client[uri].version;
    }
  }

  lemma HeldStays(c: Config, sys: System, e: Event, uri: Uri, version: int)
    requires TextInv(sys) && Possible(sys, e) && !Loses(sys, e, uri) && IsHeld(sys.server, uri, version)
    ensures IsHeld(ServerStep(c, sys.server, e), uri, version)
  {
    StoredAdvances(c, sys, e, uri);
  }

  /** A document's stay ends where it is opened again or a change to it is rejected. */
  lemma StaySteps(c: Config, sys: System, e: Event, uri: Uri)
    ensures Stay(ServerStep(c, sys.server, e), uri)
         == Stay(sys.server, uri) + if (e.DidOpen? || IsRejected(sys, e)) && e.uri == uri then 1 else 0
  {
    match e
    case DidOpen(_, _) =>
    case DidChange(_, _, _) => ChangeOutcome(sys.server, e.uri, e.version, e.changes);
    case DidSave(_, _) => SaveTouches(sys.server, e.uri, e.text);
    case DidClose(_) =>
    case Completed(a) => CompleteTouches(c, sys.server, a);
    case _ => SideStepStoresNothing(c, sys.server, e);
  }

  // ---- changes to a document that is astray

  /** Changes are applied one after the other. */
  lemma {:induction false} ApplyAllSplit(s: string, a: seq<TextSync.Change>, b: seq<TextSync.Change>)
    ensures ApplyAll(s, a + b) == match ApplyAll(s, a) case Edited(t) => ApplyAll(t, b) case invalid => invalid
    decreases |a|
  {
    if a == [] {
      assert a + b == b;
    } else {
      assert (a + b)[0] == a[0] && (a + b)[1..] == a[1..] + b;
      match Apply(s, a[0])
      case Edited(t) => ApplyAllSplit(t, a[1..], b);
      case Invalid(_, _) =>
    }
  }

  /** After a whole new text it does not matter what text the changes began with. */
  lemma SameFromReplacement(s: string, t: string, changes: seq<TextSync.Change>, i: nat)
    requires i < |changes| && changes[i].range.None?
    ensures ApplyAll(s, changes[..i]).Edited? && ApplyAll(t, changes[..i]).Edited? ==>
              ApplyAll(s, changes) == ApplyAll(t, changes)
    ensures ApplyAll(s, changes).Edited? ==> ApplyAll(s, changes[..i]).Edited?
  {
    assert changes == changes[..i] + changes[i..];
    ApplyAllSplit(s, changes[..i], changes[i..]);
    ApplyAllSplit(t, changes[..i], changes[i..]);
  }

  lemma SameAfterReplacement(s: string, t: string, changes: seq<TextSync.Change>)
    requires ReplacesAll(changes) && ApplyAll(s, changes).Edited? && ApplyAll(t, changes).Edited?
    ensures ApplyAll(s, changes) == ApplyAll(t, changes)
  {
    var i :| 0 <= i < |changes| && changes[i].range.None?;
    SameFromReplacement(s, t, changes, i);
    SameFromReplacement(t, s, changes, i);
  }
}
