/**
 Published versions. A guarded publish carries the version held. Within one session of a document
 guarded publishes never go back, as long as nothing older is left to publish when a change is
 rejected; that condition is exact.
 */
module ProtocolPublishes {
  import opened Text
  import opened TextSync
  import opened DocumentProtocol
  import opened ProtocolRuns

  const HELD: set<Rule> := TEXT + {Republishes}

  // ---- what the steps publish

  function LogOf(c: Config, s: Server, uri: Uri, version: int, lane: Lane): seq<Publication> {
    if c.pushes then s.published + [Publication(uri, version, lane, Session(s, uri))] else s.published
  }

  lemma CompletePublishes(c: Config, s: Server, a: Analysis)
    ensures Complete(c, s, a).published
         == if IsStale(CurrentVersion(s, a.uri), a.document.version) then s.published
            else LogOf(c, s, a.uri, a.document.version, a.lane)
  {
  }

  lemma RepublishPublishes(c: Config, s: Server, item: (Uri, Document))
    ensures RepublishOne(c, s, item).published
         == if IsStale(CurrentVersion(s, item.0), item.1.version) then s.published
            else LogOf(c, s, item.0, item.1.version, Republish)
  {
  }

  lemma FiringPublishes(c: Config, s: Server, task: IdleTask)
    ensures FireIdle(c, s, task).published
         == if IsStale(task.copiedVersion, task.document.version) then s.published
            else LogOf(c, s, task.uri, task.document.version, Idle)
  {
  }

  lemma OtherStepsDoNotPublish(c: Config, s: Server, e: Event)
    requires !e.Completed? && !e.Republished? && !e.IdleFired?
    ensures ServerStep(c, s, e).published == s.published
  {
    match e
    case Requested(uri, kind) => QueryTouches(s, uri, kind);
    case CodeActionsRequested(uri) => BuildTouches(s, uri);
    case _ =>
  }

  // ---- what is held is what is published

  predicate RepublishesHeld(s: Server) {
    forall item | item in s.republishing :: IsHeld(s, item.0, item.1.version)
  }

  lemma RepublishingSteps(c: Config, s: Server, e: Event)
    ensures ServerStep(c, s, e).republishing
         == match e
            case RepublishStarted => s.republishing + multiset(s.documents.Items)
            case Republished(item) => s.republishing - multiset{item}
            case _ => s.republishing
  {
    match e
    case DidChange(uri, version, changes) => ChangeOutcome(s, uri, version, changes);
    case DidSave(uri, text) => SaveTouches(s, uri, text);
    case Completed(a) => CompleteTouches(c, s, a);
    case IdleFired(task) => FiringTouches(c, s, task);
    case Republished(item) => RepublishTouches(c, s, item);
    case Requested(uri, kind) => QueryTouches(s, uri, kind);
    case CodeActionsRequested(uri) => BuildTouches(s, uri);
    case _ =>
  }

  lemma HeldStep(c: Config, sys: System, e: Event)
    requires TextInv(sys) && RepublishesHeld(sys.server) && Allowed(sys, e, HELD)
    ensures RepublishesHeld(ServerStep(c, sys.server, e))
  {
    var s, t := sys.server, ServerStep(c, sys.server, e);
    RepublishingSteps(c, s, e);
    forall item | item in t.republishing ensures IsHeld(t, item.0, item.1.version) {
      if item in s.republishing {
        NotLost(sys, e, item);
        HeldStays(c, sys, e, item.0, item.1.version);
      } else {
        assert e.RepublishStarted? && item in s.documents.Items;
      }
    }
  }

  lemma NotLost(sys: System, e: Event, item: (Uri, Document))
    requires Allowed(sys, e, HELD) && item in sys.server.republishing
    ensures !Loses(sys, e, item.0)
  {
    assert Respects(sys, e, Republishes);
  }

  lemma {:induction false} HeldHolds(c: Config, events: seq<Event>)
    requires IsRun(c, events, HELD)
    ensures TextInv(Run(c, events)) && RepublishesHeld(Run(c, events).server)
    decreases |events|
  {
    FewerRules(c, events, HELD, TEXT);
    TextHolds(c, events);
    if events != [] {
      HeldHolds(c, events[..|events| - 1]);
      HeldStep(c, Run(c, events[..|events| - 1]), events[|events| - 1]);
    }
  }

  /** At most one publish, carrying the version then held unless it comes from the idle lane. */
  predicate PublishesHeld(s: Server, t: Server) {
    t.published == s.published ||
    (|t.published| == |s.published| + 1 && s.published < t.published &&
     var p := t.published[|s.published|];
     p.lane.Idle? || (p.uri in t.documents && p.version == t.documents[p.uri].version))
  }

  lemma CompletedHeld(c: Config, s: Server, a: Analysis)
    ensures PublishesHeld(s, Complete(c, s, a))
  {
    CompletePublishes(c, s, a);
    CompleteTouches(c, s, a);
  }

  lemma RepublishedHeld(c: Config, s: Server, item: (Uri, Document))
    requires IsHeld(s, item.0, item.1.version)
    ensures PublishesHeld(s, RepublishOne(c, s, item))
  {
    RepublishPublishes(c, s, item);
    RepublishTouches(c, s, item);
  }

  lemma FiredHeld(c: Config, s: Server, task: IdleTask)
    ensures PublishesHeld(s, FireIdle(c, s, task))
  {
    FiringPublishes(c, s, task);
  }

  lemma StepPublishesHeld(c: Config, sys: System, e: Event)
    requires RepublishesHeld(sys.server) && Possible(sys, e)
    ensures PublishesHeld(sys.server, ServerStep(c, sys.server, e))
  {
    match e
    case Completed(a) => CompletedHeld(c, sys.server, a);
    case Republished(item) =>
      assert IsHeld(sys.server, item.0, item.1.version);
      RepublishedHeld(c, sys.server, item);
    case IdleFired(task) => FiredHeld(c, sys.server, task);
    case _ => OtherStepsDoNotPublish(c, sys.server, e);
  }

  /** A step publishes at most once, and on a guarded lane it publishes the version held then. */
  lemma PublishesHeldVersion(c: Config, events: seq<Event>, e: Event)
    requires IsRun(c, events, HELD) && Possible(Run(c, events), e)
    ensures PublishesHeld(Run(c, events).server, Step(c, Run(c, events), e).server)
  {
    HeldHolds(c, events);
    StepPublishesHeld(c, Run(c, events), e);
  }

  // ---- publishes in order

  const ORDER: set<Rule> := HELD + {Order}

  /** Two publishes of one session of a document on the lanes that guard against the live documents. */
  predicate Comparable(p: Publication, q: Publication) {
    p.uri == q.uri && p.session == q.session && !p.lane.Idle? && !q.lane.Idle?
  }

  predicate InOrder(log: seq<Publication>) {
    forall i, j | 0 <= i < j < |log| && Comparable(log[i], log[j]) :: log[i].version <= log[j].version
  }

  /** What can still be published of an open document is no older than what has been. */
  predicate NothingOlder(sys: System, uri: Uri)
    requires uri in sys.client
  {
    && NoNewerPublish(sys.server, uri, sys.client[uri].version)
    && if uri in sys.server.documents then NoNewerPublish(sys.server, uri, sys.server.documents[uri].version)
       else NoOlderAnalysis(sys.server, uri)
  }

  predicate OrderInv(sys: System) {
    && (forall p | p in sys.server.published :: p.session <= Session(sys.server, p.uri))
    && InOrder(sys.server.published)
    && (forall uri | uri in sys.client :: NothingOlder(sys, uri))
  }

  /** The record and the sessions are as they were. */
  predicate SameLog(s: Server, t: Server) {
    t.published == s.published && t.sessions == s.sessions
  }

  lemma SameNewest(s: Server, t: Server, uri: Uri, version: int, more: int)
    requires SameLog(s, t) && NoNewerPublish(s, uri, version) && version <= more
    ensures NoNewerPublish(t, uri, more)
  {
  }

  lemma OpenKeepsOrder(c: Config, sys: System, e: Event)
    requires OrderInv(sys) && e.DidOpen? && Possible(sys, e)
    ensures OrderInv(Step(c, sys, e))
  {
    var next := Step(c, sys, e);
    OpensSession(sys.server, e.uri, e.document);
    forall uri | uri in next.client ensures NothingOlder(next, uri) {
      if uri != e.uri {
        assert NothingOlder(sys, uri);
        Untouched(sys, next, uri, e.uri);
      }
    }
  }

  /** Nothing has been published in the session that begins. */
  lemma OpensSession(s: Server, uri: Uri, document: Document)
    requires forall p | p in s.published :: p.session <= Session(s, p.uri)
    ensures var t := Open(s, uri, document);
            && t.published == s.published && t.sessions == s.sessions[uri := Session(s, uri) + 1]
            && (forall p | p in t.published :: p.session <= Session(t, p.uri))
            && forall v :: NoNewerPublish(t, uri, v)
  {
  }

  /** A document that the step is not about. */
  lemma Untouched(sys: System, next: System, uri: Uri, other: Uri)
    requires uri != other && uri in sys.client && NothingOlder(sys, uri)
    requires uri in next.client && next.client[uri] == sys.client[uri]
    requires next.server.published == sys.server.published && Session(next.server, uri) == Session(sys.server, uri)
    requires uri in next.server.documents <==> uri in sys.server.documents
    requires uri in sys.server.documents ==> next.server.documents[uri] == sys.server.documents[uri]
    requires forall a | a in next.server.inFlight && a.uri != other :: a in sys.server.inFlight
    ensures NothingOlder(next, uri)
  {
    assert forall v | NoNewerPublish(sys.server, uri, v) :: NoNewerPublish(next.server, uri, v);
  }

  /** The document is stored under a version newer than the client's. */
  lemma UpdateKeepsOrder(sys: System, next: System, uri: Uri, document: Document)
    requires OrderInv(sys) && uri in sys.client && sys.client[uri].version < document.version
    requires next.server == Update(sys.server, uri, document)
    requires uri in next.client && next.client == sys.client[uri := Document(next.client[uri].text, document.version)]
    ensures OrderInv(next)
  {
    forall u | u in next.client ensures NothingOlder(next, u) {
      assert NothingOlder(sys, u);
      if u == uri {
        SameNewest(sys.server, next.server, u, sys.client[u].version, document.version);
      } else {
        Untouched(sys, next, u, uri);
      }
    }
  }

  /** The document is forgotten with nothing older in flight. */
  lemma RejectKeepsOrder(sys: System, next: System, uri: Uri, version: int)
    requires OrderInv(sys) && uri in sys.client && sys.client[uri].version < version
    requires next.server == RejectChange(sys.server, uri) && NoOlderAnalysis(sys.server, uri)
    requires uri in next.client && next.client == sys.client[uri := Document(next.client[uri].text, version)]
    ensures OrderInv(next)
  {
    forall u | u in next.client ensures NothingOlder(next, u) {
      assert NothingOlder(sys, u);
      if u == uri {
        SameNewest(sys.server, next.server, u, sys.client[u].version, version);
        forall a | a in next.server.inFlight && a.uri == uri && a.document.version >= 0
          ensures NoNewerPublish(next.server, uri, a.document.version)
        {
          SameNewest(sys.server, next.server, u, a.document.version, a.document.version);
        }
      } else {
        Untouched(sys, next, u, uri);
      }
    }
  }

  /** Nothing happens but that the client's version goes up. */
  lemma VersionKeepsOrder(sys: System, next: System, uri: Uri, version: int)
    requires OrderInv(sys) && uri in sys.client && sys.client[uri].version < version
    requires next.server == sys.server
    requires uri in next.client && next.client == sys.client[uri := Document(next.client[uri].text, version)]
    ensures OrderInv(next)
  {
    forall u | u in next.client ensures NothingOlder(next, u) {
      assert NothingOlder(sys, u);
    }
  }

  lemma ChangeKeepsOrder(c: Config, sys: System, e: Event)
    requires OrderInv(sys) && e.DidChange? && Possible(sys, e) && Respects(sys, e, Order)
    ensures OrderInv(Step(c, sys, e))
  {
    var next := Step(c, sys, e);
    ChangeOutcome(sys.server, e.uri, e.version, e.changes);
    assert next.client == sys.client[e.uri := Document(next.client[e.uri].text, e.version)];
    if e.changes == [] {
      VersionKeepsOrder(sys, next, e.uri, e.version);
    } else if Rejects(sys.server, e.uri, e.changes) {
      RejectKeepsOrder(sys, next, e.uri, e.version);
    } else {
      var text := ApplyAll(StoredText(sys.server, e.uri), e.changes).text;
      UpdateKeepsOrder(sys, next, e.uri, Document(text, e.version));
    }
  }

  lemma SaveKeepsOrder(c: Config, sys: System, e: Event)
    requires OrderInv(sys) && e.DidSave? && Possible(sys, e) && Respects(sys, e, Order)
    ensures OrderInv(Step(c, sys, e))
  {
    var s, next := sys.server, Step(c, sys, e);
    SaveTouches(s, e.uri, e.text);
    forall u | u in next.client ensures NothingOlder(next, u) {
      assert NothingOlder(sys, u);
      SavedNothingOlder(sys, next, e, u);
    }
  }

  lemma SavedNothingOlder(sys: System, next: System, e: Event, uri: Uri)
    requires e.DidSave? && Possible(sys, e) && Respects(sys, e, Order)
    requires uri in sys.client && NothingOlder(sys, uri)
    requires next == sys.(server := StartSave(sys.server, e.uri, e.text))
    ensures NothingOlder(next, uri)
  {
    SaveTouches(sys.server, e.uri, e.text);
    if uri !in sys.server.documents {
      forall a | a in next.server.inFlight && a.uri == uri && a.document.version >= 0
        ensures NoNewerPublish(next.server, uri, a.document.version)
      {
        assert a in sys.server.inFlight || (uri == e.uri && e.text.Some? && a.document.version == 0);
      }
    }
  }

  lemma CloseKeepsOrder(c: Config, sys: System, e: Event)
    requires OrderInv(sys) && e.DidClose?
    ensures OrderInv(Step(c, sys, e))
  {
    var next := Step(c, sys, e);
    forall u | u in next.client ensures NothingOlder(next, u) {
      assert NothingOlder(sys, u);
      Untouched(sys, next, u, e.uri);
    }
  }

  /** One more publish, of a version that no other of the session exceeds. */
  lemma LogInOrder(c: Config, s: Server, uri: Uri, version: int, lane: Lane)
    requires InOrder(s.published) && (lane.Idle? || NoNewerPublish(s, uri, version))
    ensures InOrder(LogOf(c, s, uri, version, lane))
  {
    var log := LogOf(c, s, uri, version, lane);
    forall i, j | 0 <= i < j < |log| && Comparable(log[i], log[j]) ensures log[i].version <= log[j].version {
      assert log[i] in s.published;
    }
  }

  lemma LogNewest(c: Config, s: Server, t: Server, uri: Uri, version: int, lane: Lane, u: Uri, bound: int)
    requires t.published == s.published || t.published == LogOf(c, s, uri, version, lane)
    requires t.sessions == s.sessions && NoNewerPublish(s, u, bound) && (u == uri && !lane.Idle? ==> version <= bound)
    ensures NoNewerPublish(t, u, bound)
  {
  }

  lemma CompleteKeepsOrder(c: Config, sys: System, e: Event)
    requires TextInv(sys) && OrderInv(sys) && e.Completed? && Possible(sys, e)
    ensures OrderInv(Step(c, sys, e))
  {
    var s, a, next := sys.server, e.analysis, Step(c, sys, e);
    CompletePublishes(c, s, a);
    CompleteTouches(c, s, a);
    assert Behind(ViewOf(sys), a.uri, a.document) && NothingOlder(sys, a.uri);
    if !IsStale(CurrentVersion(s, a.uri), a.document.version) {
      var lower := if a.uri in s.documents then s.documents[a.uri].version else a.document.version;
      SameNewest(s, s, a.uri, lower, a.document.version);
      LogInOrder(c, s, a.uri, a.document.version, a.lane);
    }
    forall u | u in next.client ensures NothingOlder(next, u) {
      assert NothingOlder(sys, u);
      CompletedNothingOlder(c, sys, next, a, u);
    }
  }

  lemma CompletedNothingOlder(c: Config, sys: System, next: System, a: Analysis, u: Uri)
    requires u in sys.client && NothingOlder(sys, u) && Behind(ViewOf(sys), a.uri, a.document)
    requires next.client == sys.client && a in sys.server.inFlight
    requires next.server == Complete(c, sys.server, a)
    requires !IsStale(CurrentVersion(sys.server, a.uri), a.document.version) ==>
               NoNewerPublish(sys.server, a.uri, a.document.version)
    ensures NothingOlder(next, u)
  {
    var s, t := sys.server, next.server;
    CompletePublishes(c, s, a);
    CompleteTouches(c, s, a);
    var version := a.document.version;
    LogNewest(c, s, t, a.uri, version, a.lane, u, sys.client[u].version);
    if u in t.documents {
      LogNewest(c, s, t, a.uri, version, a.lane, u, t.documents[u].version);
    } else {
      forall b | b in t.inFlight && b.uri == u && b.document.version >= 0
        ensures NoNewerPublish(t, u, b.document.version)
      {
        assert b in s.inFlight;
        LogNewest(c, s, t, a.uri, version, a.lane, u, b.document.version);
      }
    }
  }

  predicate IsHeldNow(sys: System, uri: Uri, version: int) {
    && uri in sys.client && uri in sys.server.documents
    && sys.server.documents[uri].version == version <= sys.client[uri].version
  }

  /** A publish of what is stored, or of anything on the idle lane. */
  lemma PublishKeepsOrder(c: Config, sys: System, next: System, uri: Uri, version: int, lane: Lane)
    requires OrderInv(sys) && next == sys.(server := next.server) && SameDocuments(sys.server, next.server)
    requires next.server.published == sys.server.published
          || next.server.published == LogOf(c, sys.server, uri, version, lane)
    requires lane.Idle? || IsHeldNow(sys, uri, version)
    ensures OrderInv(next)
  {
    var s, t := sys.server, next.server;
    assert lane.Idle? || NothingOlder(sys, uri);
    LogInOrder(c, s, uri, version, lane);
    forall u | u in next.client ensures NothingOlder(next, u) {
      assert NothingOlder(sys, u);
      PublishedNothingOlder(c, sys, next, uri, version, lane, u);
    }
  }

  lemma PublishedNothingOlder(c: Config, sys: System, next: System, uri: Uri, version: int, lane: Lane, u: Uri)
    requires next == sys.(server := next.server) && SameDocuments(sys.server, next.server)
    requires next.server.published == sys.server.published
          || next.server.published == LogOf(c, sys.server, uri, version, lane)
    requires lane.Idle? || IsHeldNow(sys, uri, version)
    requires u in sys.client && NothingOlder(sys, u)
    ensures NothingOlder(next, u)
  {
    var s, t := sys.server, next.server;
    LogNewest(c, s, t, uri, version, lane, u, sys.client[u].version);
    if u in t.documents {
      LogNewest(c, s, t, uri, version, lane, u, t.documents[u].version);
    } else {
      forall b | b in t.inFlight && b.uri == u && b.document.version >= 0
        ensures NoNewerPublish(t, u, b.document.version)
      {
        LogNewest(c, s, t, uri, version, lane, u, b.document.version);
      }
    }
  }

  lemma FiringKeepsOrder(c: Config, sys: System, task: IdleTask)
    requires OrderInv(sys)
    ensures OrderInv(sys.(server := FireIdle(c, sys.server, task)))
  {
    FiringTouches(c, sys.server, task);
    FiringPublishes(c, sys.server, task);
    var next := sys.(server := FireIdle(c, sys.server, task));
    PublishKeepsOrder(c, sys, next, task.uri, task.document.version, Idle);
  }

  lemma RepublishKeepsOrder(c: Config, sys: System, item: (Uri, Document))
    requires TextInv(sys) && OrderInv(sys) && IsHeld(sys.server, item.0, item.1.version)
    ensures OrderInv(sys.(server := RepublishOne(c, sys.server, item)))
  {
    RepublishTouches(c, sys.server, item);
    RepublishPublishes(c, sys.server, item);
    var next := sys.(server := RepublishOne(c, sys.server, item));
    PublishKeepsOrder(c, sys, next, item.0, sys.server.documents[item.0].version, Republish);
  }

  /** The updates that are due have no part in it. */
  lemma DueIsNoMatter(sys: System, next: System)
    requires OrderInv(sys) && next == sys.(server := next.server, due := next.due)
    requires SameDocuments(sys.server, next.server) && next.server.published == sys.server.published
    ensures OrderInv(next)
  {
    forall u | u in next.client ensures NothingOlder(next, u) {
      assert NothingOlder(sys, u);
      assert forall v | NoNewerPublish(sys.server, u, v) :: NoNewerPublish(next.server, u, v);
    }
  }

  lemma SideStepKeepsOrder(c: Config, sys: System, e: Event)
    requires TextInv(sys) && RepublishesHeld(sys.server) && OrderInv(sys) && IsSideStep(e) && Possible(sys, e)
    ensures OrderInv(Step(c, sys, e))
  {
    match e
    case IdleFired(task) => FiringKeepsOrder(c, sys, task);
    case Republished(item) =>
      assert IsHeld(sys.server, item.0, item.1.version);
      RepublishKeepsOrder(c, sys, item);
    case _ =>
      SideStepStoresNothing(c, sys.server, e);
      OtherStepsDoNotPublish(c, sys.server, e);
      DueIsNoMatter(sys, Step(c, sys, e));
  }

  lemma OrderStep(c: Config, sys: System, e: Event)
    requires TextInv(sys) && RepublishesHeld(sys.server) && OrderInv(sys) && Allowed(sys, e, ORDER)
    ensures OrderInv(Step(c, sys, e))
  {
    assert Respects(sys, e, Order);
    match e
    case DidOpen(_, _) => OpenKeepsOrder(c, sys, e);
    case DidChange(_, _, _) => ChangeKeepsOrder(c, sys, e);
    case DidSave(_, _) => SaveKeepsOrder(c, sys, e);
    case DidClose(_) => CloseKeepsOrder(c, sys, e);
    case Completed(_) => CompleteKeepsOrder(c, sys, e);
    case _ => SideStepKeepsOrder(c, sys, e);
  }

  lemma {:induction false} OrderHolds(c: Config, events: seq<Event>)
    requires IsRun(c, events, ORDER)
    ensures TextInv(Run(c, events)) && RepublishesHeld(Run(c, events).server) && OrderInv(Run(c, events))
    decreases |events|
  {
    FewerRules(c, events, ORDER, HELD);
    HeldHolds(c, events);
    if events != [] {
      OrderHolds(c, events[..|events| - 1]);
      OrderStep(c, Run(c, events[..|events| - 1]), events[|events| - 1]);
    }
  }

  /** From opening a document to closing it the guarded lanes never publish an older version again. */
  lemma PublishedVersionsNeverDecrease(c: Config, events: seq<Event>, i: nat, j: nat)
    requires IsRun(c, events, ORDER) && i < j < |Run(c, events).server.published|
    requires Comparable(Run(c, events).server.published[i], Run(c, events).server.published[j])
    ensures Run(c, events).server.published[i].version <= Run(c, events).server.published[j].version
  {
    OrderHolds(c, events);
  }

  // ---- the condition on rejections and late saves is exact

  /** An analysis of a document that is not stored publishes out of order exactly when it is older and counts. */
  lemma LateAnalysisInOrderIff(c: Config, s: Server, a: Analysis)
    requires c.pushes && a.uri !in s.documents && !a.lane.Idle? && InOrder(s.published)
    ensures InOrder(Complete(c, s, a).published)
       <==> (a.document.version >= 0 ==> NoNewerPublish(s, a.uri, a.document.version))
  {
    var log := Complete(c, s, a).published;
    CompletePublishes(c, s, a);
    if a.document.version >= 0 {
      if NoNewerPublish(s, a.uri, a.document.version) {
        LogInOrder(c, s, a.uri, a.document.version, a.lane);
      } else {
        var p :| p in s.published && p.uri == a.uri && !p.lane.Idle? && p.session == Session(s, a.uri)
              && p.version > a.document.version;
        var i :| 0 <= i < |s.published| && s.published[i] == p;
        assert log[i] == p && Comparable(log[i], log[|s.published|]);
      }
    }
  }

  /**
   A rejected change keeps the publishes in order whatever comes back next, exactly when no analysis
   in flight for the document is older than its newest guarded publish.
   */
  lemma RejectionKeepsOrderIff(c: Config, events: seq<Event>, e: Event)
    requires c.pushes && IsRun(c, events, ORDER)
    requires Possible(Run(c, events), e) && IsRejected(Run(c, events), e)
    ensures NoOlderAnalysis(Run(c, events).server, e.uri)
       <==> forall a | a in Run(c, events).server.inFlight && a.uri == e.uri ::
              InOrder(Step(c, Step(c, Run(c, events), e), Completed(a)).server.published)
  {
    OrderHolds(c, events);
    RejectedInOrder(c, Run(c, events), e);
  }

  lemma RejectedInOrder(c: Config, sys: System, e: Event)
    requires c.pushes && TextInv(sys) && InOrder(sys.server.published) && IsRejected(sys, e)
    ensures NoOlderAnalysis(sys.server, e.uri)
       <==> forall a | a in sys.server.inFlight && a.uri == e.uri ::
              InOrder(Step(c, Step(c, sys, e), Completed(a)).server.published)
  {
    var s, t := sys.server, ServerStep(c, sys.server, e);
    ChangeOutcome(s, e.uri, e.version, e.changes);
    forall a | a in s.inFlight && a.uri == e.uri
      ensures InOrder(Complete(c, t, a).published)
         <==> (a.document.version >= 0 ==> NoNewerPublish(s, e.uri, a.document.version))
    {
      LateAnalysisInOrderIff(c, t, a);
    }
  }

  /** Saving a text for a document that is not stored: its analysis counts as version 0. */
  lemma LateSaveKeepsOrderIff(c: Config, events: seq<Event>, e: Event)
    requires c.pushes && IsRun(c, events, ORDER) && e.DidSave? && Possible(Run(c, events), e)
    requires e.uri !in Run(c, events).server.documents && e.text.Some?
    ensures var a := Analysis(e.uri, Document(e.text.value, 0), Save);
            && a in Step(c, Run(c, events), e).server.inFlight
            && (NoNewerPublish(Run(c, events).server, e.uri, 0)
                <==> InOrder(Step(c, Step(c, Run(c, events), e), Completed(a)).server.published))
  {
    OrderHolds(c, events);
    SavedInOrder(c, Run(c, events).server, e.uri, e.text.value);
  }

  lemma SavedInOrder(c: Config, s: Server, uri: Uri, text: string)
    requires c.pushes && InOrder(s.published) && uri !in s.documents
    ensures var a, t := Analysis(uri, Document(text, 0), Save), StartSave(s, uri, Some(text));
            && a in t.inFlight
            && (NoNewerPublish(s, uri, 0) <==> InOrder(Complete(c, t, a).published))
  {
    SaveTouches(s, uri, Some(text));
    LateAnalysisInOrderIff(c, StartSave(s, uri, Some(text)), Analysis(uri, Document(text, 0), Save));
  }
}
