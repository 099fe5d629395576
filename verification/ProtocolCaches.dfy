/**
 Cached answers. A hit on a version-keyed answer is right for the client's text; a hit on code
 actions, keyed by the publish epoch, was looked up after the latest publish.
 */
module ProtocolCaches {
  import opened Text
  import opened DocumentProtocol
  import opened ProtocolRuns

  const CACHE: set<Rule> := TEXT + {Queries}

  // ---- what the steps do to the cache

  predicate Holds(s: Server, uri: Uri, kind: Kind, entry: Entry) {
    uri in s.cache && kind in s.cache[uri] && s.cache[uri][kind] == entry
  }

  /** The step makes the server forget what it has cached for the document. */
  predicate Drops(e: Event, uri: Uri) {
    (e.DidOpen? || (e.DidChange? && e.changes != [])) && e.uri == uri
  }

  /** Where an entry comes from: it was there before, or was computed by a request that now ends. */
  ghost predicate From(c: Config, sys: System, e: Event, uri: Uri, kind: Kind, entry: Entry) {
    || (Holds(sys.server, uri, kind, entry) && !Drops(e, uri))
    || (e.Answered? && uri == e.query.uri && kind == e.query.kind
        && entry.token == e.query.document.version && entry.answer == c.compute(kind, e.query.document.text))
    || (e.CodeActionsBuilt? && uri == e.build.uri && kind.CodeActions?
        && entry == Entry(e.build.token, e.answer, e.build.stamp))
  }

  lemma LookupHolds(s: Server, uri: Uri, kind: Kind, token: int, u: Uri, k: Kind, entry: Entry)
    requires Holds(Lookup(s, uri, kind, token), u, k, entry)
    ensures Holds(s, u, k, entry)
  {
  }

  lemma ChangeHolds(sys: System, e: Event, uri: Uri, kind: Kind, entry: Entry)
    requires e.DidChange? && Holds(DocumentProtocol.Change(sys.server, e.uri, e.version, e.changes), uri, kind, entry)
    ensures Holds(sys.server, uri, kind, entry) && !Drops(e, uri)
  {
    ChangeOutcome(sys.server, e.uri, e.version, e.changes);
  }

  lemma RequestHolds(s: Server, uri: Uri, kind: Kind, u: Uri, k: Kind, entry: Entry)
    requires Holds(StartQuery(s, uri, kind), u, k, entry)
    ensures Holds(s, u, k, entry)
  {
    if Find(s, uri, kind, CurrentVersion(s, uri)).None? {
      LookupHolds(s, uri, kind, CurrentVersion(s, uri), u, k, entry);
    }
  }

  lemma AnswerHolds(c: Config, s: Server, q: Query, u: Uri, k: Kind, entry: Entry)
    requires Holds(FinishQuery(c, s, q), u, k, entry)
    ensures Holds(s, u, k, entry)
         || (u == q.uri && k == q.kind && entry.token == q.document.version
             && entry.answer == c.compute(k, q.document.text))
  {
  }

  lemma BuiltHolds(s: Server, b: Build, answer: string, u: Uri, k: Kind, entry: Entry)
    requires Holds(FinishCodeActions(s, b, answer), u, k, entry)
    ensures Holds(s, u, k, entry)
         || (u == b.uri && k.CodeActions? && entry == Entry(b.token, answer, b.stamp))
  {
  }

  lemma EntryComesFrom(c: Config, sys: System, e: Event, uri: Uri, kind: Kind, entry: Entry)
    requires Holds(ServerStep(c, sys.server, e), uri, kind, entry)
    ensures From(c, sys, e, uri, kind, entry)
  {
    var s := sys.server;
    match e
    case DidOpen(_, _) =>
    case DidChange(_, _, _) => ChangeHolds(sys, e, uri, kind, entry);
    case DidSave(_, _) => SaveTouches(s, e.uri, e.text);
    case Completed(a) => CompleteTouches(c, s, a);
    case IdleFired(task) => FiringTouches(c, s, task);
    case Republished(item) => RepublishTouches(c, s, item);
    case Requested(u, k) => RequestHolds(s, u, k, uri, kind, entry);
    case Answered(q) => AnswerHolds(c, s, q, uri, kind, entry);
    case CodeActionsRequested(u) => BuildHolds(s, u, uri, kind, entry);
    case CodeActionsBuilt(b, answer) => BuiltHolds(s, b, answer, uri, kind, entry);
    case _ =>
  }

  lemma BuildHolds(s: Server, uri: Uri, u: Uri, k: Kind, entry: Entry)
    requires Holds(StartCodeActions(s, uri), u, k, entry)
    ensures Holds(s, u, k, entry)
  {
    if uri in s.documents && Find(s, uri, CodeActions, Epoch(s, uri)).None? {
      LookupHolds(s, uri, CodeActions, Epoch(s, uri), u, k, entry);
    }
  }

  // ---- answers that are keyed by the version

  /** A cached answer under the current version is the answer for the current text. */
  predicate EntryOk(c: Config, v: View, uri: Uri, kind: Kind, entry: Entry) {
    || uri in v.astray
    || (uri in v.stored && entry.token <= v.stored[uri].version
        && (entry.token == v.stored[uri].version ==> entry.answer == c.compute(kind, v.stored[uri].text)))
  }

  predicate QueriesBehind(v: View, queries: multiset<Query>) {
    forall q | q in queries :: Behind(v, q.uri, q.document) && !q.kind.CodeActions?
  }

  ghost predicate EntriesOk(c: Config, sys: System) {
    forall uri, kind: Kind, entry | uri in sys.client && !kind.CodeActions? && Holds(sys.server, uri, kind, entry) ::
      EntryOk(c, ViewOf(sys), uri, kind, entry)
  }

  ghost predicate CacheInv(c: Config, sys: System) {
    EntriesOk(c, sys) && QueriesBehind(ViewOf(sys), sys.server.queries)
  }

  /** For a document whose answers are not dropped: it stays astray, or what is stored stays. */
  predicate StaysPut(v: View, w: View, uri: Uri) {
    && (uri in v.astray <==> uri in w.astray)
    && (uri !in v.astray ==> uri in v.stored && uri in w.stored && w.stored[uri] == v.stored[uri])
  }

  lemma ChangeStaysPut(c: Config, sys: System, e: Event, uri: Uri)
    requires TextInv(sys) && e.DidChange? && Possible(sys, e) && uri in sys.client && !Drops(e, uri)
    ensures StaysPut(ViewOf(sys), ViewOf(Step(c, sys, e)), uri)
  {
    ChangeOutcome(sys.server, e.uri, e.version, e.changes);
  }

  lemma CompleteStaysPut(c: Config, sys: System, e: Event, uri: Uri)
    requires TextInv(sys) && e.Completed? && Possible(sys, e) && uri in sys.client
    ensures StaysPut(ViewOf(sys), ViewOf(Step(c, sys, e)), uri)
  {
    CompleteTouches(c, sys.server, e.analysis);
    assert Behind(ViewOf(sys), e.analysis.uri, e.analysis.document);
  }

  lemma CloseStaysPut(c: Config, sys: System, e: Event, uri: Uri)
    requires TextInv(sys) && e.DidClose? && uri in Step(c, sys, e).client
    ensures uri in sys.client && StaysPut(ViewOf(sys), ViewOf(Step(c, sys, e)), uri)
  {
  }

  lemma OpenStaysPut(c: Config, sys: System, e: Event, uri: Uri)
    requires TextInv(sys) && e.DidOpen? && uri in Step(c, sys, e).client && uri != e.uri
    ensures uri in sys.client && StaysPut(ViewOf(sys), ViewOf(Step(c, sys, e)), uri)
  {
  }

  lemma DocumentStaysPut(c: Config, sys: System, e: Event, uri: Uri)
    requires TextInv(sys) && Possible(sys, e) && uri in Step(c, sys, e).client && !Drops(e, uri)
    ensures uri in sys.client && StaysPut(ViewOf(sys), ViewOf(Step(c, sys, e)), uri)
  {
    match e
    case DidOpen(_, _) => OpenStaysPut(c, sys, e, uri);
    case DidChange(_, _, _) => ChangeStaysPut(c, sys, e, uri);
    case DidSave(_, _) => SaveTouches(sys.server, e.uri, e.text);
    case DidClose(_) => CloseStaysPut(c, sys, e, uri);
    case Completed(_) => CompleteStaysPut(c, sys, e, uri);
    case _ => SideStepStoresNothing(c, sys.server, e);
  }

  lemma EntriesStep(c: Config, sys: System, e: Event)
    requires TextInv(sys) && CacheInv(c, sys) && Possible(sys, e)
    ensures EntriesOk(c, Step(c, sys, e))
  {
    var next := Step(c, sys, e);
    forall uri, kind: Kind, entry | uri in next.client && !kind.CodeActions? && Holds(next.server, uri, kind, entry)
      ensures EntryOk(c, ViewOf(next), uri, kind, entry)
    {
      EntryComesFrom(c, sys, e, uri, kind, entry);
      if Holds(sys.server, uri, kind, entry) && !Drops(e, uri) {
        DocumentStaysPut(c, sys, e, uri);
        assert EntryOk(c, ViewOf(sys), uri, kind, entry);
      } else {
        assert e.Answered? && Behind(ViewOf(sys), uri, e.query.document);
        AnswerTouches(c, sys.server, e.query);
      }
    }
  }

  lemma AnswerTouches(c: Config, s: Server, q: Query)
    ensures FinishQuery(c, s, q).documents == s.documents
  {
  }

  lemma QuerySteps(c: Config, s: Server, e: Event)
    ensures forall q | q in ServerStep(c, s, e).queries ::
              || q in s.queries
              || (e.Requested? && q.kind == e.kind && q.uri in s.documents && q.document == s.documents[q.uri])
  {
    match e
    case DidChange(uri, version, changes) => ChangeOutcome(s, uri, version, changes);
    case DidSave(uri, text) => SaveTouches(s, uri, text);
    case Completed(a) => CompleteTouches(c, s, a);
    case IdleFired(task) => FiringTouches(c, s, task);
    case Republished(item) => RepublishTouches(c, s, item);
    case Requested(uri, kind) => LookupTouches(s, uri, kind, CurrentVersion(s, uri));
    case CodeActionsRequested(uri) => BuildTouches(s, uri);
    case _ =>
  }

  lemma QueriesStep(c: Config, sys: System, e: Event)
    requires TextInv(sys) && QueriesBehind(ViewOf(sys), sys.server.queries) && Allowed(sys, e, CACHE)
    ensures QueriesBehind(ViewOf(Step(c, sys, e)), Step(c, sys, e).server.queries)
  {
    var next := Step(c, sys, e);
    QuerySteps(c, sys.server, e);
    forall q | q in next.server.queries ensures Behind(ViewOf(next), q.uri, q.document) && !q.kind.CodeActions? {
      if q in sys.server.queries {
        assert Behind(ViewOf(sys), q.uri, q.document);
        QueryNotClosed(sys, e, q);
        assert Respects(sys, e, Saves);
        StaysBehind(c, sys, e, q.uri, q.document);
      } else {
        SideStepStoresNothing(c, sys.server, e);
      }
    }
  }

  lemma QueryNotClosed(sys: System, e: Event, q: Query)
    requires Allowed(sys, e, CACHE) && q in sys.server.queries
    ensures !(e.DidClose? && e.uri == q.uri)
  {
    assert Respects(sys, e, Queries);
  }

  lemma {:induction false} CacheHolds(c: Config, events: seq<Event>)
    requires IsRun(c, events, CACHE)
    ensures TextInv(Run(c, events)) && CacheInv(c, Run(c, events))
    decreases |events|
  {
    FewerRules(c, events, CACHE, TEXT);
    TextHolds(c, events);
    if events != [] {
      var sys, e := Run(c, events[..|events| - 1]), events[|events| - 1];
      CacheHolds(c, events[..|events| - 1]);
      EntriesStep(c, sys, e);
      QueriesStep(c, sys, e);
    }
  }

  /** A hit for an open document that is not astray is what would be computed from the client's text. */
  lemma CacheHitIsCurrent(c: Config, events: seq<Event>, uri: Uri, kind: Kind)
    requires IsRun(c, events, CACHE) && uri in Run(c, events).client && uri !in Run(c, events).astray
    requires !kind.CodeActions?
    ensures var sys := Run(c, events);
            var hit := Find(sys.server, uri, kind, CurrentVersion(sys.server, uri));
            hit.Some? ==> hit.value == c.compute(kind, sys.client[uri].text)
  {
    CacheHolds(c, events);
    var sys := Run(c, events);
    if Find(sys.server, uri, kind, CurrentVersion(sys.server, uri)).Some? {
      assert Holds(sys.server, uri, kind, sys.server.cache[uri][kind]);
      assert EntryOk(c, ViewOf(sys), uri, kind, sys.server.cache[uri][kind]);
    }
  }

  // ---- code actions, which are keyed by the publish epoch

  const ACTIONS: set<Rule> := {Builds}

  ghost predicate EpochsCount(s: Server) {
    && (forall uri: Uri :: Get(s.epochs, uri, 0) == WrapI32(Get(s.publishes, uri, 0)))
    && (forall b | b in s.builds :: b.token == WrapI32(b.stamp) && b.stamp <= Get(s.publishes, b.uri, 0))
  }

  ghost predicate ActionsOk(sys: System) {
    forall uri, entry | uri in sys.client && Holds(sys.server, uri, CodeActions, entry) ::
      entry.stamp <= Get(sys.server.publishes, uri, 0) && entry.token == WrapI32(entry.stamp)
  }

  lemma WrapBump(n: int)
    ensures WrapI32(WrapI32(n) + 1) == WrapI32(n + 1)
  {
  }

  /** The document's publishes are counted alike before and after, but for one more. */
  predicate Counts(s: Server, t: Server, uri: Uri) {
    || (Get(t.publishes, uri, 0) == Get(s.publishes, uri, 0) && Get(t.epochs, uri, 0) == Get(s.epochs, uri, 0))
    || (Get(t.publishes, uri, 0) == Get(s.publishes, uri, 0) + 1
        && Get(t.epochs, uri, 0) == WrapI32(Get(s.epochs, uri, 0) + 1))
  }

  predicate StartsOver(t: Server, uri: Uri) {
    Get(t.publishes, uri, 0) == 0 && Get(t.epochs, uri, 0) == 0
  }

  lemma PublishCounts(c: Config, s: Server, published: Uri, version: int, lane: Lane, uri: Uri)
    ensures Counts(s, Publish(c, s, published, version, lane), uri)
    ensures Counts(s, PublishAnalysis(c, s, published, version, lane), uri)
  {
  }

  /** How the count goes on in one step. */
  ghost predicate GoesOn(sys: System, e: Event, t: Server, uri: Uri) {
    if Loses(sys, e, uri) then StartsOver(t, uri) else Counts(sys.server, t, uri)
  }

  lemma ChangeCounts(sys: System, e: Event, uri: Uri)
    requires e.DidChange?
    ensures GoesOn(sys, e, DocumentProtocol.Change(sys.server, e.uri, e.version, e.changes), uri)
  {
    ChangeOutcome(sys.server, e.uri, e.version, e.changes);
  }

  lemma CompleteCounts(c: Config, s: Server, a: Analysis, uri: Uri)
    ensures Counts(s, Complete(c, s, a), uri)
  {
    var stored := s.(inFlight := s.inFlight - multiset{a}, documents := s.documents[a.uri := a.document]);
    PublishCounts(c, stored, a.uri, a.document.version, a.lane, uri);
  }

  lemma FiringCounts(c: Config, s: Server, t: IdleTask, uri: Uri)
    ensures Counts(s, FireIdle(c, s, t), uri)
  {
    PublishCounts(c, s.(idle := s.idle - multiset{t}), t.uri, t.document.version, Idle, uri);
  }

  lemma RepublishCounts(c: Config, s: Server, item: (Uri, Document), uri: Uri)
    ensures Counts(s, RepublishOne(c, s, item), uri)
  {
    var rest := s.(republishing := s.republishing - multiset{item});
    PublishCounts(c, rest, item.0, item.1.version, Republish, uri);
  }

  lemma EpochSteps(c: Config, sys: System, e: Event, uri: Uri)
    ensures GoesOn(sys, e, ServerStep(c, sys.server, e), uri)
  {
    var s := sys.server;
    match e
    case DidOpen(_, _) =>
    case DidChange(_, _, _) => ChangeCounts(sys, e, uri);
    case DidSave(_, _) => SaveTouches(s, e.uri, e.text);
    case DidClose(_) =>
    case Completed(a) => CompleteCounts(c, s, a, uri);
    case IdleFired(t) => FiringCounts(c, s, t, uri);
    case Republished(item) => RepublishCounts(c, s, item, uri);
    case Requested(u, kind) => QueryTouches(s, u, kind);
    case CodeActionsRequested(u) => BuildTouches(s, u);
    case _ =>
  }

  lemma BuildSteps(c: Config, s: Server, e: Event)
    ensures forall b | b in ServerStep(c, s, e).builds ::
              || b in s.builds
              || (e.CodeActionsRequested? && b == Build(e.uri, Epoch(s, e.uri), Get(s.publishes, e.uri, 0)))
  {
    match e
    case DidChange(uri, version, changes) => ChangeOutcome(s, uri, version, changes);
    case DidSave(uri, text) => SaveTouches(s, uri, text);
    case Completed(a) => CompleteTouches(c, s, a);
    case IdleFired(task) => FiringTouches(c, s, task);
    case Republished(item) => RepublishTouches(c, s, item);
    case Requested(uri, kind) => QueryTouches(s, uri, kind);
    case CodeActionsRequested(uri) => LookupTouches(s, uri, CodeActions, Epoch(s, uri));
    case _ =>
  }

  lemma CountGoesOn(epoch: int, publishes: int, next: int)
    requires epoch == WrapI32(publishes) && next == WrapI32(epoch + 1)
    ensures next == WrapI32(publishes + 1)
  {
    WrapBump(publishes);
  }

  predicate CountsPublishes(s: Server, uri: Uri) {
    Get(s.epochs, uri, 0) == WrapI32(Get(s.publishes, uri, 0))
  }

  lemma CountGoesOnInStep(s: Server, t: Server, uri: Uri)
    requires CountsPublishes(s, uri) && (Counts(s, t, uri) || StartsOver(t, uri))
    ensures CountsPublishes(t, uri)
  {
    if StartsOver(t, uri) {
      assert WrapI32(0) == 0;
    } else if Get(t.publishes, uri, 0) != Get(s.publishes, uri, 0) {
      CountGoesOn(Get(s.epochs, uri, 0), Get(s.publishes, uri, 0), Get(t.epochs, uri, 0));
    }
  }

  lemma CountStays(c: Config, sys: System, e: Event, uri: Uri)
    requires CountsPublishes(sys.server, uri)
    ensures CountsPublishes(ServerStep(c, sys.server, e), uri)
  {
    EpochSteps(c, sys, e, uri);
    CountGoesOnInStep(sys.server, ServerStep(c, sys.server, e), uri);
  }

  lemma EpochsStep(c: Config, sys: System, e: Event)
    requires EpochsCount(sys.server) && Allowed(sys, e, ACTIONS)
    ensures EpochsCount(ServerStep(c, sys.server, e))
  {
    var s, t := sys.server, ServerStep(c, sys.server, e);
    forall uri: Uri ensures Get(t.epochs, uri, 0) == WrapI32(Get(t.publishes, uri, 0)) {
      CountStays(c, sys, e, uri);
    }
    BuildSteps(c, s, e);
    forall b | b in t.builds ensures b.token == WrapI32(b.stamp) && b.stamp <= Get(t.publishes, b.uri, 0) {
      EpochSteps(c, sys, e, b.uri);
      if b in s.builds {
        BuildNotLost(sys, e, b);
      } else {
        assert Get(s.epochs, b.uri, 0) == WrapI32(Get(s.publishes, b.uri, 0));
      }
    }
  }

  lemma BuildNotLost(sys: System, e: Event, b: Build)
    requires Allowed(sys, e, ACTIONS) && b in sys.server.builds
    ensures !Loses(sys, e, b.uri)
  {
    assert Respects(sys, e, Builds);
  }

  /** Answers to queries are not code actions. */
  predicate NoActionQueries(s: Server) {
    forall q | q in s.queries :: !q.kind.CodeActions?
  }

  ghost predicate ActionsInv(sys: System) {
    EpochsCount(sys.server) && NoActionQueries(sys.server) && ActionsOk(sys)
  }

  lemma ActionsStep(c: Config, sys: System, e: Event)
    requires ActionsInv(sys) && Possible(sys, e)
    ensures ActionsOk(Step(c, sys, e))
  {
    var s, next := sys.server, Step(c, sys, e);
    forall uri, entry | uri in next.client && Holds(next.server, uri, CodeActions, entry)
      ensures entry.stamp <= Get(next.server.publishes, uri, 0) && entry.token == WrapI32(entry.stamp)
    {
      EntryComesFrom(c, sys, e, uri, CodeActions, entry);
      EpochSteps(c, sys, e, uri);
      assert IsRejected(sys, e) ==> e.changes != [];
    }
  }

  lemma ActionQueriesStep(c: Config, sys: System, e: Event)
    requires NoActionQueries(sys.server) && Possible(sys, e)
    ensures NoActionQueries(ServerStep(c, sys.server, e))
  {
    QuerySteps(c, sys.server, e);
  }

  lemma {:induction false} ActionsHold(c: Config, events: seq<Event>)
    requires IsRun(c, events, ACTIONS)
    ensures ActionsInv(Run(c, events))
    decreases |events|
  {
    if events != [] {
      var sys, e := Run(c, events[..|events| - 1]), events[|events| - 1];
      ActionsHold(c, events[..|events| - 1]);
      EpochsStep(c, sys, e);
      ActionsStep(c, sys, e);
      ActionQueriesStep(c, sys, e);
    } else {
      assert WrapI32(0) == 0;
    }
  }

  /** Publishes of the document since its cached code actions were looked up. */
  function PublishesSince(s: Server, uri: Uri): int
    requires uri in s.cache && CodeActions in s.cache[uri]
  {
    Get(s.publishes, uri, 0) - s.cache[uri][CodeActions].stamp
  }

  /**
   The epoch of a code-action hit was read after the document's latest publish, unless an exact
   multiple of 2^32 publishes has wrapped the counter round since it was read.
   */
  lemma CodeActionHitIsFresh(c: Config, events: seq<Event>, uri: Uri)
    requires IsRun(c, events, ACTIONS) && uri in Run(c, events).client
    requires Find(Run(c, events).server, uri, CodeActions, Epoch(Run(c, events).server, uri)).Some?
    ensures PublishesSince(Run(c, events).server, uri) >= 0
    ensures PublishesSince(Run(c, events).server, uri) % 0x1_0000_0000 == 0
  {
    ActionsHold(c, events);
    HitIsFresh(Run(c, events), uri);
  }

  lemma HitIsFresh(sys: System, uri: Uri)
    requires ActionsInv(sys) && uri in sys.client
    requires Find(sys.server, uri, CodeActions, Epoch(sys.server, uri)).Some?
    ensures PublishesSince(sys.server, uri) >= 0 && PublishesSince(sys.server, uri) % 0x1_0000_0000 == 0
  {
    var s := sys.server;
    assert Holds(s, uri, CodeActions, s.cache[uri][CodeActions]);
    assert Get(s.epochs, uri, 0) == WrapI32(Get(s.publishes, uri, 0));
    WrapIsModular(Get(s.publishes, uri, 0), s.cache[uri][CodeActions].stamp);
  }

  lemma WrapIsModular(m: int, n: int)
    requires WrapI32(m) == WrapI32(n)
    ensures (m - n) % 0x1_0000_0000 == 0
  {
  }

  // ---- where cached code actions come from

  /** Step `j` of the run is the request for which the build was begun, under the epoch of that moment. */
  ghost predicate BegunAt(c: Config, events: seq<Event>, j: nat, b: Build) {
    && j < |events| && events[j] == CodeActionsRequested(b.uri)
    && b.token == Epoch(Run(c, events[..j]).server, b.uri)
    && b.stamp == Get(Run(c, events[..j]).server.publishes, b.uri, 0)
  }

  /** From step `n` on nothing makes the server forget what it has cached for the document. */
  predicate NoneDrops(events: seq<Event>, n: nat, uri: Uri) {
    forall l | n <= l < |events| :: !Drops(events[l], uri)
  }

  lemma NoneDropsYet(events: seq<Event>, n: nat, uri: Uri)
    requires events != [] && NoneDrops(events[..|events| - 1], n, uri) && !Drops(events[|events| - 1], uri)
    ensures NoneDrops(events, n, uri)
  {
    forall l | n <= l < |events| ensures !Drops(events[l], uri) {
      if l < |events| - 1 {
        assert events[..|events| - 1][l] == events[l];
      }
    }
  }

  /** Step `i` of the run ends such a build with this answer, and nothing has dropped it since. */
  ghost predicate BuiltAt(c: Config, events: seq<Event>, i: nat, uri: Uri, entry: Entry) {
    && i < |events| && events[i].CodeActionsBuilt? && events[i].build.uri == uri
    && entry == Entry(events[i].build.token, events[i].answer, events[i].build.stamp)
    && (exists j: nat :: j < i && BegunAt(c, events, j, events[i].build))
    && NoneDrops(events, i + 1, uri)
  }

  lemma BegunBefore(c: Config, events: seq<Event>, j: nat, b: Build)
    requires events != [] && BegunAt(c, events[..|events| - 1], j, b)
    ensures BegunAt(c, events, j, b)
  {
    assert events[..|events| - 1][..j] == events[..j];
  }

  lemma BuiltBefore(c: Config, events: seq<Event>, i: nat, uri: Uri, entry: Entry)
    requires events != [] && BuiltAt(c, events[..|events| - 1], i, uri, entry)
    requires !Drops(events[|events| - 1], uri)
    ensures BuiltAt(c, events, i, uri, entry)
  {
    var before := events[..|events| - 1];
    var j: nat :| j < i && BegunAt(c, before, j, before[i].build);
    BegunBefore(c, events, j, before[i].build);
    NoneDropsYet(events, i + 1, uri);
  }

  ghost predicate Pending(c: Config, events: seq<Event>, b: Build) {
    b in Run(c, events).server.builds
  }

  lemma LastBegun(c: Config, events: seq<Event>, b: Build)
    requires events != [] && Pending(c, events, b) && !Pending(c, events[..|events| - 1], b)
    ensures BegunAt(c, events, |events| - 1, b)
  {
    BuildSteps(c, Run(c, events[..|events| - 1]).server, events[|events| - 1]);
  }

  lemma {:induction false} BuildWasBegun(c: Config, events: seq<Event>, b: Build)
    requires Pending(c, events, b)
    ensures exists j: nat :: BegunAt(c, events, j, b)
    decreases |events|
  {
    var before := events[..|events| - 1];
    if Pending(c, before, b) {
      BuildWasBegun(c, before, b);
      var j: nat :| BegunAt(c, before, j, b);
      BegunBefore(c, events, j, b);
    } else {
      LastBegun(c, events, b);
    }
  }

  lemma LastBuilt(c: Config, before: seq<Event>, e: Event, uri: Uri, entry: Entry)
    requires IsRun(c, before, {}) && Possible(Run(c, before), e)
    requires Holds(ServerStep(c, Run(c, before).server, e), uri, CodeActions, entry)
    requires !Holds(Run(c, before).server, uri, CodeActions, entry)
    ensures e.CodeActionsBuilt? && e.build.uri == uri && e.build in Run(c, before).server.builds
    ensures entry == Entry(e.build.token, e.answer, e.build.stamp)
  {
    EntryComesFrom(c, Run(c, before), e, uri, CodeActions, entry);
    NoActionsQueried(c, before);
  }

  lemma JustBuilt(c: Config, events: seq<Event>, uri: Uri, entry: Entry)
    requires events != [] && events[|events| - 1].CodeActionsBuilt? && events[|events| - 1].build.uri == uri
    requires events[|events| - 1].build in Run(c, events[..|events| - 1]).server.builds
    requires entry == Entry(events[|events| - 1].build.token, events[|events| - 1].answer,
                            events[|events| - 1].build.stamp)
    ensures BuiltAt(c, events, |events| - 1, uri, entry)
  {
    var b := events[|events| - 1].build;
    BuildWasBegun(c, events[..|events| - 1], b);
    var j: nat :| BegunAt(c, events[..|events| - 1], j, b);
    BegunBefore(c, events, j, b);
  }

  lemma NotDropped(c: Config, before: seq<Event>, e: Event, uri: Uri, entry: Entry)
    requires IsRun(c, before, {}) && Possible(Run(c, before), e)
    requires Holds(ServerStep(c, Run(c, before).server, e), uri, CodeActions, entry)
    ensures !Drops(e, uri)
  {
    EntryComesFrom(c, Run(c, before), e, uri, CodeActions, entry);
  }

  ghost predicate HoldsAfter(c: Config, events: seq<Event>, uri: Uri, entry: Entry) {
    Holds(Run(c, events).server, uri, CodeActions, entry)
  }

  lemma {:induction false} ActionsWereBuilt(c: Config, events: seq<Event>, uri: Uri, entry: Entry)
    requires IsRun(c, events, {}) && HoldsAfter(c, events, uri, entry)
    ensures exists i: nat :: BuiltAt(c, events, i, uri, entry)
    decreases |events|
  {
    var before := events[..|events| - 1];
    if HoldsAfter(c, before, uri, entry) {
      ActionsWereBuilt(c, before, uri, entry);
      var i: nat :| BuiltAt(c, before, i, uri, entry);
      NotDropped(c, before, events[|events| - 1], uri, entry);
      BuiltBefore(c, events, i, uri, entry);
    } else {
      LastBuilt(c, before, events[|events| - 1], uri, entry);
      JustBuilt(c, events, uri, entry);
    }
  }

  lemma {:induction false} NoActionsQueried(c: Config, events: seq<Event>)
    requires IsRun(c, events, {})
    ensures NoActionQueries(Run(c, events).server)
    decreases |events|
  {
    if events != [] {
      var before := events[..|events| - 1];
      NoActionsQueried(c, before);
      ActionQueriesStep(c, Run(c, before), events[|events| - 1]);
    }
  }

  /**
   A hit is what some build came back with that was begun for the document under the epoch of the hit.
   Since then the document has neither been opened nor changed.
   */
  lemma CodeActionHitWasBuilt(c: Config, events: seq<Event>, uri: Uri) returns (j: nat, i: nat)
    requires IsRun(c, events, {})
    requires Find(Run(c, events).server, uri, CodeActions, Epoch(Run(c, events).server, uri)).Some?
    ensures j < i < |events| && events[j] == CodeActionsRequested(uri) && events[i].CodeActionsBuilt?
    ensures Epoch(Run(c, events[..j]).server, uri) == Epoch(Run(c, events).server, uri)
    ensures var s, b := Run(c, events).server, events[i].build;
            && b.uri == uri && b.token == Epoch(s, uri)
            && Find(s, uri, CodeActions, Epoch(s, uri)) == Some(events[i].answer)
    ensures forall l | i < l < |events| && (events[l].DidOpen? || events[l].DidChange?) && events[l].uri == uri ::
              events[l].DidChange? && events[l].changes == []
  {
    var s := Run(c, events).server;
    ActionsWereBuilt(c, events, uri, s.cache[uri][CodeActions]);
    i :| BuiltAt(c, events, i, uri, s.cache[uri][CodeActions]);
    j :| j < i && BegunAt(c, events, j, events[i].build);
  }
}
