/**
 The publish epoch, which keys cached code actions: it counts a document's publishes, so that a hit
 on code actions was begun after the latest of them.
 */
module ProtocolEpochs {
  import opened DocumentProtocol
  import opened ProtocolRuns
  import opened ProtocolIdle
  import opened ProtocolCaches

  /** How many of these publishes are of the document. */
  function PublishesOf(log: seq<Publication>, uri: Uri): nat {
    if log == [] then 0 else PublishesOf(log[..|log| - 1], uri) + if log[|log| - 1].uri == uri then 1 else 0
  }

  /** Equal as 32-bit numbers. */
  predicate Same32(m: int, n: int) {
    (m - n) % 0x1_0000_0000 == 0
  }

  lemma SameTransitive(k: int, m: int, n: int)
    requires Same32(k, m) && Same32(m, n)
    ensures Same32(k, n)
  {
  }

  lemma BumpIsSame(epoch: int, publishes: int)
    ensures Same32(WrapI32(epoch + 1) - (publishes + 1), epoch - publishes)
  {
  }

  /** By how much the epoch differs from the document's publishes. */
  function Lead(s: Server, uri: Uri): int {
    Epoch(s, uri) - PublishesOf(s.published, uri)
  }

  lemma PublishCountsOne(c: Config, s: Server, published: Uri, version: int, lane: Lane, uri: Uri)
    ensures var t, counts := Publish(c, s, published, version, lane), c.pushes && uri == published;
            && Epoch(t, uri) == (if counts then WrapI32(Epoch(s, uri) + 1) else Epoch(s, uri))
            && PublishesOf(t.published, uri) == PublishesOf(s.published, uri) + if counts then 1 else 0
  {
    var log := s.published + [Publication(published, version, lane, Session(s, published))];
    assert log[..|log| - 1] == s.published;
  }

  lemma PublishLeads(c: Config, s: Server, published: Uri, version: int, lane: Lane, uri: Uri)
    ensures Same32(Lead(Publish(c, s, published, version, lane), uri), Lead(s, uri))
  {
    PublishCountsOne(c, s, published, version, lane, uri);
    BumpIsSame(Epoch(s, uri), PublishesOf(s.published, uri));
  }

  lemma GuardedPublishLeads(c: Config, s: Server, published: Uri, version: int, lane: Lane, uri: Uri)
    ensures Same32(Lead(DocumentProtocol.PublishAnalysis(c, s, published, version, lane), uri), Lead(s, uri))
  {
    PublishLeads(c, s, published, version, lane, uri);
  }

  lemma CompletionLeads(c: Config, s: Server, a: Analysis, uri: Uri)
    ensures Same32(Lead(Complete(c, s, a), uri), Lead(s, uri))
  {
    var stored := s.(inFlight := s.inFlight - multiset{a}, documents := s.documents[a.uri := a.document]);
    assert Lead(stored, uri) == Lead(s, uri) == Lead(s.(inFlight := s.inFlight - multiset{a}), uri);
    GuardedPublishLeads(c, stored, a.uri, a.document.version, a.lane, uri);
  }

  lemma FiringLeads(c: Config, s: Server, t: IdleTask, uri: Uri)
    ensures Same32(Lead(FireIdle(c, s, t), uri), Lead(s, uri))
  {
    var rest := s.(idle := s.idle - multiset{t});
    assert Lead(rest, uri) == Lead(s, uri);
    PublishLeads(c, rest, t.uri, t.document.version, Idle, uri);
  }

  lemma RepublishLeads(c: Config, s: Server, item: (Uri, Document), uri: Uri)
    ensures Same32(Lead(RepublishOne(c, s, item), uri), Lead(s, uri))
  {
    var rest := s.(republishing := s.republishing - multiset{item});
    assert Lead(rest, uri) == Lead(s, uri);
    GuardedPublishLeads(c, rest, item.0, item.1.version, Republish, uri);
  }

  lemma QuietLeads(c: Config, sys: System, e: Event, uri: Uri)
    requires !Loses(sys, e, uri) && !e.Completed? && !e.IdleFired? && !e.Republished?
    ensures Lead(ServerStep(c, sys.server, e), uri) == Lead(sys.server, uri)
  {
    match e
    case DidChange(_, _, _) => ChangeOutcome(sys.server, e.uri, e.version, e.changes);
    case DidSave(_, _) => SaveTouches(sys.server, e.uri, e.text);
    case Requested(u, kind) => QueryTouches(sys.server, u, kind);
    case CodeActionsRequested(u) => BuildTouches(sys.server, u);
    case _ =>
  }

  /** Until the document is lost, every publish of it counts the epoch up by one, and nothing else does. */
  lemma StepLeads(c: Config, sys: System, e: Event, uri: Uri)
    requires !Loses(sys, e, uri)
    ensures Same32(Lead(ServerStep(c, sys.server, e), uri), Lead(sys.server, uri))
  {
    match e
    case Completed(a) => CompletionLeads(c, sys.server, a, uri);
    case IdleFired(t) => FiringLeads(c, sys.server, t, uri);
    case Republished(item) => RepublishLeads(c, sys.server, item, uri);
    case _ => QuietLeads(c, sys, e, uri);
  }

  ghost predicate LosesAt(c: Config, events: seq<Event>, i: nat, uri: Uri)
    requires i < |events|
  {
    Loses(Run(c, events[..i]), events[i], uri)
  }

  /** From step `j` to step `n` the server does not lose the document. */
  ghost predicate Kept(c: Config, events: seq<Event>, j: nat, n: nat, uri: Uri)
    requires j <= n <= |events|
  {
    forall i | j <= i < n :: !LosesAt(c, events, i, uri)
  }

  ghost function ServerAt(c: Config, events: seq<Event>, i: nat): Server
    requires i <= |events|
  {
    Run(c, events[..i]).server
  }

  lemma NextLead(c: Config, events: seq<Event>, i: nat, uri: Uri)
    requires IsRun(c, events, {}) && i < |events| && !LosesAt(c, events, i, uri)
    ensures Same32(Lead(ServerAt(c, events, i + 1), uri), Lead(ServerAt(c, events, i), uri))
  {
    StepOf(c, events, i, {});
    StepLeads(c, Run(c, events[..i]), events[i], uri);
  }

  /** Each of these servers has as much of a lead as the one before it. */
  ghost predicate LeadsAgree(servers: seq<Server>, uri: Uri) {
    forall i, k | 0 <= i < k < |servers| && k == i + 1 :: Same32(Lead(servers[k], uri), Lead(servers[i], uri))
  }

  lemma {:induction false} SameAllAlong(servers: seq<Server>, uri: Uri)
    requires servers != [] && LeadsAgree(servers, uri)
    ensures Same32(Lead(servers[|servers| - 1], uri), Lead(servers[0], uri))
    decreases |servers|
  {
    if |servers| > 1 {
      var n := |servers| - 1;
      SameAllAlong(servers[..n], uri);
      assert Same32(Lead(servers[n], uri), Lead(servers[n - 1], uri));
      SameTransitive(Lead(servers[n], uri), Lead(servers[n - 1], uri), Lead(servers[0], uri));
    }
  }

  lemma Cancel(n: int, p: int, q: int)
    requires Same32(n - p, n - q)
    ensures Same32(p, q)
  {
  }

  lemma SameEpochs(servers: seq<Server>, uri: Uri)
    requires servers != [] && LeadsAgree(servers, uri)
    requires Epoch(servers[0], uri) == Epoch(servers[|servers| - 1], uri)
    ensures Same32(PublishesOf(servers[|servers| - 1].published, uri), PublishesOf(servers[0].published, uri))
  {
    SameAllAlong(servers, uri);
    Cancel(Epoch(servers[0], uri), PublishesOf(servers[|servers| - 1].published, uri),
           PublishesOf(servers[0].published, uri));
  }

  /** The server before step `j`, and after it and every later step. */
  ghost function ServersFrom(c: Config, events: seq<Event>, j: nat): (servers: seq<Server>)
    requires j <= |events|
    ensures |servers| == |events| - j + 1
    ensures forall k | 0 <= k <= |events| - j :: servers[k] == ServerAt(c, events, j + k)
  {
    seq(|events| - j + 1, k requires 0 <= k <= |events| - j => ServerAt(c, events, j + k))
  }

  lemma EpochsCountPublishes(c: Config, events: seq<Event>, j: nat, uri: Uri)
    requires IsRun(c, events, {}) && j <= |events| && Kept(c, events, j, |events|, uri)
    ensures LeadsAgree(ServersFrom(c, events, j), uri)
  {
    var servers := ServersFrom(c, events, j);
    forall i, k | 0 <= i < k < |servers| && k == i + 1
      ensures Same32(Lead(servers[k], uri), Lead(servers[i], uri))
    {
      NextLead(c, events, j + i, uri);
    }
  }

  /** Step `j` asked for code actions of the document, and step `i` was a build coming back with this answer. */
  ghost predicate AskedAndBuilt(events: seq<Event>, j: nat, i: nat, uri: Uri, answer: string) {
    && j < i < |events| && events[j] == CodeActionsRequested(uri)
    && events[i].CodeActionsBuilt? && events[i].build.uri == uri && events[i].answer == answer
  }

  lemma WholeRun(c: Config, events: seq<Event>)
    ensures ServerAt(c, events, |events|) == Run(c, events).server
  {
    assert events[..|events|] == events;
  }

  lemma SameEpoch(c: Config, events: seq<Event>, j: nat, uri: Uri)
    requires j <= |events| && LeadsAgree(ServersFrom(c, events, j), uri)
    requires Epoch(ServerAt(c, events, j), uri) == Epoch(ServerAt(c, events, |events|), uri)
    ensures Same32(PublishesOf(ServerAt(c, events, |events|).published, uri),
                   PublishesOf(ServerAt(c, events, j).published, uri))
  {
    var servers := ServersFrom(c, events, j);
    var first, last := servers[0], servers[|servers| - 1];
    assert first == ServerAt(c, events, j) && last == ServerAt(c, events, |events|);
    SameEpochs(servers, uri);
  }

  /**
   A hit on code actions is what some build came back with. Unless the document has been closed or
   rejected since that build was asked for, an exact multiple of 2^32 publishes of it lie in between.
   */
  lemma CodeActionHitCountsPublishes(c: Config, events: seq<Event>, uri: Uri) returns (j: nat, i: nat)
    requires IsRun(c, events, {})
    requires Find(Run(c, events).server, uri, CodeActions, Epoch(Run(c, events).server, uri)).Some?
    ensures var s := Run(c, events).server;
            AskedAndBuilt(events, j, i, uri, Find(s, uri, CodeActions, Epoch(s, uri)).value)
    ensures Kept(c, events, j, |events|, uri) ==>
              Same32(PublishesOf(ServerAt(c, events, |events|).published, uri),
                     PublishesOf(ServerAt(c, events, j).published, uri))
  {
    j, i := CodeActionHitWasBuilt(c, events, uri);
    WholeRun(c, events);
    if Kept(c, events, j, |events|, uri) {
      EpochsCountPublishes(c, events, j, uri);
      SameEpoch(c, events, j, uri);
    }
  }
}
