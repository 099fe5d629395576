/**
 The server's shared state as its handlers update it: each method is the stretch of a handler
 between two awaits and is proved to be one step of the protocol in `DocumentProtocol`.
 */
module ServerBackend {
  import opened Text
  import opened DocumentProtocol
  import opened ProtocolRuns
  import opened ProtocolTexts
  import opened ProtocolPublishes
  import opened ProtocolCaches

  lemma HistoryGrows(c: Config, history: seq<Event>, e: Event)
    requires IsRun(c, history, {}) && Possible(Run(c, history), e)
    ensures IsRun(c, history + [e], {})
    ensures Run(c, history + [e]).server == ServerStep(c, Run(c, history).server, e)
  {
    assert (history + [e])[..|history + [e]| - 1] == history;
  }

  class Backend {
    const config: Config
    var documents: map<Uri, Document>
    var cache: map<Uri, map<Kind, Entry>>
    var epochs: map<Uri, int>
    // work on other threads and tasks
    var inFlight: multiset<Analysis>
    var idle: multiset<IdleTask>
    var republishing: multiset<(Uri, Document)>
    var queries: multiset<Query>
    var builds: multiset<Build>
    // history: never read by a decision, only recorded
    var publishes: map<Uri, nat>
    var sessions: map<Uri, nat>
    var stays: map<Uri, nat>
    var published: seq<Publication>
    ghost var history: seq<Event>

    ghost function State(): Server
      reads this
    {
      Server(documents, inFlight, idle, republishing, queries, builds, cache, epochs,
             publishes, sessions, stays, published)
    }

    /** The backend is where a run of the protocol has taken it. */
    ghost predicate Valid()
      reads this
    {
      IsRun(config, history, {}) && State() == Run(config, history).server
    }

    constructor (config: Config)
      ensures this.config == config && State() == NEW_SERVER
      ensures Valid() && history == []
    {
      this.config := config;
      documents, cache, epochs := map[], map[], map[];
      inFlight, idle, republishing, queries := multiset{}, multiset{}, multiset{}, multiset{};
      builds, publishes, sessions, stays, published := multiset{}, map[], map[], map[], [];
      history := [];
    }

    // ---- epochs and the query cache

    method BumpCodeActionEpoch(uri: Uri) returns (epoch: int)
      modifies this`epochs, this`publishes
      ensures State() == Bump(old(State()), uri) && epoch == Epoch(State(), uri)
    {
      if uri !in epochs {
        epochs := epochs[uri := 0];
      }
      epochs := epochs[uri := WrapI32(epochs[uri] + 1)];
      publishes := publishes[uri := Get(publishes, uri, 0) + 1];
      epoch := epochs[uri];
    }

    method CodeActionEpoch(uri: Uri) returns (epoch: int)
      ensures epoch == Epoch(State(), uri)
    {
      epoch := if uri in epochs then epochs[uri] else 0;
    }

    /** `QueryCache::get`: an entry under another token is removed. */
    method CacheGet(uri: Uri, kind: Kind, token: int) returns (hit: Option<string>)
      modifies this`cache
      ensures hit == Find(old(State()), uri, kind, token)
      ensures State() == Lookup(old(State()), uri, kind, token)
    {
      if uri !in cache || kind !in cache[uri] {
        return None;
      }
      if cache[uri][kind].token == token {
        return Some(cache[uri][kind].answer);
      }
      cache := cache[uri := cache[uri] - {kind}];
      hit := None;
    }

    method CacheInsert(uri: Uri, kind: Kind, token: int, answer: string)
      modifies this`cache
      ensures State() == Insert(old(State()), uri, kind, token, answer)
    {
      if uri !in cache {
        cache := cache[uri := map[]];
      }
      cache := cache[uri := cache[uri][kind := Entry(token, answer, Get(publishes, uri, 0))]];
    }

    // ---- publishing

    method PublishAnalysis(uri: Uri, version: int, lane: Lane)
      modifies this`epochs, this`publishes, this`published
      ensures State() == DocumentProtocol.PublishAnalysis(config, old(State()), uri, version, lane)
    {
      if !config.pushes {
        return;
      }
      var current := CurrentDocumentVersion(uri);
      if IsStale(current, version) {
        return;
      }
      var _ := BumpCodeActionEpoch(uri);
      published := published + [Publication(uri, version, lane, Get(sessions, uri, 0))];
    }

    method CurrentDocumentVersion(uri: Uri) returns (version: int)
      ensures version == CurrentVersion(State(), uri)
    {
      version := if uri in documents then documents[uri].version else 0;
    }

    // ---- document notifications

    method HandleDocumentUpdate(uri: Uri, document: Document)
      modifies this`documents, this`cache, this`inFlight
      ensures State() == Update(old(State()), uri, document)
    {
      documents := documents[uri := document];
      cache := cache - {uri};
      inFlight := inFlight + multiset{Analysis(uri, document, Hot)};
    }

    method BeginStay(uri: Uri)
      modifies this`stays
      ensures State() == NewStay(old(State()), uri)
    {
      stays := stays[uri := Get(stays, uri, 0) + 1];
    }

    method DidOpen(uri: Uri, document: Document)
      modifies this`documents, this`cache, this`inFlight, this`sessions, this`stays
      ensures State() == Open(old(State()), uri, document)
    {
      BeginSession(uri);
      BeginStay(uri);
      HandleDocumentUpdate(uri, document);
    }

    method BeginSession(uri: Uri)
      modifies this`sessions
      ensures State() == NewSession(old(State()), uri)
    {
      sessions := sessions[uri := Get(sessions, uri, 0) + 1];
    }

    method DidChange(uri: Uri, version: int, changes: seq<TextSync.Change>)
      modifies this`documents, this`epochs, this`publishes, this`cache, this`inFlight, this`stays
      ensures State() == DocumentProtocol.Change(old(State()), uri, version, changes)
    {
      if changes == [] {
        return;
      }
      var buffer := new TextSync.TextBuffer(if uri in documents then documents[uri].text else "");
      var result, _ := buffer.ApplyContentChanges(changes);
      match result
      case Edited(text) => HandleDocumentUpdate(uri, Document(text, version));
      case Invalid(_, _) => HandleInvalidIncrementalChange(uri);
    }

    method HandleInvalidIncrementalChange(uri: Uri)
      modifies this`documents, this`epochs, this`publishes, this`cache, this`stays
      ensures State() == RejectChange(old(State()), uri)
    {
      ghost var before := State();
      documents := documents - {uri};
      ForgetCodeActionEpoch(uri);
      cache := cache - {uri};
      assert State() == before.(documents := documents, epochs := epochs, publishes := publishes, cache := cache);
      BeginStay(uri);
    }

    method ForgetCodeActionEpoch(uri: Uri)
      modifies this`epochs, this`publishes
      ensures epochs == old(epochs) - {uri} && publishes == old(publishes) - {uri}
    {
      epochs := epochs - {uri};
      publishes := publishes - {uri};
    }

    method DidSave(uri: Uri, text: Option<string>)
      modifies this`inFlight
      ensures State() == StartSave(old(State()), uri, text)
    {
      var saved := text;
      if saved.None? && uri in documents {
        saved := Some(documents[uri].text);
      }
      if saved.None? {
        return;
      }
      var version := CurrentDocumentVersion(uri);
      inFlight := inFlight + multiset{Analysis(uri, Document(saved.value, version), Save)};
    }

    method DidClose(uri: Uri)
      modifies this`documents, this`epochs, this`publishes
      ensures State() == Close(old(State()), uri)
    {
      documents := documents - {uri};
      ForgetCodeActionEpoch(uri);
    }

    // ---- analyses coming back

    /** The tail of the hot and the full analysis: drop a stale result, else store and publish it. */
    method CompleteAnalysis(a: Analysis)
      modifies this`documents, this`inFlight, this`epochs, this`publishes, this`published
      ensures State() == Complete(config, old(State()), a)
    {
      inFlight := inFlight - multiset{a};
      var current := CurrentDocumentVersion(a.uri);
      if IsStale(current, a.document.version) {
        return;
      }
      documents := documents[a.uri := a.document];
      PublishAnalysis(a.uri, a.document.version, a.lane);
    }

    method ScheduleFullAnalysis(uri: Uri, document: Document)
      modifies this`idle
      ensures State() == ScheduleIdle(old(State()), uri, document)
    {
      var copied := CurrentDocumentVersion(uri);
      idle := idle + multiset{IdleTask(uri, document, copied, Get(stays, uri, 0))};
    }

    /** The debounced analysis works on its own copy: only epochs and the client are shared. */
    method RunIdleAnalysis(task: IdleTask)
      modifies this`idle, this`epochs, this`publishes, this`published
      ensures State() == FireIdle(config, old(State()), task)
    {
      idle := idle - multiset{task};
      if IsStale(task.copiedVersion, task.document.version) || !config.pushes {
        return;
      }
      var _ := BumpCodeActionEpoch(task.uri);
      published := published + [Publication(task.uri, task.document.version, Idle, Get(sessions, task.uri, 0))];
    }

    /** All open documents are copied before the first of them is published. */
    method CopyForRepublish()
      modifies this`republishing
      ensures State() == StartRepublish(old(State()))
    {
      republishing := republishing + multiset(documents.Items);
    }

    /** One turn of the loop over the documents copied when the republish began. */
    method RepublishDocument(item: (Uri, Document))
      modifies this`republishing, this`epochs, this`publishes, this`published
      ensures State() == RepublishOne(config, old(State()), item)
    {
      republishing := republishing - multiset{item};
      PublishAnalysis(item.0, item.1.version, Republish);
    }

    // ---- cached requests

    /** The lookup of a cached request; without a hit, a stored document is taken away to compute the answer. */
    method BeginQuery(uri: Uri, kind: Kind) returns (hit: Option<string>)
      modifies this`cache, this`queries
      ensures State() == StartQuery(old(State()), uri, kind)
      ensures hit == Find(old(State()), uri, kind, CurrentVersion(old(State()), uri))
    {
      var version := CurrentDocumentVersion(uri);
      hit := CacheGet(uri, kind, version);
      if hit.None? && uri in documents {
        queries := queries + multiset{Query(uri, kind, documents[uri])};
      }
    }

    method StoreAnswer(q: Query) returns (answer: string)
      modifies this`cache, this`queries
      ensures State() == FinishQuery(config, old(State()), q)
      ensures answer == config.compute(q.kind, q.document.text)
    {
      queries := queries - multiset{q};
      answer := config.compute(q.kind, q.document.text);
      CacheInsert(q.uri, q.kind, q.document.version, answer);
    }

    /** Folding ranges, symbols and inlay hints: answered from the cache, or computed and stored. */
    method CachedRequest(uri: Uri, kind: Kind) returns (answer: Option<string>)
      modifies this`cache, this`queries
      ensures var s := old(State());
              Find(s, uri, kind, CurrentVersion(s, uri)).Some? ==>
                answer == Find(s, uri, kind, CurrentVersion(s, uri)) && State() == s
      ensures var s := old(State());
              Find(s, uri, kind, CurrentVersion(s, uri)).None? && uri !in s.documents ==>
                answer == None && State() == Lookup(s, uri, kind, CurrentVersion(s, uri))
      ensures var s := old(State());
              Find(s, uri, kind, CurrentVersion(s, uri)).None? && uri in s.documents ==>
                && answer == Some(config.compute(kind, s.documents[uri].text))
                && State() == FinishQuery(config, StartQuery(s, uri, kind), Query(uri, kind, s.documents[uri]))
    {
      answer := BeginQuery(uri, kind);
      if answer.Some? || uri !in documents {
        return;
      }
      var computed := StoreAnswer(Query(uri, kind, documents[uri]));
      answer := Some(computed);
    }

    /** The lookup of cursor-independent code actions under the publish epoch. */
    method BeginCodeActions(uri: Uri) returns (hit: Option<string>)
      modifies this`cache, this`builds
      ensures State() == StartCodeActions(old(State()), uri)
      ensures uri in documents ==> hit == Find(old(State()), uri, CodeActions, Epoch(old(State()), uri))
    {
      if uri !in documents {
        return None;
      }
      var epoch := CodeActionEpoch(uri);
      hit := CacheGet(uri, CodeActions, epoch);
      if hit.None? {
        builds := builds + multiset{Build(uri, epoch, Get(publishes, uri, 0))};
      }
    }

    /** What was built is stored under the epoch read before, whatever was published meanwhile. */
    method StoreCodeActions(b: Build, built: string)
      modifies this`cache, this`builds
      ensures State() == FinishCodeActions(old(State()), b, built)
    {
      builds := builds - multiset{b};
      if b.uri !in cache {
        cache := cache[b.uri := map[]];
      }
      cache := cache[b.uri := cache[b.uri][CodeActions := Entry(b.token, built, b.stamp)]];
    }

    /** Cursor-independent code actions of an open document, with nothing in between. */
    method CursorIndependentCodeActions(uri: Uri, built: string) returns (actions: string)
      requires uri in documents
      modifies this`cache, this`builds
      ensures var s := old(State());
              Find(s, uri, CodeActions, Epoch(s, uri)).Some? ==>
                actions == Find(s, uri, CodeActions, Epoch(s, uri)).value && State() == s
      ensures var s := old(State());
              Find(s, uri, CodeActions, Epoch(s, uri)).None? ==>
                && actions == built
                && State() == FinishCodeActions(StartCodeActions(s, uri),
                                                Build(uri, Epoch(s, uri), Get(s.publishes, uri, 0)), built)
    {
      var hit := BeginCodeActions(uri);
      if hit.Some? {
        return hit.value;
      }
      var epoch := CodeActionEpoch(uri);
      StoreCodeActions(Build(uri, epoch, Get(publishes, uri, 0)), built);
      actions := built;
    }

    // ---- runs

    /** Whatever happens next, the backend takes the protocol's step. */
    method Handle(e: Event)
      requires Valid() && Possible(Run(config, history), e)
      modifies this
      ensures Valid() && history == old(history) + [e]
      ensures State() == ServerStep(config, old(State()), e)
    {
      HistoryGrows(config, history, e);
      Dispatch(e);
      history := history + [e];
    }

    method Dispatch(e: Event)
      modifies this`documents, this`cache, this`epochs, this`inFlight, this`idle, this`republishing
      modifies this`queries, this`builds, this`publishes, this`sessions, this`stays, this`published
      ensures State() == ServerStep(config, old(State()), e)
    {
      match e
      case DidOpen(uri, document) => DidOpen(uri, document);
      case DidChange(uri, version, changes) => DidChange(uri, version, changes);
      case DidSave(uri, text) => DidSave(uri, text);
      case DidClose(uri) => DidClose(uri);
      case Completed(analysis) => CompleteAnalysis(analysis);
      case IdleScheduled(uri, document) => ScheduleFullAnalysis(uri, document);
      case IdleFired(task) => RunIdleAnalysis(task);
      case RepublishStarted => CopyForRepublish();
      case Republished(item) => RepublishDocument(item);
      case Requested(uri, kind) => var _ := BeginQuery(uri, kind);
      case Answered(query) => var _ := StoreAnswer(query);
      case CodeActionsRequested(uri) => var _ := BeginCodeActions(uri);
      case CodeActionsBuilt(build, answer) => StoreCodeActions(build, answer);
    }

    /** A backend in use holds the client's text of every open document that is not astray. */
    lemma HoldsTheClientsTexts(uri: Uri)
      requires Valid() && IsRun(config, history, TEXT)
      requires uri in Run(config, history).client && uri !in Run(config, history).astray
      ensures uri in documents && documents[uri].text == Run(config, history).client[uri].text
    {
      StoredTextIsClientText(config, history, uri);
    }

    /** What it would answer from its cache for such a document is right for the client's text. */
    lemma AnswersAreCurrent(uri: Uri, kind: Kind)
      requires Valid() && IsRun(config, history, CACHE) && !kind.CodeActions?
      requires uri in Run(config, history).client && uri !in Run(config, history).astray
      ensures var hit := Find(State(), uri, kind, CurrentVersion(State(), uri));
              hit.Some? ==> hit.value == config.compute(kind, Run(config, history).client[uri].text)
    {
      CacheHitIsCurrent(config, history, uri, kind);
    }

    /** Its publishes on the guarded lanes never go back within a session. */
    lemma PublishesInOrder(i: nat, j: nat)
      requires Valid() && IsRun(config, history, ORDER)
      requires i < j < |published| && Comparable(published[i], published[j])
      ensures published[i].version <= published[j].version
    {
      PublishedVersionsNeverDecrease(config, history, i, j);
    }
  }
}
