/**
 The server's document and diagnostics protocol. Each stretch of a handler between two awaits
 is one atomic step; an analysis that runs on another thread is in flight from the step that
 starts it to the step that completes it (LSP 3.17, "Text Document Synchronization").
 */
module DocumentProtocol {
  import opened Text
  import opened TextSync

  type Uri = string

  datatype Document = Document(text: string, version: int)

  datatype Lane = Hot | Idle | Save | Republish

  /** An analysis on another thread: the text and version it was started with. */
  datatype Analysis = Analysis(uri: Uri, document: Document, lane: Lane)

  /** A debounced analysis; its staleness test reads a copy of the documents taken on scheduling. */
  datatype IdleTask = IdleTask(uri: Uri, document: Document, copiedVersion: int, stay: nat)

  /** A cached request that was started on a document and has yet to store its answer. */
  datatype Query = Query(uri: Uri, kind: Kind, document: Document)

  /** Code actions being built: the epoch read before, and how many publishes it stands for. */
  datatype Build = Build(uri: Uri, token: int, stamp: nat)

  datatype Kind = FoldingRanges | DocumentSymbols | InlayHints(range: Range) | CodeActions

  /** A cached answer under its freshness token, and how many publishes preceded it. */
  datatype Entry = Entry(token: int, answer: string, stamp: nat)

  /** A diagnostics publish. A document's session lasts from opening it to closing it. */
  datatype Publication = Publication(uri: Uri, version: int, lane: Lane, session: nat)

  /** Settings that do not change during a run, and what a cached request computes from a text. */
  datatype Config = Config(pushes: bool, compute: (Kind, string) -> string)

  datatype Server = Server(
    documents: map<Uri, Document>,
    inFlight: multiset<Analysis>,
    idle: multiset<IdleTask>,
    republishing: multiset<(Uri, Document)>,
    queries: multiset<Query>,
    builds: multiset<Build>,
    cache: map<Uri, map<Kind, Entry>>,
    epochs: map<Uri, int>,
    // history: publishes since the epoch was last forgotten, sessions, every publish so far, and how
    // often the document has been opened or forgotten on a rejected change
    publishes: map<Uri, nat>,
    sessions: map<Uri, nat>,
    stays: map<Uri, nat>,
    published: seq<Publication>)

  const NEW_SERVER :=
    Server(map[], multiset{}, multiset{}, multiset{}, multiset{}, multiset{}, map[], map[], map[], map[], map[], [])

  function Get<V>(m: map<Uri, V>, uri: Uri, default: V): V {
    if uri in m then m[uri] else default
  }

  function CurrentVersion(s: Server, uri: Uri): int {
    if uri in s.documents then s.documents[uri].version else 0
  }

  /** The text that changes are applied to. */
  function StoredText(s: Server, uri: Uri): string {
    if uri in s.documents then s.documents[uri].text else ""
  }

  function Session(s: Server, uri: Uri): nat {
    Get(s.sessions, uri, 0)
  }

  function Stay(s: Server, uri: Uri): nat {
    Get(s.stays, uri, 0)
  }

  function NewStay(s: Server, uri: Uri): Server {
    s.(stays := s.stays[uri := Stay(s, uri) + 1])
  }

  function NewSession(s: Server, uri: Uri): Server {
    s.(sessions := s.sessions[uri := Session(s, uri) + 1])
  }

  predicate IsStale(current: int, version: int) {
    current > version
  }

  /** 32-bit wrap-around. */
  function WrapI32(n: int): int {
    (n + 0x8000_0000) % 0x1_0000_0000 - 0x8000_0000
  }

  // ---- handler steps

  function Bump(s: Server, uri: Uri): Server {
    s.(epochs := s.epochs[uri := WrapI32(Get(s.epochs, uri, 0) + 1)],
       publishes := s.publishes[uri := Get(s.publishes, uri, 0) + 1])
  }

  function Publish(c: Config, s: Server, uri: Uri, version: int, lane: Lane): Server {
    if !c.pushes then s
    else
      var bumped := Bump(s, uri);
      bumped.(published := s.published + [Publication(uri, version, lane, Session(s, uri))])
  }

  /** `publish_analysis`: its own staleness test comes first. */
  function PublishAnalysis(c: Config, s: Server, uri: Uri, version: int, lane: Lane): Server {
    if IsStale(CurrentVersion(s, uri), version) then s else Publish(c, s, uri, version, lane)
  }

  /** `handle_document_update`: the text is stored and the hot analysis started. */
  function Update(s: Server, uri: Uri, document: Document): Server {
    s.(documents := s.documents[uri := document],
       cache := s.cache - {uri},
       inFlight := s.inFlight + multiset{Analysis(uri, document, Hot)})
  }

  function Open(s: Server, uri: Uri, document: Document): Server {
    Update(NewStay(NewSession(s, uri), uri), uri, document)
  }

  ghost function Change(s: Server, uri: Uri, version: int, changes: seq<TextSync.Change>): Server {
    if changes == [] then s
    else
      match ApplyAll(StoredText(s, uri), changes)
      case Edited(text) => Update(s, uri, Document(text, version))
      case Invalid(_, _) => RejectChange(s, uri)
  }

  /** `handle_invalid_incremental_change`: everything about the document is forgotten. */
  function RejectChange(s: Server, uri: Uri): Server {
    NewStay(s.(documents := s.documents - {uri}, epochs := s.epochs - {uri}, publishes := s.publishes - {uri},
               cache := s.cache - {uri}), uri)
  }

  function StartSave(s: Server, uri: Uri, text: Option<string>): Server {
    var saved := if text.Some? then text else if uri in s.documents then Some(s.documents[uri].text) else None;
    match saved
    case None => s
    case Some(t) => s.(inFlight := s.inFlight + multiset{Analysis(uri, Document(t, CurrentVersion(s, uri)), Save)})
  }

  function Close(s: Server, uri: Uri): Server {
    s.(documents := s.documents - {uri}, epochs := s.epochs - {uri}, publishes := s.publishes - {uri})
  }

  /** A hot or save analysis comes back. */
  function Complete(c: Config, s: Server, a: Analysis): Server {
    var rest := s.(inFlight := s.inFlight - multiset{a});
    if IsStale(CurrentVersion(s, a.uri), a.document.version) then rest
    else PublishAnalysis(c, rest.(documents := s.documents[a.uri := a.document]), a.uri, a.document.version, a.lane)
  }

  /** Scheduling clones the server, documents included. */
  function ScheduleIdle(s: Server, uri: Uri, document: Document): Server {
    s.(idle := s.idle + multiset{IdleTask(uri, document, CurrentVersion(s, uri), Stay(s, uri))})
  }

  /** A debounced analysis runs on its clone: only the publish and the shared epochs are visible. */
  function FireIdle(c: Config, s: Server, t: IdleTask): Server {
    var rest := s.(idle := s.idle - multiset{t});
    if IsStale(t.copiedVersion, t.document.version) then rest
    else Publish(c, rest, t.uri, t.document.version, Idle)
  }

  ghost function StartRepublish(s: Server): Server {
    s.(republishing := s.republishing + multiset(s.documents.Items))
  }

  function RepublishOne(c: Config, s: Server, item: (Uri, Document)): Server {
    PublishAnalysis(c, s.(republishing := s.republishing - multiset{item}), item.0, item.1.version, Republish)
  }

  // ---- the cache

  function Find(s: Server, uri: Uri, kind: Kind, token: int): Option<string> {
    if uri in s.cache && kind in s.cache[uri] && s.cache[uri][kind].token == token
    then Some(s.cache[uri][kind].answer) else None
  }

  /** A lookup drops the entry when its token is not the current one. */
  function Lookup(s: Server, uri: Uri, kind: Kind, token: int): Server {
    if uri in s.cache && kind in s.cache[uri] && s.cache[uri][kind].token != token
    then s.(cache := s.cache[uri := s.cache[uri] - {kind}]) else s
  }

  function Insert(s: Server, uri: Uri, kind: Kind, token: int, answer: string): Server {
    s.(cache := s.cache[uri := Get(s.cache, uri, map[])[kind := Entry(token, answer, Get(s.publishes, uri, 0))]])
  }

  /** A folding, symbol or inlay request up to the point where its answer has to be computed. */
  function StartQuery(s: Server, uri: Uri, kind: Kind): Server {
    var version := CurrentVersion(s, uri);
    if Find(s, uri, kind, version).Some? then s
    else
      var looked := Lookup(s, uri, kind, version);
      if uri !in s.documents then looked
      else looked.(queries := s.queries + multiset{Query(uri, kind, s.documents[uri])})
  }

  function FinishQuery(c: Config, s: Server, q: Query): Server {
    Insert(s.(queries := s.queries - multiset{q}), q.uri, q.kind, q.document.version,
           c.compute(q.kind, q.document.text))
  }

  function Epoch(s: Server, uri: Uri): int {
    Get(s.epochs, uri, 0)
  }

  /** A code-action request without context diagnostics up to the point where its answer has to be built. */
  function StartCodeActions(s: Server, uri: Uri): Server {
    if uri !in s.documents || Find(s, uri, CodeActions, Epoch(s, uri)).Some? then s
    else
      var looked := Lookup(s, uri, CodeActions, Epoch(s, uri));
      looked.(builds := s.builds + multiset{Build(uri, Epoch(s, uri), Get(s.publishes, uri, 0))})
  }

  /** The answer is stored under the epoch that was read before it was built. */
  function FinishCodeActions(s: Server, b: Build, answer: string): Server {
    s.(builds := s.builds - multiset{b},
       cache := s.cache[b.uri := Get(s.cache, b.uri, map[])[CodeActions := Entry(b.token, answer, b.stamp)]])
  }
}
