/**
 The idle lane. Its tasks test a copy of the documents taken when they were scheduled, so they may
 publish what is no longer held; the results here say exactly when they do not.
 */
module ProtocolIdle {
  import opened DocumentProtocol
  import opened ProtocolRuns
  import opened ProtocolPublishes

  const IDLE: set<Rule> := TEXT + {Schedules}

  // ---- a task was scheduled no earlier than its text was stored

  predicate DueHeld(sys: System) {
    forall item | item in sys.due :: IsHeld(sys.server, item.0, item.1.version)
  }

  /** Once the analysis is back its document is held. */
  predicate Unforgotten(s: Server, a: Analysis) {
    a.lane.Hot? ==> a.document.version >= 0 || IsHeld(s, a.uri, a.document.version)
  }

  predicate HotUnforgotten(s: Server) {
    forall a | a in s.inFlight :: Unforgotten(s, a)
  }

  predicate TaskOk(sys: System, t: IdleTask) {
    && t.document.version <= t.copiedVersion && t.stay <= Stay(sys.server, t.uri)
    && (t.stay == Stay(sys.server, t.uri) && t.uri in sys.client ==> IsHeld(sys.server, t.uri, t.copiedVersion))
  }

  predicate TasksOk(sys: System) {
    forall t | t in sys.server.idle :: TaskOk(sys, t)
  }

  predicate IdleInv(sys: System) {
    DueHeld(sys) && HotUnforgotten(sys.server) && TasksOk(sys)
  }

  lemma IdleSteps(c: Config, s: Server, e: Event)
    ensures ServerStep(c, s, e).idle
         == match e
            case IdleScheduled(uri, d) => s.idle + multiset{IdleTask(uri, d, CurrentVersion(s, uri), Stay(s, uri))}
            case IdleFired(task) => s.idle - multiset{task}
            case _ => s.idle
  {
    match e
    case DidChange(uri, version, changes) => ChangeOutcome(s, uri, version, changes);
    case DidSave(uri, text) => SaveTouches(s, uri, text);
    case Completed(a) => CompleteTouches(c, s, a);
    case IdleFired(task) => FiringTouches(c, s, task);
    case Republished(item) => RepublishTouches(c, s, item);
    case Requested(uri, kind) => QueryTouches(s, uri, kind);
    case CodeActionsRequested(uri) => BuildTouches(s, uri);
    case _ =>
  }

  lemma TaskStays(c: Config, sys: System, e: Event, t: IdleTask)
    requires TextInv(sys) && Possible(sys, e) && TaskOk(sys, t)
    ensures TaskOk(Step(c, sys, e), t)
  {
    StaySteps(c, sys, e, t.uri);
    if t.stay == Stay(sys.server, t.uri) && t.uri in sys.client && !Loses(sys, e, t.uri) {
      HeldStays(c, sys, e, t.uri, t.copiedVersion);
    }
  }

  lemma TasksStep(c: Config, sys: System, e: Event)
    requires TextInv(sys) && DueHeld(sys) && TasksOk(sys) && Possible(sys, e)
    ensures TasksOk(Step(c, sys, e))
  {
    var s, next := sys.server, Step(c, sys, e);
    IdleSteps(c, s, e);
    forall t | t in next.server.idle ensures TaskOk(next, t) {
      if t in s.idle {
        TaskStays(c, sys, e, t);
      } else {
        assert e.IdleScheduled? && IsHeld(s, e.uri, e.document.version);
      }
    }
  }

  lemma DueStepHeld(c: Config, sys: System, e: Event)
    requires TextInv(sys) && DueHeld(sys) && HotUnforgotten(sys.server) && Allowed(sys, e, IDLE)
    ensures DueHeld(Step(c, sys, e))
  {
    var next := Step(c, sys, e);
    forall item | item in next.due ensures IsHeld(next.server, item.0, item.1.version) {
      if item in sys.due {
        NotLost(sys, e, item);
        HeldStays(c, sys, e, item.0, item.1.version);
      } else {
        assert e.Completed? && e.analysis.lane.Hot? && item == (e.analysis.uri, e.analysis.document);
        assert Unforgotten(sys.server, e.analysis);
        CompleteTouches(c, sys.server, e.analysis);
      }
    }
  }

  lemma NotLost(sys: System, e: Event, item: (Uri, Document))
    requires Allowed(sys, e, IDLE) && item in sys.due
    ensures !Loses(sys, e, item.0)
  {
    assert Respects(sys, e, Schedules);
  }

  /** What a step adds to the analyses in flight. */
  lemma FlightSteps(c: Config, s: Server, e: Event)
    ensures forall a | a in ServerStep(c, s, e).inFlight ::
              || a in s.inFlight
              || a.lane.Save?
              || ((e.DidOpen? || e.DidChange?) && a.uri == e.uri
                  && IsHeld(ServerStep(c, s, e), a.uri, a.document.version))
  {
    match e
    case DidOpen(_, _) =>
    case DidChange(uri, version, changes) => ChangeFlight(s, uri, version, changes);
    case DidSave(uri, text) => SaveTouches(s, uri, text);
    case DidClose(_) =>
    case Completed(a) => CompleteTouches(c, s, a);
    case _ => SideStepStoresNothing(c, s, e);
  }

  lemma ChangeFlight(s: Server, uri: Uri, version: int, changes: seq<TextSync.Change>)
    ensures var t := DocumentProtocol.Change(s, uri, version, changes);
            forall a | a in t.inFlight :: a in s.inFlight || (a.uri == uri && IsHeld(t, uri, a.document.version))
  {
    ChangeOutcome(s, uri, version, changes);
  }

  lemma HotStep(c: Config, sys: System, e: Event)
    requires TextInv(sys) && HotUnforgotten(sys.server) && Allowed(sys, e, IDLE)
    ensures HotUnforgotten(ServerStep(c, sys.server, e))
  {
    var s, t := sys.server, ServerStep(c, sys.server, e);
    FlightSteps(c, s, e);
    forall a | a in t.inFlight ensures Unforgotten(t, a) {
      if a in s.inFlight && a.lane.Hot? && a.document.version < 0 {
        assert Unforgotten(s, a);
        NegativeNotLost(sys, e, a);
        HeldStays(c, sys, e, a.uri, a.document.version);
      }
    }
  }

  lemma NegativeNotLost(sys: System, e: Event, a: Analysis)
    requires Allowed(sys, e, IDLE) && a in sys.server.inFlight && a.document.version < 0
    ensures !Loses(sys, e, a.uri)
  {
    assert Respects(sys, e, Schedules) && Respects(sys, e, Analyses);
  }

  lemma {:induction false} IdleHolds(c: Config, events: seq<Event>)
    requires IsRun(c, events, IDLE)
    ensures TextInv(Run(c, events)) && IdleInv(Run(c, events))
    decreases |events|
  {
    FewerRules(c, events, IDLE, TEXT);
    TextHolds(c, events);
    if events != [] {
      var sys, e := Run(c, events[..|events| - 1]), events[|events| - 1];
      IdleHolds(c, events[..|events| - 1]);
      TasksStep(c, sys, e);
      DueStepHeld(c, sys, e);
      HotStep(c, sys, e);
    }
  }

  // ---- what a task publishes

  /** The step from `s` to `t` publishes this version of the document on the idle lane, and nothing else. */
  predicate IdlePublish(s: Server, t: Server, uri: Uri, version: int) {
    t.published == s.published + [Publication(uri, version, Idle, Session(s, uri))]
  }

  lemma FiredVersion(c: Config, s: Server, task: IdleTask)
    requires c.pushes && task.document.version <= task.copiedVersion
    ensures var t, version := FireIdle(c, s, task), task.document.version;
            if version < task.copiedVersion then t.published == s.published
            else t.published != s.published && forall held :: IdlePublish(s, t, task.uri, held) <==> held == version
  {
    var log := FireIdle(c, s, task).published;
    FiringPublishes(c, s, task);
    if task.document.version == task.copiedVersion {
      assert |log| == |s.published| + 1 && log[|s.published|].version == task.document.version;
      forall held | IdlePublish(s, FireIdle(c, s, task), task.uri, held) ensures held == task.document.version {
        assert log[|s.published|].version == held;
      }
    }
  }

  /**
   An idle task of a stored document publishes unless its own copy was newer. It publishes the version
   held exactly when that is still the copied one and its own. Otherwise, unless a change has been
   rejected since, it is older than what is held.
   */
  lemma IdleFiring(c: Config, events: seq<Event>, task: IdleTask)
    requires c.pushes && IsRun(c, events, IDLE) && Possible(Run(c, events), IdleFired(task))
    requires task.uri in Run(c, events).server.documents
    ensures var s, t := Run(c, events).server, FireIdle(c, Run(c, events).server, task);
            var version, held := task.document.version, CurrentVersion(s, task.uri);
            && (t.published == s.published <==> version < task.copiedVersion)
            && (IdlePublish(s, t, task.uri, held) <==> version == task.copiedVersion == held)
            && (task.stay == Stay(s, task.uri) && version != held ==> version < held)
  {
    IdleHolds(c, events);
    assert TaskOk(Run(c, events), task);
    FiredVersion(c, Run(c, events).server, task);
  }

  /** What it publishes of the version held comes after nothing newer in the whole session. */
  lemma IdleInOrder(c: Config, events: seq<Event>, task: IdleTask)
    requires IsRun(c, events, ORDER) && task.uri in Run(c, events).server.documents
    requires task.document.version == CurrentVersion(Run(c, events).server, task.uri)
    ensures NoNewerPublish(Run(c, events).server, task.uri, task.document.version)
  {
    OrderHolds(c, events);
    assert NothingOlder(Run(c, events), task.uri);
  }

  // ---- when a task keeps up

  lemma {:induction false} PrefixRuns(c: Config, events: seq<Event>, n: nat, rules: set<Rule>)
    requires IsRun(c, events, rules) && n <= |events|
    ensures IsRun(c, events[..n], rules)
    decreases |events|
  {
    if n == |events| {
      assert events[..n] == events;
    } else {
      PrefixRuns(c, events[..|events| - 1], n, rules);
      assert events[..|events| - 1][..n] == events[..n];
    }
  }

  lemma StepOf(c: Config, events: seq<Event>, i: nat, rules: set<Rule>)
    requires IsRun(c, events, rules) && i < |events|
    ensures IsRun(c, events[..i], rules) && Allowed(Run(c, events[..i]), events[i], rules)
    ensures Run(c, events[..i + 1]) == Step(c, Run(c, events[..i]), events[i])
  {
    PrefixRuns(c, events, i + 1, rules);
    LastStep(c, events[..i + 1], rules);
    assert events[..i + 1][..i] == events[..i];
  }

  lemma LastStep(c: Config, events: seq<Event>, rules: set<Rule>)
    requires IsRun(c, events, rules) && events != []
    ensures var before, e := events[..|events| - 1], events[|events| - 1];
            IsRun(c, before, rules) && Allowed(Run(c, before), e, rules) && Run(c, events) == Step(c, Run(c, before), e)
  {
  }

  /** Stays only count up, and within one the stored version only goes up. */
  ghost predicate Grows(sys: System, next: System, uri: Uri) {
    && Stay(sys.server, uri) <= Stay(next.server, uri)
    && (Stay(sys.server, uri) == Stay(next.server, uri) && uri in next.client ==>
          && uri in sys.client
          && (uri in sys.server.documents ==> IsHeld(next.server, uri, sys.server.documents[uri].version)))
  }

  lemma StepGrows(c: Config, sys: System, e: Event, uri: Uri)
    requires TextInv(sys) && Possible(sys, e)
    ensures Grows(sys, Step(c, sys, e), uri)
  {
    StaySteps(c, sys, e, uri);
    if uri in sys.server.documents && !Loses(sys, e, uri) {
      HeldStays(c, sys, e, uri, sys.server.documents[uri].version);
    }
  }

  /** The systems that a run goes through, the empty one first. */
  ghost function Trace(c: Config, events: seq<Event>): seq<System> {
    seq(|events| + 1, i requires 0 <= i <= |events| => Run(c, events[..i]))
  }

  ghost predicate Growing(trace: seq<System>, uri: Uri) {
    forall i | 0 <= i < |trace| - 1 :: Grows(trace[i], trace[i + 1], uri)
  }

  lemma TraceGrows(c: Config, events: seq<Event>, uri: Uri)
    requires IsRun(c, events, TEXT)
    ensures Growing(Trace(c, events), uri)
  {
    forall i | 0 <= i < |events| ensures Grows(Run(c, events[..i]), Run(c, events[..i + 1]), uri) {
      StepOf(c, events, i, TEXT);
      TextHolds(c, events[..i]);
      StepGrows(c, Run(c, events[..i]), events[i], uri);
    }
  }

  predicate StoresNewer(before: System, after: System, uri: Uri) {
    CurrentVersion(before.server, uri) < CurrentVersion(after.server, uri)
  }

  /** From `k` to `n` no step stores a newer version of the document. */
  ghost predicate StoresNothingNewer(trace: seq<System>, k: nat, n: nat, uri: Uri)
    requires k <= n < |trace|
  {
    forall i | k <= i < n :: !StoresNewer(trace[i], trace[i + 1], uri)
  }

  lemma {:induction false} StaysGrow(trace: seq<System>, k: nat, n: nat, uri: Uri)
    requires Growing(trace, uri) && k <= n < |trace|
    ensures Stay(trace[k].server, uri) <= Stay(trace[n].server, uri)
    decreases n
  {
    if k < n {
      StaysGrow(trace, k, n - 1, uri);
      assert Grows(trace[n - 1], trace[n - 1 + 1], uri);
    }
  }

  /** Within a stay the document remains stored, and under one version iff nothing newer is stored. */
  lemma {:induction false} WithinStay(trace: seq<System>, k: nat, n: nat, uri: Uri)
    requires Growing(trace, uri) && k <= n < |trace|
    requires Stay(trace[k].server, uri) == Stay(trace[n].server, uri)
    requires uri in trace[k].server.documents && uri in trace[n].client
    ensures uri in trace[n].server.documents
    ensures CurrentVersion(trace[k].server, uri) <= CurrentVersion(trace[n].server, uri)
    ensures CurrentVersion(trace[k].server, uri) == CurrentVersion(trace[n].server, uri)
       <==> StoresNothingNewer(trace, k, n, uri)
    decreases n
  {
    if k < n {
      assert Grows(trace[n - 1], trace[n - 1 + 1], uri);
      StaysGrow(trace, k, n - 1, uri);
      WithinStay(trace, k, n - 1, uri);
    }
  }

  /** Step `k` of the run is where the task was scheduled. */
  ghost predicate ScheduledAt(c: Config, events: seq<Event>, k: nat, task: IdleTask) {
    && k < |events| && events[k] == IdleScheduled(task.uri, task.document)
    && task.copiedVersion == CurrentVersion(Run(c, events[..k]).server, task.uri)
    && task.stay == Stay(Run(c, events[..k]).server, task.uri)
  }

  /** An idle analysis is scheduled for a text that is stored. */
  lemma ScheduledIsHeld(c: Config, events: seq<Event>, k: nat, task: IdleTask)
    requires IsRun(c, events, IDLE) && ScheduledAt(c, events, k, task)
    ensures task.uri in Run(c, events[..k]).server.documents
  {
    StepOf(c, events, k, IDLE);
    IdleHolds(c, events[..k]);
    assert IsHeld(Run(c, events[..k]).server, task.uri, task.document.version);
  }

  /**
   As long as the document is open and no change has been rejected, the idle lane keeps to the version
   held exactly when no newer text was stored between the scheduling and the firing of its task.
   */
  lemma IdleKeepsUpIff(c: Config, events: seq<Event>, k: nat, task: IdleTask)
    requires c.pushes && IsRun(c, events, IDLE) && Possible(Run(c, events), IdleFired(task))
    requires ScheduledAt(c, events, k, task) && task.document.version == task.copiedVersion
    requires task.uri in Run(c, events).client && task.stay == Stay(Run(c, events).server, task.uri)
    ensures task.uri in Run(c, events).server.documents
    ensures IdlePublish(Run(c, events).server, FireIdle(c, Run(c, events).server, task), task.uri,
                        CurrentVersion(Run(c, events).server, task.uri))
       <==> StoresNothingNewer(Trace(c, events), k, |events|, task.uri)
  {
    ScheduledIsHeld(c, events, k, task);
    FewerRules(c, events, IDLE, TEXT);
    TraceGrows(c, events, task.uri);
    assert events[..|events|] == events;
    WithinStay(Trace(c, events), k, |events|, task.uri);
    FiredVersion(c, Run(c, events).server, task);
  }
}
