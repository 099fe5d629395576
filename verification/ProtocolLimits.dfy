/**
 What the results about runs do not cover, each shown by a run: a document that went astray, an idle
 analysis that was overtaken, and for four of the rules a run that keeps all rules but that one.
 */
module ProtocolLimits {
  import opened Text
  import opened TextSync
  import opened DocumentProtocol
  import opened ProtocolRuns
  import ProtocolTexts
  import opened ProtocolPublishes

  const EVERY: set<Rule> := {Analyses, Saves, Republishes, Queries, Builds, Schedules, Order}

  ghost predicate Reachable(c: Config, sys: System, rules: set<Rule>) {
    exists events :: IsRun(c, events, rules) && Run(c, events) == sys
  }

  lemma Reach(c: Config, sys: System, e: Event, rules: set<Rule>) returns (next: System)
    requires Reachable(c, sys, rules) && Allowed(sys, e, rules)
    ensures next == Step(c, sys, e) && Reachable(c, next, rules)
  {
    var events :| IsRun(c, events, rules) && Run(c, events) == sys;
    next := Step(c, sys, e);
    assert (events + [e])[..|events|] == events;
    assert IsRun(c, events + [e], rules) && Run(c, events + [e]) == next;
  }

  /** Most steps are restricted by no rule. */
  lemma Free(sys: System, e: Event, rules: set<Rule>)
    requires Possible(sys, e) && !e.DidSave? && !Forgets(sys, e)
    ensures Allowed(sys, e, rules)
  {
  }

  /** Nothing but analyses and idle tasks: no other work is under way. */
  predicate AtRest(sys: System) {
    && sys.server.republishing == multiset{} && sys.server.queries == multiset{}
    && sys.server.builds == multiset{} && sys.due == multiset{}
  }

  /** Both sides have the one document. */
  predicate Both(sys: System, document: Document) {
    sys.client == map["u" := document] && sys.server.documents == map["u" := document]
  }

  /** One document at version 1, with nothing published. */
  predicate JustOpened(sys: System, text: string) {
    && AtRest(sys) && Both(sys, Document(text, 1)) && sys.astray == {}
    && sys.server.inFlight == multiset{Analysis("u", Document(text, 1), Hot)} && sys.server.idle == multiset{}
    && sys.server.published == [] && sys.server.sessions == map["u" := 1] && sys.server.stays == map["u" := 1]
    && sys.server.cache == map[]
  }

  /** The hot analysis came back: version 1 is published, if the server pushes, and an idle analysis is due. */
  predicate JustPublished(c: Config, sys: System, text: string) {
    && AtRest(sys.(due := multiset{})) && sys.due == multiset{("u", Document(text, 1))}
    && Both(sys, Document(text, 1)) && sys.astray == {}
    && sys.server.inFlight == multiset{} && sys.server.idle == multiset{} && sys.server.cache == map[]
    && sys.server.sessions == map["u" := 1] && sys.server.stays == map["u" := 1]
    && sys.server.published == if c.pushes then [Publication("u", 1, Hot, 1)] else []
  }

  /** The idle analysis is waiting on a copy of the documents. */
  predicate Waiting(c: Config, sys: System, text: string) {
    && AtRest(sys) && Both(sys, Document(text, 1)) && sys.astray == {}
    && sys.server.inFlight == multiset{} && sys.server.cache == map[]
    && sys.server.idle == multiset{IdleTask("u", Document(text, 1), 1, 1)} && sys.server.sessions == map["u" := 1]
    && sys.server.published == if c.pushes then [Publication("u", 1, Hot, 1)] else []
  }

  lemma Opening(c: Config, text: string)
    ensures JustOpened(Step(c, START, DidOpen("u", Document(text, 1))), text)
  {
  }

  lemma Opened(c: Config, text: string, rules: set<Rule>) returns (sys: System)
    ensures Reachable(c, sys, rules) && JustOpened(sys, text)
  {
    var e := DidOpen("u", Document(text, 1));
    assert IsRun(c, [], rules) && Run(c, []) == START;
    Opening(c, text);
    Free(START, e, rules);
    sys := Reach(c, START, e, rules);
  }

  lemma HotComesBack(c: Config, sys: System, text: string)
    requires JustOpened(sys, text)
    ensures JustPublished(c, Step(c, sys, Completed(Analysis("u", Document(text, 1), Hot))), text)
  {
  }

  lemma IdleIsScheduled(c: Config, sys: System, text: string)
    requires JustPublished(c, sys, text)
    ensures Waiting(c, Step(c, sys, IdleScheduled("u", Document(text, 1))), text)
  {
  }

  lemma FirstPublish(c: Config, before: System, text: string, rules: set<Rule>) returns (sys: System)
    requires Reachable(c, before, rules) && JustOpened(before, text)
    ensures Reachable(c, sys, rules) && JustPublished(c, sys, text)
  {
    var e := Completed(Analysis("u", Document(text, 1), Hot));
    HotComesBack(c, before, text);
    Free(before, e, rules);
    sys := Reach(c, before, e, rules);
  }

  lemma FirstSchedule(c: Config, before: System, text: string, rules: set<Rule>) returns (sys: System)
    requires Reachable(c, before, rules) && JustPublished(c, before, text)
    ensures Reachable(c, sys, rules) && Waiting(c, sys, text)
  {
    var e := IdleScheduled("u", Document(text, 1));
    IdleIsScheduled(c, before, text);
    Free(before, e, rules);
    sys := Reach(c, before, e, rules);
  }

  lemma IdleIsWaiting(c: Config, text: string, rules: set<Rule>) returns (sys: System)
    ensures Reachable(c, sys, rules) && Waiting(c, sys, text)
  {
    sys := Opened(c, text, rules);
    sys := FirstPublish(c, sys, text, rules);
    sys := FirstSchedule(c, sys, text, rules);
  }

  // ---- a document that went astray

  /** Below the only line of a text there is nothing to change. */
  lemma Outside(s: string, p: Position)
    requires p.line > 1 && forall i | 0 <= i < |s| :: s[i] != '\n'
    ensures ByteOffsetAt(s, p) == None
  {
    if s != [] {
      assert LineText(s) == |s|;
      assert s[FirstLine(s)..] == [];
    }
  }

  const BELOW := Position(5, 0)
  const OUTSIDE := [TextSync.Change(Some(Range(BELOW, BELOW)), "")]
  const INSERTION := [TextSync.Change(Some(ProtocolTexts.TOP), "x")]

  lemma WhatTheyDo(s: string)
    requires forall i | 0 <= i < |s| :: s[i] != '\n'
    ensures ApplyAll(s, OUTSIDE).Invalid? && ApplyAll(s, INSERTION) == Edited("x" + s)
  {
    Outside(s, BELOW);
    ProtocolTexts.InsertAtStart(s, "x");
    assert Apply(s, OUTSIDE[0]).Invalid? && INSERTION[1..] == [];
  }

  /** The server forgot the document, the client keeps it. */
  predicate Lost(sys: System) {
    sys.astray == {"u"} && sys.client == map["u" := Document("abc", 2)] && sys.server.documents == map[]
  }

  lemma OutsideIsRejected(c: Config, sys: System)
    requires Waiting(c, sys, "abc")
    ensures Possible(sys, DidChange("u", 2, OUTSIDE)) && Lost(Step(c, sys, DidChange("u", 2, OUTSIDE)))
  {
    WhatTheyDo("abc");
    ChangeOutcome(sys.server, "u", 2, OUTSIDE);
  }

  /** At rest with nothing in flight, a document may be closed or a change to it rejected. */
  lemma Unhindered(sys: System, e: Event, rules: set<Rule>)
    requires AtRest(sys) && sys.server.inFlight == multiset{} && Possible(sys, e) && (e.DidChange? || e.DidClose?)
    ensures Allowed(sys, e, rules)
  {
    if e.DidChange? {
      assert NoOlderAnalysis(sys.server, e.uri);
    }
  }

  lemma Loss(c: Config, before: System) returns (sys: System)
    requires Reachable(c, before, EVERY) && Waiting(c, before, "abc")
    ensures Reachable(c, sys, EVERY) && Lost(sys)
  {
    OutsideIsRejected(c, before);
    Unhindered(before, DidChange("u", 2, OUTSIDE), EVERY);
    sys := Reach(c, before, DidChange("u", 2, OUTSIDE), EVERY);
  }

  lemma InsertionIsStored(c: Config, sys: System)
    requires Lost(sys)
    ensures Possible(sys, DidChange("u", 3, INSERTION)) && !IsRejected(sys, DidChange("u", 3, INSERTION))
    ensures var next := Step(c, sys, DidChange("u", 3, INSERTION));
            next.client == map["u" := Document("xabc", 3)] && next.server.documents == map["u" := Document("x", 3)]
  {
    WhatTheyDo("abc");
    WhatTheyDo("");
    assert "x" + "abc" == "xabc" && "x" + "" == "x";
  }

  /**
   After a rejection the two sides go on from different texts: there is a run that ends with
   "xabc" at the client and "x" at the server.
   */
  lemma RejectionLosesText(c: Config) returns (sys: System)
    ensures Reachable(c, sys, EVERY)
    ensures sys.client == map["u" := Document("xabc", 3)] && sys.server.documents == map["u" := Document("x", 3)]
  {
    sys := IdleIsWaiting(c, "abc", EVERY);
    sys := Loss(c, sys);
    InsertionIsStored(c, sys);
    Free(sys, DidChange("u", 3, INSERTION), EVERY);
    sys := Reach(c, sys, DidChange("u", 3, INSERTION), EVERY);
  }

  // ---- the idle lane

  const REWRITE := [TextSync.Change(None, "")]

  lemma Rewritten(s: string)
    ensures ApplyAll(s, REWRITE) == Edited("")
  {
    assert REWRITE[1..] == [];
  }

  /** An edit is stored while the idle analysis of version 1 still waits. */
  predicate Overtaken(sys: System) {
    && IdleTask("u", Document("", 1), 1, 1) in sys.server.idle && sys.server.sessions == map["u" := 1]
    && sys.server.documents == map["u" := Document("", 2)]
    && sys.server.inFlight == multiset{Analysis("u", Document("", 2), Hot)}
    && sys.server.published == [Publication("u", 1, Hot, 1)]
  }

  /** A rewrite to version 2 of a document at version 1. */
  lemma Edits(c: Config, sys: System, text: string)
    requires Both(sys, Document(text, 1))
    ensures Possible(sys, DidChange("u", 2, REWRITE)) && !IsRejected(sys, DidChange("u", 2, REWRITE))
    ensures Step(c, sys, DidChange("u", 2, REWRITE)).server == Update(sys.server, "u", Document("", 2))
    ensures Step(c, sys, DidChange("u", 2, REWRITE)).client == map["u" := Document("", 2)]
  {
    Rewritten(text);
    ChangeOutcome(sys.server, "u", 2, REWRITE);
  }

  lemma EditOvertakes(c: Config, before: System) returns (sys: System)
    requires c.pushes && Reachable(c, before, EVERY) && Waiting(c, before, "")
    ensures Reachable(c, sys, EVERY) && Overtaken(sys)
  {
    var e := DidChange("u", 2, REWRITE);
    Edits(c, before, "");
    Free(before, e, EVERY);
    sys := Reach(c, before, e, EVERY);
    NowOvertaken(c, before, sys);
  }

  lemma NowOvertaken(c: Config, before: System, sys: System)
    requires c.pushes && Waiting(c, before, "") && sys.server == Update(before.server, "u", Document("", 2))
    ensures Overtaken(sys)
  {
  }

  /** The edit is published too. */
  predicate Published(s: Server) {
    && IdleTask("u", Document("", 1), 1, 1) in s.idle && s.sessions == map["u" := 1]
    && s.published == [Publication("u", 1, Hot, 1), Publication("u", 2, Hot, 1)]
  }

  lemma EditIsPublished(c: Config, sys: System)
    requires c.pushes && Overtaken(sys)
    ensures Published(Complete(c, sys.server, Analysis("u", Document("", 2), Hot)))
  {
  }

  lemma SecondPublish(c: Config, before: System) returns (sys: System)
    requires c.pushes && Reachable(c, before, EVERY) && Overtaken(before)
    ensures Reachable(c, sys, EVERY) && Published(sys.server)
  {
    EditIsPublished(c, before);
    Free(before, Completed(Analysis("u", Document("", 2), Hot)), EVERY);
    sys := Reach(c, before, Completed(Analysis("u", Document("", 2), Hot)), EVERY);
  }

  lemma IdleFires(c: Config, s: Server)
    requires c.pushes && Published(s)
    ensures FireIdle(c, s, IdleTask("u", Document("", 1), 1, 1)).published
         == [Publication("u", 1, Hot, 1), Publication("u", 2, Hot, 1), Publication("u", 1, Idle, 1)]
  {
  }

  /** The idle lane is not guarded: there is a run that publishes version 2 and then version 1. */
  lemma IdleLanePublishesOlderVersion(c: Config) returns (sys: System)
    requires c.pushes
    ensures Reachable(c, sys, EVERY)
    ensures sys.server.published
         == [Publication("u", 1, Hot, 1), Publication("u", 2, Hot, 1), Publication("u", 1, Idle, 1)]
  {
    sys := IdleIsWaiting(c, "", EVERY);
    sys := EditOvertakes(c, sys);
    sys := SecondPublish(c, sys);
    IdleFires(c, sys.server);
    Free(sys, IdleFired(IdleTask("u", Document("", 1), 1, 1)), EVERY);
    sys := Reach(c, sys, IdleFired(IdleTask("u", Document("", 1), 1, 1)), EVERY);
  }

  // ---- an analysis that outlives a rejected change

  const HASTY: set<Rule> := EVERY - {Order}

  const FIRST := Analysis("u", Document("", 1), Hot)
  const SECOND := Analysis("u", Document("", 2), Hot)

  /** Version 2 is stored over version 1, whose analysis is in flight. */
  predicate TwoInFlight(sys: System) {
    && AtRest(sys) && Both(sys, Document("", 2)) && sys.server.inFlight == multiset{FIRST, SECOND}
    && sys.server.published == [] && sys.server.sessions == map["u" := 1]
  }

  /** Version 2 is published while the analysis of version 1 is still in flight. */
  predicate SecondFirst(sys: System) {
    && AtRest(sys.(due := multiset{})) && Both(sys, Document("", 2)) && sys.server.inFlight == multiset{FIRST}
    && sys.server.published == [Publication("u", 2, Hot, 1)] && sys.server.sessions == map["u" := 1]
  }

  lemma EditWhileAnalysing(c: Config, before: System) returns (sys: System)
    requires Reachable(c, before, HASTY) && JustOpened(before, "")
    ensures Reachable(c, sys, HASTY) && TwoInFlight(sys)
  {
    var e := DidChange("u", 2, REWRITE);
    Edits(c, before, "");
    Free(before, e, HASTY);
    sys := Reach(c, before, e, HASTY);
    NowTwo(before, sys);
  }

  lemma NowTwo(before: System, sys: System)
    requires JustOpened(before, "") && sys.server == Update(before.server, "u", Document("", 2))
    requires sys.client == map["u" := Document("", 2)] && sys.due == before.due
    ensures TwoInFlight(sys)
  {
  }

  lemma SecondReturns(c: Config, sys: System)
    requires c.pushes && TwoInFlight(sys)
    ensures SecondFirst(Step(c, sys, Completed(SECOND)))
    ensures Step(c, sys, Completed(SECOND)).due == multiset{("u", Document("", 2))}
  {
  }

  lemma SecondComesBack(c: Config, before: System) returns (sys: System)
    requires c.pushes && Reachable(c, before, HASTY) && TwoInFlight(before)
    ensures Reachable(c, sys, HASTY) && SecondFirst(sys) && sys.due == multiset{("u", Document("", 2))}
  {
    SecondReturns(c, before);
    Free(before, Completed(SECOND), HASTY);
    sys := Reach(c, before, Completed(SECOND), HASTY);
  }

  lemma SecondIsScheduled(c: Config, before: System) returns (sys: System)
    requires Reachable(c, before, HASTY) && SecondFirst(before) && before.due == multiset{("u", Document("", 2))}
    ensures Reachable(c, sys, HASTY) && SecondFirst(sys) && sys.due == multiset{}
  {
    Free(before, IdleScheduled("u", Document("", 2)), HASTY);
    sys := Reach(c, before, IdleScheduled("u", Document("", 2)), HASTY);
  }

  lemma MayBeRejected(c: Config, sys: System)
    requires SecondFirst(sys) && sys.due == multiset{}
    ensures Allowed(sys, DidChange("u", 3, OUTSIDE), HASTY)
    ensures Step(c, sys, DidChange("u", 3, OUTSIDE)).server == RejectChange(sys.server, "u")
  {
    WhatTheyDo("");
    ChangeOutcome(sys.server, "u", 3, OUTSIDE);
  }

  lemma RejectedMeanwhile(c: Config, before: System) returns (sys: System)
    requires Reachable(c, before, HASTY) && SecondFirst(before) && before.due == multiset{}
    ensures Reachable(c, sys, HASTY) && sys.server == RejectChange(before.server, "u")
  {
    MayBeRejected(c, before);
    sys := Reach(c, before, DidChange("u", 3, OUTSIDE), HASTY);
  }

  lemma FirstComesLast(c: Config, sys: System)
    requires c.pushes && SecondFirst(sys)
    ensures FIRST in RejectChange(sys.server, "u").inFlight
    ensures Complete(c, RejectChange(sys.server, "u"), FIRST).published
         == [Publication("u", 2, Hot, 1), Publication("u", 1, Hot, 1)]
  {
    CompletePublishes(c, RejectChange(sys.server, "u"), FIRST);
  }

  /**
   Without the rule on order a rejected change lets an older analysis publish after a newer one: there
   is a run that publishes version 2 and then version 1, all in one session and on the hot lane.
   */
  lemma RejectionPublishesOlderVersion(c: Config) returns (sys: System)
    requires c.pushes
    ensures Reachable(c, sys, HASTY)
    ensures sys.server.published == [Publication("u", 2, Hot, 1), Publication("u", 1, Hot, 1)]
  {
    sys := Opened(c, "", HASTY);
    sys := EditWhileAnalysing(c, sys);
    sys := SecondComesBack(c, sys);
    sys := SecondIsScheduled(c, sys);
    FirstComesLast(c, sys);
    sys := RejectedMeanwhile(c, sys);
    Free(sys, Completed(FIRST), HASTY);
    sys := Reach(c, sys, Completed(FIRST), HASTY);
  }

  // ---- work that outlives its document

  const CARELESS: set<Rule> := EVERY - {Analyses}

  /** Closed, with the analysis still in flight. */
  predicate JustClosed(sys: System) {
    && sys.client == map[] && sys.server.documents == map[] && sys.server.inFlight == multiset{FIRST}
    && sys.server.published == [] && sys.server.sessions == map["u" := 1]
  }

  lemma MayBeClosed(c: Config, sys: System)
    requires JustOpened(sys, "")
    ensures Allowed(sys, DidClose("u"), CARELESS) && JustClosed(Step(c, sys, DidClose("u")))
  {
  }

  lemma ClosedWhileAnalysing(c: Config, before: System) returns (sys: System)
    requires Reachable(c, before, CARELESS) && JustOpened(before, "")
    ensures Reachable(c, sys, CARELESS) && JustClosed(sys)
  {
    MayBeClosed(c, before);
    sys := Reach(c, before, DidClose("u"), CARELESS);
  }

  lemma LateReturn(c: Config, sys: System)
    requires c.pushes && JustClosed(sys)
    ensures var t := Complete(c, sys.server, FIRST);
            t.documents == map["u" := Document("", 1)] && t.published == [Publication("u", 1, Hot, 1)]
  {
  }

  /**
   A document closed while its analysis is in flight comes back: the server ends up storing and
   publishing a document that the client has closed.
   */
  lemma ClosedDocumentComesBack(c: Config) returns (sys: System)
    requires c.pushes
    ensures Reachable(c, sys, CARELESS)
    ensures sys.client == map[] && sys.server.documents == map["u" := Document("", 1)]
    ensures sys.server.published == [Publication("u", 1, Hot, 1)]
  {
    sys := Opened(c, "", CARELESS);
    sys := ClosedWhileAnalysing(c, sys);
    LateReturn(c, sys);
    Free(sys, Completed(FIRST), CARELESS);
    sys := Reach(c, sys, Completed(FIRST), CARELESS);
  }

  /**
   An analysis that was in flight when its document was closed brings the closed document back
   exactly when its version is not negative.
   */
  lemma LateAnalysisReopens(c: Config, s: Server, a: Analysis)
    requires a.uri !in s.documents
    ensures a.uri in Complete(c, s, a).documents <==> a.document.version >= 0
  {
  }

  const INTERRUPTED: set<Rule> := EVERY - {Republishes}

  const COPY: (Uri, Document) := ("u", Document("", 1))

  /** A copy of the open document waits to be republished. */
  predicate Copied(sys: System) {
    && AtRest(sys.(server := sys.server.(republishing := multiset{}))) && sys.server.inFlight == multiset{}
    && sys.server.republishing == multiset{COPY} && Both(sys, COPY.1)
    && sys.server.published == [Publication("u", 1, Hot, 1)] && sys.server.sessions == map["u" := 1]
  }

  lemma CopyIsTaken(c: Config, before: System) returns (sys: System)
    requires c.pushes && Reachable(c, before, INTERRUPTED) && Waiting(c, before, "")
    ensures Reachable(c, sys, INTERRUPTED) && Copied(sys)
  {
    assert before.server.documents.Items == {COPY} by {
      assert COPY in before.server.documents.Items;
      assert forall item | item in before.server.documents.Items :: item == COPY;
    }
    Free(before, RepublishStarted, INTERRUPTED);
    sys := Reach(c, before, RepublishStarted, INTERRUPTED);
  }

  lemma ClosedMeanwhile(c: Config, before: System) returns (sys: System)
    requires Reachable(c, before, INTERRUPTED) && Copied(before)
    ensures Reachable(c, sys, INTERRUPTED) && sys.server == Close(before.server, "u") && sys.client == map[]
  {
    assert Allowed(before, DidClose("u"), INTERRUPTED);
    sys := Reach(c, before, DidClose("u"), INTERRUPTED);
  }

  lemma CopyIsPublished(c: Config, sys: System)
    requires c.pushes && Copied(sys)
    ensures COPY in Close(sys.server, "u").republishing
    ensures var t := RepublishOne(c, Close(sys.server, "u"), COPY);
            && t.documents == map[]
            && t.published == [Publication("u", 1, Hot, 1), Publication("u", 1, Republish, 1)]
  {
    RepublishPublishes(c, Close(sys.server, "u"), COPY);
    RepublishTouches(c, Close(sys.server, "u"), COPY);
  }

  /** A document closed in the middle of a republish is published although it is no longer stored. */
  lemma ClosedDocumentIsRepublished(c: Config) returns (sys: System)
    requires c.pushes
    ensures Reachable(c, sys, INTERRUPTED) && sys.client == map[] && sys.server.documents == map[]
    ensures sys.server.published == [Publication("u", 1, Hot, 1), Publication("u", 1, Republish, 1)]
  {
    sys := IdleIsWaiting(c, "", INTERRUPTED);
    sys := CopyIsTaken(c, sys);
    CopyIsPublished(c, sys);
    sys := ClosedMeanwhile(c, sys);
    Free(sys, Republished(COPY), INTERRUPTED);
    sys := Reach(c, sys, Republished(COPY), INTERRUPTED);
  }

  const UNANSWERED: set<Rule> := EVERY - {Queries}

  const QUERY := Query("u", FoldingRanges, Document("a", 1))

  /** A request on the first text is being answered. */
  predicate Asked(sys: System) {
    && AtRest(sys.(server := sys.server.(queries := multiset{}))) && sys.server.inFlight == multiset{}
    && sys.server.queries == multiset{QUERY} && sys.server.cache == map[] && sys.client == map["u" := Document("a", 1)]
    && sys.server.documents == map["u" := Document("a", 1)] && sys.astray == {}
  }

  lemma Asking(c: Config, sys: System)
    requires Waiting(c, sys, "a")
    ensures Asked(Step(c, sys, Requested("u", FoldingRanges)))
  {
  }

  /** Closed, and opened again with another text under the same version, before the answer is stored. */
  predicate Reopened(sys: System) {
    && sys.server.queries == multiset{QUERY} && sys.server.cache == map[]
    && Both(sys, Document("b", 1)) && sys.astray == {}
  }

  lemma Ask(c: Config, before: System) returns (sys: System)
    requires Reachable(c, before, UNANSWERED) && Waiting(c, before, "a")
    ensures Reachable(c, sys, UNANSWERED) && Asked(sys)
  {
    Asking(c, before);
    Free(before, Requested("u", FoldingRanges), UNANSWERED);
    sys := Reach(c, before, Requested("u", FoldingRanges), UNANSWERED);
  }

  lemma AskedAndClosed(c: Config, before: System) returns (sys: System)
    requires Reachable(c, before, UNANSWERED) && Asked(before)
    ensures Reachable(c, sys, UNANSWERED) && sys == Step(c, before, DidClose("u"))
  {
    assert Allowed(before, DidClose("u"), UNANSWERED);
    sys := Reach(c, before, DidClose("u"), UNANSWERED);
  }

  lemma Reopening(c: Config, sys: System)
    requires Asked(sys)
    ensures var closed := Step(c, sys, DidClose("u"));
            Possible(closed, DidOpen("u", Document("b", 1)))
            && Reopened(Step(c, closed, DidOpen("u", Document("b", 1))))
  {
  }

  lemma Reopen(c: Config, before: System) returns (sys: System)
    requires Reachable(c, before, UNANSWERED) && Asked(before)
    ensures Reachable(c, sys, UNANSWERED) && Reopened(sys)
  {
    Reopening(c, before);
    var closed := AskedAndClosed(c, before);
    Free(closed, DidOpen("u", Document("b", 1)), UNANSWERED);
    sys := Reach(c, closed, DidOpen("u", Document("b", 1)), UNANSWERED);
  }

  /** The document is as it was reopened, and a request for it would be answered for the other text. */
  predicate Mistaken(c: Config, sys: System) {
    && Both(sys, Document("b", 1)) && sys.astray == {}
    && Find(sys.server, "u", FoldingRanges, CurrentVersion(sys.server, "u")) == Some(c.compute(FoldingRanges, "a"))
  }

  lemma Answering(c: Config, sys: System)
    requires Reopened(sys)
    ensures Mistaken(c, Step(c, sys, Answered(QUERY)))
  {
  }

  lemma Answer(c: Config, before: System) returns (sys: System)
    requires Reachable(c, before, UNANSWERED) && Reopened(before)
    ensures Reachable(c, sys, UNANSWERED) && Mistaken(c, sys)
  {
    Answering(c, before);
    Free(before, Answered(QUERY), UNANSWERED);
    sys := Reach(c, before, Answered(QUERY), UNANSWERED);
  }

  /** A request that outlives its document leaves an answer for another text in the cache. */
  lemma LateAnswerIsWrong(c: Config) returns (sys: System)
    ensures Reachable(c, sys, UNANSWERED) && Mistaken(c, sys)
  {
    sys := IdleIsWaiting(c, "a", UNANSWERED);
    sys := Ask(c, sys);
    sys := Reopen(c, sys);
    sys := Answer(c, sys);
  }
}
