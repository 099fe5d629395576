/**
 The names bound by `if let`, `while let` and match-arm patterns whose block is still open at the
 end of a text. How one line's pattern is parsed is a parameter.
 */
module PatternScope {

  datatype Binding = Binding(name: string)

  // ---- lines

  /** `str::lines`: cut after every line break; `\n` or `\r\n` comes off, and a last empty line does not count. */
  function Lines(text: string): seq<string>
    decreases |text|
  {
    if text == [] then []
    else
      var n := BreakAt(text);
      if n == |text| then [text]
      else [if n > 0 && text[n - 1] == '\r' then text[..n - 1] else text[..n]] + Lines(text[n + 1..])
  }

  /** The first line break, or the end. */
  function BreakAt(text: string): (n: nat)
    ensures n <= |text| && (n < |text| ==> text[n] == '\n')
    ensures forall i | 0 <= i < n :: text[i] != '\n'
  {
    if text == [] || text[0] == '\n' then 0 else 1 + BreakAt(text[1..])
  }

  // ---- braces in order

  /** A brace of the text; an opening one carries the bindings it takes from its line, if any. */
  datatype Brace = Open(bindings: seq<Binding>) | Close

  /** The braces of the rest of a line; the first opening one takes what is pending. */
  function LineBraces(line: string, pending: seq<Binding>): seq<Brace>
    decreases |line|
  {
    if line == [] then []
    else if line[0] == '{' then [Open(pending)] + LineBraces(line[1..], [])
    else if line[0] == '}' then [Close] + LineBraces(line[1..], pending)
    else LineBraces(line[1..], pending)
  }

  function Braces(lines: seq<string>, patterns: string -> seq<Binding>): seq<Brace> {
    if lines == [] then [] else LineBraces(lines[0], patterns(lines[0])) + Braces(lines[1..], patterns)
  }

  // ---- the scan

  datatype Frame = Frame(depth: nat, bindings: seq<Binding>)

  /** The frames among the first `n` that are no deeper than `depth`. */
  function RetainFirst(frames: seq<Frame>, n: nat, depth: nat): seq<Frame>
    requires n <= |frames|
  {
    if n == 0 then []
    else RetainFirst(frames, n - 1, depth) + if frames[n - 1].depth <= depth then [frames[n - 1]] else []
  }

  function Retain(frames: seq<Frame>, depth: nat): seq<Frame> {
    RetainFirst(frames, |frames|, depth)
  }

  function FirstBindings(frames: seq<Frame>, n: nat): seq<Binding>
    requires n <= |frames|
  {
    if n == 0 then [] else FirstBindings(frames, n - 1) + frames[n - 1].bindings
  }

  function AllBindings(frames: seq<Frame>): seq<Binding> {
    FirstBindings(frames, |frames|)
  }

  /** The brace depth after the first `n` braces; closing never takes it below zero. */
  function DepthAt(braces: seq<Brace>, n: nat): nat
    requires n <= |braces|
  {
    if n == 0 then 0
    else
      var depth := DepthAt(braces, n - 1);
      if braces[n - 1].Open? then depth + 1 else if depth > 0 then depth - 1 else 0
  }

  /** The frames after brace `b`, which leaves the depth at `depth`. */
  function NextFrames(frames: seq<Frame>, b: Brace, depth: nat): seq<Frame> {
    if b.Close? then Retain(frames, depth)
    else if b.bindings != [] then frames + [Frame(depth, b.bindings)]
    else frames
  }

  function FramesAt(braces: seq<Brace>, n: nat): seq<Frame>
    requires n <= |braces|
  {
    if n == 0 then [] else NextFrames(FramesAt(braces, n - 1), braces[n - 1], DepthAt(braces, n))
  }

  // ---- unmatched braces, said without depths or frames

  /** Opening minus closing among the braces `i..j`. */
  function Net(braces: seq<Brace>, i: nat, j: nat): int
    requires i <= j <= |braces|
    decreases j
  {
    if i == j then 0 else Net(braces, i, j - 1) + if braces[j - 1].Open? then 1 else -1
  }

  /** From `start` to `n`, closing braces never outnumber the opening ones. */
  ghost predicate NeverBelow(braces: seq<Brace>, start: nat, n: nat)
    requires start <= n <= |braces|
  {
    forall j | start <= j <= n :: Net(braces, start, j) >= 0
  }

  /** The opening brace at `k` has not been closed by the first `n` braces. */
  ghost predicate Unclosed(braces: seq<Brace>, k: nat, n: nat)
    requires k < n <= |braces|
  {
    braces[k].Open? && NeverBelow(braces, k + 1, n)
  }

  /** The frame of the brace at `k`, if it has bindings and the first `n` braces leave it unclosed. */
  ghost function OwnFrame(braces: seq<Brace>, k: nat, n: nat): seq<Frame>
    requires k < n <= |braces|
  {
    if Unclosed(braces, k, n) && braces[k].bindings != [] then [Frame(DepthAt(braces, k + 1), braces[k].bindings)]
    else []
  }

  /** The frames, in order, of the first `k` braces that the first `n` leave unclosed. */
  ghost function UnclosedFrames(braces: seq<Brace>, k: nat, n: nat): seq<Frame>
    requires k <= n <= |braces|
  {
    if k == 0 then []
    else
      UnclosedFrames(braces, k - 1, n) + OwnFrame(braces, k - 1, n)
  }

  /** The bindings, in order, of the first `k` braces that the whole text leaves unclosed. */
  ghost function UnclosedBindings(braces: seq<Brace>, k: nat): seq<Binding>
    requires k <= |braces|
  {
    if k == 0 then []
    else UnclosedBindings(braces, k - 1) + if Unclosed(braces, k - 1, |braces|) then braces[k - 1].bindings else []
  }

  /** While a brace is unclosed, the depth is its own depth and the net of what came since. */
  lemma {:induction false} DepthOverUnclosed(braces: seq<Brace>, start: nat, n: nat)
    requires start <= n <= |braces| && NeverBelow(braces, start, n) && DepthAt(braces, start) >= 1
    ensures DepthAt(braces, n) == DepthAt(braces, start) + Net(braces, start, n)
    decreases n
  {
    if start < n {
      DepthOverUnclosed(braces, start, n - 1);
      assert Net(braces, start, n) >= 0;
    }
  }

  /** A brace stays unclosed over one more exactly when the depth does not fall below its own. */
  lemma UnclosedStep(braces: seq<Brace>, k: nat, n: nat)
    requires k < n < |braces|
    ensures Unclosed(braces, k, n + 1) <==> Unclosed(braces, k, n) && DepthAt(braces, k + 1) <= DepthAt(braces, n + 1)
  {
    if Unclosed(braces, k, n) {
      DepthOverUnclosed(braces, k + 1, n);
      assert Net(braces, k + 1, n) >= 0;
      assert Net(braces, k + 1, n + 1) == Net(braces, k + 1, n) + if braces[n].Open? then 1 else -1;
    }
  }

  lemma {:induction false} RetainPrefix(a: seq<Frame>, b: seq<Frame>, n: nat, depth: nat)
    requires n <= |a|
    ensures RetainFirst(a + b, n, depth) == RetainFirst(a, n, depth)
  {
    if n > 0 {
      RetainPrefix(a, b, n - 1, depth);
    }
  }

  lemma RetainMore(a: seq<Frame>, f: Frame, depth: nat)
    ensures Retain(a + [f], depth) == Retain(a, depth) + if f.depth <= depth then [f] else []
  {
    RetainPrefix(a, [f], |a|, depth);
    assert |a + [f]| == |a| + 1 && (a + [f])[|a|] == f;
  }

  lemma CloseRetainsOne(braces: seq<Brace>, k: nat, n: nat, before: seq<Frame>)
    requires k < n < |braces|
    ensures Retain(before + OwnFrame(braces, k, n), DepthAt(braces, n + 1))
         == Retain(before, DepthAt(braces, n + 1)) + OwnFrame(braces, k, n + 1)
  {
    UnclosedStep(braces, k, n);
    if Unclosed(braces, k, n) && braces[k].bindings != [] {
      RetainMore(before, Frame(DepthAt(braces, k + 1), braces[k].bindings), DepthAt(braces, n + 1));
    } else {
      assert before + [] == before;
    }
  }

  /** A closing brace keeps exactly the frames of the braces it leaves unclosed. */
  lemma {:induction false} CloseRetains(braces: seq<Brace>, k: nat, n: nat)
    requires k <= n < |braces|
    ensures UnclosedFrames(braces, k, n + 1) == Retain(UnclosedFrames(braces, k, n), DepthAt(braces, n + 1))
  {
    if k > 0 {
      CloseRetains(braces, k - 1, n);
      CloseRetainsOne(braces, k - 1, n, UnclosedFrames(braces, k - 1, n));
    }
  }

  lemma OwnFrameKept(braces: seq<Brace>, k: nat, n: nat)
    requires k < n < |braces| && braces[n].Open?
    ensures OwnFrame(braces, k, n + 1) == OwnFrame(braces, k, n)
  {
    UnclosedStep(braces, k, n);
    if Unclosed(braces, k, n) {
      DepthOverUnclosed(braces, k + 1, n);
      assert Net(braces, k + 1, n) >= 0;
    }
  }

  /** An opening brace closes nothing. */
  lemma {:induction false} OpenKeeps(braces: seq<Brace>, k: nat, n: nat)
    requires k <= n < |braces| && braces[n].Open?
    ensures UnclosedFrames(braces, k, n + 1) == UnclosedFrames(braces, k, n)
  {
    if k > 0 {
      OpenKeeps(braces, k - 1, n);
      OwnFrameKept(braces, k - 1, n);
    }
  }

  lemma OwnFrameNew(braces: seq<Brace>, n: nat)
    requires n < |braces|
    ensures OwnFrame(braces, n, n + 1)
         == if braces[n].Open? && braces[n].bindings != []
            then [Frame(DepthAt(braces, n + 1), braces[n].bindings)] else []
  {
    assert Net(braces, n + 1, n + 1) == 0;
  }

  lemma UnclosedFramesNext(braces: seq<Brace>, n: nat)
    requires n < |braces|
    ensures UnclosedFrames(braces, n + 1, n + 1)
         == NextFrames(UnclosedFrames(braces, n, n), braces[n], DepthAt(braces, n + 1))
  {
    OwnFrameNew(braces, n);
    if braces[n].Open? {
      OpenKeeps(braces, n, n);
    } else {
      CloseRetains(braces, n, n);
    }
  }

  /** The frames are those of the braces that are unclosed so far. */
  lemma {:induction false} FramesAreUnclosed(braces: seq<Brace>, n: nat)
    requires n <= |braces|
    ensures FramesAt(braces, n) == UnclosedFrames(braces, n, n)
  {
    if n > 0 {
      FramesAreUnclosed(braces, n - 1);
      UnclosedFramesNext(braces, n - 1);
    }
  }

  lemma {:induction false} BindingsPrefix(a: seq<Frame>, b: seq<Frame>, n: nat)
    requires n <= |a|
    ensures FirstBindings(a + b, n) == FirstBindings(a, n)
  {
    if n > 0 {
      BindingsPrefix(a, b, n - 1);
    }
  }

  lemma BindingsOfOne(braces: seq<Brace>, k: nat, before: seq<Frame>)
    requires k < |braces|
    ensures AllBindings(before + OwnFrame(braces, k, |braces|))
         == AllBindings(before) + if Unclosed(braces, k, |braces|) then braces[k].bindings else []
  {
    var own := OwnFrame(braces, k, |braces|);
    BindingsPrefix(before, own, |before|);
    if own == [] {
      assert before + own == before;
    } else {
      assert |before + own| == |before| + 1 && (before + own)[|before|] == own[0];
    }
  }

  lemma BindingsNext(braces: seq<Brace>, k: nat)
    requires k < |braces|
    ensures AllBindings(UnclosedFrames(braces, k + 1, |braces|))
         == AllBindings(UnclosedFrames(braces, k, |braces|))
            + if Unclosed(braces, k, |braces|) then braces[k].bindings else []
  {
    BindingsOfOne(braces, k, UnclosedFrames(braces, k, |braces|));
  }

  lemma {:induction false} BindingsOfFrames(braces: seq<Brace>, k: nat)
    requires k <= |braces|
    ensures AllBindings(UnclosedFrames(braces, k, |braces|)) == UnclosedBindings(braces, k)
  {
    if k > 0 {
      BindingsOfFrames(braces, k - 1);
      BindingsNext(braces, k - 1);
    }
  }

  /** The bindings returned are exactly those whose opening brace is still unclosed at the end. */
  lemma ActiveBindingsAreUnclosed(braces: seq<Brace>)
    ensures AllBindings(FramesAt(braces, |braces|)) == UnclosedBindings(braces, |braces|)
  {
    FramesAreUnclosed(braces, |braces|);
    BindingsOfFrames(braces, |braces|);
  }

  /** Frames lie strictly deeper one after the other, none deeper than the current depth. */
  ghost predicate Nested(frames: seq<Frame>, depth: nat) {
    && (forall i, j | 0 <= i < j < |frames| :: frames[i].depth < frames[j].depth)
    && forall i | 0 <= i < |frames| :: 0 < frames[i].depth <= depth
  }

  /** Of nested frames, the shallow ones are kept: those up to some place. */
  lemma {:induction false} RetainNested(frames: seq<Frame>, n: nat, depth: nat, least: nat)
    requires n <= |frames| && Nested(frames, depth)
    ensures RetainFirst(frames, n, least) <= frames[..n]
    ensures forall i | 0 <= i < |RetainFirst(frames, n, least)| :: frames[i].depth <= least
    ensures |RetainFirst(frames, n, least)| < n ==> frames[|RetainFirst(frames, n, least)|].depth > least
  {
    if n > 0 {
      RetainNested(frames, n - 1, depth, least);
      var kept := RetainFirst(frames, n - 1, least);
      if frames[n - 1].depth <= least {
        assert |kept| == n - 1;
      }
    }
  }

  /** The frame stack is a stack: depths increase strictly, up to at most the current one. */
  lemma {:induction false} FramesNested(braces: seq<Brace>, n: nat)
    requires n <= |braces|
    ensures Nested(FramesAt(braces, n), DepthAt(braces, n))
  {
    if n > 0 {
      FramesNested(braces, n - 1);
      if braces[n - 1].Close? {
        var frames := FramesAt(braces, n - 1);
        RetainNested(frames, |frames|, DepthAt(braces, n - 1), DepthAt(braces, n));
      }
    }
  }

  // ---- the scan itself

  lemma {:induction false} PrefixDecides(a: seq<Brace>, b: seq<Brace>, n: nat)
    requires n <= |a|
    ensures DepthAt(a + b, n) == DepthAt(a, n) && FramesAt(a + b, n) == FramesAt(a, n)
  {
    if n > 0 {
      PrefixDecides(a, b, n - 1);
    }
  }

  /** `depth` and `frames` are the scan's after `done`, and `rest` is still to come. */
  ghost predicate Scanned(all: seq<Brace>, done: seq<Brace>, rest: seq<Brace>, depth: nat, frames: seq<Frame>) {
    done + rest == all && depth == DepthAt(done, |done|) && frames == FramesAt(done, |done|)
  }

  lemma ScanStep(all: seq<Brace>, done: seq<Brace>, b: Brace, rest: seq<Brace>, depth: nat, frames: seq<Frame>)
    requires Scanned(all, done, [b] + rest, depth, frames)
    ensures b.Open? ==>
              Scanned(all, done + [b], rest, depth + 1,
                      if b.bindings == [] then frames else frames + [Frame(depth + 1, b.bindings)])
    ensures b.Close? ==>
              var less := if depth > 0 then depth - 1 else 0;
              Scanned(all, done + [b], rest, less, Retain(frames, less))
  {
    PrefixDecides(done, [b], |done|);
    assert done + ([b] + rest) == (done + [b]) + rest;
  }

  lemma NextBrace(line: string, pending: seq<Binding>, later: seq<Brace>)
    requires line != [] && (line[0] == '{' || line[0] == '}')
    ensures LineBraces(line, pending) + later
         == [if line[0] == '{' then Open(pending) else Close]
            + (LineBraces(line[1..], if line[0] == '{' then [] else pending) + later)
  {
  }

  lemma ScanEnds(all: seq<Brace>, done: seq<Brace>, depth: nat, frames: seq<Frame>)
    requires Scanned(all, done, [], depth, frames)
    ensures AllBindings(frames) == UnclosedBindings(all, |all|)
  {
    assert done + [] == done;
    ActiveBindingsAreUnclosed(all);
  }

  /** One line of the scan. */
  method ScanLine(line: string, bindings: seq<Binding>, depth: nat, frames: seq<Frame>,
                  ghost all: seq<Brace>, ghost before: seq<Brace>, ghost later: seq<Brace>)
    returns (depth': nat, frames': seq<Frame>, ghost done: seq<Brace>)
    requires Scanned(all, before, LineBraces(line, bindings) + later, depth, frames)
    ensures Scanned(all, done, later, depth', frames')
  {
    depth', frames', done := depth, frames, before;
    var pending := bindings;
    assert line[0..] == line;
    for i := 0 to |line|
      invariant Scanned(all, done, LineBraces(line[i..], pending) + later, depth', frames')
    {
      assert line[i..][1..] == line[i + 1..];
      if line[i] == '{' {
        NextBrace(line[i..], pending, later);
        ScanStep(all, done, Open(pending), LineBraces(line[i + 1..], []) + later, depth', frames');
        done := done + [Open(pending)];
        depth' := depth' + 1;
        if pending != [] {
          frames' := frames' + [Frame(depth', pending)];
          pending := [];
        }
      } else if line[i] == '}' {
        NextBrace(line[i..], pending, later);
        ScanStep(all, done, Close, LineBraces(line[i + 1..], pending) + later, depth', frames');
        done := done + [Close];
        depth' := if depth' > 0 then depth' - 1 else 0;
        frames' := Retain(frames', depth');
      }
    }
    assert LineBraces(line[|line|..], pending) + later == later;
  }

  method ActivePatternBindings(bodyPrefix: string, patterns: string -> seq<Binding>) returns (active: seq<Binding>)
    ensures var braces := Braces(Lines(bodyPrefix), patterns);
            active == UnclosedBindings(braces, |braces|)
  {
    var lines := Lines(bodyPrefix);
    var depth: nat := 0;
    var frames: seq<Frame> := [];
    ghost var all, done := Braces(lines, patterns), [];
    assert lines[0..] == lines;
    for l := 0 to |lines|
      invariant Scanned(all, done, Braces(lines[l..], patterns), depth, frames)
    {
      assert lines[l..][1..] == lines[l + 1..];
      depth, frames, done :=
        ScanLine(lines[l], patterns(lines[l]), depth, frames, all, done, Braces(lines[l + 1..], patterns));
    }
    ScanEnds(all, done, depth, frames);
    active := AllBindings(frames);
  }
}
