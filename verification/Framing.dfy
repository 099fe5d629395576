/**
 JSON-RPC framing of the replay client: the printer of one message and the streaming parser
 that accepts the server's output in arbitrary chunks (LSP 3.17, "Base Protocol", Header Part
 and Content Part). A byte is written as the character with its code; a message is its JSON
 text, and which texts parse as JSON is a parameter.
 */
module Framing {
  import opened Text

  type Bytes = string

  const SEPARATOR: Bytes := "\r\n\r\n"
  const LENGTH_HEADER: Bytes := "Content-Length: "

  // ---- searching

  function Find(s: Bytes, pattern: Bytes): (r: Option<nat>)
    ensures r.Some? ==> At(s, pattern, r.value)
    ensures forall i | 0 <= i < (if r.Some? then r.value else |s| + 1) :: !At(s, pattern, i)
  {
    FindFrom(s, pattern, 0)
  }

  function Lower(c: char): char {
    if 'A' <= c <= 'Z' then ((c as int) + 32) as char else c
  }

  function LowerAll(s: Bytes): Bytes {
    seq(|s|, i requires 0 <= i < |s| => Lower(s[i]))
  }

  /** End of the run of digits that starts at `i`. */
  function DigitsEnd(s: Bytes, i: nat): (end: nat)
    requires i <= |s|
    ensures i <= end <= |s| && AllDigits(s[i..end])
    ensures end < |s| ==> !IsDigit(s[end])
    decreases |s| - i
  {
    if i == |s| || !IsDigit(s[i]) then i else DigitsEnd(s, i + 1)
  }

  /** The digits of the leftmost case-insensitive `Content-Length: <digits>` in a header. */
  function LengthFrom(header: Bytes, i: nat): Option<nat>
    requires i <= |header|
    decreases |header| - i
  {
    var digits := i + |LENGTH_HEADER|;
    if At(LowerAll(header), LowerAll(LENGTH_HEADER), i) && digits < |header| && IsDigit(header[digits])
    then Some(DigitsValue(header[digits..DigitsEnd(header, digits)]))
    else if i == |header| then None
    else LengthFrom(header, i + 1)
  }

  function ContentLength(header: Bytes): Option<nat> {
    LengthFrom(header, 0)
  }

  // ---- frames

  function Header(body: Bytes): Bytes {
    LENGTH_HEADER + Decimal(|body|)
  }

  /** What `send` writes for one message. */
  function Frame(body: Bytes): Bytes {
    Header(body) + (SEPARATOR + body)
  }

  function Frames(bodies: seq<Bytes>): Bytes {
    if bodies == [] then [] else Frame(bodies[0]) + Frames(bodies[1..])
  }

  function Concat(chunks: seq<Bytes>): Bytes {
    if chunks == [] then [] else chunks[0] + Concat(chunks[1..])
  }

  // ---- the parser

  datatype Parsed = Incomplete | Malformed | Message(body: Bytes, rest: Bytes)

  /** What a body is: no JSON, `null`, or a message with an id if it is an answer. */
  datatype Body = NotJson | Null | Value(id: Option<nat>)

  type Json = Bytes -> Body

  /** One turn of the receive loop on a buffer. */
  function Parse(json: Json, buffer: Bytes): (p: Parsed)
    ensures p.Message? ==> |p.rest| < |buffer|
  {
    match Find(buffer, SEPARATOR)
    case None => Incomplete
    case Some(headerEnd) =>
      match ContentLength(buffer[..headerEnd])
      case None => Malformed
      case Some(length) =>
        var bodyStart := headerEnd + |SEPARATOR|;
        if |buffer| < bodyStart + length then Incomplete
        else
          var body := buffer[bodyStart..bodyStart + length];
          if json(body).NotJson? then Malformed else Message(body, buffer[bodyStart + length..])
  }

  /** The receiver: unconsumed bytes, messages delivered so far, and whether parsing has thrown. */
  datatype Receiver = Receiver(buffer: Bytes, delivered: seq<Bytes>, failed: bool)

  const START := Receiver([], [], false)

  function Drain(json: Json, buffer: Bytes, delivered: seq<Bytes>): Receiver
    decreases |buffer|
  {
    match Parse(json, buffer)
    case Incomplete => Receiver(buffer, delivered, false)
    case Malformed => Receiver(buffer, delivered, true)
    case Message(body, rest) =>
      if json(body).Null? then Receiver(rest, delivered, true) else Drain(json, rest, delivered + [body])
  }

  /** A chunk arrives; nothing more is read once parsing has thrown. */
  function Feed(json: Json, r: Receiver, chunk: Bytes): Receiver {
    if r.failed then r else Drain(json, r.buffer + chunk, r.delivered)
  }

  function FeedAll(json: Json, r: Receiver, chunks: seq<Bytes>): Receiver
    decreases |chunks|
  {
    if chunks == [] then r else FeedAll(json, Feed(json, r, chunks[0]), chunks[1..])
  }

  // ---- chunking does not matter, for any bytes whatever

  lemma FindAppend(s: Bytes, pattern: Bytes, more: Bytes)
    requires Find(s, pattern).Some?
    ensures Find(s + more, pattern) == Find(s, pattern)
  {
    var i := Find(s, pattern).value;
    assert (s + more)[i..i + |pattern|] == s[i..i + |pattern|];
    assert At(s + more, pattern, i);
    forall j | 0 <= j < i ensures !At(s + more, pattern, j) {
      assert !At(s, pattern, j);
      assert (s + more)[j..j + |pattern|] == s[j..j + |pattern|];
    }
  }

  lemma ParseAppend(json: Json, buffer: Bytes, more: Bytes)
    requires !Parse(json, buffer).Incomplete?
    ensures Parse(json, buffer + more) == match Parse(json, buffer)
                                            case Message(body, rest) => Message(body, rest + more)
                                            case other => other
  {
    FindAppend(buffer, SEPARATOR, more);
    var headerEnd := Find(buffer, SEPARATOR).value;
    assert (buffer + more)[..headerEnd] == buffer[..headerEnd];
    var length := ContentLength(buffer[..headerEnd]);
    if length.Some? {
      var bodyStart := headerEnd + |SEPARATOR|;
      var bodyEnd := bodyStart + length.value;
      assert (buffer + more)[bodyStart..bodyEnd] == buffer[bodyStart..bodyEnd];
      assert (buffer + more)[bodyEnd..] == buffer[bodyEnd..] + more;
    }
  }

  /** Draining what is left together with more bytes is draining everything at once. */
  lemma {:induction false} DrainAppend(json: Json, buffer: Bytes, delivered: seq<Bytes>, more: Bytes)
    ensures var first := Drain(json, buffer, delivered);
            var whole := Drain(json, buffer + more, delivered);
            if first.failed then whole.failed && whole.delivered == first.delivered
            else whole == Drain(json, first.buffer + more, first.delivered)
    decreases |buffer|
  {
    if !Parse(json, buffer).Incomplete? {
      ParseAppend(json, buffer, more);
      match Parse(json, buffer)
      case Message(body, rest) => if !json(body).Null? { DrainAppend(json, rest, delivered + [body], more); }
      case _ =>
    }
  }

  /** Equal up to the bytes left behind by a parse that threw. */
  predicate SameOutcome(a: Receiver, b: Receiver) {
    a.delivered == b.delivered && a.failed == b.failed && (!a.failed ==> a.buffer == b.buffer)
  }

  /** Two chunks are as good as one. */
  lemma FeedTwice(json: Json, r: Receiver, a: Bytes, b: Bytes)
    ensures SameOutcome(Feed(json, Feed(json, r, a), b), Feed(json, r, a + b))
  {
    if !r.failed {
      assert r.buffer + (a + b) == (r.buffer + a) + b;
      DrainAppend(json, r.buffer + a, r.delivered, b);
    }
  }

  /** However a byte stream is cut into chunks, the receiver ends up in the same state. */
  lemma {:induction false} ChunkingIrrelevant(json: Json, r: Receiver, chunks: seq<Bytes>)
    requires chunks != []
    ensures SameOutcome(FeedAll(json, r, chunks), Feed(json, r, Concat(chunks)))
    decreases |chunks|
  {
    var rest := chunks[1..];
    if rest == [] {
      assert Concat(chunks) == chunks[0] + Concat(rest) == chunks[0];
      assert FeedAll(json, r, chunks) == FeedAll(json, Feed(json, r, chunks[0]), rest);
    } else {
      ChunkingIrrelevant(json, Feed(json, r, chunks[0]), rest);
      FeedTwice(json, r, chunks[0], Concat(rest));
    }
  }

  // ---- frames come out as they went in

  predicate NoCarriageReturn(s: Bytes) {
    forall i | 0 <= i < |s| :: s[i] != '\r'
  }

  lemma FirstByteDiffers(s: Bytes, pattern: Bytes, i: nat)
    requires i < |s| && pattern != [] && s[i] != pattern[0]
    ensures !At(s, pattern, i)
  {
    if i + |pattern| <= |s| {
      assert s[i..i + |pattern|][0] == s[i];
    }
  }

  lemma HeaderHasNoCarriageReturn(body: Bytes)
    ensures NoCarriageReturn(Header(body))
  {
    assert NoCarriageReturn(LENGTH_HEADER) && NoCarriageReturn(Decimal(|body|));
  }

  lemma SeparatorEndsHeader(body: Bytes, more: Bytes)
    ensures Find(Frame(body) + more, SEPARATOR) == Some(|Header(body)|)
  {
    var h := Header(body);
    var s := Frame(body) + more;
    HeaderHasNoCarriageReturn(body);
    assert s[|h|..|h| + |SEPARATOR|] == SEPARATOR;
    assert At(s, SEPARATOR, |h|);
    forall i | 0 <= i < |h| ensures !At(s, SEPARATOR, i) {
      assert s[i] == h[i];
      FirstByteDiffers(s, SEPARATOR, i);
    }
  }

  lemma HeaderLength(body: Bytes)
    ensures ContentLength(Header(body)) == Some(|body|)
  {
    var h := Header(body);
    var n := |LENGTH_HEADER|;
    assert LowerAll(h)[0..n] == LowerAll(LENGTH_HEADER);
    assert h[n] == Decimal(|body|)[0];
    var end := DigitsEnd(h, n);
    assert forall i | n <= i < |h| :: h[i] == Decimal(|body|)[i - n];
    assert h[n..end] == Decimal(|body|);
    DecimalRoundTrip(|body|);
  }

  lemma ParseFrame(json: Json, body: Bytes, more: Bytes)
    requires !json(body).NotJson?
    ensures Parse(json, Frame(body) + more) == Message(body, more)
  {
    var h := Header(body);
    var s := Frame(body) + more;
    SeparatorEndsHeader(body, more);
    HeaderLength(body);
    assert s[..|h|] == h;
    var bodyStart := |h| + |SEPARATOR|;
    assert s[bodyStart..bodyStart + |body|] == body;
    assert s[bodyStart + |body|..] == more;
  }

  // ---- the wire format

  /** The letter at `k` of `Content-Length: `, large or small. */
  predicate IsLetter(c: char, k: nat)
    requires k < 16
  {
    c == "Content-Length: "[k] || c == "content-length: "[k] || c == "CONTENT-LENGTH: "[k]
  }

  predicate AreWords(words: Bytes) {
    |words| == 16 && forall k | 0 <= k < 16 :: IsLetter(words[k], k)
  }

  /** The header has `Content-Length: ` at `i`, in any mix of case, and a digit after it. */
  predicate NamesLength(header: Bytes, i: nat) {
    i + 16 < |header| && AreWords(header[i..i + 16]) && IsDigit(header[i + 16])
  }

  lemma LetterIff(c: char, k: nat)
    requires k < 16
    ensures IsLetter(c, k) <==> Lower(c) == Lower(LENGTH_HEADER[k])
  {
  }

  lemma WordsIff(words: Bytes)
    requires |words| == 16
    ensures AreWords(words) <==> LowerAll(words) == LowerAll(LENGTH_HEADER)
  {
    forall k | 0 <= k < 16 ensures IsLetter(words[k], k) <==> LowerAll(words)[k] == LowerAll(LENGTH_HEADER)[k] {
      LetterIff(words[k], k);
    }
  }

  lemma NamesLengthIff(header: Bytes, i: nat)
    ensures NamesLength(header, i)
       <==> At(LowerAll(header), LowerAll(LENGTH_HEADER), i) && i + 16 < |header| && IsDigit(header[i + 16])
  {
    if i + 16 < |header| {
      WordsIff(header[i..i + 16]);
      assert LowerAll(header)[i..i + 16] == LowerAll(header[i..i + 16]);
    }
  }

  /** The length of a header is the number after the first such words. */
  lemma {:induction false} FirstLength(header: Bytes, from: nat, i: nat, end: nat)
    requires from <= i && NamesLength(header, i) && forall j: nat | from <= j < i :: !NamesLength(header, j)
    requires i + 16 < end <= |header| && AllDigits(header[i + 16..end]) && (end < |header| ==> !IsDigit(header[end]))
    ensures LengthFrom(header, from) == Some(DigitsValue(header[i + 16..end]))
    decreases i - from
  {
    NamesLengthIff(header, from);
    if from < i {
      FirstLength(header, from + 1, i, end);
    } else {
      DigitsRun(header, i + 16, end);
    }
  }

  lemma {:induction false} DigitsRun(s: Bytes, i: nat, end: nat)
    requires i <= end <= |s| && AllDigits(s[i..end]) && (end < |s| ==> !IsDigit(s[end]))
    ensures DigitsEnd(s, i) == end
    decreases end - i
  {
    if i < end {
      assert s[i..end][0] == s[i] && s[i..end][1..] == s[i + 1..end];
      DigitsRun(s, i + 1, end);
    }
  }

  lemma {:induction false} NoLength(header: Bytes, from: nat)
    requires from <= |header| && forall j: nat | from <= j :: !NamesLength(header, j)
    ensures LengthFrom(header, from) == None
    decreases |header| - from
  {
    NamesLengthIff(header, from);
    if from < |header| {
      NoLength(header, from + 1);
    }
  }

  /** No blank line, not even one that the end of the header begins. */
  predicate IsHeader(header: Bytes) {
    forall i: nat | i < |header| :: !At(header + "\r\n\r\n", "\r\n\r\n", i)
  }

  lemma HeaderEnds(header: Bytes, more: Bytes)
    requires IsHeader(header)
    ensures Find(header + ("\r\n\r\n" + more), SEPARATOR) == Some(|header|)
  {
    var s, cut := header + ("\r\n\r\n" + more), header + "\r\n\r\n";
    assert s == cut + more;
    assert cut[|header|..|header| + 4] == "\r\n\r\n";
    assert At(cut, SEPARATOR, |header|);
    forall i: nat | i < |header| ensures !At(cut, SEPARATOR, i) {
      assert !At(header + "\r\n\r\n", "\r\n\r\n", i);
    }
    FindAppend(cut, SEPARATOR, more);
  }

  lemma HeaderedMessage(json: Json, header: Bytes, body: Bytes, more: Bytes)
    requires !json(body).NotJson? && IsHeader(header) && ContentLength(header) == Some(|body|)
    ensures Parse(json, header + ("\r\n\r\n" + (body + more))) == Message(body, more)
  {
    var s, start := header + ("\r\n\r\n" + (body + more)), |header| + 4;
    HeaderEnds(header, body + more);
    assert s[..|header|] == header;
    assert s == header + "\r\n\r\n" + body + more;
    assert s[start..start + |body|] == body && s[start + |body|..] == more;
  }

  /**
   Lines before, `Content-Length: ` in any mix of case, a numeral, lines after, a blank line: the body
   has that many bytes, and what follows it is kept.
   */
  lemma WireFormat(json: Json, before: Bytes, words: Bytes, digits: Bytes, after: Bytes, body: Bytes, more: Bytes)
    requires !json(body).NotJson? && AreWords(words)
    requires digits != [] && AllDigits(digits) && DigitsValue(digits) == |body| && (after == [] || !IsDigit(after[0]))
    requires forall j: nat | j < |before| :: !NamesLength(before + words + digits + after, j)
    requires IsHeader(before + words + digits + after)
    ensures Parse(json, before + words + digits + after + ("\r\n\r\n" + (body + more))) == Message(body, more)
  {
    var header, i := before + words + digits + after, |before|;
    assert header[i..i + 16] == words && header[i + 16] == digits[0];
    assert header[i + 16..i + 16 + |digits|] == digits;
    FirstLength(header, 0, i, i + 16 + |digits|);
    HeaderedMessage(json, header, body, more);
  }

  /** What has no such words in its header is not a message. */
  lemma WithoutLength(json: Json, header: Bytes, more: Bytes)
    requires IsHeader(header) && forall j: nat :: !NamesLength(header, j)
    ensures Parse(json, header + ("\r\n\r\n" + more)) == Malformed
  {
    HeaderEnds(header, more);
    NoLength(header, 0);
    assert (header + ("\r\n\r\n" + more))[..|header|] == header;
  }

  /** A message as it goes over the wire. */
  lemma WireMessage(json: Json, body: Bytes, more: Bytes)
    requires !json(body).NotJson?
    ensures Parse(json, "Content-Length: " + Decimal(|body|) + "\r\n\r\n" + body + more) == Message(body, more)
  {
    assert "Content-Length: " + Decimal(|body|) + "\r\n\r\n" + body + more == Frame(body) + more;
    ParseFrame(json, body, more);
  }

  /** A proper prefix of a frame is never taken for a message. */
  lemma PartialFrame(json: Json, body: Bytes, buffer: Bytes)
    requires buffer < Frame(body)
    ensures Parse(json, buffer) == Incomplete
  {
    var h := Header(body);
    assert Frame(body) + [] == Frame(body);
    SeparatorEndsHeader(body, []);
    if Find(buffer, SEPARATOR).Some? {
      var more := Frame(body)[|buffer|..];
      assert buffer + more == Frame(body);
      FindAppend(buffer, SEPARATOR, more);
      assert buffer[..|h|] == Frame(body)[..|h|] == h;
      HeaderLength(body);
    }
  }

  /** `k` frames are complete within the first `n` bytes of the stream, and no more. */
  predicate CompleteFrames(bodies: seq<Bytes>, n: nat, k: nat) {
    && k <= |bodies|
    && |Frames(bodies[..k])| <= n
    && (k < |bodies| ==> n < |Frames(bodies[..k + 1])|)
  }

  /** What `DrainPrefix` says of a buffer with `k` complete frames. */
  predicate Drained(json: Json, bodies: seq<Bytes>, buffer: Bytes, delivered: seq<Bytes>, k: nat) {
    && CompleteFrames(bodies, |buffer|, k)
    && Drain(json, buffer, delivered) == Receiver(buffer[|Frames(bodies[..k])|..], delivered + bodies[..k], false)
  }

  lemma {:induction false} DrainPrefix(json: Json, bodies: seq<Bytes>, buffer: Bytes, delivered: seq<Bytes>)
    returns (k: nat)
    requires (forall b | b in bodies :: json(b).Value?) && buffer <= Frames(bodies)
    ensures Drained(json, bodies, buffer, delivered, k)
    decreases |bodies|
  {
    if bodies == [] || |buffer| < |Frame(bodies[0])| {
      k := 0;
      DrainNothing(json, bodies, buffer, delivered);
    } else {
      var rest := buffer[|Frame(bodies[0])|..];
      PastFirstFrame(bodies, buffer);
      var m := DrainPrefix(json, bodies[1..], rest, delivered + [bodies[0]]);
      ParseFrame(json, bodies[0], rest);
      OneFrameMore(bodies, rest, m);
      DrainOne(json, bodies, buffer, rest, delivered, m);
      k := m + 1;
    }
  }

  lemma DrainNothing(json: Json, bodies: seq<Bytes>, buffer: Bytes, delivered: seq<Bytes>)
    requires buffer <= Frames(bodies) && (bodies != [] ==> |buffer| < |Frame(bodies[0])|)
    ensures Drained(json, bodies, buffer, delivered, 0)
  {
    if bodies == [] {
      assert Find(buffer, SEPARATOR) == None;
    } else {
      FirstFrame(bodies);
      assert buffer == Frames(bodies)[..|buffer|] == Frame(bodies[0])[..|buffer|];
      PartialFrame(json, bodies[0], buffer);
    }
  }

  lemma DrainOne(json: Json, bodies: seq<Bytes>, buffer: Bytes, rest: Bytes, delivered: seq<Bytes>, m: nat)
    requires bodies != [] && Parse(json, buffer) == Message(bodies[0], rest) && json(bodies[0]).Value?
    requires Drained(json, bodies[1..], rest, delivered + [bodies[0]], m)
    requires CompleteFrames(bodies, |buffer|, m + 1)
    requires buffer[|Frames(bodies[..m + 1])|..] == rest[|Frames(bodies[1..][..m])|..]
    ensures Drained(json, bodies, buffer, delivered, m + 1)
  {
    assert delivered + [bodies[0]] + bodies[1..][..m] == delivered + bodies[..m + 1];
  }

  lemma FirstFrame(bodies: seq<Bytes>)
    requires bodies != []
    ensures Frames(bodies[..1]) == Frame(bodies[0])
  {
    assert bodies[..1] == [bodies[0]];
    assert Frames([bodies[0]]) == Frame(bodies[0]) + Frames([bodies[0]][1..]);
  }

  lemma PastFirstFrame(bodies: seq<Bytes>, buffer: Bytes)
    requires bodies != [] && buffer <= Frames(bodies) && |Frame(bodies[0])| <= |buffer|
    ensures buffer == Frame(bodies[0]) + buffer[|Frame(bodies[0])|..]
    ensures buffer[|Frame(bodies[0])|..] <= Frames(bodies[1..])
  {
    var n := |Frame(bodies[0])|;
    assert Frames(bodies)[n..] == Frames(bodies[1..]);
    assert buffer[n..] == Frames(bodies)[n..|buffer|];
    assert buffer[..n] == Frame(bodies[0]);
  }

  lemma OneFrameMore(bodies: seq<Bytes>, rest: Bytes, m: nat)
    requires bodies != [] && CompleteFrames(bodies[1..], |rest|, m)
    ensures CompleteFrames(bodies, |Frame(bodies[0]) + rest|, m + 1)
    ensures (Frame(bodies[0]) + rest)[|Frames(bodies[..m + 1])|..] == rest[|Frames(bodies[1..][..m])|..]
  {
    FramesSplit(bodies, m);
    if m + 1 < |bodies| {
      FramesSplit(bodies, m + 1);
    }
  }

  lemma FramesSplit(bodies: seq<Bytes>, m: nat)
    requires bodies != [] && m + 1 <= |bodies|
    ensures Frames(bodies[..m + 1]) == Frame(bodies[0]) + Frames(bodies[1..][..m])
  {
    assert bodies[..m + 1][1..] == bodies[1..][..m];
  }

  /**
   After any chunks that make up a prefix of the framed stream, exactly the complete frames have
   been delivered, in order, and only the unfinished remainder is kept.
   */
  lemma DeliversCompleteFrames(json: Json, bodies: seq<Bytes>, chunks: seq<Bytes>) returns (k: nat)
    requires (forall b | b in bodies :: json(b).Value?) && Concat(chunks) <= Frames(bodies)
    ensures CompleteFrames(bodies, |Concat(chunks)|, k)
    ensures FeedAll(json, START, chunks)
         == Receiver(Concat(chunks)[|Frames(bodies[..k])|..], bodies[..k], false)
  {
    k := DrainPrefix(json, bodies, Concat(chunks), []);
    if chunks != [] {
      ChunkingIrrelevant(json, START, chunks);
      assert START.buffer + Concat(chunks) == Concat(chunks);
    } else {
      assert Find([], SEPARATOR) == None;
    }
    assert [] + bodies[..k] == bodies[..k];
  }

  /** The whole stream, in any chunks, delivers the messages that were sent and nothing else. */
  lemma DeliversEverything(json: Json, bodies: seq<Bytes>, chunks: seq<Bytes>)
    requires (forall b | b in bodies :: json(b).Value?) && Concat(chunks) == Frames(bodies)
    ensures FeedAll(json, START, chunks) == Receiver([], bodies, false)
  {
    var k := DeliversCompleteFrames(json, bodies, chunks);
    if k < |bodies| {
      FramesGrow(bodies, k + 1);
    } else {
      assert bodies[..k] == bodies;
    }
  }

  lemma {:induction false} FramesGrow(bodies: seq<Bytes>, k: nat)
    requires k <= |bodies|
    ensures |Frames(bodies[..k])| <= |Frames(bodies)|
  {
    if k > 0 {
      FramesGrow(bodies[1..], k - 1);
      FramesSplit(bodies, k - 1);
    }
  }

  // ---- requests and their answers

  /**
   Requests in flight. `answered` and `expired` record how requests ended; ids count up from one.
   */
  datatype Session = Session(nextId: nat, pending: set<nat>, answered: seq<(nat, Bytes)>, expired: seq<nat>)

  const NO_REQUESTS := Session(1, {}, [], [])

  datatype Event = Request | Response(reply: Option<nat>, body: Bytes) | Timeout(id: nat)

  /** A response settles the pending request with its id; any other message is ignored. */
  function Next(s: Session, e: Event): Session {
    match e
    case Request => s.(nextId := s.nextId + 1, pending := s.pending + {s.nextId})
    case Response(Some(id), body) =>
      if id in s.pending then s.(pending := s.pending - {id}, answered := s.answered + [(id, body)]) else s
    case Response(None, _) => s
    case Timeout(id) =>
      if id in s.pending then s.(pending := s.pending - {id}, expired := s.expired + [id]) else s
  }

  function Run(s: Session, events: seq<Event>): Session {
    if events == [] then s else Next(Run(s, events[..|events| - 1]), events[|events| - 1])
  }

  function Ids(answered: seq<(nat, Bytes)>): seq<nat> {
    seq(|answered|, i requires 0 <= i < |answered| => answered[i].0)
  }

  /** How often a request has ended: answered or timed out. */
  function Endings(s: Session, id: nat): nat {
    multiset(Ids(s.answered))[id] + multiset(s.expired)[id]
  }

  ghost predicate Conserved(s: Session) {
    && 1 <= s.nextId
    && forall id: nat :: (if id in s.pending then 1 else 0) + Endings(s, id) == (if 1 <= id < s.nextId then 1 else 0)
  }

  /** Whatever arrives, every request made is pending, answered once, or timed out once. */
  lemma {:induction false} EveryRequestAccountedFor(events: seq<Event>)
    ensures Conserved(Run(NO_REQUESTS, events))
  {
    if events != [] {
      EveryRequestAccountedFor(events[..|events| - 1]);
      NextConserves(Run(NO_REQUESTS, events[..|events| - 1]), events[|events| - 1]);
    } else {
      assert Ids([]) == [];
    }
  }

  lemma AnswerConserves(s: Session, id: nat, body: Bytes)
    requires Conserved(s) && id in s.pending
    ensures Conserved(s.(pending := s.pending - {id}, answered := s.answered + [(id, body)]))
  {
    assert Ids(s.answered + [(id, body)]) == Ids(s.answered) + [id];
  }

  lemma NextConserves(s: Session, e: Event)
    requires Conserved(s)
    ensures Conserved(Next(s, e))
  {
    match e
    case Response(Some(id), body) => if id in s.pending { AnswerConserves(s, id, body); }
    case Response(None, _) =>
    case Request => assert forall id: nat :: Endings(Next(s, e), id) == Endings(s, id);
    case Timeout(_) =>
  }

  // ---- the client's own state, updated in place

  class ReplayClient {
    const json: Json
    var buffer: Bytes
    var delivered: seq<Bytes>
    var failed: bool
    var session: Session

    constructor (json: Json)
      ensures this.json == json && Received() == START && session == NO_REQUESTS
    {
      this.json := json;
      buffer, delivered, failed := [], [], false;
      session := NO_REQUESTS;
    }

    ghost function Received(): Receiver
      reads this
    {
      Receiver(buffer, delivered, failed)
    }

    /** The id a body answers, if any. */
    function IdOf(body: Bytes): Option<nat> {
      if json(body).Value? then json(body).id else None
    }

    /** The session after messages have been handed to `Receive` one by one. */
    ghost function Settled(s: Session, bodies: seq<Bytes>): Session {
      if bodies == [] then s
      else
        var last := bodies[|bodies| - 1];
        Next(Settled(s, bodies[..|bodies| - 1]), Response(IdOf(last), last))
    }

    lemma SettledMore(s: Session, bodies: seq<Bytes>, body: Bytes)
      ensures Settled(s, bodies + [body]) == Next(Settled(s, bodies), Response(IdOf(body), body))
    {
      assert (bodies + [body])[..|bodies|] == bodies;
    }

    method OnData(chunk: Bytes) returns (ghost got: seq<Bytes>)
      requires !failed
      modifies this
      ensures Received() == Feed(json, old(Received()), chunk)
      ensures delivered == old(delivered) + got && session == Settled(old(session), got)
    {
      buffer := buffer + chunk;
      got := [];
      while true
        invariant !failed && delivered == old(delivered) + got
        invariant Drain(json, buffer, delivered) == Drain(json, old(buffer) + chunk, old(delivered))
        invariant session == Settled(old(session), got)
        decreases |buffer|
      {
        var message := TakeMessage();
        if message.None? {
          return;
        }
        Receive(message.value);
        if failed {
          return;
        }
        SettledMore(old(session), got, message.value);
        delivered := delivered + [message.value];
        got := got + [message.value];
      }
    }

    /** One turn of the loop: cuts the next message off the buffer, waits for more, or throws. */
    method TakeMessage() returns (message: Option<Bytes>)
      requires !failed
      modifies this`buffer, this`failed
      ensures match Parse(json, old(buffer))
              case Incomplete => message.None? && buffer == old(buffer) && !failed
              case Malformed => message.None? && buffer == old(buffer) && failed
              case Message(body, rest) => message == Some(body) && buffer == rest && !failed
    {
      var headerEnd := Find(buffer, SEPARATOR);
      if headerEnd.None? {
        return None;
      }
      var length := ContentLength(buffer[..headerEnd.value]);
      if length.None? {
        failed := true;
        return None;
      }
      var bodyStart := headerEnd.value + |SEPARATOR|;
      var bodyEnd := bodyStart + length.value;
      if |buffer| < bodyEnd {
        return None;
      }
      var body := buffer[bodyStart..bodyEnd];
      if json(body).NotJson? {
        failed := true;
        return None;
      }
      buffer := buffer[bodyEnd..];
      message := Some(body);
    }

    /** A message settles its request; `null` has no fields to read, and reading one throws. */
    method Receive(body: Bytes)
      requires !json(body).NotJson? && !failed
      modifies this`session, this`failed
      ensures failed <==> json(body).Null?
      ensures session == if json(body).Null? then old(session) else Next(old(session), Response(IdOf(body), body))
    {
      if json(body).Null? {
        failed := true;
        return;
      }
      var id := json(body).id;
      if id.None? || id.value !in session.pending {
        return;
      }
      session := session.(pending := session.pending - {id.value}, answered := session.answered + [(id.value, body)]);
    }

    method SendRequest(body: Bytes) returns (id: nat, wire: Bytes)
      requires !json(body).NotJson?
      modifies this`session
      ensures session == Next(old(session), Request) && id == old(session).nextId
      ensures wire == "Content-Length: " + Decimal(|body|) + "\r\n\r\n" + body
      ensures Parse(json, wire) == Message(body, [])
    {
      id := session.nextId;
      session := session.(nextId := id + 1, pending := session.pending + {id});
      wire := Frame(body);
      ParseFrame(json, body, []);
      assert wire + [] == wire;
    }
  }
}
