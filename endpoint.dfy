/**
 * Node: an endpoint with id `networkId * 16 + localId`. It sends each message line
 * with stop-and-wait (at most three data frames), classifies the acknowledgment that
 * arrives during each wait, answers inbound data frames with CRC_ERR or OK acks, and
 * injects link noise into what it transmits.
 */
module Endpoint {
  import opened Wrappers
  import opened Frames
  import opened Text

  const MaxRetries := 3

  /**
   * One draw of the node's random source for one transmission: `fires` is
   * `nextDouble() < 0.05`; for a data frame the flipped index is `draw` reduced
   * modulo the buffer length, as `nextInt(length)` would pick it.
   */
  datatype Noise = Noise(fires: bool, draw: nat)

  /** One write to the switch connection: the 2-byte length prefix and the bytes. */
  datatype Write = Write(lengthPrefix: int, bytes: seq<byte>)

  /** A line of the delivery log, "srcNet_srcLocal: message"; the message as its payload bytes. */
  datatype LogLine = LogLine(srcNet: int, srcLocal: int, message: seq<byte>)

  datatype SendOutcome =
    | Delivered(attempts: nat)   // an OK acknowledgment
    | Rejected(attempts: nat)    // a FIREWALL acknowledgment: not retried
    | Exhausted(attempts: nat)   // every attempt timed out or drew a retryable acknowledgment

  /** `b ^ 0x01`: the upper seven bits are kept and the low bit toggles. */
  function FlipLow(b: byte): (r: byte)
    ensures r / 2 == b / 2 && r % 2 != b % 2
  {
    if b % 2 == 0 then b + 1 else b - 1
  }

  /** What sendFrame writes: an ack may be dropped, a data frame may have one low bit flipped after checksumming. */
  function Transmit(f: Frame, noise: Noise): (ws: seq<Write>)
    ensures !noise.fires ==> ws == [Write(|Encode(f)|, Encode(f))]
    ensures IsAck(f) && noise.fires ==> ws == []
    ensures !IsAck(f) && noise.fires ==>
      (|ws| == 1 && ws[0].lengthPrefix == |Encode(f)|
       && exists i :: 0 <= i < |Encode(f)| && ws[0].bytes == Encode(f)[i := FlipLow(Encode(f)[i])])
  {
    var b := Encode(f);
    if IsAck(f) then
      if noise.fires then [] else [Write(|b|, b)]
    else if noise.fires then
      var i := noise.draw % |b|;
      var c := b[i := FlipLow(b[i])];
      [Write(|c|, c)]
    else [Write(|b|, b)]
  }

  /** Every write's length prefix is its buffer length, 5 + payload; only an ack can go missing. */
  lemma TransmitShape(f: Frame, noise: Noise)
    ensures |Transmit(f, noise)| <= 1
    ensures |Transmit(f, noise)| == 0 <==> IsAck(f) && noise.fires
    ensures forall w :: w in Transmit(f, noise) ==> w.lengthPrefix == |w.bytes| == HeaderLength + |f.data|
  {
    EncodeLayout(f);
  }

  /**
   * A corrupted data frame always reaches the local switch as malformed or with a bad
   * checksum. (The switch's own write re-stamps the checksum: see EndToEnd.)
   */
  lemma CorruptedDataIsDetected(f: Frame, noise: Noise)
    requires WellFormed(f) && !IsAck(f) && noise.fires
    ensures |Transmit(f, noise)| == 1
    ensures var r := FromBytes(Transmit(f, noise)[0].bytes); r.Err? || !CrcValid(r.value)
  {
    var b := Encode(f);
    EncodeLayout(f);
    var i := noise.draw % |b|;
    SingleByteChangeDetected(f, i, FlipLow(b[i]));
  }

  /** Without noise, the receiver decodes the same frame and its checksum checks. */
  lemma CleanTransmissionDecodes(f: Frame, noise: Noise)
    requires WellFormed(f) && !noise.fires
    ensures |Transmit(f, noise)| == 1
    ensures var r := FromBytes(Transmit(f, noise)[0].bytes);
      r.Ok? && CrcValid(r.value) && r.value.src == f.src && r.value.dst == f.dst
      && r.value.ackType == f.ackType && r.value.data == f.data && IsAck(r.value) == IsAck(f)
  {
    RoundTrip(f);
  }

  /** The ack type the waiting sender sees for one attempt: only an ack addressed to this node counts. */
  function Heard(nodeId: int, reply: Option<Frame>): (h: Option<byte>)
    ensures h.Some? <==> reply.Some? && IsAck(reply.value) && reply.value.dst == nodeId
  {
    if reply.Some? && IsAck(reply.value) && reply.value.dst == nodeId then Some(reply.value.ackType) else None
  }

  function HeardAll(nodeId: int, replies: seq<Option<Frame>>): (hs: seq<Option<byte>>)
    ensures |hs| == |replies| && forall i :: 0 <= i < |replies| ==> hs[i] == Heard(nodeId, replies[i])
  {
    seq(|replies|, i requires 0 <= i < |replies| => Heard(nodeId, replies[i]))
  }

  /** OK and FIREWALL end the send; no ack, CRC_ERR, TIMEOUT and unknown types lead to a retry. */
  predicate Stops(h: Option<byte>) {
    h == Some(AckOk) || h == Some(AckFirewall)
  }

  /** The outcome of the attempts from index `i` on, given what each attempt heard (OutcomeFromStops). */
  function OutcomeFrom(heard: seq<Option<byte>>, i: nat): (o: SendOutcome)
    requires i <= |heard|
    ensures o.attempts <= |heard| && (i < |heard| ==> i < o.attempts)
    decreases |heard| - i
  {
    if i == |heard| then Exhausted(i)
    else if heard[i] == Some(AckOk) then Delivered(i + 1)
    else if heard[i] == Some(AckFirewall) then Rejected(i + 1)
    else OutcomeFrom(heard, i + 1)
  }

  /**
   * The attempts from `i` on end at the first one that hears OK (delivered) or FIREWALL
   * (rejected); when none does, the send is exhausted after the last attempt.
   */
  lemma {:induction false} OutcomeFromStops(heard: seq<Option<byte>>, i: nat)
    requires i <= |heard|
    ensures var o := OutcomeFrom(heard, i);
      && (o.Exhausted? <==> forall j :: i <= j < |heard| ==> !Stops(heard[j]))
      && (o.Exhausted? ==> o.attempts == |heard|)
      && (o.Delivered? ==> heard[o.attempts - 1] == Some(AckOk))
      && (o.Rejected? ==> heard[o.attempts - 1] == Some(AckFirewall))
      && (!o.Exhausted? ==> i < o.attempts && forall j :: i <= j < o.attempts - 1 ==> !Stops(heard[j]))
    decreases |heard| - i
  {
    if i < |heard| && !Stops(heard[i]) {
      OutcomeFromStops(heard, i + 1);
    }
  }

  /** sendWithRetries as a function of what the three waits heard. */
  function RetryOutcome(heard: seq<Option<byte>>): SendOutcome
    requires |heard| == MaxRetries
  {
    OutcomeFrom(heard, 0)
  }

  /** The first attempt that hears OK or FIREWALL is the last one, and it decides the outcome. */
  lemma {:induction false} FirstStopDecides(heard: seq<Option<byte>>, k: nat)
    requires k < |heard| == MaxRetries && Stops(heard[k])
    requires forall j :: 0 <= j < k ==> !Stops(heard[j])
    ensures RetryOutcome(heard).attempts == k + 1
    ensures RetryOutcome(heard).Delivered? <==> heard[k] == Some(AckOk)
    ensures RetryOutcome(heard).Rejected? <==> heard[k] == Some(AckFirewall)
  {
    OutcomeFromStops(heard, 0);
    assert !RetryOutcome(heard).Exhausted?;
  }

  /** Failure is reported only after all three attempts, and exactly when none heard OK or FIREWALL. */
  lemma ExhaustedOnlyAfterAllAttempts(heard: seq<Option<byte>>)
    requires |heard| == MaxRetries
    ensures RetryOutcome(heard).Exhausted? <==> forall j :: 0 <= j < MaxRetries ==> !Stops(heard[j])
    ensures RetryOutcome(heard).Exhausted? ==> RetryOutcome(heard).attempts == MaxRetries
    ensures 1 <= RetryOutcome(heard).attempts <= MaxRetries
  {
    OutcomeFromStops(heard, 0);
  }

  /** The data-frame writes of the first `k` attempts. */
  function AttemptWrites(f: Frame, noises: seq<Noise>, k: nat): seq<Write>
    requires k <= |noises|
  {
    if k == 0 then [] else AttemptWrites(f, noises, k - 1) + Transmit(f, noises[k - 1])
  }

  /** Each attempt writes exactly one data frame, whatever the noise. */
  lemma {:induction false} OneWritePerAttempt(f: Frame, noises: seq<Noise>, k: nat)
    requires !IsAck(f) && k <= |noises|
    ensures |AttemptWrites(f, noises, k)| == k
  {
    if k > 0 {
      OneWritePerAttempt(f, noises, k - 1);
      TransmitShape(f, noises[k - 1]);
    }
  }

  /** Java's `networkId * 16 + localId`, an int expression. */
  function NodeIdOf(networkId: int, localId: int): (id: int)
    ensures MinInt <= id <= MaxInt
    ensures (id - (networkId * 16 + localId)) % 0x1_0000_0000 == 0
    ensures id % 256 == (networkId * 16 + localId) % 256
  {
    Wrap32KeepsLowByte(networkId * 16 + localId);
    Wrap32(networkId * 16 + localId)
  }

  /** For the ids the system uses, the id splits back into network and local id. */
  lemma AddressSplit(networkId: int, localId: int)
    requires 0 <= networkId < 16 && 0 <= localId < 16
    ensures NodeIdOf(networkId, localId) == networkId * 16 + localId
    ensures NodeIdOf(networkId, localId) / 16 == networkId && NodeIdOf(networkId, localId) % 16 == localId
  {
  }

  datatype SkipReason = BlankLine | NoColon | EmptyMessage | NoUnderscore | BadNumbers | PayloadLength(length: nat)

  /** What sendFromInputFile makes of one line of the message script `dstNet_dstLocal: text`. */
  datatype LineResult =
    | Skip(reason: SkipReason)
    | Send(dstNet: int, dstLocal: int, message: string, payload: seq<byte>)

  /**
   * The line parsing in sendFromInputFile. A blank line and a line without ':' are
   * skipped; what is sent is a non-empty message of 1..255 UTF-8 bytes. The lemmas
   * below say which field comes from which part of the line.
   */
  function ParseMessageLine(line: string): (r: LineResult)
    ensures Trim(line) == [] ==> r == Skip(BlankLine)
    ensures Trim(line) != [] && ':' !in Trim(line) ==> r == Skip(NoColon)
    ensures r.Send? ==> r.message != [] && r.payload == Utf8(r.message) && 1 <= |r.payload| <= MaxPayload
    ensures r.Send? ==> MinInt <= r.dstNet <= MaxInt && MinInt <= r.dstLocal <= MaxInt
  {
    var t := Trim(line);
    if |t| == 0 then Skip(BlankLine)
    else match SplitOnce(t, ':')
      case None => Skip(NoColon)
      case Some((dstPart0, message0)) =>
        var dstPart, message := Trim(dstPart0), Trim(message0);
        if |message| == 0 then Skip(EmptyMessage)
        else match SplitOnce(dstPart, '_')
          case None => Skip(NoUnderscore)
          case Some((netText, localText)) =>
            var net, local := ParseInt(netText), ParseInt(localText);
            if net.None? || local.None? then Skip(BadNumbers)
            else
              var payload := Utf8(message);
              if |payload| == 0 || |payload| > MaxPayload then Skip(PayloadLength(|payload|))
              else Send(net.value, local.value, message, payload)
  }

  /**
   * A line `a:b`, split at its first ':', is skipped when the trimmed message `b` is
   * empty, and otherwise when the trimmed destination `a` has no '_'.
   */
  lemma MessageLineParts(line: string, a: string, b: string)
    requires Trim(line) == a + [':'] + b && ':' !in a
    ensures Trim(b) == [] ==> ParseMessageLine(line) == Skip(EmptyMessage)
    ensures Trim(b) != [] && '_' !in Trim(a) ==> ParseMessageLine(line) == Skip(NoUnderscore)
  {
    SplitOnceOf(Trim(line), ':', a, b);
  }

  /**
   * A line `a:b` whose trimmed destination is `n_l` (split at the first '_') and whose
   * trimmed message is non-empty: skipped when `n` or `l` is not an int numeral (they are
   * not trimmed again), skipped when the message is not 1..255 bytes of UTF-8, and
   * otherwise sent to net `n`, local `l`.
   */
  lemma MessageLineTarget(line: string, a: string, b: string, n: string, l: string)
    requires Trim(line) == a + [':'] + b && ':' !in a && Trim(b) != []
    requires Trim(a) == n + ['_'] + l && '_' !in n
    ensures ParseInt(n).None? || ParseInt(l).None? ==> ParseMessageLine(line) == Skip(BadNumbers)
    ensures ParseInt(n).Some? && ParseInt(l).Some? ==>
      var m := Trim(b);
      ParseMessageLine(line) ==
        if 1 <= |Utf8(m)| <= MaxPayload then Send(ParseInt(n).value, ParseInt(l).value, m, Utf8(m))
        else Skip(PayloadLength(|Utf8(m)|))
  {
    SplitOnceOf(Trim(line), ':', a, b);
    SplitOnceOf(Trim(a), '_', n, l);
  }

  /** Conversely, every message sent comes from a line of that shape, with its fields read off those parts. */
  lemma SentLineFields(line: string) returns (a: string, b: string, n: string, l: string)
    requires ParseMessageLine(line).Send?
    ensures Trim(line) == a + [':'] + b && ':' !in a
    ensures Trim(a) == n + ['_'] + l && '_' !in n
    ensures var r := ParseMessageLine(line);
      r.message == Trim(b) && ParseInt(n) == Some(r.dstNet) && ParseInt(l) == Some(r.dstLocal)
  {
    var s1 := SplitOnce(Trim(line), ':').value;
    a, b := s1.0, s1.1;
    MessageLineParts(line, a, b);
    var s2 := SplitOnce(Trim(a), '_').value;
    n, l := s2.0, s2.1;
    MessageLineTarget(line, a, b, n, l);
  }

  /** A parsed line always makes a valid data frame, addressed to `dstNet * 16 + dstLocal` (as a byte). */
  lemma ParsedLineMakesDataFrame(src: int, r: LineResult)
    requires r.Send? && 1 <= |r.payload| <= MaxPayload
    ensures var f := DataFrame(src, NodeIdOf(r.dstNet, r.dstLocal), Some(r.payload));
      f.Ok? && f.value.dst == (r.dstNet * 16 + r.dstLocal) % 256 && f.value.data == r.payload
  {
    Wrap32KeepsLowByte(r.dstNet * 16 + r.dstLocal);
  }

  /** Java's int wrap-around never changes the low byte that a frame keeps of an id. */
  lemma Wrap32KeepsLowByte(x: int)
    ensures Wrap32(x) % 256 == x % 256
  {
    var q := (x - MinInt) / 0x1_0000_0000;
    assert Wrap32(x) == x - q * 0x1_0000_0000;
    assert q * 0x1_0000_0000 == (q * 0x100_0000) * 256;
  }

  /** `f` applied to each element of `s`, in order. */
  function Map<A, B>(f: A -> B, s: seq<A>): (r: seq<B>)
    ensures |r| == |s| && forall k :: 0 <= k < |s| ==> r[k] == f(s[k])
  {
    seq(|s|, k requires 0 <= k < |s| => f(s[k]))
  }

  lemma MapAppend<A, B>(f: A -> B, a: seq<A>, b: seq<A>)
    ensures Map(f, a + b) == Map(f, a) + Map(f, b)
  {
  }

  /** What each line of the script parses to, in line order. */
  function ParsedLines(lines: seq<string>): seq<LineResult> {
    Map(ParseMessageLine, lines)
  }

  /** The sends among a run of parse results, in order; the skips are dropped. */
  function Sends(rs: seq<LineResult>): (ms: seq<LineResult>)
    ensures |ms| <= |rs| && forall m :: 0 <= m < |ms| ==> ms[m].Send?
  {
    if |rs| == 0 then []
    else
      var n := |rs| - 1;
      Sends(rs[..n]) + (if rs[n].Send? then [rs[n]] else [])
  }

  /**
   * The messages the script sends: the lines that parse to a send, each parsed, in
   * line order (MessagesSnoc, MessagesAppend, MessagesAreParsedLines).
   */
  function Messages(lines: seq<string>): (ms: seq<LineResult>)
    ensures |ms| <= |lines| && forall m :: 0 <= m < |ms| ==> ms[m].Send?
  {
    Sends(ParsedLines(lines))
  }

  /** Filtering a concatenation filters each part. */
  lemma {:induction false} SendsAppend(x: seq<LineResult>, y: seq<LineResult>)
    ensures Sends(x + y) == Sends(x) + Sends(y)
  {
    if |y| == 0 {
      assert x + y == x;
    } else {
      LastSplit(x, y);
      SendsAppend(x, y[..|y| - 1]);
    }
  }

  /** Every send kept is one of the results. */
  lemma {:induction false} SendsAreResults(rs: seq<LineResult>)
    ensures forall m :: 0 <= m < |Sends(rs)| ==> Sends(rs)[m] in rs
  {
    if |rs| > 0 {
      var n := |rs| - 1;
      SendsAreResults(rs[..n]);
      forall m | 0 <= m < |Sends(rs)| ensures Sends(rs)[m] in rs {
        if m < |Sends(rs[..n])| {
          var x := Sends(rs[..n])[m];
          var k :| 0 <= k < n && rs[..n][k] == x;
          assert rs[k] == x;
        }
      }
    }
  }

  /** Every send among the results is kept. */
  lemma {:induction false} ResultsAreSends(rs: seq<LineResult>)
    ensures forall k :: 0 <= k < |rs| && rs[k].Send? ==> rs[k] in Sends(rs)
  {
    if |rs| > 0 {
      var n := |rs| - 1;
      ResultsAreSends(rs[..n]);
      forall k | 0 <= k < |rs| && rs[k].Send? ensures rs[k] in Sends(rs) {
        if k < n {
          assert rs[..n][k] == rs[k];
        }
      }
    }
  }

  /** `x` is what one of the lines parses to. */
  predicate ParsedFromSomeLine(lines: seq<string>, x: LineResult) {
    exists k :: 0 <= k < |lines| && x == ParseMessageLine(lines[k])
  }

  /** Every message is what some line of the script parses to. */
  lemma MessagesAreParsedLines(lines: seq<string>)
    ensures forall m :: 0 <= m < |Messages(lines)| ==> ParsedFromSomeLine(lines, Messages(lines)[m])
  {
    var rs := ParsedLines(lines);
    SendsAreResults(rs);
    forall m | 0 <= m < |Messages(lines)| ensures ParsedFromSomeLine(lines, Messages(lines)[m]) {
      var k :| 0 <= k < |rs| && rs[k] == Sends(rs)[m];
      assert rs[k] == ParseMessageLine(lines[k]);
    }
  }

  /** Every line that parses to a send contributes that message. */
  lemma ParsedLinesAreMessages(lines: seq<string>)
    ensures forall k :: 0 <= k < |lines| && ParseMessageLine(lines[k]).Send? ==> ParseMessageLine(lines[k]) in Messages(lines)
  {
    var rs := ParsedLines(lines);
    ResultsAreSends(rs);
    forall k | 0 <= k < |lines| && ParseMessageLine(lines[k]).Send? ensures ParseMessageLine(lines[k]) in Messages(lines) {
      assert rs[k] == ParseMessageLine(lines[k]);
    }
  }

  /** The messages of two runs of lines are the first run's followed by the second's. */
  lemma MessagesAppend(a: seq<string>, b: seq<string>)
    ensures Messages(a + b) == Messages(a) + Messages(b)
  {
    MapAppend(ParseMessageLine, a, b);
    SendsAppend(ParsedLines(a), ParsedLines(b));
  }

  lemma AppendAssoc<T>(a: seq<T>, b: seq<T>, c: seq<T>)
    ensures (a + b) + c == a + (b + c)
  {
  }

  /** The sequence identity the script loop relies on, kept apart from the parsing. */
  lemma SeqSplits<T>(s: seq<T>, k: nat)
    requires k < |s|
    ensures s[..k + 1] == s[..k] + [s[k]]
  {
  }

  /** One line contributes its parsed message, or nothing when it is skipped. */
  lemma MessagesSnoc(lines: seq<string>, line: string, r: LineResult)
    requires r == ParseMessageLine(line)
    ensures Messages(lines + [line]) == Messages(lines) + (if r.Send? then [r] else [])
  {
    MessagesAppend(lines, [line]);
    MapOne(ParseMessageLine, line);
    SendsOfOne(r);
  }

  lemma MapOne<A, B>(f: A -> B, x: A)
    ensures Map(f, [x]) == [f(x)]
  {
  }

  lemma SendsOfOne(x: LineResult)
    ensures Sends([x]) == if x.Send? then [x] else []
  {
    assert [x][..0] == [];
  }

  /** The step of the script loop: line `k` extends the messages of the lines before it. */
  lemma MessagesStep(lines: seq<string>, k: nat, r: LineResult)
    requires k < |lines| && r == ParseMessageLine(lines[k])
    ensures Messages(lines[..k + 1]) == Messages(lines[..k]) + (if r.Send? then [r] else [])
  {
    SeqSplits(lines, k);
    MessagesSnoc(lines[..k], lines[k], r);
  }


  /** Every entry of the run is a message to send. */
  predicate AllSends(msgs: seq<LineResult>) {
    forall m :: 0 <= m < |msgs| ==> msgs[m].Send?
  }

  /** One entry per attempt in each element: the draws or replies of one message. */
  predicate ThreeEach<T>(xs: seq<seq<T>>) {
    forall m :: 0 <= m < |xs| ==> |xs[m]| == MaxRetries
  }

  /** The report for one message: its destination id and how the send ended. */
  datatype Report = Report(dstId: int, outcome: SendOutcome)

  /** The report one message earns: its target id and the outcome its replies decide. */
  function ExpectedReport(nodeId: int, msg: LineResult, replies: seq<Option<Frame>>): Report
    requires msg.Send? && |replies| == MaxRetries
  {
    Report(NodeIdOf(msg.dstNet, msg.dstLocal), RetryOutcome(HeardAll(nodeId, replies)))
  }

  /** The reports of a run of messages, the m-th message answered by `replies[m]`. */
  function ExpectedReports(nodeId: int, msgs: seq<LineResult>, replies: seq<seq<Option<Frame>>>): (rs: seq<Report>)
    requires |msgs| <= |replies|
    requires AllSends(msgs) && ThreeEach(replies)
    ensures |rs| == |msgs|
  {
    if |msgs| == 0 then []
    else ExpectedReports(nodeId, msgs[..|msgs| - 1], replies) + [ExpectedReport(nodeId, msgs[|msgs| - 1], replies[|msgs| - 1])]
  }

  /** The m-th report is the m-th message's target id with the outcome of the m-th replies. */
  lemma {:induction false} ExpectedReportsAt(nodeId: int, msgs: seq<LineResult>, replies: seq<seq<Option<Frame>>>)
    requires |msgs| <= |replies|
    requires AllSends(msgs) && ThreeEach(replies)
    ensures forall m :: 0 <= m < |msgs| ==> ExpectedReports(nodeId, msgs, replies)[m] == ExpectedReport(nodeId, msgs[m], replies[m])
  {
    if |msgs| > 0 {
      var n := |msgs| - 1;
      ExpectedReportsAt(nodeId, msgs[..n], replies);
      forall m | 0 <= m < |msgs| ensures ExpectedReports(nodeId, msgs, replies)[m] == ExpectedReport(nodeId, msgs[m], replies[m]) {
        if m < n {
          assert msgs[..n][m] == msgs[m];
        }
      }
    }
  }

  lemma ExpectedReportsSnoc(nodeId: int, msgs: seq<LineResult>, msg: LineResult, replies: seq<seq<Option<Frame>>>)
    requires |msgs| < |replies|
    requires AllSends(msgs) && ThreeEach(replies)
    requires msg.Send?
    ensures ExpectedReports(nodeId, msgs + [msg], replies) == ExpectedReports(nodeId, msgs, replies) + [ExpectedReport(nodeId, msg, replies[|msgs|])]
  {
    assert (msgs + [msg])[..|msgs|] == msgs;
  }

  /**
   * What sendWithRetries writes for one message: the data frame to `dstNet * 16 + dstLocal`
   * carrying the message's UTF-8 bytes, once per attempt its replies allow. A payload
   * that dataFrame refuses writes nothing (ParseMessageLine never yields one).
   */
  function MessageWrites(nodeId: int, msg: LineResult, noises: seq<Noise>, replies: seq<Option<Frame>>): seq<Write>
    requires msg.Send? && |noises| == MaxRetries && |replies| == MaxRetries
  {
    match DataFrame(nodeId, NodeIdOf(msg.dstNet, msg.dstLocal), Some(msg.payload))
    case Ok(f) => AttemptWrites(f, noises, ExpectedReport(nodeId, msg, replies).outcome.attempts)
    case Err(_) => []
  }

  /** The writes of a run of messages, the m-th sent with `noises[m]` and answered by `replies[m]`. */
  function ExpectedWrites(nodeId: int, msgs: seq<LineResult>, noises: seq<seq<Noise>>, replies: seq<seq<Option<Frame>>>): seq<Write>
    requires |msgs| <= |noises| && |msgs| <= |replies|
    requires AllSends(msgs) && ThreeEach(noises) && ThreeEach(replies)
  {
    if |msgs| == 0 then []
    else
      var n := |msgs| - 1;
      ExpectedWrites(nodeId, msgs[..n], noises, replies) + MessageWrites(nodeId, msgs[n], noises[n], replies[n])
  }

  lemma ExpectedWritesSnoc(nodeId: int, msgs: seq<LineResult>, msg: LineResult, noises: seq<seq<Noise>>, replies: seq<seq<Option<Frame>>>)
    requires |msgs| < |noises| && |msgs| < |replies|
    requires AllSends(msgs) && ThreeEach(noises) && ThreeEach(replies)
    requires msg.Send?
    ensures ExpectedWrites(nodeId, msgs + [msg], noises, replies)
      == ExpectedWrites(nodeId, msgs, noises, replies) + MessageWrites(nodeId, msg, noises[|msgs|], replies[|msgs|])
  {
    assert (msgs + [msg])[..|msgs|] == msgs;
  }

  /** Attempt `j`'s write is the transmission of the frame under attempt `j`'s noise. */
  lemma {:induction false} AttemptWriteAt(f: Frame, noises: seq<Noise>, k: nat, j: nat)
    requires !IsAck(f) && j < k <= |noises|
    ensures |AttemptWrites(f, noises, k)| == k
    ensures AttemptWrites(f, noises, k)[j] == Transmit(f, noises[j])[0]
  {
    OneWritePerAttempt(f, noises, k);
    OneWritePerAttempt(f, noises, k - 1);
    TransmitShape(f, noises[k - 1]);
    if j < k - 1 {
      AttemptWriteAt(f, noises, k - 1, j);
    }
  }

  /**
   * Each write for a parsed message carries it to its destination: a clean attempt decodes,
   * with a valid checksum, to a frame from this node to `dstNet * 16 + dstLocal` (as bytes)
   * holding the message's UTF-8 bytes; a noisy one is malformed or fails its checksum.
   */
  lemma MessageWriteCarries(nodeId: int, msg: LineResult, noises: seq<Noise>, replies: seq<Option<Frame>>, j: nat)
    requires msg.Send? && 1 <= |msg.payload| <= MaxPayload
    requires |noises| == MaxRetries && |replies| == MaxRetries
    requires j < |MessageWrites(nodeId, msg, noises, replies)|
    ensures j < ExpectedReport(nodeId, msg, replies).outcome.attempts
    ensures var r := FromBytes(MessageWrites(nodeId, msg, noises, replies)[j].bytes);
      !noises[j].fires ==>
        r.Ok? && CrcValid(r.value) && !IsAck(r.value) && r.value.src == nodeId % 256
        && r.value.dst == (msg.dstNet * 16 + msg.dstLocal) % 256 && r.value.data == msg.payload
    ensures var r := FromBytes(MessageWrites(nodeId, msg, noises, replies)[j].bytes);
      noises[j].fires ==> r.Err? || !CrcValid(r.value)
  {
    ParsedLineMakesDataFrame(nodeId, msg);
    var f := DataFrame(nodeId, NodeIdOf(msg.dstNet, msg.dstLocal), Some(msg.payload)).value;
    var k := ExpectedReport(nodeId, msg, replies).outcome.attempts;
    OneWritePerAttempt(f, noises, k);
    AttemptWriteAt(f, noises, k, j);
    if noises[j].fires {
      CorruptedDataIsDetected(f, noises[j]);
    } else {
      CleanTransmissionDecodes(f, noises[j]);
    }
  }

  class Node {
    const networkId: int
    const localId: int
    const nodeId: int

    /** The fields shared with the receive thread under ackLock. */
    var waitingForAck: bool
    var ackReceived: bool
    var lastAckType: byte
    var lastAckFrom: int

    /** The delivery log (outputWriter). */
    var log: seq<LogLine>
    /** Everything written to the switch connection. */
    var wire: seq<Write>

    constructor (networkId: int, localId: int)
      ensures this.networkId == networkId && this.localId == localId
      ensures nodeId == NodeIdOf(networkId, localId)
      ensures !waitingForAck && !ackReceived && lastAckType == 0 && lastAckFrom == -1
      ensures log == [] && wire == []
    {
      this.networkId := networkId;
      this.localId := localId;
      nodeId := NodeIdOf(networkId, localId);
      waitingForAck, ackReceived, lastAckType, lastAckFrom := false, false, 0, -1;
      log, wire := [], [];
    }

    /** sendFrame: serialise, apply the noise draw, write the length prefix and the bytes. */
    method SendFrame(f: Frame, noise: Noise)
      modifies this`wire
      ensures wire == old(wire) + Transmit(f, noise)
    {
      var buf := ToBytes(f);
      if IsAck(f) {
        if noise.fires {
          return;
        }
      } else if noise.fires {
        var idx := noise.draw % buf.Length;
        buf[idx] := FlipLow(buf[idx]);
      }
      wire := wire + [Write(buf.Length, buf[..])];
    }

    /** handleAck: acks for other ids are ignored; type and sender are recorded only while waiting. */
    method HandleAck(f: Frame)
      modifies this`ackReceived, this`lastAckType, this`lastAckFrom
      ensures f.dst == nodeId && waitingForAck ==>
        ackReceived && lastAckType == f.ackType && lastAckFrom == f.src
      ensures !(f.dst == nodeId && waitingForAck) ==>
        ackReceived == old(ackReceived) && lastAckType == old(lastAckType) && lastAckFrom == old(lastAckFrom)
    {
      if f.dst != nodeId {
        return;
      }
      if waitingForAck {
        ackReceived := true;
        lastAckType := f.ackType;
        lastAckFrom := f.src;
      }
    }

    /** handleDataFrame: a bad checksum is answered with CRC_ERR and not logged; a good one is logged and answered OK. */
    method HandleDataFrame(f: Frame, noise: Noise)
      modifies this`log, this`wire
      ensures f.dst != nodeId ==> log == old(log) && wire == old(wire)
      ensures f.dst == nodeId && !CrcValid(f) ==>
        log == old(log) && wire == old(wire) + Transmit(AckFrame(nodeId, f.src, AckCrcErr), noise)
      ensures f.dst == nodeId && CrcValid(f) ==>
        log == old(log) + [LogLine(f.src / 16, f.src % 16, f.data)]
        && wire == old(wire) + Transmit(AckFrame(nodeId, f.src, AckOk), noise)
    {
      if f.dst != nodeId {
        return;
      }
      var valid := IsCrcValid(f);
      if !valid {
        var noAck := AckFrame(nodeId, f.src, AckCrcErr);
        SendFrame(noAck, noise);
        return;
      }
      var srcId := f.src;
      log := log + [LogLine(srcId / 16, srcId % 16, f.data)];
      var ack := AckFrame(nodeId, srcId, AckOk);
      SendFrame(ack, noise);
    }

    /**
     * One attempt of sendWithRetries: arm the ack fields, send the frame, take the reply
     * (if any) through the receive path, disarm. The result is the ack type heard, if any.
     */
    method Attempt(frame: Frame, noise: Noise, reply: Option<Frame>) returns (h: Option<byte>)
      modifies this`wire, this`waitingForAck, this`ackReceived, this`lastAckType, this`lastAckFrom
      ensures h == Heard(nodeId, reply)
      ensures wire == old(wire) + Transmit(frame, noise)
      ensures !waitingForAck
    {
      waitingForAck, ackReceived, lastAckType, lastAckFrom := true, false, 0, -1;
      SendFrame(frame, noise);
      if reply.Some? && IsAck(reply.value) {
        HandleAck(reply.value);
      }
      waitingForAck := false;
      h := if ackReceived then Some(lastAckType) else None;
    }

    /**
     * sendWithRetries. `noises[i]` is the random draw for attempt i's transmission and
     * `replies[i]` the frame the receive thread hands over during attempt i's wait
     * (None: nothing arrives before the deadline).
     */
    method SendWithRetries(dst: int, payload: seq<byte>, noises: seq<Noise>, replies: seq<Option<Frame>>)
      returns (outcome: SendOutcome)
      requires 1 <= |payload| <= MaxPayload
      requires |noises| == MaxRetries && |replies| == MaxRetries
      modifies this`wire, this`waitingForAck, this`ackReceived, this`lastAckType, this`lastAckFrom
      ensures outcome == RetryOutcome(HeardAll(nodeId, replies))
      ensures wire == old(wire) + AttemptWrites(DataFrame(nodeId, dst, Some(payload)).value, noises, outcome.attempts)
      ensures !waitingForAck
    {
      ghost var heard := HeardAll(nodeId, replies);
      ghost var frame0 := DataFrame(nodeId, dst, Some(payload)).value;
      var attempt := 0;
      while attempt < MaxRetries
        invariant 0 <= attempt <= MaxRetries
        invariant RetryOutcome(heard) == OutcomeFrom(heard, attempt)
        invariant wire == old(wire) + AttemptWrites(frame0, noises, attempt)
        invariant attempt > 0 ==> !waitingForAck
      {
        attempt := attempt + 1;
        var frame := DataFrame(nodeId, dst, Some(payload)).value;
        var h := Attempt(frame, noises[attempt - 1], replies[attempt - 1]);
        if h == Some(AckOk) {
          return Delivered(attempt);
        } else if h == Some(AckFirewall) {
          return Rejected(attempt);
        }
      }
      outcome := Exhausted(MaxRetries);
    }

    /** sendWithRetries on one parsed message, reported with its target id. */
    method SendMessage(r: LineResult, noises: seq<Noise>, replies: seq<Option<Frame>>) returns (report: Report)
      requires r.Send? && 1 <= |r.payload| <= MaxPayload
      requires |noises| == MaxRetries && |replies| == MaxRetries
      modifies this`wire, this`waitingForAck, this`ackReceived, this`lastAckType, this`lastAckFrom
      ensures report == ExpectedReport(nodeId, r, replies)
      ensures wire == old(wire) + MessageWrites(nodeId, r, noises, replies)
      ensures !waitingForAck
    {
      var dstId := NodeIdOf(r.dstNet, r.dstLocal);
      var outcome := SendWithRetries(dstId, r.payload, noises, replies);
      report := Report(dstId, outcome);
    }

    /**
     * The end of sendFromInputFile's loop body for a line that holds a message: send it and
     * report it. `msgs` are the messages of the lines before and `start` the wire
     * before the first line.
     */
    method SendNext(ghost msgs: seq<LineResult>, r: LineResult, noises: seq<seq<Noise>>, replies: seq<seq<Option<Frame>>>,
                    reports: seq<Report>, ghost start: seq<Write>)
      returns (reports': seq<Report>)
      requires |msgs| < |noises| && |msgs| < |replies|
      requires AllSends(msgs) && ThreeEach(noises) && ThreeEach(replies)
      requires r.Send? && 1 <= |r.payload| <= MaxPayload
      requires reports == ExpectedReports(nodeId, msgs, replies)
      requires wire == start + ExpectedWrites(nodeId, msgs, noises, replies)
      modifies this`wire, this`waitingForAck, this`ackReceived, this`lastAckType, this`lastAckFrom
      ensures AllSends(msgs + [r])
      ensures reports' == ExpectedReports(nodeId, msgs + [r], replies)
      ensures wire == start + ExpectedWrites(nodeId, msgs + [r], noises, replies)
      ensures !waitingForAck
    {
      var m := |reports|;
      var report := SendMessage(r, noises[m], replies[m]);
      ExpectedReportsSnoc(nodeId, msgs, r, replies);
      ExpectedWritesSnoc(nodeId, msgs, r, noises, replies);
      AppendAssoc(start, ExpectedWrites(nodeId, msgs, noises, replies), MessageWrites(nodeId, r, noises[m], replies[m]));
      reports' := reports + [report];
    }

    /**
     * The body of sendFromInputFile's loop for line `k`: parse it and, when it holds a message,
     * send it. `msgs` are the messages of the lines before and `msgs'` those up to line `k`.
     */
    method SendLine(lines: seq<string>, k: nat, noises: seq<seq<Noise>>, replies: seq<seq<Option<Frame>>>, reports: seq<Report>,
                    ghost msgs: seq<LineResult>, ghost start: seq<Write>, ghost wasWaiting: bool)
      returns (reports': seq<Report>, ghost msgs': seq<LineResult>)
      requires k < |lines| && |noises| == |lines| && |replies| == |lines|
      requires ThreeEach(noises) && ThreeEach(replies)
      requires msgs == Messages(lines[..k])
      requires reports == ExpectedReports(nodeId, msgs, replies)
      requires wire == start + ExpectedWrites(nodeId, msgs, noises, replies)
      requires waitingForAck == (wasWaiting && |msgs| == 0)
      modifies this`wire, this`waitingForAck, this`ackReceived, this`lastAckType, this`lastAckFrom
      ensures msgs' == Messages(lines[..k + 1])
      ensures reports' == ExpectedReports(nodeId, msgs', replies)
      ensures wire == start + ExpectedWrites(nodeId, msgs', noises, replies)
      ensures waitingForAck == (wasWaiting && |msgs'| == 0)
    {
      var r := ParseMessageLine(lines[k]);
      MessagesStep(lines, k, r);
      if r.Skip? {
        msgs', reports' := msgs, reports;
        return;
      }
      msgs' := msgs + [r];
      reports' := SendNext(msgs, r, noises, replies, reports, start);
    }

    /**
     * sendFromInputFile over the script's lines: parse each, skip the bad ones, and send
     * the m-th message with the m-th entry of `noises` and `replies`.
     */
    method SendFromLines(lines: seq<string>, noises: seq<seq<Noise>>, replies: seq<seq<Option<Frame>>>)
      returns (reports: seq<Report>)
      requires |noises| == |lines| && |replies| == |lines|
      requires ThreeEach(noises) && ThreeEach(replies)
      modifies this`wire, this`waitingForAck, this`ackReceived, this`lastAckType, this`lastAckFrom
      ensures reports == ExpectedReports(nodeId, Messages(lines), replies)
      ensures wire == old(wire) + ExpectedWrites(nodeId, Messages(lines), noises, replies)
      ensures waitingForAck == (old(waitingForAck) && |Messages(lines)| == 0)
    {
      reports := [];
      ghost var msgs: seq<LineResult> := [];
      for k := 0 to |lines|
        invariant msgs == Messages(lines[..k])
        invariant reports == ExpectedReports(nodeId, msgs, replies)
        invariant wire == old(wire) + ExpectedWrites(nodeId, msgs, noises, replies)
        invariant waitingForAck == (old(waitingForAck) && |msgs| == 0)
      {
        reports, msgs := SendLine(lines, k, noises, replies, reports, msgs, old(wire), old(waitingForAck));
      }
      assert lines[..|lines|] == lines;
    }
  }
}
