/**
 * CCSSwitch: the core switch. It learns the network id of each local-switch uplink,
 * forwards by network id with the shared table pattern, and screens data frames
 * through a 16x16 block matrix built from `<srcNet> <dstNet> <action>` rule lines.
 * A blocked data frame is replaced by a FIREWALL acknowledgment sent back to its source.
 */
module CoreSwitch {
  import opened Wrappers
  import opened Frames
  import opened Text
  import opened SwitchTables

  const MaxNet := 16

  predicate InRange(net: int) {
    0 <= net < MaxNet
  }

  /** What one rule line does to the matrix. */
  datatype LineEffect =
    | Blank                          // empty after trimming, or a `#` comment
    | TooFewTokens
    | BadNets                        // a net that Integer.parseInt rejects
    | OutOfRange(src: int, dst: int)
    | SetEntry(src: int, dst: int, block: bool)

  /** The action words that block: anything starting with "block" or "deny", or exactly "0", ignoring case. */
  predicate IsBlockAction(token: string) {
    var action := Lower(token);
    StartsWith(action, "block") || StartsWith(action, "deny") || action == "0"
  }

  /** The per-line logic of loadFirewallRules. */
  function RuleEffect(line: string): (e: LineEffect)
    ensures e.SetEntry? ==> InRange(e.src) && InRange(e.dst)
    ensures e.SetEntry? ==> var parts := Tokens(Trim(line));
      |parts| >= 3 && ParseInt(parts[0]) == Some(e.src) && ParseInt(parts[1]) == Some(e.dst)
      && e.block == IsBlockAction(parts[2])
    ensures var t := Trim(line); t == [] || t[0] == '#' ==> e == Blank
    ensures var t := Trim(line); var parts := Tokens(t);
      t != [] && t[0] != '#' && |parts| < 3 ==> e == TooFewTokens
    ensures var t := Trim(line); var parts := Tokens(t);
      t != [] && t[0] != '#' && |parts| >= 3 && (ParseInt(parts[0]).None? || ParseInt(parts[1]).None?) ==> e == BadNets
    ensures var t := Trim(line); var parts := Tokens(t);
      t != [] && t[0] != '#' && |parts| >= 3 && ParseInt(parts[0]).Some? && ParseInt(parts[1]).Some? ==>
        var s, d := ParseInt(parts[0]).value, ParseInt(parts[1]).value;
        e == if InRange(s) && InRange(d) then SetEntry(s, d, IsBlockAction(parts[2])) else OutOfRange(s, d)
  {
    var t := Trim(line);
    if |t| == 0 || t[0] == '#' then Blank
    else
      var parts := Tokens(t);
      if |parts| < 3 then TooFewTokens
      else
        var srcNet, dstNet := ParseInt(parts[0]), ParseInt(parts[1]);
        if srcNet.None? || dstNet.None? then BadNets
        else if InRange(srcNet.value) && InRange(dstNet.value) then SetEntry(srcNet.value, dstNet.value, IsBlockAction(parts[2]))
        else OutOfRange(srcNet.value, dstNet.value)
  }

  /** A line of three space-separated words splits into those three words. */
  lemma ThreeTokens(a: string, b: string, c: string)
    requires IsWord(a) && IsWord(b) && IsWord(c)
    ensures Tokens(a + ([' '] + (b + ([' '] + c)))) == [a, b, c]
  {
    var rest2 := [' '] + c;
    var rest1 := [' '] + (b + rest2);
    TokensOfWord(c);
    TokensSpace(c);
    TokensCons(b, rest2);
    TokensSpace(b + rest2);
    TokensCons(a, rest1);
    assert [a] + ([b] + [c]) == [a, b, c];
  }

  /** A net written by Integer.toString in 0..15 is a word that starts with a digit. */
  lemma NetWord(n: int)
    requires InRange(n)
    ensures IsWord(IntToString(n)) && IsDigit(IntToString(n)[0])
  {
    var w := IntToString(n);
    forall k | 0 <= k < |w| ensures !IsSpace(w[k]) {
      assert IsDigit(w[k]);
    }
  }

  /** A line of three words whose first starts with a digit and whose last ends in a visible character. */
  lemma RuleLineShape(a: string, b: string, action: string)
    requires IsWord(a) && IsWord(b) && IsWord(action) && IsDigit(a[0]) && !IsTrimmed(action[|action| - 1])
    ensures var line := a + ([' '] + (b + ([' '] + action)));
      Trim(line) == line && line[0] != '#' && Tokens(line) == [a, b, action]
  {
    var line := a + ([' '] + (b + ([' '] + action)));
    ThreeTokens(a, b, action);
    assert line[0] == a[0];
    assert line[|line| - 1] == action[|action| - 1];
    TrimKeeps(line);
  }

  /**
   * A line `<s> <d> <action>` with both nets written in decimal and in 0..15 sets entry
   * (s, d), blocked exactly when the action is a block word.
   */
  lemma RuleLineSetsEntry(s: int, d: int, action: string)
    requires InRange(s) && InRange(d)
    requires IsWord(action) && !IsTrimmed(action[|action| - 1])
    ensures RuleEffect(IntToString(s) + ([' '] + (IntToString(d) + ([' '] + action))))
      == SetEntry(s, d, IsBlockAction(action))
  {
    NetWord(s);
    NetWord(d);
    RuleLineShape(IntToString(s), IntToString(d), action);
    ParseIntRoundTrip(s);
    ParseIntRoundTrip(d);
  }

  /** A string that neither starts nor ends with a character up to U+0020 is its own trim. */
  lemma TrimKeeps(line: string)
    requires line != [] && !IsTrimmed(line[0]) && !IsTrimmed(line[|line| - 1])
    ensures Trim(line) == line
  {
    assert TrimStart(line) == line;
    assert TrimEnd(line) == line;
  }

  /** The matrix entry for (s, d) after reading `lines`: the last line that sets it decides; default not blocked. */
  function BlockedAfter(lines: seq<string>, s: int, d: int): (blocked: bool)
    ensures blocked ==> InRange(s) && InRange(d)
  {
    if |lines| == 0 then false
    else match RuleEffect(lines[|lines| - 1])
      case SetEntry(s', d', b) => if s' == s && d' == d then b else BlockedAfter(lines[..|lines| - 1], s, d)
      case _ => BlockedAfter(lines[..|lines| - 1], s, d)
  }

  /** isBlocked in terms of the rules: out-of-range nets are never blocked. */
  function Policy(rules: seq<string>, srcNet: int, dstNet: int): bool {
    InRange(srcNet) && InRange(dstNet) && BlockedAfter(rules, srcNet, dstNet)
  }

  /** Whether the rules block a frame's source network from reaching its destination network. */
  predicate Blocks(rules: seq<string>, frame: Frame) {
    Policy(rules, frame.src / 16, frame.dst / 16)
  }

  /**
   * The firewall step of handleFrameFromCAS, given the matrix lookup for the frame's
   * networks: the frame to route and the sender to exclude.
   */
  function Screen(frame: Frame, from: Option<ConnId>, blocked: bool): (r: (Frame, Option<ConnId>))
    ensures IsAck(frame) || !blocked ==> r == (frame, from)
    ensures !IsAck(frame) && blocked ==>
      (IsAck(r.0) && r.0.ackType == AckFirewall && r.0.data == []
       && r.0.src == frame.dst && r.0.dst == frame.src && r.1 == None)
  {
    if IsAck(frame) then (frame, from)
    else if blocked then (AckFrame(frame.dst, frame.src, AckFirewall), None)
    else (frame, from)
  }

  /** A line that is a comment, blank, malformed or out of range leaves every entry as it was. */
  lemma SkippedLineKeepsMatrix(lines: seq<string>, line: string, s: int, d: int)
    requires !RuleEffect(line).SetEntry?
    ensures BlockedAfter(lines + [line], s, d) == BlockedAfter(lines, s, d)
  {
    assert (lines + [line])[..|lines|] == lines;
  }

  /** A valid line sets its own entry, overriding any earlier line, and no other entry. */
  lemma LaterLineOverrides(lines: seq<string>, line: string, s: int, d: int)
    requires RuleEffect(line).SetEntry?
    ensures var e := RuleEffect(line);
      BlockedAfter(lines + [line], s, d) == if e.src == s && e.dst == d then e.block else BlockedAfter(lines, s, d)
  {
    assert (lines + [line])[..|lines|] == lines;
  }

  /** An entry is blocked only if some line sets it to block; with no such line the default, allow, stands. */
  lemma {:induction false} BlockedOnlyByARule(lines: seq<string>, s: int, d: int)
    requires BlockedAfter(lines, s, d)
    ensures exists k :: 0 <= k < |lines| && RuleEffect(lines[k]) == SetEntry(s, d, true)
  {
    var n := |lines| - 1;
    var e := RuleEffect(lines[n]);
    if e == SetEntry(s, d, true) {
    } else {
      BlockedOnlyByARule(lines[..n], s, d);
      var k :| 0 <= k < n && RuleEffect(lines[..n][k]) == SetEntry(s, d, true);
      assert lines[..n][k] == lines[k];
    }
  }

  /** Acknowledgments pass the firewall unchanged, whatever the matrix says. */
  lemma AcksAlwaysPass(frame: Frame, from: Option<ConnId>, blocked: bool)
    requires IsAck(frame)
    ensures Screen(frame, from, blocked) == (frame, from)
  {
  }

  /**
   * A blocked data frame is never delivered: what is routed instead, with no excluded
   * sender, is a FIREWALL acknowledgment from the intended destination back to the source.
   */
  lemma BlockedFrameBouncesBack(frame: Frame, from: Option<ConnId>, blocked: bool)
    requires !IsAck(frame) && blocked
    ensures var (g, exclude) := Screen(frame, from, blocked);
      && exclude == None && g != frame
      && IsAck(g) && g.ackType == AckFirewall && g.data == []
      && g.src == frame.dst && g.dst == frame.src
  {
  }

  /** So no delivery of the routed result carries the blocked frame. */
  lemma BlockedFrameNeverDelivered(table: map<int, ConnId>, clients: seq<ConnId>,
                                   frame: Frame, from: Option<ConnId>, blocked: bool)
    requires !IsAck(frame) && blocked
    ensures var (g, exclude) := Screen(frame, from, blocked);
      forall dl :: dl in Route(table, clients, g.dst / 16, exclude, g) ==>
        dl.frame != frame && IsAck(dl.frame) && dl.frame.dst == frame.src
  {
    BlockedFrameBouncesBack(frame, from, blocked);
  }

  /** An allowed data frame is routed unchanged, excluding its sender. */
  lemma AllowedFramePasses(frame: Frame, from: Option<ConnId>, blocked: bool)
    requires !IsAck(frame) && !blocked
    ensures Screen(frame, from, blocked) == (frame, from)
  {
  }

  class CcsSwitch {
    /** firewallBlock, indexed [srcNet, dstNet]. */
    const block: array2<bool>
    /** The rule lines the matrix was built from (none when the rule file could not be read). */
    ghost const rules: seq<string>

    /** networkTable: network id to the uplink connection it was last seen on. */
    var networkTable: map<int, ConnId>
    var clients: seq<ConnId>
    /** Each handler's `networkId` field; absent while it is still null. */
    var networkIdOf: map<ConnId, int>
    var frameBuffer: seq<Frame>
    var nextConn: ConnId

    ghost predicate Valid()
      reads this, block
    {
      && block.Length0 == MaxNet && block.Length1 == MaxNet
      && (forall s, d :: InRange(s) && InRange(d) ==> block[s, d] == BlockedAfter(rules, s, d))
      && Distinct(clients)
      && (forall c :: c in clients ==> c < nextConn)
      && (forall k :: k in networkTable ==> networkTable[k] < nextConn)
      && (forall c :: c in networkIdOf ==> c < nextConn)
    }

    /** The constructor loads the rules; `ruleFile == None` is a missing or unreadable firewall file. */
    constructor (ruleFile: Option<seq<string>>)
      ensures Valid()
      ensures rules == (if ruleFile.Some? then ruleFile.value else [])
      ensures networkTable == map[] && clients == [] && networkIdOf == map[] && frameBuffer == []
    {
      block := new bool[MaxNet, MaxNet];
      rules := if ruleFile.Some? then ruleFile.value else [];
      networkTable, clients, networkIdOf, frameBuffer := map[], [], map[], [];
      nextConn := 0;
      new;
      LoadFirewallRules(ruleFile);
    }

    /** loadFirewallRules: clear the matrix, then apply the lines in order. */
    method LoadFirewallRules(ruleFile: Option<seq<string>>)
      requires block.Length0 == MaxNet && block.Length1 == MaxNet
      modifies block
      ensures forall s, d :: InRange(s) && InRange(d) ==>
        block[s, d] == BlockedAfter(if ruleFile.Some? then ruleFile.value else [], s, d)
    {
      ClearMatrix();
      if ruleFile.None? {
        return;
      }
      var lines := ruleFile.value;
      for k := 0 to |lines|
        invariant forall s, d :: InRange(s) && InRange(d) ==> block[s, d] == BlockedAfter(lines[..k], s, d)
      {
        ghost var before := lines[..k];
        assert lines[..k + 1] == before + [lines[k]];
        var e := RuleEffect(lines[k]);
        if e.SetEntry? {
          block[e.src, e.dst] := e.block;
          forall s, d | InRange(s) && InRange(d)
            ensures block[s, d] == BlockedAfter(lines[..k + 1], s, d)
          {
            LaterLineOverrides(before, lines[k], s, d);
          }
        } else {
          forall s, d | InRange(s) && InRange(d)
            ensures block[s, d] == BlockedAfter(lines[..k + 1], s, d)
          {
            SkippedLineKeepsMatrix(before, lines[k], s, d);
          }
        }
      }
      assert lines[..|lines|] == lines;
    }

    /** The Arrays.fill loop: every entry starts as not blocked. */
    method ClearMatrix()
      requires block.Length0 == MaxNet && block.Length1 == MaxNet
      modifies block
      ensures forall s, d :: InRange(s) && InRange(d) ==> !block[s, d]
    {
      for i := 0 to MaxNet
        invariant forall s, d :: 0 <= s < i && InRange(d) ==> !block[s, d]
      {
        for j := 0 to MaxNet
          invariant forall s, d :: 0 <= s < i && InRange(d) ==> !block[s, d]
          invariant forall d :: 0 <= d < j ==> !block[i, d]
        {
          block[i, j] := false;
        }
      }
    }

    /** isBlocked: out-of-range nets are never blocked; otherwise the matrix entry. */
    function IsBlocked(srcNet: int, dstNet: int): (r: bool)
      requires Valid()
      reads this, block
      ensures r == Policy(rules, srcNet, dstNet)
    {
      if srcNet < 0 || srcNet >= MaxNet || dstNet < 0 || dstNet >= MaxNet then false
      else block[srcNet, dstNet]
    }

    method Accept() returns (c: ConnId)
      requires Valid()
      modifies this`clients, this`nextConn
      ensures Valid()
      ensures clients == old(clients) + [c]
      ensures c !in old(clients) && c !in networkTable.Values && c !in networkIdOf
    {
      c := nextConn;
      assert c !in networkTable.Values by {
        forall k | k in networkTable ensures networkTable[k] != c { assert networkTable[k] < nextConn; }
      }
      forall i | 0 <= i < |clients| ensures clients[i] < c {
        assert clients[i] in clients;
      }
      clients := clients + [c];
      nextConn := nextConn + 1;
    }

    /** ClientHandler.learnNetwork. */
    method LearnNetwork(c: ConnId, netId: int)
      requires Valid() && c in clients
      modifies this`networkTable, this`networkIdOf
      ensures Valid()
      ensures networkTable == Learn(old(networkTable), netId, c)
      ensures c in networkIdOf && networkIdOf[c] == (if c in old(networkIdOf) then old(networkIdOf)[c] else netId)
      ensures forall d :: d != c ==> (d in networkIdOf <==> d in old(networkIdOf)) && (d in networkIdOf ==> networkIdOf[d] == old(networkIdOf)[d])
    {
      networkTable := networkTable[netId := c];
      if c !in networkIdOf {
        networkIdOf := networkIdOf[c := netId];
      }
    }

    /** forwardFrame: route by destination network. */
    method ForwardFrame(frame: Frame, from: Option<ConnId>) returns (out: seq<Delivery>)
      ensures out == Route(networkTable, clients, frame.dst / 16, from, frame)
    {
      var dstNet := frame.dst / 16;
      if dstNet in networkTable && !IsSender(networkTable[dstNet], from) {
        return [Delivery(networkTable[dstNet], frame)];
      }
      out := [];
      for i := 0 to |clients|
        invariant out == Flood(clients[..i], from, frame)
      {
        assert clients[..i + 1][..i] == clients[..i];
        var other := clients[i];
        if !IsSender(other, from) {
          out := out + [Delivery(other, frame)];
        }
      }
      assert clients[..|clients|] == clients;
    }

    /** handleFrameFromCAS: acks pass; blocked data frames bounce as FIREWALL acks; allowed ones pass. */
    method HandleFrameFromLocal(frame: Frame, from: ConnId) returns (out: seq<Delivery>)
      requires Valid()
      ensures var (g, exclude) := Screen(frame, Some(from), Blocks(rules, frame));
        out == Route(networkTable, clients, g.dst / 16, exclude, g)
    {
      var srcNet, dstNet := frame.src / 16, frame.dst / 16;
      if IsAck(frame) {
        out := ForwardFrame(frame, Some(from));
        return;
      }
      if IsBlocked(srcNet, dstNet) {
        var nack := AckFrame(frame.dst, frame.src, AckFirewall);
        out := ForwardFrame(nack, None);
        return;
      }
      out := ForwardFrame(frame, Some(from));
    }

    /** ClientHandler.cleanup. */
    method Cleanup(c: ConnId)
      requires Valid()
      modifies this`networkTable, this`clients
      ensures Valid()
      ensures networkTable == Forget(old(networkTable), if c in networkIdOf then Some(networkIdOf[c]) else None, c)
      ensures clients == RemoveFirst(old(clients), c) && c !in clients
    {
      if c in networkIdOf {
        var id := networkIdOf[c];
        if id in networkTable && networkTable[id] == c {
          networkTable := networkTable - {id};
        }
      }
      clients := RemoveFirst(clients, c);
    }

    /** One pass of ClientHandler.run: decode, learn `src / 16`, buffer, handle; a malformed frame tears down. */
    method ReceiveFromLocal(c: ConnId, buf: seq<byte>) returns (r: Result<seq<Delivery>, FrameError>)
      requires Valid() && c in clients
      modifies this`networkTable, this`networkIdOf, this`frameBuffer, this`clients
      ensures Valid()
      ensures r.Ok? <==> FromBytes(buf).Ok?
      ensures r.Err? ==> r.error == FromBytes(buf).error && frameBuffer == old(frameBuffer) && networkIdOf == old(networkIdOf)
      ensures r.Err? ==> networkTable == Forget(old(networkTable), if c in networkIdOf then Some(networkIdOf[c]) else None, c)
      ensures r.Err? ==> clients == RemoveFirst(old(clients), c)
      ensures r.Ok? ==> var f := FromBytes(buf).value;
        && networkTable == Learn(old(networkTable), f.src / 16, c)
        && frameBuffer == old(frameBuffer) + [f]
        && clients == old(clients)
        && c in networkIdOf && networkIdOf[c] == (if c in old(networkIdOf) then old(networkIdOf)[c] else f.src / 16)
        && (forall d :: d != c ==> (d in networkIdOf <==> d in old(networkIdOf)) && (d in networkIdOf ==> networkIdOf[d] == old(networkIdOf)[d]))
        && var (g, exclude) := Screen(f, Some(c), Blocks(rules, f));
           r.value == Route(networkTable, clients, g.dst / 16, exclude, g)
    {
      var decoded := FromBytes(buf);
      if decoded.Err? {
        Cleanup(c);
        return Err(decoded.error);
      }
      var frame := decoded.value;
      LearnNetwork(c, frame.src / 16);
      frameBuffer := frameBuffer + [frame];
      var out := HandleFrameFromLocal(frame, c);
      r := Ok(out);
    }
  }
}
