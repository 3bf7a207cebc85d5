/**
 * CASSwitch: the per-segment switch. It learns node ids per connection, forwards
 * segment-local frames by the shared table pattern, relays other frames up to the
 * core switch (or drops them when there is no uplink), and forwards frames coming
 * down the uplink to its local nodes.
 */
module LocalSwitch {
  import opened Wrappers
  import opened Frames
  import opened SwitchTables

  /** What one frame from a node causes: writes to local connections and writes up the uplink. */
  datatype Step = Step(local: seq<Delivery>, uplink: seq<Frame>)

  /** The network a node id belongs to. */
  function NetworkOf(id: int): int {
    id / 16
  }

  class CasSwitch {
    const networkId: int
    /** `ccsHost != null`: a core switch is configured. */
    const hasCore: bool
    /** `ccsOut != null`: the uplink connection was established. */
    const uplinkUp: bool
    /** The uplink reader loop (`listenFromCCS`) is still running. */
    var uplinkListening: bool

    /** The switching table: node id to the connection it was last seen on. */
    var table: map<int, ConnId>
    /** The live node connections, in accept order. */
    var clients: seq<ConnId>
    /** Each handler's `nodeId` field; absent while it is still null. */
    var nodeIdOf: map<ConnId, int>
    /** Every frame received, from nodes and from the uplink, in arrival order. */
    var frameBuffer: seq<Frame>
    /** Connections are fresh objects: ids below this one have been handed out. */
    var nextConn: ConnId

    ghost predicate Valid()
      reads this
    {
      && Distinct(clients)
      && (forall c :: c in clients ==> c < nextConn)
      && (forall k :: k in table ==> table[k] < nextConn)
      && (forall c :: c in nodeIdOf ==> c < nextConn)
      && (uplinkUp ==> hasCore)
      && (uplinkListening ==> uplinkUp)
    }

    /** A switch for network `networkId`; `uplinkUp` says whether connecting to the core switch succeeded. */
    constructor (networkId: int, hasCore: bool, uplinkUp: bool)
      requires uplinkUp ==> hasCore
      ensures Valid()
      ensures this.networkId == networkId && this.hasCore == hasCore && this.uplinkUp == uplinkUp
      ensures uplinkListening == uplinkUp
      ensures table == map[] && clients == [] && nodeIdOf == map[] && frameBuffer == []
    {
      this.networkId := networkId;
      this.hasCore := hasCore;
      this.uplinkUp := uplinkUp;
      uplinkListening := uplinkUp;
      table, clients, nodeIdOf, frameBuffer := map[], [], map[], [];
      nextConn := 0;
    }

    /** The accept loop: a new ClientHandler joins the end of `clients`. */
    method Accept() returns (c: ConnId)
      requires Valid()
      modifies this`clients, this`nextConn
      ensures Valid()
      ensures clients == old(clients) + [c]
      ensures c !in old(clients) && c !in table.Values && c !in nodeIdOf
    {
      c := nextConn;
      assert c !in table.Values by {
        forall k | k in table ensures table[k] != c { assert table[k] < nextConn; }
      }
      forall i | 0 <= i < |clients| ensures clients[i] < c {
        assert clients[i] in clients;
      }
      clients := clients + [c];
      nextConn := nextConn + 1;
    }

    /** ClientHandler.learnNodeId: always overwrite the table entry; set the handler's own id only once. */
    method LearnNodeId(c: ConnId, srcId: int)
      requires Valid() && c in clients
      modifies this`table, this`nodeIdOf
      ensures Valid()
      ensures table == Learn(old(table), srcId, c)
      ensures c in nodeIdOf && nodeIdOf[c] == (if c in old(nodeIdOf) then old(nodeIdOf)[c] else srcId)
      ensures forall d :: d != c ==> (d in nodeIdOf <==> d in old(nodeIdOf)) && (d in nodeIdOf ==> nodeIdOf[d] == old(nodeIdOf)[d])
    {
      table := table[srcId := c];
      if c !in nodeIdOf {
        nodeIdOf := nodeIdOf[c := srcId];
      }
    }

    /** forwardLocalFrame: direct delivery to a learned destination, else flood every client but the sender. */
    method ForwardLocalFrame(frame: Frame, from: Option<ConnId>) returns (out: seq<Delivery>)
      ensures out == Route(table, clients, frame.dst, from, frame)
    {
      var dstId := frame.dst;
      if dstId in table && !IsSender(table[dstId], from) {
        return [Delivery(table[dstId], frame)];
      }
      out := [];
      for i := 0 to |clients|
        invariant out == Flood(clients[..i], from, frame)
      {
        assert clients[..i + 1][..i] == clients[..i];
        var other := clients[i];
        if !IsSender(other, from) {
          out := out + [Delivery(other, frame)];
        }
      }
      assert clients[..|clients|] == clients;
    }

    /** sendToCCS: write the frame up the uplink, or drop it when there is none. */
    method SendToCore(frame: Frame) returns (up: seq<Frame>)
      ensures up == if uplinkUp then [frame] else []
    {
      if !uplinkUp {
        return [];
      }
      up := [frame];
    }

    /** handleFrameFromNode: local when the destination is on this network or no core switch is configured. */
    method HandleFrameFromNode(frame: Frame, from: ConnId) returns (step: Step)
      ensures NetworkOf(frame.dst) == networkId || !hasCore ==>
        step == Step(Route(table, clients, frame.dst, Some(from), frame), [])
      ensures NetworkOf(frame.dst) != networkId && hasCore ==>
        step == Step([], if uplinkUp then [frame] else [])
    {
      var dstNet := NetworkOf(frame.dst);
      if dstNet == networkId || !hasCore {
        var out := ForwardLocalFrame(frame, Some(from));
        step := Step(out, []);
      } else {
        var up := SendToCore(frame);
        step := Step([], up);
      }
    }

    /** ClientHandler.cleanup: forget the handler's own id only if it still owns it, and leave `clients`. */
    method Cleanup(c: ConnId)
      requires Valid()
      modifies this`table, this`clients
      ensures Valid()
      ensures table == Forget(old(table), if c in nodeIdOf then Some(nodeIdOf[c]) else None, c)
      ensures clients == RemoveFirst(old(clients), c) && c !in clients
    {
      if c in nodeIdOf {
        var id := nodeIdOf[c];
        if id in table && table[id] == c {
          table := table - {id};
        }
      }
      clients := RemoveFirst(clients, c);
    }

    /**
     * One pass of ClientHandler.run on the bytes of one frame: decode, learn the source,
     * buffer the frame and handle it. A malformed frame ends the reader loop and tears
     * the connection down.
     */
    method ReceiveFromNode(c: ConnId, buf: seq<byte>) returns (r: Result<Step, FrameError>)
      requires Valid() && c in clients
      modifies this`table, this`nodeIdOf, this`frameBuffer, this`clients
      ensures Valid()
      ensures r.Ok? <==> FromBytes(buf).Ok?
      ensures r.Err? ==> r.error == FromBytes(buf).error && frameBuffer == old(frameBuffer) && nodeIdOf == old(nodeIdOf)
      ensures r.Err? ==> table == Forget(old(table), if c in nodeIdOf then Some(nodeIdOf[c]) else None, c)
      ensures r.Err? ==> clients == RemoveFirst(old(clients), c)
      ensures r.Ok? ==> var f := FromBytes(buf).value;
        && table == Learn(old(table), f.src, c)
        && frameBuffer == old(frameBuffer) + [f]
        && clients == old(clients)
        && c in nodeIdOf && nodeIdOf[c] == (if c in old(nodeIdOf) then old(nodeIdOf)[c] else f.src)
        && (forall d :: d != c ==> (d in nodeIdOf <==> d in old(nodeIdOf)) && (d in nodeIdOf ==> nodeIdOf[d] == old(nodeIdOf)[d]))
        && (NetworkOf(f.dst) == networkId || !hasCore ==> r.value == Step(Route(table, clients, f.dst, Some(c), f), []))
        && (NetworkOf(f.dst) != networkId && hasCore ==> r.value == Step([], if uplinkUp then [f] else []))
    {
      var decoded := FromBytes(buf);
      if decoded.Err? {
        Cleanup(c);
        return Err(decoded.error);
      }
      var frame := decoded.value;
      LearnNodeId(c, frame.src);
      frameBuffer := frameBuffer + [frame];
      var step := HandleFrameFromNode(frame, c);
      r := Ok(step);
    }

    /**
     * One pass of listenFromCCS: decode, buffer, and forward locally with no excluded
     * sender. A malformed frame ends the uplink reader.
     */
    method ReceiveFromCore(buf: seq<byte>) returns (r: Result<seq<Delivery>, FrameError>)
      requires Valid() && uplinkListening
      modifies this`frameBuffer, this`uplinkListening
      ensures Valid()
      ensures r.Ok? <==> FromBytes(buf).Ok?
      ensures r.Err? ==> r.error == FromBytes(buf).error && !uplinkListening && frameBuffer == old(frameBuffer)
      ensures r.Ok? ==> var f := FromBytes(buf).value;
        && uplinkListening
        && frameBuffer == old(frameBuffer) + [f]
        && r.value == Route(table, clients, f.dst, None, f)
    {
      var decoded := FromBytes(buf);
      if decoded.Err? {
        uplinkListening := false;
        return Err(decoded.error);
      }
      var frame := decoded.value;
      frameBuffer := frameBuffer + [frame];
      var out := ForwardLocalFrame(frame, None);
      r := Ok(out);
    }
  }
}
