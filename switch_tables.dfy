/**
 * The learning-table pattern both switch tiers follow: learn the source key on the
 * connection it arrived on, deliver to the learned connection for the destination key
 * unless that is the sender, and otherwise flood to every connected peer but the sender.
 * A connection (a ClientHandler object) is an abstract id.
 */
module SwitchTables {
  import opened Wrappers
  import opened Frames

  type ConnId = nat

  /** One write of `frame` to connection `to`; whether the socket write succeeds is not modelled. */
  datatype Delivery = Delivery(to: ConnId, frame: Frame)

  /**
   * The bytes ClientHandler.sendFrame writes for a delivery: `frame.toBytes()`, which
   * stamps a freshly computed checksum. So whatever checksum the switch received, the
   * next hop decodes the same fields with a checksum that checks.
   */
  function Written(d: Delivery): (b: seq<byte>)
    ensures WellFormed(d.frame) ==> FromBytes(b).Ok? && CrcValid(FromBytes(b).value)
    ensures WellFormed(d.frame) ==> var g := FromBytes(b).value;
      g.src == d.frame.src && g.dst == d.frame.dst && g.sizeOrAck == d.frame.sizeOrAck
      && g.ackType == d.frame.ackType && g.data == d.frame.data
  {
    if WellFormed(d.frame) then RoundTrip(d.frame); Encode(d.frame) else Encode(d.frame)
  }

  /**
   * A write that relays the checksum byte the switch received instead of recomputing it:
   * the next hop decodes exactly the frame the switch decoded, checksum included.
   */
  function Relayed(d: Delivery): (b: seq<byte>)
    ensures WellFormed(d.frame) ==> FromBytes(b) == Ok(d.frame)
  {
    var b := Unstamped(d.frame)[2 := d.frame.crc];
    assert WellFormed(d.frame) ==> b[2 := 0] == Unstamped(d.frame) && b[HeaderLength..] == d.frame.data;
    b
  }

  predicate Distinct(cs: seq<ConnId>) {
    forall i, j :: 0 <= i < j < |cs| ==> cs[i] != cs[j]
  }

  /** `from == None` is Java's `null`: a frame that did not come from a peer connection. */
  predicate IsSender(c: ConnId, from: Option<ConnId>) {
    from == Some(c)
  }

  /** The loop over `clients` that skips the sender: one delivery per other client, in list order. */
  function Flood(clients: seq<ConnId>, from: Option<ConnId>, f: Frame): (r: seq<Delivery>)
    ensures |r| <= |clients|
    ensures forall k :: 0 <= k < |r| ==> r[k].frame == f && r[k].to in clients && !IsSender(r[k].to, from)
  {
    if |clients| == 0 then []
    else
      var last := clients[|clients| - 1];
      Flood(clients[..|clients| - 1], from, f) + (if IsSender(last, from) then [] else [Delivery(last, f)])
  }

  /** Direct delivery when the destination key is learned on a connection other than the sender's, else flood. */
  function Route(table: map<int, ConnId>, clients: seq<ConnId>, key: int, from: Option<ConnId>, f: Frame): (r: seq<Delivery>)
    ensures forall k :: 0 <= k < |r| ==> r[k].frame == f && !IsSender(r[k].to, from)
    ensures key in table && !IsSender(table[key], from) ==> r == [Delivery(table[key], f)]
  {
    if key in table && !IsSender(table[key], from) then [Delivery(table[key], f)]
    else Flood(clients, from, f)
  }

  /** `table.put(key, c)`. */
  function Learn(table: map<int, ConnId>, key: int, c: ConnId): (t: map<int, ConnId>)
    ensures t.Keys == table.Keys + {key} && t[key] == c
    ensures forall k :: k in table && k != key ==> t[k] == table[k]
  {
    table[key := c]
  }

  /** Teardown: remove the connection's own key only while the table still maps it to this connection. */
  function Forget(table: map<int, ConnId>, owned: Option<int>, c: ConnId): (t: map<int, ConnId>)
    ensures t.Keys <= table.Keys
    ensures forall k :: k in t ==> t[k] == table[k]
    ensures forall k :: k in table && (owned != Some(k) || table[k] != c) ==> k in t
    ensures owned.Some? && owned.value in table && table[owned.value] == c ==> owned.value !in t
  {
    if owned.Some? && owned.value in table && table[owned.value] == c then table - {owned.value}
    else table
  }

  /** `clients.remove(c)`: drop the first occurrence. */
  function RemoveFirst(cs: seq<ConnId>, c: ConnId): (r: seq<ConnId>)
    ensures c !in cs ==> r == cs
    ensures c in cs ==> |r| == |cs| - 1
    ensures forall x :: x in r ==> x in cs
    ensures forall x :: x in cs && x != c ==> x in r
    ensures Distinct(cs) ==> Distinct(r) && c !in r
  {
    if |cs| == 0 then []
    else if cs[0] == c then cs[1..]
    else
      var rest := RemoveFirst(cs[1..], c);
      assert Distinct(cs) ==> cs[0] !in cs[1..] && Distinct(cs[1..]) by {
        if Distinct(cs) {
          forall i, j | 0 <= i < j < |cs| - 1 ensures cs[1..][i] != cs[1..][j] {
            assert cs[1..][i] == cs[i + 1] && cs[1..][j] == cs[j + 1];
          }
        }
      }
      [cs[0]] + rest
  }

  /** The connections a sequence of deliveries goes to. */
  function Targets(ds: seq<Delivery>): (r: seq<ConnId>)
    ensures |r| == |ds| && forall k :: 0 <= k < |ds| ==> r[k] == ds[k].to
  {
    if |ds| == 0 then [] else Targets(ds[..|ds| - 1]) + [ds[|ds| - 1].to]
  }

  lemma {:induction false} TargetsAppend(a: seq<Delivery>, b: seq<Delivery>)
    ensures Targets(a + b) == Targets(a) + Targets(b)
  {
  }

  /**
   * Flooding reaches every client except the sender, and, since the client list holds
   * each connection once, reaches each of them exactly once.
   */
  lemma {:induction false} FloodReachesEachOtherClientOnce(clients: seq<ConnId>, from: Option<ConnId>, f: Frame)
    requires Distinct(clients)
    ensures var ts := Targets(Flood(clients, from, f));
      Distinct(ts) && forall c :: c in ts <==> c in clients && !IsSender(c, from)
  {
    if |clients| > 0 {
      var n := |clients| - 1;
      var init, last := clients[..n], clients[n];
      assert clients == init + [last];
      assert Distinct(init);
      FloodReachesEachOtherClientOnce(init, from, f);
      var tail := if IsSender(last, from) then [] else [Delivery(last, f)];
      TargetsAppend(Flood(init, from, f), tail);
      var t0 := Targets(Flood(init, from, f));
      assert Targets(Flood(clients, from, f)) == t0 + Targets(tail);
      assert last !in t0;
      DistinctSnoc(t0, Targets(tail));
    }
  }

  /** Appending at most one new connection keeps a sequence free of repeats. */
  lemma DistinctSnoc(a: seq<ConnId>, b: seq<ConnId>)
    requires Distinct(a) && |b| <= 1 && forall x :: x in b ==> x !in a
    ensures Distinct(a + b)
  {
    if |b| == 1 {
      forall i, j | 0 <= i < j < |a + b| ensures (a + b)[i] != (a + b)[j] {
        if j == |a| {
          assert (a + b)[j] == b[0] && (a + b)[i] == a[i] && a[i] in a;
        } else {
          assert (a + b)[j] == a[j] && (a + b)[i] == a[i];
        }
      }
    }
  }

  /** A frame whose destination was never learned goes to every other peer and never back to the sender. */
  lemma UnknownDestinationFloods(table: map<int, ConnId>, clients: seq<ConnId>, key: int, from: Option<ConnId>, f: Frame)
    requires Distinct(clients) && key !in table
    ensures var ts := Targets(Route(table, clients, key, from, f));
      Distinct(ts) && forall c :: c in ts <==> c in clients && !IsSender(c, from)
  {
    FloodReachesEachOtherClientOnce(clients, from, f);
  }

  /** A destination learned on the sender's own connection is flooded too, skipping the sender. */
  lemma DestinationOnSenderFloods(table: map<int, ConnId>, clients: seq<ConnId>, key: int, c: ConnId, f: Frame)
    requires Distinct(clients) && key in table && table[key] == c
    ensures var ts := Targets(Route(table, clients, key, Some(c), f));
      c !in ts && forall x :: x in ts <==> x in clients && x != c
  {
    FloodReachesEachOtherClientOnce(clients, Some(c), f);
  }

  /**
   * Address migration: K learned on C1, then on C2; C1's later teardown leaves K on C2,
   * and frames for K from any other connection go to C2 alone.
   */
  lemma MigrationSurvivesOldTeardown(table: map<int, ConnId>, key: int, c1: ConnId, c2: ConnId,
                                     clients: seq<ConnId>, from: Option<ConnId>, f: Frame)
    requires c1 != c2 && !IsSender(c2, from)
    ensures var t := Forget(Learn(Learn(table, key, c1), key, c2), Some(key), c1);
      key in t && t[key] == c2 && Route(t, clients, key, from, f) == [Delivery(c2, f)]
  {
  }

  /**
   * As written, teardown forgets only the key recorded as the connection's own (its first
   * source id); a second source id learned on the same connection keeps pointing at it.
   */
  lemma TeardownKeepsOtherKeysOfConnection(table: map<int, ConnId>, first: int, second: int, c: ConnId)
    requires first != second
    ensures var t := Forget(Learn(Learn(table, first, c), second, c), Some(first), c);
      first !in t && second in t && t[second] == c
  {
  }
}
