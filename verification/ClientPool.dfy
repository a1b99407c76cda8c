/** The connection pool of pkg/protocol/poller.go, for calls made one at a time. */
module ClientPool {
  import opened Basics

  datatype Protocol = ModbusTCP | ModbusRTU | MQTT | SNMP | OPCUA | HTTPClient

  /** `model.ValidateProtocol`. */
  function ValidateProtocol(name: string): Option<Protocol> {
    match name
    case "modbus-tcp" => Some(ModbusTCP)
    case "modbus-rtu" => Some(ModbusRTU)
    case "mqtt" => Some(MQTT)
    case "snmp" => Some(SNMP)
    case "opcua" => Some(OPCUA)
    case "http-client" => Some(HTTPClient)
    case _ => None
  }

  /** A connected adapter; the id tells apart clients made by different calls. */
  datatype Client = Client(id: nat, protocol: Protocol, endpoint: string)

  /** The pool, with counts of successful connects and of disconnects. */
  datatype Pool = Pool(clients: map<string, Client>, connects: nat, disconnects: nat)

  const EMPTY := Pool(map[], 0, 0)

  /** A call, with what the outside world does to it: whether the adapter's constructor and its connect succeed. */
  datatype Request =
    | GetHandler(name: string, endpoint: string, builds: bool, connects: bool)
    | DisconnectAll

  /** The pool and the client after one call; None stands for an error. */
  function Serve(maxSize: int, pool: Pool, r: Request): (Pool, Option<Client>) {
    match r
    case DisconnectAll => (pool.(clients := map[], disconnects := pool.disconnects + |pool.clients|), None)
    case GetHandler(name, endpoint, builds, connects) =>
      var protocol := ValidateProtocol(name);
      if protocol.None? then (pool, None)
      else if endpoint in pool.clients then (pool, Some(pool.clients[endpoint]))
      else if |pool.clients| >= maxSize then (pool, None)
      else if protocol.value.MQTT? || !builds || !connects then (pool, None)
      else
        var client := Client(pool.connects, protocol.value, endpoint);
        (pool.(clients := pool.clients[endpoint := client], connects := pool.connects + 1), Some(client))
  }

  function ServeAll(maxSize: int, rs: seq<Request>): Pool {
    if rs == [] then EMPTY else Serve(maxSize, ServeAll(maxSize, rs[..|rs| - 1]), rs[|rs| - 1]).0
  }

  /** `Polls`. */
  class Polls {
    const maxSize: int
    var clients: map<string, Client>
    var connects: nat
    var disconnects: nat

    constructor (maxSize: int)
      ensures this.maxSize == maxSize && Now() == EMPTY
    {
      this.maxSize := maxSize;
      clients, connects, disconnects := map[], 0, 0;
    }

    function Now(): Pool
      reads this
    {
      Pool(clients, connects, disconnects)
    }

    /** `newClient` and `Connect`. */
    method Open(protocol: Protocol, endpoint: string, builds: bool, connects: bool) returns (r: Option<Client>)
      modifies this`connects
      ensures r == if protocol.MQTT? || !builds || !connects then None
                   else Some(Client(old(this.connects), protocol, endpoint))
      ensures this.connects == old(this.connects) + if r.Some? then 1 else 0
    {
      if protocol.MQTT? || !builds || !connects { return None; }
      r := Some(Client(this.connects, protocol, endpoint));
      this.connects := this.connects + 1;
    }

    method GetHandler(name: string, endpoint: string, builds: bool, connects: bool) returns (r: Option<Client>)
      modifies this
      ensures (Now(), r) == Serve(maxSize, old(Now()), Request.GetHandler(name, endpoint, builds, connects))
    {
      var protocol := ValidateProtocol(name);
      if protocol.None? { return None; }
      if endpoint in clients { return Some(clients[endpoint]); }
      if |clients| >= maxSize { return None; }
      r := Open(protocol.value, endpoint, builds, connects);
      if r.None? { return None; }
      clients := clients[endpoint := r.value];
    }

    /** `DisconnectAll`: the map is emptied entry by entry, each client disconnected as it goes. */
    method DisconnectAll()
      modifies this
      ensures Now() == Serve(maxSize, old(Now()), Request.DisconnectAll).0
    {
      while clients != map[]
        invariant disconnects + |clients| == old(disconnects) + |old(clients)|
        invariant connects == old(connects)
        decreases |clients|
      {
        assert clients.Keys != {};
        var key :| key in clients;
        RemoveOne(clients, key);
        disconnects := disconnects + 1;
        clients := clients - {key};
      }
    }
  }

  lemma RemoveOne<K, V>(m: map<K, V>, key: K)
    requires key in m
    ensures |m - {key}| == |m| - 1
  {
    assert (m - {key}).Keys == m.Keys - {key};
    assert |(m - {key}).Keys| == |m.Keys| - 1;
  }

  // ----- any run -----

  /** Nothing leaks, the bound holds, every client sits under its own endpoint and has a protocol that has clients, and
      no two calls share a client. */
  predicate Inv(maxSize: int, pool: Pool) {
    && pool.connects == pool.disconnects + |pool.clients|
    && (maxSize >= 0 ==> |pool.clients| <= maxSize)
    && (maxSize <= 0 ==> |pool.clients| == 0)
    && (forall e {:trigger pool.clients[e]} :: e in pool.clients ==>
          pool.clients[e].endpoint == e && pool.clients[e].id < pool.connects && !pool.clients[e].protocol.MQTT?)
    && (forall e, f {:trigger pool.clients[e], pool.clients[f]} ::
          e in pool.clients && f in pool.clients && e != f ==> pool.clients[e].id != pool.clients[f].id)
  }

  lemma ServeKeepsInv(maxSize: int, pool: Pool, r: Request)
    requires Inv(maxSize, pool)
    ensures Inv(maxSize, Serve(maxSize, pool, r).0)
  {
    var pool' := Serve(maxSize, pool, r).0;
    if r.GetHandler? && |pool'.clients.Keys| != |pool.clients.Keys| {
      assert pool'.clients.Keys == pool.clients.Keys + {r.endpoint};
    }
  }

  /** Over any sequential run: successful connects equal disconnects plus pool size, and the pool never exceeds its
      maximum. */
  lemma {:induction false} PoolInvariant(maxSize: int, rs: seq<Request>)
    ensures Inv(maxSize, ServeAll(maxSize, rs))
  {
    if rs != [] {
      PoolInvariant(maxSize, rs[..|rs| - 1]);
      ServeKeepsInv(maxSize, ServeAll(maxSize, rs[..|rs| - 1]), rs[|rs| - 1]);
    }
  }

  lemma {:induction false} StaysPooled(maxSize: int, rs: seq<Request>, n: nat, endpoint: string)
    requires n <= |rs|
    requires forall i {:trigger rs[i]} :: n <= i < |rs| ==> !rs[i].DisconnectAll?
    requires endpoint in ServeAll(maxSize, rs[..n]).clients
    ensures endpoint in ServeAll(maxSize, rs).clients
    ensures ServeAll(maxSize, rs).clients[endpoint] == ServeAll(maxSize, rs[..n]).clients[endpoint]
    decreases |rs|
  {
    if n == |rs| {
      assert rs[..n] == rs;
    } else {
      var front := rs[..|rs| - 1];
      assert front[..n] == rs[..n];
      assert forall i {:trigger front[i]} :: n <= i < |front| ==> front[i] == rs[i];
      StaysPooled(maxSize, front, n, endpoint);
      assert !rs[|rs| - 1].DisconnectAll?;
    }
  }

  /** Once a call for an endpoint has succeeded, every later validated call for it gets the same client until
      `DisconnectAll`, whatever else happens in between and whichever protocol it names: the key is the endpoint alone,
      so the client has the protocol asked for exactly when that is the one it was made with. */
  lemma {:induction false} SameClient(maxSize: int, rs: seq<Request>, n: nat, again: Request)
    requires n < |rs| && rs[n].GetHandler?
    requires Serve(maxSize, ServeAll(maxSize, rs[..n]), rs[n]).1.Some?
    requires forall i {:trigger rs[i]} :: n < i < |rs| ==> !rs[i].DisconnectAll?
    requires again.GetHandler? && again.endpoint == rs[n].endpoint && ValidateProtocol(again.name).Some?
    ensures Serve(maxSize, ServeAll(maxSize, rs), again) ==
            (ServeAll(maxSize, rs), Serve(maxSize, ServeAll(maxSize, rs[..n]), rs[n]).1)
  {
    assert rs[..n + 1][..n] == rs[..n];
    StaysPooled(maxSize, rs, n + 1, again.endpoint);
  }

  /** A call fails, and leaves the pool as it was, exactly when the protocol is unknown, or the endpoint is not pooled
      and the pool is full or the adapter cannot be opened. */
  lemma FailureLeavesPool(maxSize: int, pool: Pool, r: Request)
    requires r.GetHandler?
    ensures Serve(maxSize, pool, r).1.None? <==>
              || ValidateProtocol(r.name).None?
              || (r.endpoint !in pool.clients
                  && (|pool.clients| >= maxSize || r.name == "mqtt" || !r.builds || !r.connects))
    ensures Serve(maxSize, pool, r).1.None? ==> Serve(maxSize, pool, r).0 == pool
  {
  }

  /** The name a caller asks for each protocol by. */
  function ProtocolName(protocol: Protocol): string {
    match protocol
    case ModbusTCP => "modbus-tcp"
    case ModbusRTU => "modbus-rtu"
    case MQTT => "mqtt"
    case SNMP => "snmp"
    case OPCUA => "opcua"
    case HTTPClient => "http-client"
  }

  /** A new client is connected to the endpoint, and speaks the protocol, that its call asked for. */
  lemma FreshClient(maxSize: int, pool: Pool, r: Request)
    requires r.GetHandler? && r.endpoint !in pool.clients && Serve(maxSize, pool, r).1.Some?
    ensures var (after, client) := Serve(maxSize, pool, r);
            && r.name == ProtocolName(client.value.protocol) && client.value.endpoint == r.endpoint
            && after.clients == pool.clients[r.endpoint := client.value]
  {
  }

  /** The call asked for such a client, and nothing failed. */
  ghost predicate AskedFor(rs: seq<Request>, i: nat, client: Client) {
    i < |rs| && rs[i] == GetHandler(ProtocolName(client.protocol), client.endpoint, true, true)
  }

  /** Over any run, every pooled client was asked for by one of the calls, by endpoint and by the name of its
      protocol. */
  lemma {:induction false} PooledAsAskedFor(maxSize: int, rs: seq<Request>, endpoint: string)
    requires endpoint in ServeAll(maxSize, rs).clients
    ensures exists i: nat :: AskedFor(rs, i, ServeAll(maxSize, rs).clients[endpoint])
  {
    var front, last := rs[..|rs| - 1], rs[|rs| - 1];
    var before, client := ServeAll(maxSize, front), ServeAll(maxSize, rs).clients[endpoint];
    if endpoint in before.clients && before.clients[endpoint] == client {
      PooledAsAskedFor(maxSize, front, endpoint);
      var i: nat :| AskedFor(front, i, client);
      assert AskedFor(rs, i, client);
    } else {
      FreshClient(maxSize, before, last);
      assert AskedFor(rs, |front|, client);
    }
  }

  /** The calls of a run that did not fail. */
  function WithoutFailures(maxSize: int, rs: seq<Request>): seq<Request> {
    if rs == [] then []
    else
      var front, last := rs[..|rs| - 1], rs[|rs| - 1];
      var kept := WithoutFailures(maxSize, front);
      if last.GetHandler? && Serve(maxSize, ServeAll(maxSize, front), last).1.None? then kept else kept + [last]
  }

  /** Failing calls leave no trace: over any run, the pool is the one the successful calls alone would have made. */
  lemma {:induction false} FailuresLeaveNoTrace(maxSize: int, rs: seq<Request>)
    ensures ServeAll(maxSize, WithoutFailures(maxSize, rs)) == ServeAll(maxSize, rs)
  {
    if rs != [] {
      var front, last := rs[..|rs| - 1], rs[|rs| - 1];
      var kept := WithoutFailures(maxSize, front);
      FailuresLeaveNoTrace(maxSize, front);
      if last.GetHandler? { FailureLeavesPool(maxSize, ServeAll(maxSize, front), last); }
      assert (kept + [last])[..|kept|] == kept;
    }
  }

  /** After `DisconnectAll` no earlier client is ever handed out again. */
  lemma {:induction false} NoClientOutlivesDisconnectAll(maxSize: int, before: seq<Request>,
                                                         after: seq<Request>, e: string, f: string)
    requires e in ServeAll(maxSize, before).clients
    requires f in ServeAll(maxSize, before + [DisconnectAll] + after).clients
    ensures ServeAll(maxSize, before).clients[e].id < ServeAll(maxSize, before + [DisconnectAll] + after).clients[f].id
  {
    PoolInvariant(maxSize, before);
    FreshIds(maxSize, before, after, f);
  }

  lemma {:induction false} FreshIds(maxSize: int, before: seq<Request>, after: seq<Request>, f: string)
    ensures var pool := ServeAll(maxSize, before + [DisconnectAll] + after);
            && pool.connects >= ServeAll(maxSize, before).connects
            && (f in pool.clients ==> pool.clients[f].id >= ServeAll(maxSize, before).connects)
  {
    var rs := before + [DisconnectAll] + after;
    if after == [] {
      assert rs[..|rs| - 1] == before;
    } else {
      assert rs[..|rs| - 1] == before + [DisconnectAll] + after[..|after| - 1];
      FreshIds(maxSize, before, after[..|after| - 1], f);
    }
  }
}
