/** A server with any number of connections at the same time, all on one loop and one unit pool. */
module Serving {
  import opened ObjPool
  import opened ByteBuffer
  import opened Tcp

  /** A connection comes in, or something happens to the k-th one. */
  datatype Happening = Arrive(onAccept: seq<Act>) | At(k: nat, ev: Event)

  function Arrivals(happenings: seq<Happening>): nat {
    if happenings == [] then 0 else
      Arrivals(happenings[..|happenings| - 1]) + (if happenings[|happenings| - 1].Arrive? then 1 else 0)
  }

  /** The user code of the arrivals, in order. */
  function Accepts(happenings: seq<Happening>): (acts: seq<seq<Act>>)
    ensures |acts| == Arrivals(happenings)
  {
    if happenings == [] then []
    else
      var last := happenings[|happenings| - 1];
      Accepts(happenings[..|happenings| - 1]) + if last.Arrive? then [last.onAccept] else []
  }

  /** What happens to the k-th connection, of which n are there at the start. */
  function EventsOf(happenings: seq<Happening>, n: nat, k: nat): seq<Event> {
    if happenings == [] then []
    else
      var init, last := happenings[..|happenings| - 1], happenings[|happenings| - 1];
      EventsOf(init, n, k) + if last.At? && last.k == k && k < n + Arrivals(init) then [last.ev] else []
  }

  /** How the k-th connection begins: as it was found, or with its accept callback. */
  function Begins(before: seq<Conn>, happenings: seq<Happening>, size: nat, k: nat): Conn
    requires k < |before| + Arrivals(happenings)
  {
    if k < |before| then before[k] else Accepted(Accepts(happenings)[k - |before|], size)
  }

  ghost function Views(clients: seq<TcpClient>): (views: seq<Conn>)
    reads clients, set c | c in clients :: c.wbuf, set c | c in clients :: c.rbuf, Held(clients)
    ensures |views| == |clients| && forall i :: 0 <= i < |clients| ==> views[i] == clients[i].View()
  {
    seq(|clients|, i requires 0 <= i < |clients|
                     reads clients, set c | c in clients :: c.wbuf, set c | c in clients :: c.rbuf, Held(clients)
                     => clients[i].View())
  }

  /** Every connection has come, from how it began, to where its own events have brought it. */
  ghost predicate Served(before: seq<Conn>, happenings: seq<Happening>, size: nat, after: seq<Conn>) {
    && |after| == |before| + Arrivals(happenings)
    && forall k :: 0 <= k < |after| ==> ServedOne(before, happenings, size, k, after[k])
  }

  ghost predicate ServedOne(before: seq<Conn>, happenings: seq<Happening>, size: nat, k: nat, after: Conn)
    requires k < |before| + Arrivals(happenings)
  {
    Reaches(Begins(before, happenings, size, k), EventsOf(happenings, |before|, k), after)
  }

  /** One more event, for the k-th connection if there is one. */
  lemma ServedEvent(before: seq<Conn>, happenings: seq<Happening>, size: nat, after: seq<Conn>, at: Happening,
                    after': seq<Conn>)
    requires at.At? && Served(before, happenings, size, after) && |after'| == |after|
    requires forall j :: 0 <= j < |after| ==>
               if j == at.k then Step(after[j], at.ev, after'[j]) else after'[j] == after[j]
    ensures Served(before, happenings + [at], size, after')
  {
    hide Step, Reaches;
    var more := happenings + [at];
    assert more[..|happenings|] == happenings;
    forall j | 0 <= j < |after'| ensures ServedOne(before, more, size, j, after'[j]) {
      assert ServedOne(before, happenings, size, j, after[j]);
      if j == at.k {
        ReachesMore(Begins(before, happenings, size, j), EventsOf(happenings, |before|, j), after[j], at.ev, after'[j]);
      } else {
        assert EventsOf(more, |before|, j) == EventsOf(happenings, |before|, j);
      }
    }
  }

  /** One more arrival. */
  lemma ServedArrival(before: seq<Conn>, happenings: seq<Happening>, size: nat, after: seq<Conn>, arrival: Happening)
    requires arrival.Arrive? && Served(before, happenings, size, after)
    ensures Served(before, happenings + [arrival], size, after + [Accepted(arrival.onAccept, size)])
  {
    hide Reaches, Accepted;
    var more, after' := happenings + [arrival], after + [Accepted(arrival.onAccept, size)];
    assert more[..|happenings|] == happenings;
    forall j | 0 <= j < |after'| ensures ServedOne(before, more, size, j, after'[j]) {
      assert EventsOf(more, |before|, j) == EventsOf(happenings, |before|, j);
      if j < |after| {
        assert ServedOne(before, happenings, size, j, after[j]);
      } else {
        NotYet(happenings, |before|, j);
        ReachesNone(Accepted(arrival.onAccept, size));
      }
    }
  }

  lemma {:induction false} NotYet(happenings: seq<Happening>, n: nat, k: nat)
    requires k >= n + Arrivals(happenings)
    ensures EventsOf(happenings, n, k) == []
  {
    if happenings != [] {
      NotYet(happenings[..|happenings| - 1], n, k);
    }
  }

  lemma NothingServed(before: seq<Conn>, size: nat)
    ensures Served(before, [], size, before)
  {
    forall k | 0 <= k < |before| ensures ServedOne(before, [], size, k, before[k]) {
      ReachesNone(before[k]);
    }
  }

  /** No connection is listed twice, and no buffer belongs to two of them. */
  predicate Apart(clients: seq<TcpClient>) {
    forall i, j :: 0 <= i < j < |clients| ==> TwoApart(clients[i], clients[j])
  }

  predicate TwoApart(a: TcpClient, b: TcpClient) {
    a != b && {a.rbuf, a.wbuf} !! {b.rbuf, b.wbuf}
  }

  predicate Attached(server: TcpServer, pool: Pool, client: TcpClient) {
    client.peer == server && client.rbuf.pool == client.wbuf.pool == pool && client.rbuf != client.wbuf
  }

  /** The units of the buffers. */
  ghost function Held(clients: seq<TcpClient>): (units: set<Unit>)
    reads set c | c in clients :: c.wbuf, set c | c in clients :: c.rbuf
    ensures forall c, i :: c in clients && 0 <= i < |c.wbuf.chain| ==> c.wbuf.chain[i] in units
    ensures forall c, i :: c in clients && 0 <= i < |c.rbuf.chain| ==> c.rbuf.chain[i] in units
  {
    assert forall c, i :: c in clients && 0 <= i < |c.wbuf.chain| ==> c.wbuf.chain[i] in c.wbuf.chain;
    assert forall c, i :: c in clients && 0 <= i < |c.rbuf.chain| ==> c.rbuf.chain[i] in c.rbuf.chain;
    (set c, u | c in clients && u in c.wbuf.chain :: u) + (set c, u | c in clients && u in c.rbuf.chain :: u)
  }

  /** Every connection satisfies its own invariant, and the server counts the open ones. */
  ghost predicate Serves(server: TcpServer, pool: Pool, clients: seq<TcpClient>)
    reads server, pool, pool.idle`next, pool.users, pool.owner.Keys, set b, u | b in pool.users && u in b.chain :: u
    reads clients, set c | c in clients :: c.wbuf, set c | c in clients :: c.rbuf, Held(clients)
  {
    && Ready(pool) && server.Counted() && Apart(clients)
    && (forall c :: c in clients ==> Attached(server, pool, c))
    && (forall c :: c in clients ==> c.Valid() && c.Settled())
    && server.live == (set c | c in clients && c.closed == 0)
    && server.gone == (set c | c in clients && c.closed == 1)
  }

  lemma OneOf(server: TcpServer, pool: Pool, clients: seq<TcpClient>, client: TcpClient)
    requires Serves(server, pool, clients) && client in clients
    ensures Attached(server, pool, client) && client.Valid() && client.Settled()
    ensures forall c :: c in clients && c != client ==> TwoApart(c, client)
  {
    assert forall c :: c in clients && c != client ==> TwoApart(c, client) || TwoApart(client, c);
  }

  /** An event of one connection leaves the others as they are. */
  method Happen(server: TcpServer, pool: Pool, clients: seq<TcpClient>, k: nat, ev: Event)
    requires Serves(server, pool, clients) && k < |clients| && clients[k].closed == 0 && WellFormed(ev)
    modifies clients[k], server, pool, clients[k].wbuf, clients[k].rbuf, clients[k].Feet()
    ensures Serves(server, pool, clients)
    ensures Step(old(clients[k].View()), ev, clients[k].View())
    ensures forall j :: 0 <= j < |clients| && j != k ==> clients[j].View() == old(clients[j].View())
    ensures forall u :: u in pool.owner.Keys && u !in old(pool.owner.Keys) ==> fresh(u)
  {
    hide Ready, Bytes, TcpServer.Counted, Closing, Step, Waiting, TcpClient.Closes, TcpClient.Elsewhere, Pool.Footprint;
    hide TcpClient.Valid, TcpClient.Settled, TcpClient.View, ContentOf;
    var client := clients[k];
    OneOf(server, pool, clients, client);
    client.ElsewhereIs();
    forall c | c in clients ensures c.closed == 0 ==> c.Attached() && c in server.live {
      c.WhileOpen();
    }
    var _ := client.Deliver(ev);
    client.ElsewhereIs();
    client.WhileOpen();
    forall c | c in clients && c != client ensures c.Valid() && c.Settled() && c.View() == old(c.View()) {
      assert old(c.closed == 0 ==> c.Attached() && c in server.live) && TwoApart(c, client);
      c.Undisturbed();
    }
    assert forall j :: 0 <= j < |clients| && j != k ==> clients[j] in clients && clients[j] != client;
  }

  /** A new connection leaves the others as they are. */
  method Join(server: TcpServer, pool: Pool, size: nat, clients: seq<TcpClient>, onAccept: seq<Act>)
      returns (client: TcpClient)
    requires Serves(server, pool, clients) && 1 <= size <= pool.objsize
    modifies server, pool, pool.OwnedBy(null)
    ensures Serves(server, pool, clients + [client]) && client.View() == Accepted(onAccept, size)
    ensures forall j :: 0 <= j < |clients| ==> clients[j].View() == old(clients[j].View())
    ensures fresh(client) && fresh(client.rbuf) && fresh(client.wbuf)
    ensures forall u :: u in pool.owner.Keys && u !in old(pool.owner.Keys) ==> fresh(u)
  {
    hide Ready, Bytes, TcpServer.Counted, Waiting, Accepted, TcpClient.Valid, TcpClient.Settled, TcpClient.View;
    hide ContentOf;
    forall c | c in clients ensures c.closed == 0 ==> c.Attached() && c in server.live {
      c.WhileOpen();
    }
    client := Tcp.Accept(server, pool, size, onAccept);
    forall c | c in clients ensures c.Valid() && c.Settled() && TwoApart(c, client) && c.View() == old(c.View()) {
      assert old(c.closed == 0 ==> c.Attached() && c in server.live);
      c.Undisturbed();
    }
    assert forall j :: 0 <= j < |clients| ==> clients[j] in clients;
  }

  /** One thing happens. */
  method Take(server: TcpServer, pool: Pool, size: nat, clients: seq<TcpClient>, happening: Happening,
              ghost first: seq<Conn>, ghost done: seq<Happening>)
      returns (after: seq<TcpClient>)
    requires Serves(server, pool, clients) && 1 <= size <= pool.objsize && Served(first, done, size, Views(clients))
    requires happening.At? ==> WellFormed(happening.ev)
    modifies server, pool, pool.owner.Keys, clients, set c | c in clients :: c.wbuf, set c | c in clients :: c.rbuf
    ensures Serves(server, pool, after) && Served(first, done + [happening], size, Views(after)) && clients <= after
    ensures |after| == |clients| + if happening.Arrive? then 1 else 0
    ensures forall j :: |clients| <= j < |after| ==>
              fresh(after[j]) && fresh(after[j].rbuf) && fresh(after[j].wbuf)
    ensures forall u :: u in pool.owner.Keys && u !in old(pool.owner.Keys) ==> fresh(u)
    ensures forall j :: 0 <= j < |clients| && old(clients[j].closed) == 1 ==> unchanged(clients[j])
  {
    hide Ready, Bytes, Served, Step, Accepted, Serves, TcpClient.View;
    after := clients;
    ghost var views := Views(clients);
    match happening
    case Arrive(onAccept) =>
      var client := Join(server, pool, size, clients, onAccept);
      after := clients + [client];
      assert Views(after) == views + [Accepted(onAccept, size)];
      ServedArrival(first, done, size, views, happening);
    case At(k, ev) =>
      if k < |clients| && clients[k].closed == 0 {
        FeetOfOne(server, pool, clients, k);
        Happen(server, pool, clients, k, ev);
      } else if k < |clients| {
        StaysClosed(clients[k], ev);
      }
      ServedEvent(first, done, size, views, happening, Views(clients));
  }

  /**
   * Any interleaving of arrivals and of events of any of the connections. Each of them keeps its own
   * accounting and is closed at most once, and a closed one hears nothing more. Each of them is where its
   * own events, and no others, have brought it. The counter is the number of arrivals less the number of
   * closed connections.
   */
  method Serve(server: TcpServer, pool: Pool, size: nat, before: seq<TcpClient>, happenings: seq<Happening>)
      returns (clients: seq<TcpClient>)
    requires Serves(server, pool, before) && 1 <= size <= pool.objsize
    requires forall i :: 0 <= i < |happenings| && happenings[i].At? ==> WellFormed(happenings[i].ev)
    modifies server, pool, pool.owner.Keys, before, set c | c in before :: c.wbuf, set c | c in before :: c.rbuf
    ensures Serves(server, pool, clients) && before <= clients
    ensures |clients| == |before| + Arrivals(happenings)
    ensures Served(old(Views(before)), happenings, size, Views(clients))
    ensures server.conn_cnt == |clients| - |server.gone|
    ensures forall c :: c in clients ==> c.Closes() == c.closed <= 1
    ensures forall c :: c in clients ==>
              c.accepted + (if c.closed == 0 then Bytes(c.wbuf.chain) else c.dropped) == c.outgoing
    ensures forall c :: c in before && old(c.closed) == 1 ==> unchanged(c)
  {
    hide Ready, Bytes, Served, Serves, Accepts, EventsOf, Held, TcpClient.View, TcpClient.Closes;
    clients := ServeAll(server, pool, size, before, happenings);
    CountOf(server, pool, clients);
    Accounted(server, pool, clients);
  }

  method ServeAll(server: TcpServer, pool: Pool, size: nat, before: seq<TcpClient>, happenings: seq<Happening>)
      returns (clients: seq<TcpClient>)
    requires Serves(server, pool, before) && 1 <= size <= pool.objsize
    requires forall i :: 0 <= i < |happenings| && happenings[i].At? ==> WellFormed(happenings[i].ev)
    modifies server, pool, pool.owner.Keys, before, set c | c in before :: c.wbuf, set c | c in before :: c.rbuf
    ensures Serves(server, pool, clients) && before <= clients
    ensures |clients| == |before| + Arrivals(happenings)
    ensures Served(old(Views(before)), happenings, size, Views(clients))
    ensures forall j :: 0 <= j < |before| && old(before[j].closed) == 1 ==> unchanged(before[j])
  {
    hide Ready, Bytes, Served, Serves, Accepts, EventsOf, Held, Views, Arrivals, WellFormed;
    clients := before;
    NothingServed(Views(before), size);
    Prefixes(happenings, 0);
    for i := 0 to |happenings|
      invariant Serves(server, pool, clients) && before <= clients
      invariant |clients| == |before| + Arrivals(happenings[..i])
      invariant Served(old(Views(before)), happenings[..i], size, Views(clients))
      invariant forall j :: |before| <= j < |clients| ==>
                  fresh(clients[j]) && fresh(clients[j].rbuf) && fresh(clients[j].wbuf)
      invariant forall u :: u in pool.owner.Keys && u !in old(pool.owner.Keys) ==> fresh(u)
      invariant forall j :: 0 <= j < |before| && old(before[j].closed) == 1 ==> unchanged(before[j])
    {
      Prefixes(happenings, i);
      assert forall j :: 0 <= j < |before| ==> clients[j] == before[j];
      clients := Take(server, pool, size, clients, happenings[i], old(Views(before)), happenings[..i]);
    }
  }

  lemma Prefixes(happenings: seq<Happening>, i: nat)
    requires i <= |happenings|
    ensures happenings[..0] == [] && happenings[..|happenings|] == happenings && Arrivals([]) == 0
    ensures i < |happenings| ==>
              && happenings[..i + 1] == happenings[..i] + [happenings[i]]
              && Arrivals(happenings[..i + 1]) == Arrivals(happenings[..i]) + if happenings[i].Arrive? then 1 else 0
  {
    if i < |happenings| {
      assert happenings[..i + 1][..i] == happenings[..i];
    }
  }

  lemma Accounted(server: TcpServer, pool: Pool, clients: seq<TcpClient>)
    requires Serves(server, pool, clients)
    ensures forall c :: c in clients ==> c.Closes() == c.closed <= 1
    ensures forall c :: c in clients ==>
              c.accepted + (if c.closed == 0 then Bytes(c.wbuf.chain) else c.dropped) == c.outgoing
  {
    hide Ready, Bytes;
    assert forall c :: c in clients ==> c.Valid();
  }

  lemma StaysClosed(client: TcpClient, ev: Event)
    requires client.closed != 0
    ensures Step(client.View(), ev, client.View())
  {
  }

  lemma FeetOfOne(server: TcpServer, pool: Pool, clients: seq<TcpClient>, k: nat)
    requires Serves(server, pool, clients) && k < |clients|
    ensures clients[k].Feet() <= pool.owner.Keys && clients[k] in clients
  {
    FeetInPool(server, pool, clients[k]);
  }

  lemma FeetInPool(server: TcpServer, pool: Pool, client: TcpClient)
    requires Attached(server, pool, client)
    ensures client.Feet() <= pool.owner.Keys
  {
  }

  lemma CountOf(server: TcpServer, pool: Pool, clients: seq<TcpClient>)
    requires Serves(server, pool, clients)
    ensures server.conn_cnt == |clients| - |server.gone|
  {
    hide Ready, Bytes;
    var all := set c | c in clients;
    SizeOf(clients);
    assert forall c :: c in clients ==> c.closed == 0 || c.closed == 1 by {
      assert forall c :: c in clients ==> c.Valid();
    }
    assert all == server.live + server.gone;
  }

  lemma {:induction false} SizeOf(clients: seq<TcpClient>)
    requires Apart(clients)
    ensures |set c | c in clients| == |clients|
  {
    if clients != [] {
      var init, last := clients[..|clients| - 1], clients[|clients| - 1];
      SizeOf(init);
      assert forall i :: 0 <= i < |init| ==> TwoApart(clients[i], clients[|clients| - 1]);
      assert (set c | c in clients) == (set c | c in init) + {last};
    }
  }
}
