/**
 * The node-to-node Query handler.  The DHT and the routing table it hands out
 * are collaborators whose answers are given as parameters; the handler's own
 * logic is the order of its calls, where it stops, and what it answers.  The
 * calls it makes are returned as a trace.
 */
module NodeServer {
  import opened Wrappers

  /** A node as the query messages carry it. */
  datatype PeerNode = PeerNode(id: string, address: string)

  datatype QueryRequest = QueryRequest(sender: PeerNode, target: PeerNode, limit: int, pingback: bool)

  /** A response; the empty response of an error has no sender and no nodes. */
  datatype QueryResponse = QueryResponse(sender: Option<PeerNode>, response: seq<PeerNode>)

  const EmptyResponse := QueryResponse(None, [])

  /** The calls Query makes on the DHT and on its routing table. */
  datatype Call =
    | GetRoutingTable
    | Ping(node: PeerNode)
    | ConnectionFailed(node: PeerNode)
    | ConnectionSuccess(node: PeerNode)
    | FindNear(target: string, limit: int)

  /** What the collaborators answer; None is success. */
  datatype Dht = Dht(
    routingTableErr: Option<string>,
    pingErr: Option<string>,
    connectionFailedErr: Option<string>,
    connectionSuccessErr: Option<string>,
    findNear: (string, int) -> Result<seq<PeerNode>, string>)

  /** The node client errors Query returns, each with what it reports. */
  datatype QueryError =
    | NoRoutingTable(cause: string)
    | ConnectionFailedUnanswered(cause: string)
    | NodeUnreachable(nodeId: string)
    | ConnectionSuccessUnanswered(cause: string)
    | FindNearFailed(cause: string)

  /** The text of each error. */
  function Message(e: QueryError): string {
    match e
    case NoRoutingTable(c) => "could not get routing table " + c
    case ConnectionFailedUnanswered(c) => "could not respond to connection failed " + c
    case NodeUnreachable(id) => "connection to node " + id + " failed"
    case ConnectionSuccessUnanswered(c) => "could not respond to connection success " + c
    case FindNearFailed(c) => "could not find near " + c
  }

  /** The trace pings the sender or reports a ping's outcome. */
  predicate Pinged(calls: seq<Call>) {
    exists i :: 0 <= i < |calls| && (calls[i].Ping? || calls[i].ConnectionFailed? || calls[i].ConnectionSuccess?)
  }

  /** The trace asks the routing table for the nearest nodes. */
  predicate Searched(calls: seq<Call>) {
    exists i :: 0 <= i < |calls| && calls[i].FindNear?
  }

  /**
   * Query: get the routing table; with pingback, ping the sender and report the
   * outcome to the table; then ask the table for the nodes nearest the target.
   * Any failure ends the query with the empty response and an error.
   */
  method Query(dht: Dht, req: QueryRequest) returns (resp: QueryResponse, err: Option<QueryError>, calls: seq<Call>)
    // no routing table: nothing else is called
    ensures dht.routingTableErr.Some? ==>
      resp == EmptyResponse && err == Some(NoRoutingTable(dht.routingTableErr.value)) && calls == [GetRoutingTable]
    // without pingback nobody is pinged, and the answer is the table's FindNear
    ensures dht.routingTableErr.None? && !req.pingback ==>
      !Pinged(calls) && calls == [GetRoutingTable, FindNear(req.target.id, req.limit)]
    // a failed ping is reported to the table and ends the query before FindNear
    ensures dht.routingTableErr.None? && req.pingback && dht.pingErr.Some? ==>
      calls == [GetRoutingTable, Ping(req.sender), ConnectionFailed(req.sender)] && !Searched(calls) &&
      resp == EmptyResponse &&
      err == Some(if dht.connectionFailedErr.Some? then ConnectionFailedUnanswered(dht.connectionFailedErr.value)
                  else NodeUnreachable(req.sender.id))
    // a successful ping is reported before FindNear, and a failed report ends the query
    ensures dht.routingTableErr.None? && req.pingback && dht.pingErr.None? ==>
      |calls| >= 3 && calls[..3] == [GetRoutingTable, Ping(req.sender), ConnectionSuccess(req.sender)] &&
      (dht.connectionSuccessErr.Some? ==>
        calls == calls[..3] && resp == EmptyResponse &&
        err == Some(ConnectionSuccessUnanswered(dht.connectionSuccessErr.value))) &&
      (dht.connectionSuccessErr.None? ==> calls == calls[..3] + [FindNear(req.target.id, req.limit)])
    // once FindNear is reached its failure ends the query, and its success is the answer
    ensures Searched(calls) ==> calls[|calls| - 1] == FindNear(req.target.id, req.limit)
    ensures Searched(calls) && dht.findNear(req.target.id, req.limit).Err? ==>
      resp == EmptyResponse && err == Some(FindNearFailed(dht.findNear(req.target.id, req.limit).error))
    ensures err.None? <==> Searched(calls) && dht.findNear(req.target.id, req.limit).Ok?
    ensures err.None? ==> resp == QueryResponse(Some(req.sender), dht.findNear(req.target.id, req.limit).value)
    ensures err.Some? ==> resp == EmptyResponse
  {
    calls := [GetRoutingTable];
    if dht.routingTableErr.Some? {
      return EmptyResponse, Some(NoRoutingTable(dht.routingTableErr.value)), calls;
    }
    if req.pingback {
      calls := calls + [Ping(req.sender)];
      if dht.pingErr.Some? {
        calls := calls + [ConnectionFailed(req.sender)];
        if dht.connectionFailedErr.Some? {
          return EmptyResponse, Some(ConnectionFailedUnanswered(dht.connectionFailedErr.value)), calls;
        }
        return EmptyResponse, Some(NodeUnreachable(req.sender.id)), calls;
      }
      calls := calls + [ConnectionSuccess(req.sender)];
      if dht.connectionSuccessErr.Some? {
        return EmptyResponse, Some(ConnectionSuccessUnanswered(dht.connectionSuccessErr.value)), calls;
      }
    }
    calls := calls + [FindNear(req.target.id, req.limit)];
    assert calls[|calls| - 1].FindNear?;
    var nodes := dht.findNear(req.target.id, req.limit);
    if nodes.Err? {
      return EmptyResponse, Some(FindNearFailed(nodes.error)), calls;
    }
    resp := QueryResponse(Some(req.sender), nodes.value);
    err := None;
  }
}
