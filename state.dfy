/**
 * The node-liveness registry: a table from node ids to node statuses, and the
 * heartbeat that keeps one node's `available` flag and connection up to date.
 *
 * The registry's lock, its one-time initialisation, the watch goroutines and
 * their retry loop are not part of this model: every call runs to completion
 * on its own, and starting a watch is recorded in the ghost sequence
 * `Loader.watched`.
 */
module State {
  import opened Errors
  import opened Maps
  import opened Agent

  /** Go's `int64`, the type of node ids. */
  newtype int64 = x: int | -0x8000_0000_0000_0000 <= x < 0x8000_0000_0000_0000

  /** One row of the node inventory: a node's id and network address. */
  datatype Node = Node(id: int64, address: string)

  /** What the inventory listing returns: all known nodes, or an error. */
  datatype Inventory = Nodes(nodes: seq<Node>) | Failed(error: Error)

  /** The message `Load` wraps an inventory error in. */
  const LoadErrorPrefix := "db.GetAllNodes error: "

  /** One receive on a heartbeat stream: an event arrived, or the stream failed. */
  datatype Recv = Event | RecvError(error: Error)

  /** The stream eventually fails; until then every receive delivers an event. */
  predicate HasFailure(recvs: seq<Recv>)
  {
    exists i :: 0 <= i < |recvs| && recvs[i].RecvError?
  }

  /** The position of the receive that ends the stream. */
  function FirstFailure(recvs: seq<Recv>): (k: nat)
    requires HasFailure(recvs)
    ensures k < |recvs| && recvs[k].RecvError?
    ensures forall j :: 0 <= j < k ==> recvs[j].Event?
    decreases |recvs|
  {
    if recvs[0].RecvError? then 0
    else
      assert HasFailure(recvs[1..]) by {
        var i :| 0 <= i < |recvs| && recvs[i].RecvError?;
        assert recvs[1..][i - 1] == recvs[i];
      }
      1 + FirstFailure(recvs[1..])
  }

  /** The ids of the inventory rows, in order. */
  function Ids(nodes: seq<Node>): seq<int64>
  {
    seq(|nodes|, i requires 0 <= i < |nodes| => nodes[i].id)
  }

  /**
   * A handle on one node: its client (with the connection, if any) and
   * whether a heartbeat event has arrived since the stream last failed.
   */
  class NodeStatus {
    /** The embedded `*agent.Client`; the pointer is never reassigned. */
    const client: Client
    var available: bool

    /** A node counts as available only while it has a connection. */
    ghost predicate Valid()
      reads this, client
    {
      available ==> client.connected
    }

    /** `NewNodeStatus(client)`: wraps the client, not yet available. */
    constructor (client: Client)
      ensures this.client == client
      ensures !available
      ensures Valid()
    {
      this.client := client;
      available := false;
    }

    /**
     * One heartbeat attempt. `dial` is what dialing the node would return,
     * `subscribe` what opening the heartbeat stream would return, and `recvs`
     * what the stream's successive receives deliver (it ends in a failure).
     * The ghost result `observed` lists the values assigned to `available`
     * during the call, in order. Every path returns an error.
     */
    method Heartbeat(dial: Outcome, subscribe: Outcome, recvs: seq<Recv>)
      returns (r: Outcome, ghost observed: seq<bool>)
      requires HasFailure(recvs)
      modifies this, client
      ensures r.Fail?
      ensures old(Valid()) ==> Valid()
      ensures !old(client.connected) && dial.Fail? ==>
        && r == dial
        && !client.connected
        && available == old(available)
        && observed == []
      ensures (old(client.connected) || dial.Pass?) && subscribe.Fail? ==>
        && r == subscribe
        && client.connected
        && available == old(available)
        && observed == []
      ensures (old(client.connected) || dial.Pass?) && subscribe.Pass? ==>
        var k := FirstFailure(recvs);
        && r == Fail(recvs[k].error)
        && !client.connected
        && !available
        && observed == seq(k, _ => true) + [false]
      ensures observed != [] ==> available == observed[|observed| - 1]
    {
      if !client.connected {
        var d := client.Dial(dial);
        if d.Fail? {
          return d, [];
        }
      }
      // The cancellable request context of the subscription is not modelled.
      if subscribe.Fail? {
        return subscribe, [];
      }
      observed := [];
      var i := 0;
      while true
        invariant i <= FirstFailure(recvs)
        invariant client.connected
        invariant observed == seq(i, _ => true)
        invariant observed != [] ==> available == observed[|observed| - 1]
        decreases FirstFailure(recvs) - i
      {
        if recvs[i].RecvError? {
          client.connected := false;
          available := false;
          return Fail(recvs[i].error), observed + [false];
        }
        available := true;
        observed := observed + [true];
        i := i + 1;
      }
    }
  }

  /**
   * The registry: node statuses by id. `watched` lists, in launch order, the
   * status of every watch task started so far; a status stays in it after its
   * node is deleted, because deleting a node does not stop its watch.
   */
  class Loader {
    var nodeMap: map<int64, NodeStatus>
    ghost var watched: seq<NodeStatus>

    /** Every registered status has a watch running for it. */
    ghost predicate Valid()
      reads this
    {
      forall id :: id in nodeMap ==> nodeMap[id] in watched
    }

    /** The registry `GetLoader` creates on first use: empty, no watches. */
    constructor ()
      ensures nodeMap == map[]
      ensures watched == []
      ensures Valid()
    {
      nodeMap := map[];
      watched := [];
    }

    /**
     * Registers every node of the inventory under a fresh status and starts a
     * watch for each, in inventory order. A failed listing is reported before
     * anything is inserted.
     */
    method Load(inventory: Inventory) returns (r: Outcome)
      modifies this
      ensures old(Valid()) ==> Valid()
      ensures inventory.Failed? ==>
        && r == Fail(Error(LoadErrorPrefix + inventory.error.message))
        && nodeMap == old(nodeMap)
        && watched == old(watched)
      ensures inventory.Nodes? ==>
        var nodes, before := inventory.nodes, |old(watched)|;
        && r == Pass
        && |watched| == before + |nodes|
        && watched[..before] == old(watched)
        && (forall j :: 0 <= j < |nodes| ==>
             && fresh(watched[before + j])
             && fresh(watched[before + j].client)
             && watched[before + j].client.address == nodes[j].address
             && !watched[before + j].client.connected
             && !watched[before + j].available)
        && (forall j, j' :: before <= j < j' < |watched| ==> watched[j] != watched[j'])
        && (forall j, j' :: before <= j < j' < |watched| ==> watched[j].client != watched[j'].client)
        && nodeMap == PutAll(old(nodeMap), Ids(nodes), watched[before..])
        && (forall id :: id in nodeMap <==> id in old(nodeMap) || id in Ids(nodes))
        && (forall id :: id in Ids(nodes) ==>
             id in nodeMap && nodeMap[id] == watched[before + LastIndex(Ids(nodes), id)])
        && (forall id :: id in old(nodeMap) && id !in Ids(nodes) ==>
             id in nodeMap && nodeMap[id] == old(nodeMap)[id])
    {
      if inventory.Failed? {
        return Fail(Error(LoadErrorPrefix + inventory.error.message));
      }
      var nodes := inventory.nodes;
      ghost var started: seq<NodeStatus> := [];
      var i := 0;
      while i < |nodes|
        invariant 0 <= i <= |nodes|
        invariant |started| == i
        invariant watched == old(watched) + started
        invariant nodeMap == PutAll(old(nodeMap), Ids(nodes)[..i], started)
        invariant old(Valid()) ==> Valid()
        invariant forall j :: 0 <= j < i ==>
          && fresh(started[j])
          && fresh(started[j].client)
          && started[j].client.address == nodes[j].address
          && !started[j].client.connected
          && !started[j].available
        invariant forall j, j' :: 0 <= j < j' < i ==> started[j] != started[j']
        invariant forall j, j' :: 0 <= j < j' < i ==> started[j].client != started[j'].client
      {
        var client := new Client(nodes[i].address);
        var ns := new NodeStatus(client);
        watched := watched + [ns];
        ghost var prev := started;
        started := started + [ns];
        assert Ids(nodes)[..i + 1][..i] == Ids(nodes)[..i];
        assert started[..i] == prev;
        nodeMap := nodeMap[nodes[i].id := ns];
        i := i + 1;
      }
      assert Ids(nodes)[..i] == Ids(nodes);
      assert watched[|old(watched)|..] == started;
      PutAllSpec(old(nodeMap), Ids(nodes), started);
      return Pass;
    }

    /** The status registered under id, or null when there is none. */
    function GetNode(id: int64): (ns: NodeStatus?)
      reads this
      ensures ns != null <==> id in nodeMap
      ensures ns != null ==> ns == nodeMap[id]
    {
      if id in nodeMap then nodeMap[id] else null
    }

    /** Removes id's entry, if any; its watch, if running, keeps running. */
    method DelNode(id: int64)
      modifies this
      ensures old(Valid()) ==> Valid()
      ensures nodeMap == old(nodeMap) - {id}
      ensures GetNode(id) == null
      ensures id !in old(nodeMap) ==> nodeMap == old(nodeMap)
      ensures watched == old(watched)
    {
      nodeMap := nodeMap - {id};
    }

    /** Starts a watch for ns and registers it under id, replacing any entry. */
    method AddNode(id: int64, ns: NodeStatus)
      modifies this
      ensures old(Valid()) ==> Valid()
      ensures nodeMap == old(nodeMap)[id := ns]
      ensures GetNode(id) == ns
      ensures watched == old(watched) + [ns]
    {
      watched := watched + [ns];
      nodeMap := nodeMap[id := ns];
    }
  }
}
