module Peers {
  import opened Options

  /** A peer as the routing agents see it; `cla` is the first convergence layer that accepts it. */
  datatype Peer = Peer(nodeId: Option<string>, name: string, cla: Option<nat>)

  /** A task that sends to a peer. */
  datatype Sender = Sender(nextHop: string, cla: nat)
}
