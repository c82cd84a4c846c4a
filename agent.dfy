/**
 * The agent package's `Client`: the address of one node and, once dialed, a
 * connection to it. The gRPC connection and the generated service stub are
 * reduced to whether a connection is present.
 */
module Agent {
  import opened Errors

  class Client {
    /** The node's network address; no code writes it after construction. */
    const address: string
    /** Whether the embedded `AgentServiceClient` is non-nil. */
    var connected: bool

    /** `NewClient(address)`: a client for the address, not yet dialed. */
    constructor (address: string)
      ensures this.address == address
      ensures !connected
    {
      this.address := address;
      connected := false;
    }

    /**
     * `Client.Dial`, with the result of `grpc.Dial` given as `dial`: on
     * success a (new) connection is installed, on failure the client is left
     * as it was; the dial's error is returned unchanged.
     */
    method Dial(dial: Outcome) returns (r: Outcome)
      modifies this
      ensures r == dial
      ensures dial.Pass? ==> connected
      ensures dial.Fail? ==> connected == old(connected)
    {
      if dial.Fail? {
        return dial;
      }
      connected := true;
      return Pass;
    }
  }
}
