/** The `Endpoint` struct of endpoint.go and the operations on it that do no
    I/O: `AddPeer`, `Stop`, and the way `main` builds one from the settings. */
module Endpoints {
  import opened GoStrings

  /** One running agent: its name (sent to peers and used in stat names), the
      port it listens on, the peers it probes, and the exit flag both loops poll. */
  datatype Endpoint = Endpoint(name: Bytes, port: int, peers: seq<Bytes>, exiting: bool)

  /** Size of the read buffer of both the server and the prober. */
  const BufferSize: nat := 256

  /** The composite literal `Endpoint{name: peername, port: port}`: no peers yet,
      not exiting. */
  function NewEndpoint(name: Bytes, port: int): (e: Endpoint)
    ensures e.name == name && e.port == port
    ensures e.peers == [] && !e.exiting
  {
    Endpoint(name, port, [], false)
  }

  /** `AddPeer`: a plain append. Nothing is deduplicated. */
  function AddPeer(e: Endpoint, address: Bytes): (r: Endpoint)
    ensures |r.peers| == |e.peers| + 1
    ensures r.peers[|e.peers|] == address
    ensures r.peers[..|e.peers|] == e.peers
    ensures multiset(r.peers)[address] == multiset(e.peers)[address] + 1
    ensures r.name == e.name && r.port == e.port && r.exiting == e.exiting
  {
    e.(peers := e.peers + [address])
  }

  /** Adding the same address twice leaves two entries for it: `AddPeer` is
      not idempotent. */
  lemma AddPeerTwice(e: Endpoint, address: Bytes)
    ensures AddPeer(AddPeer(e, address), address).peers == e.peers + [address, address]
    ensures AddPeer(AddPeer(e, address), address) != AddPeer(e, address)
  {
    var once := AddPeer(e, address);
    assert |AddPeer(once, address).peers| == |once.peers| + 1;
  }

  /** `Stop`: raise the exit flag. */
  function Stop(e: Endpoint): (r: Endpoint)
    ensures r.exiting
    ensures r.name == e.name && r.port == e.port && r.peers == e.peers
  {
    e.(exiting := true)
  }

  /** Stopping twice is stopping once, and stopping does not interfere with
      adding peers. */
  lemma StopIdempotent(e: Endpoint, address: Bytes)
    ensures Stop(Stop(e)) == Stop(e)
    ensures Stop(AddPeer(e, address)) == AddPeer(Stop(e), address)
  {
  }

  /** The loop `for _, e := range endpoints { endpoint.AddPeer(e) }` in `main`. */
  function AddPeers(e: Endpoint, addresses: seq<Bytes>): (r: Endpoint)
    ensures r.peers == e.peers + addresses
    ensures r.name == e.name && r.port == e.port && r.exiting == e.exiting
    decreases |addresses|
  {
    if addresses == [] then e
    else
      var r := AddPeers(AddPeer(e, addresses[0]), addresses[1..]);
      assert e.peers + addresses == e.peers + [addresses[0]] + addresses[1..];
      r
  }
}
