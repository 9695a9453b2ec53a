/** How `main` and `Start` put the pieces together: the endpoint built from
    the settings, and the two loops `Start` launches, each of which does
    nothing once `Stop` has raised the exit flag. */
module Agent {
  import opened GoStrings
  import opened Collections
  import opened Endpoints
  import Config
  import Server
  import Prober

  /** The endpoint `main` runs: named after the peer name, listening on the
      parsed port, probing the configured endpoints in order. With no
      endpoints configured `main` turns to cluster discovery instead and
      never builds one. */
  function Launch(c: Config.Settings, port: int): (e: Option<Endpoint>)
    ensures e.None? <==> c.endpoints == []
    ensures e.Some? ==> e.value.name == c.peername && e.value.port == port
    ensures e.Some? ==> e.value.peers == c.endpoints && !e.value.exiting
  {
    if |c.endpoints| < 1 then None
    else Some(AddPeers(NewEndpoint(c.peername, port), c.endpoints))
  }

  /** One pass of the prober loop `for ; !e.exiting; time.Sleep(sleepTime)`:
      no sweep once the endpoint is exiting, otherwise one sweep over the
      peers with one sample per reachable peer. */
  function ProberRound(e: Endpoint, probes: seq<Prober.Probe>): (t: Option<seq<Prober.ProbeAction>>)
    requires |probes| == |e.peers|
    ensures t.None? <==> e.exiting
    ensures t.Some? ==> Prober.Dials(t.value) == e.peers
    ensures t.Some? ==> Prober.Samples(t.value) == Prober.StatNames(e.name, Prober.PeerReplies(probes))
  {
    if e.exiting then None else Some(Prober.Sweep(e.name, e.peers, probes))
  }

  /** One pass of the prober loop as written: the sweep reads every reply
      into the buffer `checkEndpoints` allocated once, carried in from the
      previous pass and handed on to the next, and names each sample after
      the whole buffer. */
  function ProberRoundAsWritten(e: Endpoint, probes: seq<Prober.Probe>, buf: Bytes)
    : (r: Option<(seq<Prober.ProbeAction>, Bytes)>)
    requires |probes| == |e.peers| && |buf| == BufferSize
    ensures r.None? <==> e.exiting
    ensures r.Some? ==> Prober.Dials(r.value.0) == e.peers
    ensures r.Some? ==>
              var bufs := Prober.BuffersAfter(buf, Prober.PeerReplies(probes));
              Prober.Samples(r.value.0) == Prober.BufferNames(e.name, bufs)
              && r.value.1 == Prober.LastBuffer(buf, bufs)
  {
    if e.exiting then None
    else
      Prober.SweepAsWrittenSamples(e.name, e.peers, probes, buf);
      Some(Prober.SweepAsWritten(e.name, e.peers, probes, buf))
  }

  /** After `Stop` neither loop starts anything new: no sweep and no accepted
      connection. A stopped endpoint keeps its peers. */
  lemma StoppedEndpointIsIdle(e: Endpoint, probes: seq<Prober.Probe>, events: seq<Server.ConnEvent>)
    requires |probes| == |e.peers|
    ensures ProberRound(Stop(e), probes) == None
    ensures forall buf :: |buf| == BufferSize ==> ProberRoundAsWritten(Stop(e), probes, buf) == None
    ensures Server.Serve(Stop(e), events) == []
    ensures Server.ServeAsWritten(Stop(e), events) == []
  {
  }
}
