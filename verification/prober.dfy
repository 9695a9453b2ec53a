/** One sweep of `checkEndpoints` in endpoint.go with the sockets abstracted:
    the peers are visited in list order; a failed dial skips the peer; a
    successful dial writes the endpoint's name, reads the reply into the
    256-byte buffer, emits one timing sample and closes. */
module Prober {
  import opened GoStrings
  import opened Collections
  import opened Endpoints
  import Net

  /** What the network did for one visited peer: the dial failed, or it
      succeeded and the one `conn.Read(buf)` delivered `reply` (empty when the
      read failed; its error is ignored). */
  datatype Probe = DialFailed | Dialed(reply: Bytes)

  /** The observable steps of a sweep. `Timing` is the sample handed to the
      statsd client; its value, the dial latency, is not modelled. */
  datatype ProbeAction =
    | Dial(peer: Bytes)
    | Send(peer: Bytes, payload: Bytes)
    | Recv(peer: Bytes)
    | Timing(stat: Bytes)
    | Close(peer: Bytes)

  /** `make([]byte, 256)`: the prober's buffer before the first sweep. */
  const FreshBuffer: Bytes := seq(BufferSize, _ => 0)

  function DialOf(a: ProbeAction): Option<Bytes> { if a.Dial? then Some(a.peer) else None }
  function SendOf(a: ProbeAction): Option<Bytes> { if a.Send? then Some(a.peer) else None }
  function RecvOf(a: ProbeAction): Option<Bytes> { if a.Recv? then Some(a.peer) else None }
  function TimingOf(a: ProbeAction): Option<Bytes> { if a.Timing? then Some(a.stat) else None }

  /** The peers dialled, written to and read from, and the sample names
      emitted, each in order. */
  function Dials(t: seq<ProbeAction>): seq<Bytes> { Collect(t, DialOf) }
  function Sends(t: seq<ProbeAction>): seq<Bytes> { Collect(t, SendOf) }
  function Recvs(t: seq<ProbeAction>): seq<Bytes> { Collect(t, RecvOf) }
  function Samples(t: seq<ProbeAction>): seq<Bytes> { Collect(t, TimingOf) }

  /** The peers whose dial succeeded, in list order. */
  function Connected(peers: seq<Bytes>, probes: seq<Probe>): (c: seq<Bytes>)
    requires |probes| == |peers|
    ensures |c| == |PeerReplies(probes)|
    decreases |peers|
  {
    if peers == [] then []
    else (if probes[0].Dialed? then [peers[0]] else []) + Connected(peers[1..], probes[1..])
  }

  /** The replies of the peers whose dial succeeded, in list order. */
  function PeerReplies(probes: seq<Probe>): seq<Bytes>
    decreases |probes|
  {
    if probes == [] then []
    else (if probes[0].Dialed? then [probes[0].reply] else []) + PeerReplies(probes[1..])
  }

  /** The sample name the `"%s.%s"` format evidently means: the endpoint's
      name, a dot, and the reply that was read. */
  function StatName(name: Bytes, reply: Bytes): Bytes
  {
    name + [Dot] + Net.Taken(reply, BufferSize)
  }

  function StatNames(name: Bytes, replies: seq<Bytes>): (s: seq<Bytes>)
    ensures |s| == |replies|
    ensures forall j :: 0 <= j < |s| ==> s[j] == StatName(name, replies[j])
  {
    seq(|replies|, j requires 0 <= j < |replies| => StatName(name, replies[j]))
  }

  /** The steps for one peer, with the sample named after the reply. */
  function Visit(name: Bytes, peer: Bytes, probe: Probe): (t: seq<ProbeAction>)
    ensures Dials(t) == [peer]
    ensures Sends(t) == Recvs(t) == (if probe.Dialed? then [peer] else [])
    ensures Samples(t) == (if probe.Dialed? then [StatName(name, probe.reply)] else [])
  {
    match probe
    case DialFailed => [Dial(peer)]
    case Dialed(reply) =>
      var t := [Dial(peer)] + [Send(peer, name)] + [Recv(peer)] + [Timing(StatName(name, reply))] + [Close(peer)];
      CollectFive(t, DialOf);
      CollectFive(t, SendOf);
      CollectFive(t, RecvOf);
      CollectFive(t, TimingOf);
      t
  }

  lemma CollectFive<U>(t: seq<ProbeAction>, f: ProbeAction -> Option<U>)
    requires |t| == 5
    ensures Collect(t, f) == Collect([t[0]], f) + Collect([t[1]], f) + Collect([t[2]], f)
                             + Collect([t[3]], f) + Collect([t[4]], f)
  {
    assert t == [t[0]] + [t[1]] + [t[2]] + [t[3]] + [t[4]];
    CollectConcat([t[0]] + [t[1]] + [t[2]] + [t[3]], [t[4]], f);
    CollectConcat([t[0]] + [t[1]] + [t[2]], [t[3]], f);
    CollectConcat([t[0]] + [t[1]], [t[2]], f);
    CollectConcat([t[0]], [t[1]], f);
  }

  /** A sweep with each sample named after the reply that was read: every
      peer is dialled in list order, and each connected peer yields one
      sample, named after its own reply. */
  function Sweep(name: Bytes, peers: seq<Bytes>, probes: seq<Probe>): (t: seq<ProbeAction>)
    requires |probes| == |peers|
    ensures Dials(t) == peers
    ensures Samples(t) == StatNames(name, PeerReplies(probes))
    decreases |peers|
  {
    if peers == [] then []
    else
      var v := Visit(name, peers[0], probes[0]);
      var rest := Sweep(name, peers[1..], probes[1..]);
      CollectConcat(v, rest, DialOf);
      CollectConcat(v, rest, TimingOf);
      assert peers == [peers[0]] + peers[1..];
      var first := if probes[0].Dialed? then [probes[0].reply] else [];
      assert PeerReplies(probes) == first + PeerReplies(probes[1..]);
      StatNamesConcat(name, first, PeerReplies(probes[1..]));
      v + rest
  }

  /** In a sweep exactly the connected peers are written to and read from,
      in list order: a peer whose dial failed gets neither. */
  lemma {:induction false} SweepContacts(name: Bytes, peers: seq<Bytes>, probes: seq<Probe>)
    requires |probes| == |peers|
    ensures Sends(Sweep(name, peers, probes)) == Connected(peers, probes)
    ensures Recvs(Sweep(name, peers, probes)) == Connected(peers, probes)
    decreases |peers|
  {
    if peers != [] {
      var v := Visit(name, peers[0], probes[0]);
      var rest := Sweep(name, peers[1..], probes[1..]);
      SweepContacts(name, peers[1..], probes[1..]);
      CollectConcat(v, rest, SendOf);
      CollectConcat(v, rest, RecvOf);
    }
  }

  lemma StatNamesConcat(name: Bytes, a: seq<Bytes>, b: seq<Bytes>)
    ensures StatNames(name, a + b) == StatNames(name, a) + StatNames(name, b)
  {
  }

  /** The steps for one peer as written: the reply is read into the shared
      buffer and the sample is named after the whole buffer. */
  function VisitAsWritten(name: Bytes, peer: Bytes, probe: Probe, buf: Bytes): (r: (seq<ProbeAction>, Bytes))
    requires |buf| == BufferSize
    ensures |r.1| == BufferSize
    ensures Dials(r.0) == [peer]
    ensures Sends(r.0) == (if probe.Dialed? then [peer] else [])
    ensures probe.DialFailed? ==> r == ([Dial(peer)], buf)
    ensures probe.Dialed? ==> r.1 == Net.ReadInto(buf, probe.reply)
    ensures probe.Dialed? ==> Samples(r.0) == [name + [Dot] + r.1]
  {
    match probe
    case DialFailed => ([Dial(peer)], buf)
    case Dialed(reply) =>
      var b := Net.ReadInto(buf, reply);
      var t := [Dial(peer)] + [Send(peer, name)] + [Recv(peer)] + [Timing(name + [Dot] + b)] + [Close(peer)];
      CollectFive(t, DialOf);
      CollectFive(t, SendOf);
      CollectFive(t, TimingOf);
      (t, b)
  }

  /** The contents of the shared buffer after each of a run of reads,
      starting from `buf`: each read overwrites the front of what the read
      before it left, so every buffer starts with the bytes its own read took. */
  function BuffersAfter(buf: Bytes, replies: seq<Bytes>): (bufs: seq<Bytes>)
    requires |buf| == BufferSize
    ensures |bufs| == |replies|
    ensures forall j :: 0 <= j < |bufs| ==> |bufs[j]| == BufferSize
    decreases |replies|
  {
    if replies == [] then []
    else
      var b := Net.ReadInto(buf, replies[0]);
      [b] + BuffersAfter(b, replies[1..])
  }

  /** Every buffer in the run starts with the bytes its own read took. */
  lemma {:induction false} BuffersAfterTaken(buf: Bytes, replies: seq<Bytes>)
    requires |buf| == BufferSize
    ensures forall j :: 0 <= j < |replies| ==> Net.Taken(replies[j], BufferSize) <= BuffersAfter(buf, replies)[j]
    decreases |replies|
  {
    if replies != [] {
      var b := Net.ReadInto(buf, replies[0]);
      var rest := BuffersAfter(b, replies[1..]);
      BuffersAfterTaken(b, replies[1..]);
      assert BuffersAfter(buf, replies) == [b] + rest;
      forall j | 0 < j < |replies|
        ensures Net.Taken(replies[j], BufferSize) <= BuffersAfter(buf, replies)[j]
      {
        assert replies[j] == replies[1..][j - 1];
      }
    }
  }

  /** The buffer a run of reads leaves behind: the last one read into, or
      `buf` itself when there was no read. */
  function LastBuffer(buf: Bytes, bufs: seq<Bytes>): Bytes
  {
    if bufs == [] then buf else bufs[|bufs| - 1]
  }

  /** Sample names as the `"%s.%s"` format writes them: the endpoint's name,
      a dot, and the whole buffer. */
  function BufferNames(name: Bytes, bufs: seq<Bytes>): (s: seq<Bytes>)
    ensures |s| == |bufs|
    ensures forall j :: 0 <= j < |s| ==> s[j] == name + [Dot] + bufs[j]
  {
    seq(|bufs|, j requires 0 <= j < |bufs| => name + [Dot] + bufs[j])
  }

  /** The sweep loop as written, part-way through: `trace` holds the steps
      taken so far and `buf` the buffer as the last read left it. */
  function SweepFrom(name: Bytes, peers: seq<Bytes>, probes: seq<Probe>,
                     trace: seq<ProbeAction>, buf: Bytes): (r: (seq<ProbeAction>, Bytes))
    requires |probes| == |peers| && |buf| == BufferSize
    ensures |r.1| == BufferSize
    decreases |peers|
  {
    if peers == [] then (trace, buf)
    else
      var v := VisitAsWritten(name, peers[0], probes[0], buf);
      SweepFrom(name, peers[1..], probes[1..], trace + v.0, v.1)
  }

  lemma BufferNamesConcat(name: Bytes, a: seq<Bytes>, b: seq<Bytes>)
    ensures BufferNames(name, a + b) == BufferNames(name, a) + BufferNames(name, b)
  {
  }

  /** The buffers after the reads of a run of probes: a failed dial reads
      nothing, a successful one reads its reply into the buffer first. */
  lemma BuffersAfterStep(buf: Bytes, probes: seq<Probe>)
    requires |buf| == BufferSize && probes != []
    ensures probes[0].DialFailed? ==>
              BuffersAfter(buf, PeerReplies(probes)) == BuffersAfter(buf, PeerReplies(probes[1..]))
    ensures probes[0].Dialed? ==>
              var b := Net.ReadInto(buf, probes[0].reply);
              BuffersAfter(buf, PeerReplies(probes)) == [b] + BuffersAfter(b, PeerReplies(probes[1..]))
  {
    var tail := PeerReplies(probes[1..]);
    if probes[0].DialFailed? {
      assert PeerReplies(probes) == [] + tail;
      assert [] + tail == tail;
      assert PeerReplies(probes) == tail;
    } else {
      assert PeerReplies(probes) == [probes[0].reply] + tail;
      assert ([probes[0].reply] + tail)[1..] == tail;
    }
  }

  /** The sample names after a run of probes whose first dial succeeded:
      the name after the first read, then the names after the rest. */
  lemma BufferNamesStep(name: Bytes, buf: Bytes, probes: seq<Probe>)
    requires |buf| == BufferSize && probes != [] && probes[0].Dialed?
    ensures var b := Net.ReadInto(buf, probes[0].reply);
            BufferNames(name, BuffersAfter(buf, PeerReplies(probes)))
            == [name + [Dot] + b] + BufferNames(name, BuffersAfter(b, PeerReplies(probes[1..])))
  {
    var b := Net.ReadInto(buf, probes[0].reply);
    var rest := BuffersAfter(b, PeerReplies(probes[1..]));
    BuffersAfterStep(buf, probes);
    BufferNamesConcat(name, [b], rest);
  }

  /** The sweep loop as written dials every peer in order, after the peers
      already dialled. */
  lemma {:induction false} SweepFromDials(name: Bytes, peers: seq<Bytes>, probes: seq<Probe>,
                                          trace: seq<ProbeAction>, buf: Bytes)
    requires |probes| == |peers| && |buf| == BufferSize
    ensures Dials(SweepFrom(name, peers, probes, trace, buf).0) == Dials(trace) + peers
    decreases |peers|
  {
    if peers == [] {
      assert Dials(trace) + [] == Dials(trace);
    } else {
      var v := VisitAsWritten(name, peers[0], probes[0], buf);
      SweepFromDials(name, peers[1..], probes[1..], trace + v.0, v.1);
      CollectConcat(trace, v.0, DialOf);
      assert peers == [peers[0]] + peers[1..];
    }
  }

  /** A sweep as written, starting from the buffer contents `buf` left by the
      previous sweep, returning the steps taken and the buffer it leaves:
      every peer is dialled in order, the sample names are the endpoint's
      name, a dot and the whole buffer after each reachable peer's read, and
      the buffer left is the one after the last read. */
  function SweepAsWritten(name: Bytes, peers: seq<Bytes>, probes: seq<Probe>, buf: Bytes): (r: (seq<ProbeAction>, Bytes))
    requires |probes| == |peers| && |buf| == BufferSize
    ensures |r.1| == BufferSize
    ensures Dials(r.0) == peers
  {
    SweepFromDials(name, peers, probes, [], buf);
    SweepFrom(name, peers, probes, [], buf)
  }

  /** The steps already taken are kept, in front of the ones still to come. */
  lemma {:induction false} SweepFromKeepsTrace(name: Bytes, peers: seq<Bytes>, probes: seq<Probe>,
                                               trace: seq<ProbeAction>, buf: Bytes)
    requires |probes| == |peers| && |buf| == BufferSize
    ensures SweepFrom(name, peers, probes, trace, buf)
            == (trace + SweepAsWritten(name, peers, probes, buf).0, SweepAsWritten(name, peers, probes, buf).1)
    decreases |peers|
  {
    if peers != [] {
      var v := VisitAsWritten(name, peers[0], probes[0], buf);
      var rest := SweepAsWritten(name, peers[1..], probes[1..], v.1);
      SweepFromKeepsTrace(name, peers[1..], probes[1..], trace + v.0, v.1);
      SweepFromKeepsTrace(name, peers[1..], probes[1..], [] + v.0, v.1);
      assert SweepFrom(name, peers, probes, trace, buf) == ((trace + v.0) + rest.0, rest.1);
      assert SweepAsWritten(name, peers, probes, buf) == SweepFrom(name, peers, probes, [], buf);
      assert SweepFrom(name, peers, probes, [], buf) == (([] + v.0) + rest.0, rest.1);
      assert ([] + v.0) + rest.0 == v.0 + rest.0;
      assert (trace + v.0) + rest.0 == trace + (v.0 + rest.0);
    } else {
      assert trace + [] == trace;
    }
  }

  /** One step of a sweep as written: the first peer, then the rest from the
      buffer it left. */
  lemma SweepAsWrittenStep(name: Bytes, peers: seq<Bytes>, probes: seq<Probe>, buf: Bytes)
    requires |probes| == |peers| && |buf| == BufferSize && peers != []
    ensures var v := VisitAsWritten(name, peers[0], probes[0], buf);
            var rest := SweepAsWritten(name, peers[1..], probes[1..], v.1);
            SweepAsWritten(name, peers, probes, buf) == (v.0 + rest.0, rest.1)
  {
    var v := VisitAsWritten(name, peers[0], probes[0], buf);
    SweepFromKeepsTrace(name, peers[1..], probes[1..], [] + v.0, v.1);
    assert [] + v.0 == v.0;
    assert SweepAsWritten(name, peers, probes, buf) == SweepFrom(name, peers[1..], probes[1..], [] + v.0, v.1);
  }

  /** What a sweep as written names its samples after: each reachable
      peer's sample is the endpoint's name, a dot and the whole buffer as that
      peer's read left it, and the sweep leaves the buffer of its last read
      for the next one. */
  lemma {:induction false} SweepAsWrittenSamples(name: Bytes, peers: seq<Bytes>, probes: seq<Probe>, buf: Bytes)
    requires |probes| == |peers| && |buf| == BufferSize
    ensures var r := SweepAsWritten(name, peers, probes, buf);
            var bufs := BuffersAfter(buf, PeerReplies(probes));
            Samples(r.0) == BufferNames(name, bufs) && r.1 == LastBuffer(buf, bufs)
    decreases |peers|
  {
    if peers != [] {
      var v := VisitAsWritten(name, peers[0], probes[0], buf);
      var rest := SweepAsWritten(name, peers[1..], probes[1..], v.1);
      var restBufs := BuffersAfter(v.1, PeerReplies(probes[1..]));
      SweepAsWrittenStep(name, peers, probes, buf);
      SweepAsWrittenSamples(name, peers[1..], probes[1..], v.1);
      CollectConcat(v.0, rest.0, TimingOf);
      if probes[0].Dialed? {
        BufferNamesStep(name, buf, probes);
        BuffersAfterStep(buf, probes);
        var bufs := [v.1] + restBufs;
        if restBufs != [] {
          assert bufs[|bufs| - 1] == restBufs[|restBufs| - 1];
        }
      } else {
        BuffersAfterStep(buf, probes);
        assert Samples(v.0) == [];
      }
    }
  }

  /** Each sample name as written starts with the intended one: the buffer
      behind it starts with the bytes its own reply delivered, and only what
      follows them is padding or stale. */
  lemma AsWrittenExtendsIntended(name: Bytes, peers: seq<Bytes>, probes: seq<Probe>, buf: Bytes)
    requires |probes| == |peers| && |buf| == BufferSize
    ensures var asWritten := Samples(SweepAsWritten(name, peers, probes, buf).0);
            var intended := Samples(Sweep(name, peers, probes));
            |asWritten| == |intended| && forall j :: 0 <= j < |intended| ==> intended[j] <= asWritten[j]
  {
    SweepAsWrittenSamples(name, peers, probes, buf);
    BuffersAfterTaken(buf, PeerReplies(probes));
    NamesExtend(name, PeerReplies(probes), BuffersAfter(buf, PeerReplies(probes)));
  }

  /** A name made from a buffer that starts with the bytes taken from a
      reply starts with the name made from that reply. */
  lemma NamesExtend(name: Bytes, replies: seq<Bytes>, bufs: seq<Bytes>)
    requires |bufs| == |replies|
    requires forall j :: 0 <= j < |replies| ==> Net.Taken(replies[j], BufferSize) <= bufs[j]
    ensures forall j :: 0 <= j < |replies| ==> StatNames(name, replies)[j] <= BufferNames(name, bufs)[j]
  {
    forall j | 0 <= j < |replies|
      ensures StatName(name, replies[j]) <= name + [Dot] + bufs[j]
    {
      var t := Net.Taken(replies[j], BufferSize);
      assert t <= bufs[j];
      assert name + [Dot] + bufs[j] == (name + [Dot] + t) + bufs[j][|t|..];
    }
  }

  /** What a sweep as written does: every peer is dialled in list order,
      exactly the connected peers are written to, each connected peer yields
      one sample, and every sample name is the endpoint's name, a dot and all
      256 bytes of the buffer, whatever the length of the reply. */
  lemma {:induction false} SweepAsWrittenTrace(name: Bytes, peers: seq<Bytes>, probes: seq<Probe>, buf: Bytes)
    requires |probes| == |peers| && |buf| == BufferSize
    ensures var t := SweepAsWritten(name, peers, probes, buf).0;
            && Dials(t) == peers
            && Sends(t) == Connected(peers, probes)
            && |Samples(t)| == |PeerReplies(probes)|
            && forall j :: 0 <= j < |Samples(t)| ==>
                 |Samples(t)[j]| == |name| + 1 + BufferSize && Samples(t)[j][..|name| + 1] == name + [Dot]
    decreases |peers|
  {
    if peers != [] {
      var v := VisitAsWritten(name, peers[0], probes[0], buf);
      var rest := SweepAsWritten(name, peers[1..], probes[1..], v.1);
      SweepAsWrittenStep(name, peers, probes, buf);
      SweepAsWrittenTrace(name, peers[1..], probes[1..], v.1);
      CollectConcat(v.0, rest.0, DialOf);
      CollectConcat(v.0, rest.0, SendOf);
      CollectConcat(v.0, rest.0, TimingOf);
      assert peers == [peers[0]] + peers[1..];
    }
  }

  /** A sweep over two runs of peers is the sweep over the first run followed
      by the sweep over the second, from the buffer the first one left. */
  lemma {:induction false} SweepFromConcat(name: Bytes, p1: seq<Bytes>, p2: seq<Bytes>,
                                           q1: seq<Probe>, q2: seq<Probe>,
                                           trace: seq<ProbeAction>, buf: Bytes)
    requires |q1| == |p1| && |q2| == |p2| && |buf| == BufferSize
    ensures var first := SweepFrom(name, p1, q1, trace, buf);
            SweepFrom(name, p1 + p2, q1 + q2, trace, buf) == SweepFrom(name, p2, q2, first.0, first.1)
    decreases |p1|
  {
    if p1 == [] {
      assert p1 + p2 == p2 && q1 + q2 == q2;
    } else {
      var v := VisitAsWritten(name, p1[0], q1[0], buf);
      assert (p1 + p2)[0] == p1[0] && (q1 + q2)[0] == q1[0];
      assert (p1 + p2)[1..] == p1[1..] + p2 && (q1 + q2)[1..] == q1[1..] + q2;
      SweepFromConcat(name, p1[1..], p2, q1[1..], q2, trace + v.0, v.1);
    }
  }

  /** The same for whole sweeps. */
  lemma SweepAsWrittenConcat(name: Bytes, p1: seq<Bytes>, p2: seq<Bytes>,
                             q1: seq<Probe>, q2: seq<Probe>, buf: Bytes)
    requires |q1| == |p1| && |q2| == |p2| && |buf| == BufferSize
    ensures var first := SweepAsWritten(name, p1, q1, buf);
            var second := SweepAsWritten(name, p2, q2, first.1);
            SweepAsWritten(name, p1 + p2, q1 + q2, buf) == (first.0 + second.0, second.1)
  {
    var first := SweepAsWritten(name, p1, q1, buf);
    SweepFromConcat(name, p1, p2, q1, q2, [], buf);
    SweepFromKeepsTrace(name, p2, q2, first.0, first.1);
  }

  /** A peer whose dial fails adds one `Dial` step to the sweep and nothing
      else: no write, no read, no sample, and the buffer is left alone, so the
      sweep otherwise goes exactly as if the peer were not in the list. */
  lemma FailedDialOnlyDials(name: Bytes, peers: seq<Bytes>, probes: seq<Probe>, buf: Bytes, i: nat)
    requires |probes| == |peers| && |buf| == BufferSize
    requires i < |peers| && probes[i].DialFailed?
    ensures var pre := SweepAsWritten(name, peers[..i], probes[..i], buf);
            var post := SweepAsWritten(name, peers[i + 1..], probes[i + 1..], pre.1);
            && SweepAsWritten(name, peers, probes, buf) == (pre.0 + [Dial(peers[i])] + post.0, post.1)
            && SweepAsWritten(name, peers[..i] + peers[i + 1..], probes[..i] + probes[i + 1..], buf)
               == (pre.0 + post.0, post.1)
  {
    var pre := SweepAsWritten(name, peers[..i], probes[..i], buf);
    var post := SweepAsWritten(name, peers[i + 1..], probes[i + 1..], pre.1);
    assert peers == peers[..i] + peers[i..] && probes == probes[..i] + probes[i..];
    SweepAsWrittenConcat(name, peers[..i], peers[i..], probes[..i], probes[i..], buf);
    SweepAsWrittenConcat(name, peers[..i], peers[i + 1..], probes[..i], probes[i + 1..], buf);
    SweepAsWrittenStep(name, peers[i..], probes[i..], pre.1);
    assert peers[i..][0] == peers[i] && probes[i..][0] == probes[i];
    assert peers[i..][1..] == peers[i + 1..] && probes[i..][1..] == probes[i + 1..];
    assert VisitAsWritten(name, peers[i], probes[i], pre.1) == ([Dial(peers[i])], pre.1);
    assert SweepAsWritten(name, peers[i..], probes[i..], pre.1) == ([Dial(peers[i])] + post.0, post.1);
    assert pre.0 + ([Dial(peers[i])] + post.0) == pre.0 + [Dial(peers[i])] + post.0;
  }

  /** The samples of a two-peer sweep as written, both dials succeeding. */
  lemma TwoPeerSamplesAsWritten(name: Bytes, p: Bytes, q: Bytes, r1: Bytes, r2: Bytes, buf: Bytes)
    requires |buf| == BufferSize
    ensures var b1 := Net.ReadInto(buf, r1);
            Samples(SweepAsWritten(name, [p, q], [Dialed(r1), Dialed(r2)], buf).0)
            == [name + [Dot] + b1, name + [Dot] + Net.ReadInto(b1, r2)]
  {
    var v1 := VisitAsWritten(name, p, Dialed(r1), buf);
    var v2 := VisitAsWritten(name, q, Dialed(r2), v1.1);
    assert [p, q][0] == p && [p, q][1..] == [q];
    assert [Dialed(r1), Dialed(r2)][1..] == [Dialed(r2)];
    SweepAsWrittenStep(name, [p, q], [Dialed(r1), Dialed(r2)], buf);
    SweepAsWrittenStep(name, [q], [Dialed(r2)], v1.1);
    assert [q][1..] == [] && [Dialed(r2)][1..] == [];
    assert SweepAsWritten(name, [q], [Dialed(r2)], v1.1).0 == v2.0 + [];
    var t := SweepAsWritten(name, [p, q], [Dialed(r1), Dialed(r2)], buf).0;
    assert t == v1.0 + v2.0;
    CollectConcat(v1.0, v2.0, TimingOf);
  }

  /** The samples of a two-peer sweep with the intended naming. */
  lemma TwoPeerSamples(name: Bytes, p: Bytes, q: Bytes, r1: Bytes, r2: Bytes)
    ensures Samples(Sweep(name, [p, q], [Dialed(r1), Dialed(r2)])) == [StatName(name, r1), StatName(name, r2)]
  {
    assert PeerReplies([Dialed(r2)]) == [r2] + PeerReplies([]);
    assert PeerReplies([Dialed(r1), Dialed(r2)]) == [r1] + PeerReplies([Dialed(r2)]);
  }

  /** Sample names as written carry bytes left over from an earlier reply:
      after a peer replies `r1`, a second peer replying with the shorter `r2`
      gets a sample name that ends with the tail of `r1` and the stale rest of
      the buffer, where the intended name ends with `r2`. */
  lemma StaleReplyBytes(name: Bytes, p: Bytes, q: Bytes, r1: Bytes, r2: Bytes, buf: Bytes)
    requires |buf| == BufferSize
    requires |r2| < |r1| <= BufferSize
    ensures var t := SweepAsWritten(name, [p, q], [Dialed(r1), Dialed(r2)], buf).0;
            |Samples(t)| == 2 && Samples(t)[1] == name + [Dot] + r2 + r1[|r2|..] + buf[|r1|..]
    ensures Samples(Sweep(name, [p, q], [Dialed(r1), Dialed(r2)]))[1] == name + [Dot] + r2
    ensures SweepAsWritten(name, [p, q], [Dialed(r1), Dialed(r2)], buf).0
            != Sweep(name, [p, q], [Dialed(r1), Dialed(r2)])
  {
    TwoPeerSamplesAsWritten(name, p, q, r1, r2, buf);
    TwoPeerSamples(name, p, q, r1, r2);
    var b1 := Net.ReadInto(buf, r1);
    assert b1 == r1 + buf[|r1|..];
    assert Net.ReadInto(b1, r2) == r2 + b1[|r2|..];
    assert b1[|r2|..] == r1[|r2|..] + buf[|r1|..];
  }

  /** The same from the buffer `checkEndpoints` starts with, all zero bytes:
      the second name is padded out with the tail of the first reply and then
      NUL bytes. */
  lemma StaleReplyFromFreshBuffer(name: Bytes, p: Bytes, q: Bytes, r1: Bytes, r2: Bytes)
    requires |r2| < |r1| <= BufferSize
    ensures var t := SweepAsWritten(name, [p, q], [Dialed(r1), Dialed(r2)], FreshBuffer).0;
            |Samples(t)| == 2 && Samples(t)[1] == name + [Dot] + r2 + r1[|r2|..] + seq(BufferSize - |r1|, _ => 0)
  {
    StaleReplyBytes(name, p, q, r1, r2, FreshBuffer);
    assert FreshBuffer[|r1|..] == seq(BufferSize - |r1|, _ => 0);
  }

  /** As written, a sample differs from the intended one whenever the reply
      was shorter than the buffer: the name is padded out to 256 bytes. */
  lemma AsWrittenNamePadded(name: Bytes, peers: seq<Bytes>, probes: seq<Probe>, buf: Bytes, j: nat)
    requires |probes| == |peers| && |buf| == BufferSize
    requires j < |PeerReplies(probes)| && |PeerReplies(probes)[j]| < BufferSize
    ensures var asWritten := Samples(SweepAsWritten(name, peers, probes, buf).0);
            var intended := Samples(Sweep(name, peers, probes));
            j < |asWritten| && j < |intended| && asWritten[j] != intended[j]
  {
    SweepAsWrittenTrace(name, peers, probes, buf);
    var intended := Samples(Sweep(name, peers, probes))[j];
    assert intended == name + [Dot] + Net.Taken(PeerReplies(probes)[j], BufferSize);
    assert |intended| < |name| + 1 + BufferSize;
  }
}
