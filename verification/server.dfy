/** `runServer` in endpoint.go with the socket calls abstracted: each accepted
    connection is read once into a fresh 256-byte buffer, answered with the
    endpoint's name if the read succeeded, and closed. */
module Server {
  import opened GoStrings
  import opened Collections
  import opened Endpoints
  import Net

  /** What the one `conn.Read(buf)` call on an accepted connection returned:
      the bytes available to that `Read` (a TCP read may deliver only part
      of what the client sent), or an error. */
  datatype ReadResult = ReadOk(data: Bytes) | ReadFailed

  /** What one `server.Accept()` call returned. */
  datatype ConnEvent = AcceptFailed | Accepted(read: ReadResult)

  /** The observable effects of the server loop: a message taken off a
      connection, a reply written, a connection closed, and the run-time
      panic that ends the process. */
  datatype ServerAction = Received(message: Bytes) | Reply(payload: Bytes) | Closed | Panic

  function ReplyOf(a: ServerAction): Option<Bytes>
  {
    if a.Reply? then Some(a.payload) else None
  }

  /** The payloads written back, in order. */
  function Replies(t: seq<ServerAction>): seq<Bytes>
  {
    Collect(t, ReplyOf)
  }

  function CloseOf(a: ServerAction): Option<ServerAction>
  {
    if a.Closed? then Some(a) else None
  }

  /** Number of connections closed. */
  function Closes(t: seq<ServerAction>): nat
  {
    |Collect(t, CloseOf)|
  }

  function AcceptedOf(ev: ConnEvent): Option<ReadResult>
  {
    if ev.Accepted? then Some(ev.read) else None
  }

  function ReadOkOf(ev: ConnEvent): Option<Bytes>
  {
    if ev.Accepted? && ev.read.ReadOk? then Some(ev.read.data) else None
  }

  /** Number of connections accepted, and number of those whose read succeeded. */
  function AcceptCount(events: seq<ConnEvent>): nat { |Collect(events, AcceptedOf)| }
  function ReadOkCount(events: seq<ConnEvent>): nat { |Collect(events, ReadOkOf)| }

  /** One accepted connection: the reply is the endpoint's name and nothing
      else, whatever the client sent; a failed read gets no reply; the
      connection is closed either way, as the last step. */
  function Handle(name: Bytes, read: ReadResult): (t: seq<ServerAction>)
    ensures |t| >= 1 && t[|t| - 1] == Closed
    ensures Closed !in t[..|t| - 1] && Panic !in t
    ensures Closes(t) == 1
    ensures read.ReadFailed? ==> Replies(t) == []
    ensures read.ReadOk? ==> Replies(t) == [name]
    ensures forall i :: 0 <= i < |t| && t[i].Received? ==>
              read.ReadOk? && |t[i].message| <= BufferSize && t[i].message <= read.data
  {
    match read
    case ReadFailed => [Closed]
    case ReadOk(data) =>
      var m := Received(Net.Taken(data, BufferSize));
      assert [m, Reply(name), Closed] == [m] + [Reply(name)] + [Closed];
      CollectConcat([m] + [Reply(name)], [Closed], CloseOf);
      CollectConcat([m], [Reply(name)], CloseOf);
      CollectConcat([m] + [Reply(name)], [Closed], ReplyOf);
      CollectConcat([m], [Reply(name)], ReplyOf);
      [m, Reply(name), Closed]
  }

  /** The replies to a run of connections, with an accept error skipped as
      the loop's log message intends. Every accepted connection is closed and
      every successful read is answered with `name`. */
  function HandleAll(name: Bytes, events: seq<ConnEvent>): (t: seq<ServerAction>)
    ensures Panic !in t
    ensures Closes(t) == AcceptCount(events)
    ensures |Replies(t)| == ReadOkCount(events)
    ensures forall j :: 0 <= j < |Replies(t)| ==> Replies(t)[j] == name
    decreases |events|
  {
    if events == [] then []
    else
      var rest := HandleAll(name, events[1..]);
      assert events == [events[0]] + events[1..];
      CollectConcat([events[0]], events[1..], AcceptedOf);
      CollectConcat([events[0]], events[1..], ReadOkOf);
      match events[0]
      case AcceptFailed => rest
      case Accepted(read) =>
        var h := Handle(name, read);
        CollectConcat(h, rest, ReplyOf);
        CollectConcat(h, rest, CloseOf);
        h + rest
  }

  /** The accept loop with an accept error skipped: nothing at all once the
      endpoint is exiting. */
  function Serve(e: Endpoint, events: seq<ConnEvent>): (t: seq<ServerAction>)
    ensures e.exiting ==> t == []
    ensures Panic !in t
    ensures !e.exiting ==> Closes(t) == AcceptCount(events)
    ensures !e.exiting ==> |Replies(t)| == ReadOkCount(events)
    ensures forall j :: 0 <= j < |Replies(t)| ==> Replies(t)[j] == e.name
  {
    if e.exiting then [] else HandleAll(e.name, events)
  }

  /** The accept loop as written: after an accept error the loop goes on to
      `conn.Read` on the nil connection `Accept` returned, which panics. */
  function ServeAsWritten(e: Endpoint, events: seq<ConnEvent>): (t: seq<ServerAction>)
    ensures e.exiting ==> t == []
    ensures Panic in t <==> !e.exiting && AcceptFailed in events
    decreases |events|
  {
    if e.exiting || events == [] then []
    else
      assert events == [events[0]] + events[1..];
      match events[0]
      case AcceptFailed => [Panic]
      case Accepted(read) =>
        var h := Handle(e.name, read);
        var rest := ServeAsWritten(e, events[1..]);
        h + rest
  }

  /** Handling a run of connections is handling its two halves in turn. */
  lemma {:induction false} HandleAllConcat(name: Bytes, a: seq<ConnEvent>, b: seq<ConnEvent>)
    ensures HandleAll(name, a + b) == HandleAll(name, a) + HandleAll(name, b)
    decreases |a|
  {
    if a != [] {
      assert (a + b)[0] == a[0];
      assert (a + b)[1..] == a[1..] + b;
      HandleAllConcat(name, a[1..], b);
    } else {
      assert a + b == b;
    }
  }

  /** Without accept errors the loop as written and the intended loop agree. */
  lemma {:induction false} AsWrittenWithoutAcceptErrors(e: Endpoint, events: seq<ConnEvent>)
    requires forall j :: 0 <= j < |events| ==> events[j].Accepted?
    ensures ServeAsWritten(e, events) == Serve(e, events)
    decreases |events|
  {
    if !e.exiting && events != [] {
      AsWrittenWithoutAcceptErrors(e, events[1..]);
    }
  }

  /** The first accept error ends the loop as written in a panic: every
      connection after it goes unserved. */
  lemma {:induction false} AcceptErrorPanics(e: Endpoint, events: seq<ConnEvent>, k: nat)
    requires !e.exiting
    requires k < |events| && events[k] == AcceptFailed
    requires forall j :: 0 <= j < k ==> events[j].Accepted?
    ensures ServeAsWritten(e, events) == Serve(e, events[..k]) + [Panic]
    decreases k
  {
    if k > 0 {
      AcceptErrorPanics(e, events[1..], k - 1);
      var pre := events[..k];
      assert pre[0] == events[0] && pre[1..] == events[1..][..k - 1];
      assert HandleAll(e.name, pre) == Handle(e.name, events[0].read) + HandleAll(e.name, pre[1..]);
    }
  }

  /** With an accept error skipped, the connections on either side of it are
      served as if it had not happened, and the server never panics. */
  lemma AcceptErrorSkipped(e: Endpoint, events: seq<ConnEvent>, k: nat)
    requires k < |events| && events[k] == AcceptFailed
    ensures Serve(e, events) == Serve(e, events[..k]) + Serve(e, events[k + 1..])
    ensures Panic !in Serve(e, events)
  {
    assert events == events[..k] + ([events[k]] + events[k + 1..]);
    HandleAllConcat(e.name, events[..k], [events[k]] + events[k + 1..]);
    assert ([events[k]] + events[k + 1..])[1..] == events[k + 1..];
  }
}
