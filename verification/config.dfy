/** `readConfig` in nethealth.go: the local peer name, the port text and the
    list of peer endpoints, read from the environment. */
module Config {
  import opened GoStrings
  import Net

  /** The process environment: the variables that are set, with their values. */
  type Environment = map<string, Bytes>

  /** `os.Getenv`: an unset variable reads as the empty string. */
  function Getenv(env: Environment, name: string): Bytes
  {
    if name in env then env[name] else []
  }

  /** The `readValue` closure: the variable's value when it is non-empty, the
      default otherwise. A variable set to the empty string counts as unset. */
  function ReadValue(env: Environment, name: string, defaultValue: Bytes): (v: Bytes)
    ensures Getenv(env, name) != [] ==> v == Getenv(env, name)
    ensures Getenv(env, name) == [] ==> v == defaultValue
    ensures v == [] <==> Getenv(env, name) == [] && defaultValue == []
  {
    if Getenv(env, name) != [] then Getenv(env, name) else defaultValue
  }

  /** The default probe port, "3333". */
  const DefaultPort: Bytes := [51, 51, 51, 51]

  /** One element of ENDPOINTS as it is added: with `:3333` appended when it
      names no port. The loop goes through `net.JoinHostPort`, which cannot
      take its bracketing branch here because the host has no colon. */
  function WithDefaultPort(e: Bytes): (r: Bytes)
    ensures Colon in r
    ensures Colon in e ==> r == e
    ensures Colon !in e ==> r == e + [Colon] + DefaultPort
  {
    if Colon !in e then
      var r := Net.JoinHostPort(e, DefaultPort);
      assert r[..|e|] == e;
      assert r[|e|..] == r[|r| - |DefaultPort| - 1..];
      assert r == r[..|e|] + r[|e|..];
      assert r[|e|] == Colon;
      r
    else e
  }

  /** Every element of `parts` with its port defaulted, in order. */
  function Defaulted(parts: seq<Bytes>): (r: seq<Bytes>)
    ensures |r| == |parts|
    ensures forall k :: 0 <= k < |parts| ==> r[k] == WithDefaultPort(parts[k])
  {
    seq(|parts|, k requires 0 <= k < |parts| => WithDefaultPort(parts[k]))
  }

  lemma DefaultedSnoc(parts: seq<Bytes>, e: Bytes)
    ensures Defaulted(parts + [e]) == Defaulted(parts) + [WithDefaultPort(e)]
  {
  }

  /** The endpoint list after the ENDPOINTS loop, given the value `ep` read
      for ENDPOINTS and the list `endpoints` the loop appends to. */
  function ParseEndpoints(endpoints: seq<Bytes>, ep: Bytes): (r: seq<Bytes>)
    ensures ep == [] ==> r == endpoints
    ensures ep != [] ==> |r| == |endpoints| + Count(ep, Comma) + 1
    ensures |endpoints| <= |r| && r[..|endpoints|] == endpoints
    ensures forall k :: |endpoints| <= k < |r| ==> Colon in r[k]
    ensures ep != [] ==> forall k :: 0 <= k < Count(ep, Comma) + 1 ==>
              && (Colon in Split(ep, Comma)[k] ==> r[|endpoints| + k] == Split(ep, Comma)[k])
              && (Colon !in Split(ep, Comma)[k] ==> r[|endpoints| + k] == Split(ep, Comma)[k] + [Colon] + DefaultPort)
  {
    if ep == [] then endpoints
    else
      var parts := Split(ep, Comma);
      var added := Defaulted(parts);
      assert forall k :: 0 <= k < |added| ==> (endpoints + added)[|endpoints| + k] == added[k];
      endpoints + added
  }

  /** The ENDPOINTS loop as written: split on commas, default the port, append
      in input order. */
  method AppendEndpoints(endpoints: seq<Bytes>, ep: Bytes) returns (r: seq<Bytes>)
    ensures r == ParseEndpoints(endpoints, ep)
  {
    r := endpoints;
    if ep != [] {
      var parts := Split(ep, Comma);
      var i := 0;
      while i < |parts|
        invariant 0 <= i <= |parts|
        invariant r == endpoints + Defaulted(parts[..i])
      {
        var e := parts[i];
        if Colon !in e {
          e := Net.JoinHostPort(e, DefaultPort);
        }
        assert e == WithDefaultPort(parts[i]);
        assert parts[..i + 1] == parts[..i] + [parts[i]];
        DefaultedSnoc(parts[..i], parts[i]);
        r := r + [e];
        i := i + 1;
      }
      assert parts[..i] == parts;
    }
  }

  /** What `readConfig` leaves behind. The port is kept as the text that
      `strconv.Atoi` would parse. */
  datatype Settings = Settings(peername: Bytes, portText: Bytes, endpoints: seq<Bytes>)

  /** `readConfig`, with the host name and the endpoints already collected as
      parameters. */
  function ReadConfig(env: Environment, hostname: Bytes, endpoints: seq<Bytes>): (c: Settings)
    ensures Getenv(env, "PEERNAME") == [] ==> c.peername == hostname
    ensures Getenv(env, "PEERNAME") != [] ==> c.peername == Getenv(env, "PEERNAME")
    ensures Getenv(env, "PORT") == [] ==> c.portText == DefaultPort
    ensures Getenv(env, "PORT") != [] ==> c.portText == Getenv(env, "PORT")
    ensures Getenv(env, "ENDPOINTS") == [] ==> c.endpoints == endpoints
    ensures c.endpoints == ParseEndpoints(endpoints, Getenv(env, "ENDPOINTS"))
  {
    Settings(ReadValue(env, "PEERNAME", hostname),
             ReadValue(env, "PORT", DefaultPort),
             ParseEndpoints(endpoints, ReadValue(env, "ENDPOINTS", [])))
  }

  /** ENDPOINTS="a,,b" adds "a:3333", ":3333" and "b:3333": the empty element
      between the two commas has no colon, so it too gets the default port. */
  lemma EmptyElementGetsDefaultPort(a: Bytes, b: Bytes)
    requires Comma !in a && Colon !in a
    requires Comma !in b && Colon !in b
    ensures ParseEndpoints([], a + [Comma, Comma] + b)
            == [a + [Colon] + DefaultPort, [Colon] + DefaultPort, b + [Colon] + DefaultPort]
  {
    var parts: seq<Bytes> := [a, [], b];
    assert parts[1..] == [[], b] && parts[1..][1..] == [b];
    assert Join([b], Comma) == b;
    assert Join([[], b], Comma) == [] + [Comma] + b;
    assert Join(parts, Comma) == a + [Comma] + ([] + [Comma] + b);
    assert a + [Comma] + ([] + [Comma] + b) == a + [Comma, Comma] + b;
    SplitJoin(parts, Comma);
    var added := Defaulted(parts);
    assert added[1] == [] + [Colon] + DefaultPort;
    assert ParseEndpoints([], a + [Comma, Comma] + b) == [] + added;
  }
}
