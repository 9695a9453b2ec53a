/** The two pieces of Go's `net` package that `readConfig` and the two loops depend on:
    `net.JoinHostPort`, and what one `Conn.Read(buf)` call does to `buf`. */
module Net {
  import opened GoStrings

  /** `net.JoinHostPort(host, port)`: a host containing a colon is taken to be
      an IPv6 literal and is put in brackets. */
  function JoinHostPort(host: Bytes, port: Bytes): (r: Bytes)
    ensures |r| >= |host| + 1 + |port|
    ensures r[|r| - |port| - 1..] == [Colon] + port
    ensures Colon !in host ==> |r| == |host| + 1 + |port| && r[..|host|] == host
  {
    if Colon in host then [LeftBracket] + host + [RightBracket, Colon] + port
    else host + [Colon] + port
  }

  /** The bytes one `Read` takes from a stream that has `data` available, into
      a buffer of `size` bytes: never more than the buffer holds. */
  function Taken(data: Bytes, size: nat): (t: Bytes)
    ensures |t| <= size
    ensures t <= data
    ensures |data| <= size ==> t == data
    ensures |data| >= size ==> |t| == size
  {
    if |data| <= size then data else data[..size]
  }

  /** The contents of `buf` after one `Read(buf)` from a stream that has `data`
      available: the bytes taken overwrite the front of the buffer and the rest
      of the buffer keeps what it held before. */
  function ReadInto(buf: Bytes, data: Bytes): (r: Bytes)
    ensures |r| == |buf|
    ensures Taken(data, |buf|) <= r
    ensures r[|Taken(data, |buf|)|..] == buf[|Taken(data, |buf|)|..]
  {
    var t := Taken(data, |buf|);
    t + buf[|t|..]
  }
}
