/** Go strings as the byte sequences they are, with the parts of Go's `strings`
    package that the configuration code relies on: `Split` and `Join` with a
    one-byte separator. `strings.Contains(s, ":")` with a one-byte needle is
    membership of that byte, written `Colon in s`. */
module GoStrings {

  /** One byte of a Go string. */
  type Byte = b: int | 0 <= b < 256

  /** A Go string, or a `[]byte`: a sequence of bytes with no encoding imposed. */
  type Bytes = seq<Byte>

  const Comma: Byte := 44         // ','
  const Dot: Byte := 46           // '.'
  const Colon: Byte := 58         // ':'
  const LeftBracket: Byte := 91   // '['
  const RightBracket: Byte := 93  // ']'

  /** Number of occurrences of `b` in `s`. */
  function Count(s: Bytes, b: Byte): (n: nat)
    ensures n <= |s|
    ensures n == 0 <==> b !in s
  {
    if s == [] then 0
    else (if s[0] == b then 1 else 0) + Count(s[1..], b)
  }

  lemma {:induction false} CountConcat(s: Bytes, t: Bytes, b: Byte)
    ensures Count(s + t, b) == Count(s, b) + Count(t, b)
    decreases |s|
  {
    if s == [] {
      assert s + t == t;
    } else {
      assert (s + t)[1..] == s[1..] + t;
      CountConcat(s[1..], t, b);
    }
  }

  /** Position of the first `b` in `s`. */
  function IndexOf(s: Bytes, b: Byte): (i: nat)
    requires b in s
    ensures i < |s| && s[i] == b
    ensures forall k :: 0 <= k < i ==> s[k] != b
  {
    if s[0] == b then 0 else 1 + IndexOf(s[1..], b)
  }

  /** `strings.Join(parts, string(sep))`. */
  function Join(parts: seq<Bytes>, sep: Byte): Bytes
  {
    if |parts| == 0 then []
    else if |parts| == 1 then parts[0]
    else parts[0] + [sep] + Join(parts[1..], sep)
  }

  /** `strings.Split(s, string(sep))`: the pieces of `s` between the separators.
      The empty string splits into one empty piece, and adjacent separators
      produce an empty piece between them. */
  function Split(s: Bytes, sep: Byte): (parts: seq<Bytes>)
    ensures |parts| == Count(s, sep) + 1
    ensures forall k :: 0 <= k < |parts| ==> sep !in parts[k]
    ensures Join(parts, sep) == s
    decreases |s|
  {
    if sep !in s then [s]
    else
      var i := IndexOf(s, sep);
      var rest := Split(s[i + 1..], sep);
      SplitAtFirst(s, sep, i, rest);
      [s[..i]] + rest
  }

  /** One step of `Split`: cutting `s` at its first separator `s[i]` and
      splitting the remainder into `rest` splits all of `s`. */
  lemma SplitAtFirst(s: Bytes, sep: Byte, i: nat, rest: seq<Bytes>)
    requires i < |s| && s[i] == sep
    requires forall k :: 0 <= k < i ==> s[k] != sep
    requires |rest| == Count(s[i + 1..], sep) + 1
    requires forall k :: 0 <= k < |rest| ==> sep !in rest[k]
    requires Join(rest, sep) == s[i + 1..]
    ensures |[s[..i]] + rest| == Count(s, sep) + 1
    ensures forall k :: 0 <= k < |[s[..i]] + rest| ==> sep !in ([s[..i]] + rest)[k]
    ensures Join([s[..i]] + rest, sep) == s
  {
    var parts := [s[..i]] + rest;
    assert s == s[..i] + ([sep] + s[i + 1..]);
    CountConcat(s[..i], [sep] + s[i + 1..], sep);
    CountConcat([sep], s[i + 1..], sep);
    assert Count([sep], sep) == 1;
    assert parts[1..] == rest;
    assert forall k :: 0 <= k < |parts| ==> sep !in parts[k] by {
      forall k | 0 <= k < |parts|
        ensures sep !in parts[k]
      {
        if k == 0 {
          assert forall j :: 0 <= j < i ==> s[..i][j] == s[j];
        } else {
          assert parts[k] == rest[k - 1];
        }
      }
    }
  }

  /** Joining several separator-free pieces puts the first separator right
      after the first piece. */
  lemma JoinFirstSeparator(parts: seq<Bytes>, sep: Byte)
    requires |parts| > 1
    requires forall k :: 0 <= k < |parts| ==> sep !in parts[k]
    ensures sep in Join(parts, sep)
    ensures IndexOf(Join(parts, sep), sep) == |parts[0]|
    ensures Join(parts, sep)[..|parts[0]|] == parts[0]
    ensures Join(parts, sep)[|parts[0]| + 1..] == Join(parts[1..], sep)
  {
    var s := Join(parts, sep);
    var p := parts[0];
    assert s == p + [sep] + Join(parts[1..], sep);
    assert s[|p|] == sep;
    assert forall k :: 0 <= k < |p| ==> s[k] == p[k];
    assert sep !in p;
    var i := IndexOf(s, sep);
    assert i == |p|;
  }

  /** Splitting undoes joining, for pieces that do not contain the separator:
      `Split` and `Join` are inverse to each other. */
  lemma {:induction false} SplitJoin(parts: seq<Bytes>, sep: Byte)
    requires |parts| >= 1
    requires forall k :: 0 <= k < |parts| ==> sep !in parts[k]
    ensures Split(Join(parts, sep), sep) == parts
    decreases |parts|
  {
    if |parts| > 1 {
      var s := Join(parts, sep);
      JoinFirstSeparator(parts, sep);
      assert Split(s, sep) == [parts[0]] + Split(Join(parts[1..], sep), sep);
      SplitJoin(parts[1..], sep);
      assert parts == [parts[0]] + parts[1..];
    }
  }
}
