/** Small sequence utilities shared by the rest of the model. */
module Collections {

  /** A value that may be absent: `Some` carries it, `None` stands for no value. */
  datatype Option<+T> = None | Some(value: T)

  /** The values `f` picks out of `s`, in the order of `s`: a filter and a map in one. */
  function Collect<T, U>(s: seq<T>, f: T -> Option<U>): (r: seq<U>)
    ensures |r| <= |s|
  {
    if s == [] then []
    else
      match f(s[0])
      case Some(u) => [u] + Collect(s[1..], f)
      case None => Collect(s[1..], f)
  }

  /** Collecting over a concatenation is concatenating the collections. */
  lemma {:induction false} CollectConcat<T, U>(a: seq<T>, b: seq<T>, f: T -> Option<U>)
    ensures Collect(a + b, f) == Collect(a, f) + Collect(b, f)
    decreases |a|
  {
    if a == [] {
      assert a + b == b;
    } else {
      assert (a + b)[1..] == a[1..] + b;
      CollectConcat(a[1..], b, f);
    }
  }
}
