/** Types shared by the models of several components. */
module Common {
  datatype Option<+T> = None | Some(value: T)

  type Byte = b: nat | b < 256

  type Bytes = seq<Byte>

  function Min(a: nat, b: nat): nat { if a <= b then a else b }

  /** The concatenation of a list of chunks. */
  function Flatten<T>(chunks: seq<seq<T>>): (s: seq<T>) {
    if chunks == [] then [] else chunks[0] + Flatten(chunks[1..])
  }

  lemma Assoc<T>(a: seq<T>, b: seq<T>, c: seq<T>)
    ensures (a + b) + c == a + (b + c)
  {
  }

  lemma {:induction false} FlattenSnoc<T>(chunks: seq<seq<T>>, last: seq<T>)
    ensures Flatten(chunks + [last]) == Flatten(chunks) + last
  {
    if chunks == [] {
      assert Flatten([last]) == last + Flatten([]);
    } else {
      FlattenSnoc(chunks[1..], last);
      assert (chunks + [last])[1..] == chunks[1..] + [last];
    }
  }
}
