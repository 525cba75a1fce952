/** Types and small functions that several files share. */
module Common {

  const U32_MAX: nat := 0xFFFF_FFFF

  type Byte = n: nat | n < 256

  datatype Option<+T> = None | Some(value: T) {
    predicate IsFailure() { None? }
    function PropagateFailure<U>(): Option<U>
      requires None?
    {
      None
    }
    function Extract(): T
      requires Some?
    {
      value
    }
  }

  function Repeated<T>(x: T, n: nat): (s: seq<T>)
    ensures |s| == n
  {
    seq(n, _ => x)
  }

  /** The chunks one after the other. */
  function Joined<T>(chunks: seq<seq<T>>): seq<T> {
    if chunks == [] then [] else Joined(chunks[..|chunks| - 1]) + chunks[|chunks| - 1]
  }

  lemma {:induction false} JoinedSplit<T>(chunks: seq<seq<T>>, n: nat)
    requires n <= |chunks|
    ensures Joined(chunks) == Joined(chunks[..n]) + Joined(chunks[n..])
    decreases |chunks|
  {
    if n == |chunks| {
      assert chunks[..n] == chunks && Joined(chunks[n..]) == [];
    } else {
      var front := chunks[..|chunks| - 1];
      JoinedSplit(front, n);
      assert front[..n] == chunks[..n] && chunks[n..][..|chunks| - n - 1] == front[n..];
    }
  }

  lemma JoinedFirst<T>(chunk: seq<T>, chunks: seq<seq<T>>)
    ensures Joined([chunk] + chunks) == chunk + Joined(chunks)
    ensures Joined([chunk]) == chunk
  {
    JoinedSplit([chunk] + chunks, 1);
    assert ([chunk] + chunks)[..1] == [chunk] && ([chunk] + chunks)[1..] == chunks;
    assert [chunk][..0] == [] && [] + chunk == chunk;
  }
}
