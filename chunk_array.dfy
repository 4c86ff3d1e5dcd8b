/**
 * The front end's chunkArray helper: a list cut into consecutive pieces of
 * a fixed size, the last piece holding what is left over.
 */
module Chunking {

  /** array.slice(i, j) for 0 <= i <= j: the elements from i up to j, both clamped to the length. */
  function Slice<T>(a: seq<T>, i: nat, j: nat): (r: seq<T>)
    requires i <= j
    ensures |r| == (if j <= |a| then j else |a|) - (if i <= |a| then i else |a|)
  {
    var hi := if j <= |a| then j else |a|;
    var lo := if i <= |a| then i else |a|;
    a[lo..hi]
  }

  /** What is left of a once the first i elements are taken. */
  function Drop<T>(a: seq<T>, i: nat): seq<T>
  {
    if i <= |a| then a[i..] else []
  }

  /** The pieces of a: a first piece of size elements (or all of a, if shorter), then the pieces of the rest. */
  function Chunks<T>(a: seq<T>, size: nat): seq<seq<T>>
    requires size >= 1
    decreases |a|
  {
    if a == [] then []
    else if |a| <= size then [a]
    else [a[..size]] + Chunks(a[size..], size)
  }

  /** The pieces put back together, in order. */
  function Flatten<T>(chunks: seq<seq<T>>): seq<T>
  {
    if chunks == [] then [] else chunks[0] + Flatten(chunks[1..])
  }

  /**
   * chunkArray: for i = 0, size, 2 * size, ... below the length, push
   * array.slice(i, i + size). A size below 1 makes the loop run forever,
   * so it is required here.
   */
  method ChunkArray<T>(a: seq<T>, size: nat) returns (chunked: seq<seq<T>>)
    requires size >= 1
    ensures chunked == Chunks(a, size)
  {
    chunked := [];
    var i := 0;
    assert Drop(a, 0) == a;
    while i < |a|
      invariant chunked + Chunks(Drop(a, i), size) == Chunks(a, size)
      decreases |a| - i
    {
      ChunksStep(a, i, size);
      chunked := chunked + [Slice(a, i, i + size)];
      i := i + size;
    }
    assert Drop(a, i) == [];
  }

  /** One turn of the loop: the piece at i is the slice from i, and the rest starts size further on. */
  lemma ChunksStep<T>(a: seq<T>, i: nat, size: nat)
    requires size >= 1 && i < |a|
    ensures Chunks(Drop(a, i), size) == [Slice(a, i, i + size)] + Chunks(Drop(a, i + size), size)
  {
    var d := a[i..];
    if |d| <= size {
      assert Slice(a, i, i + size) == d;
      assert Drop(a, i + size) == [];
    } else {
      assert d[..size] == Slice(a, i, i + size);
      assert d[size..] == Drop(a, i + size);
    }
  }

  /** The pieces put back together in order give the input back. */
  lemma {:induction false} FlattenChunks<T>(a: seq<T>, size: nat)
    requires size >= 1
    ensures Flatten(Chunks(a, size)) == a
    decreases |a|
  {
    if |a| > size {
      var rest := Chunks(a[size..], size);
      FlattenChunks(a[size..], size);
      FlattenCons(a[..size], rest);
      assert a[..size] + a[size..] == a;
    } else if a != [] {
      FlattenCons(a, []);
      assert a + [] == a;
    }
  }

  lemma FlattenCons<T>(x: seq<T>, rest: seq<seq<T>>)
    ensures Flatten([x] + rest) == x + Flatten(rest)
  {
    assert ([x] + rest)[1..] == rest;
  }

  /** Each piece but the last has exactly size elements, and the last one between 1 and size. */
  lemma {:induction false} ChunkSizes<T>(a: seq<T>, size: nat)
    requires size >= 1
    ensures var c := Chunks(a, size);
            && (forall k :: 0 <= k < |c| - 1 ==> |c[k]| == size)
            && (|c| > 0 ==> 1 <= |c[|c| - 1]| <= size)
    decreases |a|
  {
    if |a| > size {
      ChunkSizes(a[size..], size);
      var c := Chunks(a, size);
      var rest := Chunks(a[size..], size);
      assert c == [a[..size]] + rest;
      assert rest != [];
      assert forall k :: 1 <= k < |c| ==> c[k] == rest[k - 1];
    }
  }

  /** The number of pieces c satisfies (c - 1) * size < n <= c * size. */
  lemma {:induction false} ChunkCountBounds<T>(a: seq<T>, size: nat)
    requires size >= 1
    ensures (|Chunks(a, size)| - 1) * size < |a| <= |Chunks(a, size)| * size
    decreases |a|
  {
    if |a| > size {
      ChunkCountBounds(a[size..], size);
      var c := |Chunks(a[size..], size)|;
      assert |Chunks(a, size)| == c + 1;
      assert (c + 1) * size == c * size + size;
    }
  }

  /** The number of pieces is ceil(n / size); no input, no pieces. */
  lemma ChunkCount<T>(a: seq<T>, size: nat)
    requires size >= 1
    ensures |Chunks(a, size)| == (|a| + size - 1) / size
    ensures Chunks(a, size) == [] <==> a == []
  {
    ChunkCountBounds(a, size);
    CeilDiv(|a|, size, |Chunks(a, size)|);
  }

  /** A count with (count - 1) * size < n <= count * size is ceil(n / size). */
  lemma CeilDiv(n: nat, size: nat, count: int)
    requires size >= 1 && (count - 1) * size < n <= count * size
    ensures count == (n + size - 1) / size
  {
    var m := n + size - 1;
    var q := m / size;
    assert m == q * size + m % size;
    assert (count - 1) * size == count * size - size;
    assert (count - q) * size == count * size - q * size;
    SmallMultiple(count - q, size);
  }

  /** The only multiple of size strictly between -size and size is 0. */
  lemma SmallMultiple(d: int, size: int)
    requires size >= 1 && -size < d * size < size
    ensures d == 0
  {
    if d >= 1 {
      MulMonotone(1, d, size);
    }
  }

  lemma MulMonotone(x: int, y: int, size: nat)
    requires x <= y
    ensures x * size <= y * size
  {
  }

  /** When size >= n > 0 there is one piece: the whole input. */
  lemma OneChunkWhenSizeCoversInput<T>(a: seq<T>, size: nat)
    requires size >= |a| > 0
    ensures Chunks(a, size) == [a]
  {
  }

  /** With size 1 every element is a piece of its own. */
  lemma {:induction false} SingletonsWhenSizeIsOne<T>(a: seq<T>)
    ensures |Chunks(a, 1)| == |a|
    ensures forall k :: 0 <= k < |a| ==> Chunks(a, 1)[k] == [a[k]]
    decreases |a|
  {
    if |a| > 1 {
      SingletonsWhenSizeIsOne(a[1..]);
      var c := Chunks(a, 1);
      assert c == [a[..1]] + Chunks(a[1..], 1);
      assert forall k :: 1 <= k < |a| ==> c[k] == Chunks(a[1..], 1)[k - 1] && a[k] == a[1..][k - 1];
    }
  }
}
