/** Bytes, and the way a body is cut into the blocks that a reader asking for
    at most `n` bytes at a time receives. */
module Chunking {

  newtype byte = x: int | 0 <= x < 256

  /** A chunk size: a positive number of bytes. */
  type ChunkSize = n: nat | n > 0 witness 1

  function Min(a: nat, b: nat): nat
  {
    if a <= b then a else b
  }

  /** The successive reads of `n` bytes from `s`: each read returns the next
      `min(n, remaining)` bytes, and reading stops once nothing remains. */
  function Chunks(s: seq<byte>, n: ChunkSize): seq<seq<byte>>
    decreases |s|
  {
    if |s| == 0 then []
    else
      var m := Min(n, |s|);
      [s[..m]] + Chunks(s[m..], n)
  }

  /** The concatenation of a sequence of chunks. */
  function Flatten(cs: seq<seq<byte>>): seq<byte>
  {
    if |cs| == 0 then [] else cs[0] + Flatten(cs[1..])
  }

  /** One read, `k` chunks into the body: when the read returns nothing all
      chunks have been seen; otherwise it returns chunk `k` and leaves the rest. */
  lemma ReadStep(all: seq<seq<byte>>, k: nat, rest: seq<byte>, n: ChunkSize, chunk: seq<byte>)
    requires k <= |all| && Chunks(rest, n) == all[k..]
    requires chunk == rest[..Min(n, |rest|)]
    ensures chunk == [] <==> k == |all|
    ensures chunk != [] ==>
      && all[k] == chunk
      && all[..k + 1] == all[..k] + [chunk]
      && Chunks(rest[|chunk|..], n) == all[k + 1..]
  {
    if chunk != [] {
      assert all[k..][0] == chunk;
      assert all[k + 1..] == all[k..][1..];
    }
  }

  /** Flattening distributes over concatenation of chunk sequences. */
  lemma {:induction false} FlattenConcat(a: seq<seq<byte>>, b: seq<seq<byte>>)
    ensures Flatten(a + b) == Flatten(a) + Flatten(b)
  {
    if |a| == 0 {
      assert a + b == b;
    } else {
      assert (a + b)[1..] == a[1..] + b;
      FlattenConcat(a[1..], b);
    }
  }

  /** Writing one more chunk appends exactly that chunk. */
  lemma FlattenSnoc(cs: seq<seq<byte>>, c: seq<byte>)
    ensures Flatten(cs + [c]) == Flatten(cs) + c
  {
    FlattenConcat(cs, [c]);
    assert Flatten([c]) == c + Flatten([]);
  }

  /** The chunks put back together are the original body, whatever the chunk size. */
  lemma {:induction false} FlattenChunks(s: seq<byte>, n: ChunkSize)
    ensures Flatten(Chunks(s, n)) == s
  {
    if |s| > 0 {
      var m := Min(n, |s|);
      FlattenChunks(s[m..], n);
      assert s[..m] + s[m..] == s;
    }
  }

  /** The bytes of the first `k` chunks are a prefix of the body. */
  lemma FirstChunksArePrefix(s: seq<byte>, n: ChunkSize, k: nat)
    requires k <= |Chunks(s, n)|
    ensures var p := Flatten(Chunks(s, n)[..k]); |p| <= |s| && s[..|p|] == p
  {
    var cs := Chunks(s, n);
    assert cs == cs[..k] + cs[k..];
    FlattenConcat(cs[..k], cs[k..]);
    FlattenChunks(s, n);
  }

  /** No chunk is empty, none is longer than `n`, and all but the last are full. */
  lemma {:induction false} ChunkSizes(s: seq<byte>, n: ChunkSize)
    ensures var cs := Chunks(s, n);
      forall i :: 0 <= i < |cs| ==> 1 <= |cs[i]| <= n && (i < |cs| - 1 ==> |cs[i]| == n)
  {
    if |s| > 0 {
      var m := Min(n, |s|);
      ChunkSizes(s[m..], n);
      var cs := Chunks(s, n);
      forall i | 0 <= i < |cs|
        ensures 1 <= |cs[i]| <= n && (i < |cs| - 1 ==> |cs[i]| == n)
      {
        if i > 0 {
          assert cs[i] == Chunks(s[m..], n)[i - 1];
        } else if |cs| > 1 {
          assert |s[m..]| > 0;
        }
      }
    }
  }

  /** An `s`-byte body takes `ceil(|s| / n)` reads that return data: no read
      for an empty body, otherwise the least count whose total capacity covers it. */
  lemma {:induction false} ChunkCount(s: seq<byte>, n: ChunkSize)
    ensures var c := |Chunks(s, n)|;
      && (|s| == 0 ==> c == 0)
      && (|s| > 0 ==> (c - 1) * n < |s| <= c * n)
  {
    if |s| > n {
      var k := |Chunks(s[n..], n)|;
      ChunkCount(s[n..], n);
      assert |Chunks(s, n)| == k + 1;
      MulSucc(k - 1, n);
      MulSucc(k, n);
    }
  }

  lemma MulSucc(k: int, n: int)
    ensures (k + 1) * n == k * n + n
  {
  }
}
