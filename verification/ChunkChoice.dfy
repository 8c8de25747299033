// The choice of one chunk among the chunks of all children of a hash sequence
// (content-discovery/iroh-content-tracker/src/iroh_blobs_util.rs).
module ChunkChoice {
  import opened Base

  /** The chunks requested of one blob. */
  datatype ChunkRanges = NoChunks | OneChunk(start: nat)

  const CHUNK_SIZE: nat := 1024

  /** The number of complete chunks of a blob. */
  function FullChunks(size: u64): nat {
    size / CHUNK_SIZE
  }

  function TotalChunks(sizes: seq<u64>): nat {
    if sizes == [] then 0 else FullChunks(sizes[0]) + TotalChunks(sizes[1..])
  }

  /** A child and one of its complete chunks. */
  datatype Choice = Choice(child: nat, chunk: nat)

  predicate IsChoice(sizes: seq<u64>, c: Choice) {
    c.child < |sizes| && c.chunk < FullChunks(sizes[c.child])
  }

  /** The number that draws a given chunk: the chunks of the children before, and those before it. */
  function NumberOf(sizes: seq<u64>, c: Choice): nat
    requires c.child <= |sizes|
  {
    TotalChunks(sizes[..c.child]) + c.chunk
  }

  /** The chunk that a drawn number selects. */
  function Select(sizes: seq<u64>, number: nat): Choice
    requires number < TotalChunks(sizes)
  {
    if number < FullChunks(sizes[0]) then Choice(0, number)
    else
      var c := Select(sizes[1..], number - FullChunks(sizes[0]));
      Choice(c.child + 1, c.chunk)
  }

  lemma {:induction false} SelectIsChoice(sizes: seq<u64>, number: nat)
    requires number < TotalChunks(sizes)
    ensures IsChoice(sizes, Select(sizes, number)) && NumberOf(sizes, Select(sizes, number)) == number
  {
    if number >= FullChunks(sizes[0]) {
      SelectIsChoice(sizes[1..], number - FullChunks(sizes[0]));
      var k := Select(sizes[1..], number - FullChunks(sizes[0])).child;
      assert sizes[..k + 1][1..] == sizes[1..][..k];
    }
  }

  lemma {:induction false} ChoiceIsSelected(sizes: seq<u64>, c: Choice)
    requires IsChoice(sizes, c)
    ensures NumberOf(sizes, c) < TotalChunks(sizes) && Select(sizes, NumberOf(sizes, c)) == c
  {
    if c.child > 0 {
      var rest := Choice(c.child - 1, c.chunk);
      ChoiceIsSelected(sizes[1..], rest);
      assert sizes[..c.child][1..] == sizes[1..][..rest.child];
      assert NumberOf(sizes, c) == FullChunks(sizes[0]) + NumberOf(sizes[1..], rest);
    }
  }

  /**
   * Exact uniformity: the numbers below the total and the complete chunks of all children
   * correspond one to one. So a number drawn uniformly draws each chunk with equal probability.
   */
  lemma SelectIsBijective(sizes: seq<u64>)
    ensures forall n: nat :: n < TotalChunks(sizes) ==> IsChoice(sizes, Select(sizes, n))
    ensures forall c :: IsChoice(sizes, c) ==>
      NumberOf(sizes, c) < TotalChunks(sizes) && Select(sizes, NumberOf(sizes, c)) == c
    ensures forall n: nat, m: nat :: n < TotalChunks(sizes) && m < TotalChunks(sizes) ==>
      (Select(sizes, n) == Select(sizes, m) ==> n == m)
  {
    forall n: nat | n < TotalChunks(sizes)
      ensures IsChoice(sizes, Select(sizes, n)) && NumberOf(sizes, Select(sizes, n)) == n
    {
      SelectIsChoice(sizes, n);
    }
    forall c | IsChoice(sizes, c)
      ensures NumberOf(sizes, c) < TotalChunks(sizes) && Select(sizes, NumberOf(sizes, c)) == c
    {
      ChoiceIsSelected(sizes, c);
    }
  }

  predicate Drawable(sizes: seq<u64>, c: Choice) {
    exists n: nat :: n < TotalChunks(sizes) && Select(sizes, n) == c
  }

  /** What can be drawn is any 1024 bytes, from a multiple of 1024 on, that are all in the child. */
  lemma DrawableIff(sizes: seq<u64>, c: Choice)
    ensures Drawable(sizes, c) <==> c.child < |sizes| && (c.chunk + 1) * 1024 <= sizes[c.child]
  {
    SelectIsBijective(sizes);
    assert Drawable(sizes, c) <==> IsChoice(sizes, c);
  }

  /**
   * Every chunk of every child, a shorter last one included, can be drawn if and only if the size
   * of every child is a multiple of 1024.
   */
  lemma EveryChunkIff(sizes: seq<u64>)
    ensures (forall i, k: nat :: 0 <= i < |sizes| && k * 1024 < sizes[i] ==> Drawable(sizes, Choice(i, k))) <==>
            forall i :: 0 <= i < |sizes| ==> sizes[i] % 1024 == 0
  {
    forall i: nat, k: nat ensures Drawable(sizes, Choice(i, k)) <==> i < |sizes| && (k + 1) * 1024 <= sizes[i] {
      DrawableIff(sizes, Choice(i, k));
    }
    if i :| 0 <= i < |sizes| && sizes[i] % 1024 != 0 {
      var k := sizes[i] / 1024;
      assert k * 1024 < sizes[i] && !Drawable(sizes, Choice(i, k));
    }
  }

  /** There is a number to draw if and only if some child has a complete chunk. */
  lemma {:induction false} SomeChunkIffTotal(sizes: seq<u64>)
    ensures TotalChunks(sizes) > 0 <==> exists c :: IsChoice(sizes, c)
  {
    if TotalChunks(sizes) > 0 {
      SelectIsChoice(sizes, 0);
    } else if c :| IsChoice(sizes, c) {
      ChoiceIsSelected(sizes, c);
    }
  }

  /**
   * The ranges to request, given the number that was drawn. The sum of the chunks must not
   * overflow, and there must be a number to draw.
   */
  method RandomHashSeqRanges(sizes: seq<u64>, random: nat) returns (ranges: seq<ChunkRanges>)
    requires random < TotalChunks(sizes) < 0x1_0000_0000_0000_0000
    // nothing of the root, one chunk of the selected child, and nothing of the children before it
    ensures var c := Select(sizes, random);
            && |ranges| == c.child + 2
            && (forall i :: 0 <= i < |ranges| ==>
                  ranges[i] == if i == c.child + 1 then OneChunk(c.chunk) else NoChunks)
  {
    var remaining: nat := random;
    ranges := [NoChunks];
    for i := 0 to |sizes|
      invariant |ranges| == i + 1 && forall j :: 0 <= j <= i ==> ranges[j] == NoChunks
      invariant remaining < TotalChunks(sizes[i..])
      invariant Select(sizes, random) ==
                var c := Select(sizes[i..], remaining); Choice(c.child + i, c.chunk)
    {
      var chunks := FullChunks(sizes[i]);
      assert sizes[i..][0] == sizes[i] && sizes[i..][1..] == sizes[i + 1..];
      if remaining < chunks {
        ranges := ranges + [OneChunk(remaining)];
        return;
      }
      remaining := remaining - chunks;
      ranges := ranges + [NoChunks];
    }
  }
}
