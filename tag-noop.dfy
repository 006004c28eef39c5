/**
 * tagNoop from src/css/tagNoop.ts: a template-literal tag that glues the
 * literal chunks and the substituted values back together unchanged, so that
 * css`...` literals read as plain strings.
 */
module TagNoop {

  /**
   * The text a tagged template stands for: chunk 0, then each substitution
   * followed by the chunk after it. A tagged template always supplies one
   * chunk more than it has substitutions.
   */
  function Interleave(chunks: seq<string>, subs: seq<string>): string
    requires |chunks| == |subs| + 1
    decreases |subs|
  {
    if subs == [] then chunks[0]
    else
      Interleave(chunks[..|chunks| - 1], subs[..|subs| - 1])
        + subs[|subs| - 1] + chunks[|chunks| - 1]
  }

  /** tagNoop: a left-to-right loop that appends each substitution and the chunk after it. */
  method Tag(chunks: seq<string>, subs: seq<string>) returns (s: string)
    requires |chunks| == |subs| + 1
    ensures s == Interleave(chunks, subs)
    ensures subs == [] ==> s == chunks[0]
  {
    s := chunks[0];
    assert chunks[..1] == [chunks[0]];
    for i := 1 to |chunks|
      invariant s == Interleave(chunks[..i], subs[..i - 1])
    {
      s := s + subs[i - 1] + chunks[i];
      assert chunks[..i + 1][..i] == chunks[..i];
      assert subs[..i][..i - 1] == subs[..i - 1];
    }
    assert chunks[..|chunks|] == chunks && subs[..|subs|] == subs;
  }

  /** Summed length of a list of strings. */
  function TotalLength(parts: seq<string>): nat {
    if parts == [] then 0 else TotalLength(parts[..|parts| - 1]) + |parts[|parts| - 1]|
  }

  /** Nothing is dropped or added: the result is exactly as long as all the pieces together. */
  lemma {:induction false} InterleaveLength(chunks: seq<string>, subs: seq<string>)
    requires |chunks| == |subs| + 1
    ensures |Interleave(chunks, subs)| == TotalLength(chunks) + TotalLength(subs)
    decreases |subs|
  {
    if subs == [] {
      assert chunks[..0] == [];
    } else {
      InterleaveLength(chunks[..|chunks| - 1], subs[..|subs| - 1]);
    }
  }

  /** The substitutions each followed by the chunk after them, read from the front. */
  function Pairs(subs: seq<string>, after: seq<string>): string
    requires |after| == |subs|
  {
    if subs == [] then [] else subs[0] + after[0] + Pairs(subs[1..], after[1..])
  }

  lemma {:induction false} PairsSnoc(subs: seq<string>, after: seq<string>, sub: string, chunk: string)
    requires |after| == |subs|
    ensures Pairs(subs + [sub], after + [chunk]) == Pairs(subs, after) + sub + chunk
    decreases |subs|
  {
    if subs == [] {
      assert Pairs([sub], [chunk]) == sub + chunk + Pairs([], []);
    } else {
      assert (subs + [sub])[1..] == subs[1..] + [sub];
      assert (after + [chunk])[1..] == after[1..] + [chunk];
      PairsSnoc(subs[1..], after[1..], sub, chunk);
    }
  }

  /** The loop agrees with the front-to-back reading: chunk 0, then each substitution and its chunk. */
  lemma {:induction false} InterleaveReadsForward(chunks: seq<string>, subs: seq<string>)
    requires |chunks| == |subs| + 1
    ensures Interleave(chunks, subs) == chunks[0] + Pairs(subs, chunks[1..])
    decreases |subs|
  {
    if subs == [] {
      assert chunks[0] + Pairs(subs, chunks[1..]) == chunks[0];
    } else {
      var n := |subs|;
      var front, subFront := chunks[..n], subs[..n - 1];
      InterleaveReadsForward(front, subFront);
      assert chunks[1..] == front[1..] + [chunks[n]];
      assert subs == subFront + [subs[n - 1]];
      PairsSnoc(subFront, front[1..], subs[n - 1], chunks[n]);
    }
  }

  /** The result always begins with the first chunk. */
  lemma {:induction false} InterleaveStartsWithFirstChunk(chunks: seq<string>, subs: seq<string>)
    requires |chunks| == |subs| + 1
    ensures chunks[0] <= Interleave(chunks, subs)
    decreases |subs|
  {
    if subs != [] {
      InterleaveStartsWithFirstChunk(chunks[..|chunks| - 1], subs[..|subs| - 1]);
    }
  }
}
