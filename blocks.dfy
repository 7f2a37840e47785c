/**
 * Concatenation of a sequence of blocks, the shape every level of the
 * analysis shares: a document's findings are its statements' findings one
 * after the other, a statement's are its actions', an action's are its
 * catalog entries'.
 */
module Blocks {

  /** The blocks' elements, block after block, each block in its own order. */
  function Concat<T>(blocks: seq<seq<T>>): seq<T>
  {
    if |blocks| == 0 then [] else blocks[0] + Concat(blocks[1..])
  }

  /** Concatenation distributes over appending sequences of blocks. */
  lemma {:induction false} ConcatAppend<T>(first: seq<seq<T>>, second: seq<seq<T>>)
    ensures Concat(first + second) == Concat(first) + Concat(second)
  {
    if |first| == 0 {
      assert first + second == second;
    } else {
      assert (first + second)[1..] == first[1..] + second;
      ConcatAppend(first[1..], second);
      assert (first[0] + Concat(first[1..])) + Concat(second) == first[0] + (Concat(first[1..]) + Concat(second));
    }
  }

  /** Adding one block at the end appends exactly that block. */
  lemma ConcatSnoc<T>(blocks: seq<seq<T>>, k: nat)
    requires k < |blocks|
    ensures Concat(blocks[..k + 1]) == Concat(blocks[..k]) + blocks[k]
  {
    assert blocks[..k + 1] == blocks[..k] + [blocks[k]];
    ConcatAppend(blocks[..k], [blocks[k]]);
    assert Concat([blocks[k]]) == blocks[k] + Concat([blocks[k]][1..]);
    assert [blocks[k]][1..] == [];
  }

  /** An element is in the concatenation exactly when it is in one of the blocks. */
  lemma {:induction false} ConcatMembers<T>(blocks: seq<seq<T>>, x: T)
    ensures x in Concat(blocks) <==> exists k :: 0 <= k < |blocks| && x in blocks[k]
  {
    if |blocks| > 0 {
      ConcatMembers(blocks[1..], x);
      if x in Concat(blocks[1..]) {
        var k :| 0 <= k < |blocks[1..]| && x in blocks[1..][k];
        assert x in blocks[k + 1];
      }
      if exists k :: 0 <= k < |blocks| && x in blocks[k] {
        var k :| 0 <= k < |blocks| && x in blocks[k];
        if k > 0 {
          assert x in blocks[1..][k - 1];
        }
      }
    }
  }

  /**
   * When the elements of block `k` all carry the key `base + k`, the
   * concatenation lists its elements in non-decreasing key order.
   */
  lemma {:induction false} ConcatOrdered<T>(blocks: seq<seq<T>>, key: T -> int, base: int)
    requires forall k, x :: 0 <= k < |blocks| && x in blocks[k] ==> key(x) == base + k
    ensures forall p, q :: 0 <= p < q < |Concat(blocks)| ==> key(Concat(blocks)[p]) <= key(Concat(blocks)[q])
  {
    if |blocks| > 0 {
      var head, rest := blocks[0], blocks[1..];
      forall k, x | 0 <= k < |rest| && x in rest[k] ensures key(x) == base + 1 + k {
        assert rest[k] == blocks[k + 1];
      }
      ConcatOrdered(rest, key, base + 1);
      var tail := Concat(rest);
      forall q | 0 <= q < |tail| ensures key(tail[q]) > base {
        ConcatMembers(rest, tail[q]);
      }
      var r := head + tail;
      forall p, q | 0 <= p < q < |r| ensures key(r[p]) <= key(r[q]) {
        if q < |head| {
          assert r[p] in blocks[0] && r[q] in blocks[0];
        } else if p < |head| {
          assert r[p] in blocks[0];
          assert r[q] == tail[q - |head|];
        } else {
          assert r[p] == tail[p - |head|] && r[q] == tail[q - |head|];
        }
      }
    }
  }
}
