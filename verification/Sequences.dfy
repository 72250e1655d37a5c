/**
  Vocabulary shared by every component: bytes, optional values, flattening of a
  sequence of blocks, and the order-preserving sub-sequence relation used to say
  that a stream lost data but neither repeated nor reordered it.
 */
module Sequences {

  type byte = x: int | 0 <= x < 256

  datatype Option<+T> = None | Some(value: T)

  /** The concatenation of all blocks; built from the back, as histories grow. */
  function Flatten<T>(blocks: seq<seq<T>>): seq<T> {
    if blocks == [] then [] else Flatten(blocks[..|blocks| - 1]) + blocks[|blocks| - 1]
  }

  lemma FlattenSnoc<T>(blocks: seq<seq<T>>, last: seq<T>)
    ensures Flatten(blocks + [last]) == Flatten(blocks) + last
  {
    assert (blocks + [last])[..|blocks|] == blocks;
  }

  lemma FlattenGrowLast<T>(blocks: seq<seq<T>>, last: seq<T>, more: seq<T>)
    ensures Flatten(blocks + [last + more]) == Flatten(blocks + [last]) + more
  {
    FlattenSnoc(blocks, last);
    FlattenSnoc(blocks, last + more);
    Reassociate(Flatten(blocks), last, more);
  }

  lemma Reassociate<T>(a: seq<T>, b: seq<T>, c: seq<T>)
    ensures a + (b + c) == a + b + c
  {}

  /** `part` is obtained from `whole` by deleting elements, keeping the order. */
  ghost predicate Subsequence<T>(part: seq<T>, whole: seq<T>)
    decreases |whole|
  {
    if part == [] then true
    else if whole == [] then false
    else
      var p, w := |part| - 1, |whole| - 1;
      || (part[p] == whole[w] && Subsequence(part[..p], whole[..w]))
      || Subsequence(part, whole[..w])
  }

  lemma {:induction false} SubsequenceExtend<T>(part: seq<T>, whole: seq<T>, more: seq<T>)
    requires Subsequence(part, whole)
    ensures Subsequence(part, whole + more)
    decreases |more|
  {
    if more == [] {
      assert whole + more == whole;
    } else {
      var m := |more| - 1;
      SubsequenceExtend(part, whole, more[..m]);
      assert (whole + more)[..|whole| + m] == whole + more[..m];
    }
  }

  lemma {:induction false} SubsequenceAppend<T>(part: seq<T>, whole: seq<T>, more: seq<T>)
    requires Subsequence(part, whole)
    ensures Subsequence(part + more, whole + more)
    decreases |more|
  {
    if more == [] {
      assert whole + more == whole && part + more == part;
    } else {
      var m := |more| - 1;
      SubsequenceAppend(part, whole, more[..m]);
      assert (whole + more)[..|whole| + m] == whole + more[..m];
      assert (part + more)[..|part| + m] == part + more[..m];
    }
  }

  /** Deleting a block from the middle of a sub-sequence leaves a sub-sequence. */
  lemma {:induction false} SubsequenceDrop<T>(before: seq<T>, dropped: seq<T>, after: seq<T>, whole: seq<T>)
    requires Subsequence(before + dropped + after, whole)
    ensures Subsequence(before + after, whole)
    decreases |whole|, |dropped|
  {
    var part := before + dropped + after;
    if before + after == [] || dropped == [] {
      assert dropped == [] ==> part == before + after;
    } else {
      var p, w := |part| - 1, |whole| - 1;
      if Subsequence(part, whole[..w]) {
        SubsequenceDrop(before, dropped, after, whole[..w]);
        SubsequenceExtend(before + after, whole[..w], whole[w..]);
        assert whole == whole[..w] + whole[w..];
      } else if after != [] {
        var a := |after| - 1;
        assert part[..p] == before + dropped + after[..a];
        SubsequenceDrop(before, dropped, after[..a], whole[..w]);
        assert (before + after)[..|before| + a] == before + after[..a];
      } else {
        var d := |dropped| - 1;
        assert part[..p] == before + dropped[..d] + after;
        SubsequenceDrop(before, dropped[..d], after, whole[..w]);
        SubsequenceExtend(before + after, whole[..w], whole[w..]);
        assert whole == whole[..w] + whole[w..];
      }
    }
  }
}
