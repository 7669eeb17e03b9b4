/** `MerkleTree.build_tree` (3.py:25-46): the root commitment of an ordered
    list.  Leaves are the digests of the items' text; each round hashes
    adjacent pairs, an odd last digest being paired with itself; a
    one-element list gets no pairing round at all.  The items' text (`str`)
    and the hash are parameters. */
module Merkle {
  import opened Outcomes
  import opened Hashing

  /** `hashes[i] + hashes[i + 1]`: the text hashed for one pair. */
  function Concat(x: string, y: string): string {
    x + y
  }

  /** One round of the `while` loop: `new_hashes` built from `hashes`. */
  function PairUp(h: Hasher, hs: seq<Digest>): (r: seq<Digest>)
    ensures |r| == (|hs| + 1) / 2
    ensures forall j :: 0 <= j < |r| ==>
      r[j] == h(Concat(hs[2 * j], if 2 * j + 1 < |hs| then hs[2 * j + 1] else hs[2 * j]))
    decreases |hs|
  {
    if |hs| == 0 then []
    else if |hs| == 1 then [h(Concat(hs[0], hs[0]))]
    else [h(Concat(hs[0], hs[1]))] + PairUp(h, hs[2..])
  }

  /** Rounds are repeated until a single digest is left. */
  function Reduce(h: Hasher, hs: seq<Digest>): Digest
    requires |hs| >= 1
    decreases |hs|
  {
    if |hs| == 1 then hs[0] else Reduce(h, PairUp(h, hs))
  }

  /** `[sha256(str(tx)) for tx in transactions]`. */
  function LeafHashes<T>(h: Hasher, show: T -> string, xs: seq<T>): (r: seq<Digest>)
    ensures |r| == |xs|
  {
    seq(|xs|, i requires 0 <= i < |xs| => h(show(xs[i])))
  }

  /** The root `build_tree` returns, as a recursive definition. */
  function MerkleRoot<T>(h: Hasher, show: T -> string, xs: seq<T>): Option<Digest> {
    if |xs| == 0 then None
    else if |xs| == 1 then Some(h(show(xs[0])))
    else Some(Reduce(h, LeafHashes(h, show, xs)))
  }

  /** `build_tree` with its two nested loops; it computes `MerkleRoot`. */
  method BuildTree<T>(h: Hasher, show: T -> string, xs: seq<T>) returns (root: Option<Digest>)
    ensures root == MerkleRoot(h, show, xs)
  {
    if |xs| == 0 {
      return None;
    }
    if |xs| == 1 {
      return Some(h(show(xs[0])));
    }
    var hashes := LeafHashes(h, show, xs);
    while |hashes| > 1
      invariant |hashes| >= 1
      invariant Reduce(h, hashes) == Reduce(h, LeafHashes(h, show, xs))
      decreases |hashes|
    {
      hashes := PairRound(h, hashes);
    }
    return Some(hashes[0]);
  }

  /** The inner `for i in range(0, len(hashes), 2)` loop. */
  method PairRound(h: Hasher, hashes: seq<Digest>) returns (next: seq<Digest>)
    ensures next == PairUp(h, hashes)
  {
    next := [];
    var i := 0;
    while i < |hashes|
      invariant 0 <= i <= |hashes| + 1 && i % 2 == 0
      invariant next == PairUp(h, hashes)[..i / 2]
    {
      var concat := if i + 1 < |hashes| then Concat(hashes[i], hashes[i + 1])
                    else Concat(hashes[i], hashes[i]);
      next := next + [h(concat)];
      i := i + 2;
    }
    assert next == PairUp(h, hashes);
  }

  /** The empty list has no root; a single item's root is its leaf digest
      with no pairing round; two items give `H(H(x0) + H(x1))`. */
  lemma MerkleSmallLists<T>(h: Hasher, show: T -> string, x0: T, x1: T)
    ensures MerkleRoot(h, show, []) == None
    ensures MerkleRoot(h, show, [x0]) == Some(h(show(x0)))
    ensures MerkleRoot(h, show, [x0, x1]) == Some(h(Concat(h(show(x0)), h(show(x1)))))
  {
    var leaves := LeafHashes(h, show, [x0, x1]);
    assert leaves[0] == h(show(x0)) && leaves[1] == h(show(x1));
    assert PairUp(h, leaves) == [h(Concat(leaves[0], leaves[1]))];
    assert Reduce(h, leaves) == Reduce(h, PairUp(h, leaves));
  }

  /** With an odd number (at least three) of items, repeating the last item
      does not change the root: the last leaf is already paired with itself. */
  lemma MerkleDuplicateLast<T>(h: Hasher, show: T -> string, xs: seq<T>)
    requires |xs| >= 3 && |xs| % 2 == 1
    ensures MerkleRoot(h, show, xs + [xs[|xs| - 1]]) == MerkleRoot(h, show, xs)
  {
    var ys := xs + [xs[|xs| - 1]];
    var a, b := LeafHashes(h, show, xs), LeafHashes(h, show, ys);
    assert b == a + [a[|a| - 1]];
    var pa, pb := PairUp(h, a), PairUp(h, b);
    assert |pa| == |pb|;
    forall j | 0 <= j < |pa|
      ensures pa[j] == pb[j]
    {
    }
    assert pa == pb;
  }

  /** Two different strings with the same digest. */
  ghost predicate Collision(h: Hasher, s: string, t: string) {
    s != t && h(s) == h(t)
  }

  /** Two digests glued together can be taken apart again. */
  lemma ConcatInjective(x1: Digest, y1: Digest, x2: Digest, y2: Digest)
    requires Concat(x1, y1) == Concat(x2, y2)
    ensures x1 == x2 && y1 == y2
  {
    assert x1 == Concat(x1, y1)[..64] && x2 == Concat(x2, y2)[..64];
    assert y1 == Concat(x1, y1)[64..] && y2 == Concat(x2, y2)[64..];
  }

  /** Lists that differ at `i` but pair up to the same round collide at `i`'s pair. */
  lemma PairCollision(h: Hasher, a: seq<Digest>, b: seq<Digest>, i: nat)
    returns (s: string, t: string)
    requires |a| == |b| && i < |a| && a[i] != b[i]
    requires PairUp(h, a) == PairUp(h, b)
    ensures Collision(h, s, t)
  {
    var j := i / 2;
    var k := if 2 * j + 1 < |a| then 2 * j + 1 else 2 * j;
    assert i == 2 * j || i == k;
    s, t := Concat(a[2 * j], a[k]), Concat(b[2 * j], b[k]);
    var pa, pb := PairUp(h, a), PairUp(h, b);
    assert j < |pa|;
    assert pa[j] == h(s);
    assert pb[j] == h(t);
    if s == t {
      ConcatInjective(a[2 * j], a[k], b[2 * j], b[k]);
      assert false;
    }
  }

  /** Equal-length digest lists that differ but reduce to the same root
      yield a hash collision. */
  lemma {:induction false} ReduceBinding(h: Hasher, a: seq<Digest>, b: seq<Digest>)
    returns (s: string, t: string)
    requires |a| == |b| >= 1 && a != b
    requires Reduce(h, a) == Reduce(h, b)
    ensures Collision(h, s, t)
    decreases |a|
  {
    var i :| 0 <= i < |a| && a[i] != b[i];
    if |a| == 1 {
      assert false;
    }
    var pa, pb := PairUp(h, a), PairUp(h, b);
    if pa != pb {
      s, t := ReduceBinding(h, pa, pb);
    } else {
      s, t := PairCollision(h, a, b, i);
    }
  }

  /** The root binds the list: two different lists of the same length whose
      items render to different texts wherever they differ, and which have
      the same root, exhibit a collision of the hash function. */
  lemma MerkleBinding<T>(h: Hasher, show: T -> string, xs: seq<T>, ys: seq<T>)
    returns (s: string, t: string)
    requires |xs| == |ys| && xs != ys
    requires forall i :: 0 <= i < |xs| && xs[i] != ys[i] ==> show(xs[i]) != show(ys[i])
    requires MerkleRoot(h, show, xs) == MerkleRoot(h, show, ys)
    ensures Collision(h, s, t)
  {
    var a, b := LeafHashes(h, show, xs), LeafHashes(h, show, ys);
    if a == b {
      var i :| 0 <= i < |xs| && xs[i] != ys[i];
      assert a[i] == b[i];
      s, t := show(xs[i]), show(ys[i]);
    } else {
      s, t := ReduceBinding(h, a, b);
    }
  }
}
