/**
 * `Chain::get_merkle`: hash every transaction into a queue, duplicate the last
 * entry when the count is odd, then repeatedly pop the two front entries,
 * hash their concatenation and push the result to the back until one entry is
 * left. This is front-to-back queue pairing, not a level-by-level tree.
 *
 * The fingerprint function is a parameter (`hash`, which the chain
 * instantiates with `Hashing.Hash`), and the queue functions take the merge
 * as a parameter (`Combiner`), so the facts about the pairing order hold
 * whatever the hash is; `PairHash` is the merge the source uses.
 */
module Merkle {
  import opened Types
  import opened Hex
  import opened Hashing

  /** The fingerprint of each transaction, in input order. */
  function Leaves(hash: Hasher, txs: seq<Transaction>): (r: seq<string>)
    ensures |r| == |txs|
  {
    seq(|txs|, i requires 0 <= i < |txs| => hash(TxValue(txs[i])))
  }

  lemma LeavesSnoc(hash: Hasher, txs: seq<Transaction>, i: nat)
    requires i < |txs|
    ensures Leaves(hash, txs[..i + 1]) == Leaves(hash, txs[..i]) + [hash(TxValue(txs[i]))]
  {
  }

  /** The odd-count padding: repeat the last entry. */
  function Padded(q: seq<string>): (r: seq<string>)
    ensures |r| % 2 == 0 && |q| <= |r| <= |q| + 1
    ensures r[..|q|] == q
    ensures |r| > |q| ==> r[|q|] == q[|q| - 1]
  {
    if |q| % 2 == 1 then q + [q[|q| - 1]] else q
  }

  /** How two queue entries are merged into one. */
  type Combiner = (string, string) -> string

  /** The source's merge: hash the concatenation of two fingerprints, the left one first. */
  function PairHash(hash: Hasher): Combiner {
    (left: string, right: string) => hash(TextValue(left + right))
  }

  /** One iteration of the `while` loop: pop two from the front, push their merge. */
  function Step(combine: Combiner, q: seq<string>): (r: seq<string>)
    requires |q| >= 2
    ensures |r| == |q| - 1
  {
    q[2..] + [combine(q[0], q[1])]
  }

  /** The entry left once the loop has run to the end. */
  function Reduce(combine: Combiner, q: seq<string>): string
    requires |q| >= 1
    decreases |q|
  {
    if |q| == 1 then q[0] else Reduce(combine, Step(combine, q))
  }

  /** The queue after `k` iterations. */
  function Iterate(combine: Combiner, q: seq<string>, k: nat): seq<string>
    requires k < |q|
    decreases k
  {
    if k == 0 then q else Iterate(combine, Step(combine, q), k - 1)
  }

  /** The root that `get_merkle` returns for a non-empty transaction list. */
  function MerkleRoot(hash: Hasher, txs: seq<Transaction>): string
    requires |txs| > 0
  {
    Reduce(PairHash(hash), Padded(Leaves(hash, txs)))
  }

  /** `get_merkle`; an empty list makes the source's final `pop().unwrap()` panic. */
  method GetMerkle(hash: Hasher, txs: seq<Transaction>) returns (root: string)
    requires |txs| > 0
    ensures root == MerkleRoot(hash, txs)
  {
    var merkle: seq<string> := [];
    for i := 0 to |txs|
      invariant merkle == Leaves(hash, txs[..i])
    {
      var h := hash(TxValue(txs[i]));
      LeavesSnoc(hash, txs, i);
      merkle := merkle + [h];
    }
    assert txs[..|txs|] == txs;
    if |merkle| % 2 == 1 {
      var last := merkle[|merkle| - 1];
      merkle := merkle + [last];
    }
    ghost var combine := PairHash(hash);
    ghost var padded := merkle;
    ghost var rounds := 0;
    while |merkle| > 1
      invariant rounds < |padded| && |merkle| == |padded| - rounds
      invariant merkle == Iterate(combine, padded, rounds)
      decreases |merkle|
    {
      IterateStep(combine, padded, rounds);
      ghost var before := merkle;
      var h1 := merkle[0];
      merkle := merkle[1..];
      var h2 := merkle[0];
      merkle := merkle[1..];
      h1 := h1 + h2;
      var nh := hash(TextValue(h1));
      merkle := merkle + [nh];
      assert merkle == Step(combine, before);
      rounds := rounds + 1;
    }
    QueueEndsWithRoot(combine, padded);
    root := merkle[0];
  }

  /** Taking one more iteration is one more `Step` at the back. */
  lemma {:induction false} IterateStep(combine: Combiner, q: seq<string>, k: nat)
    requires k + 1 < |q|
    ensures |Iterate(combine, q, k)| == |q| - k
    ensures Iterate(combine, q, k + 1) == Step(combine, Iterate(combine, q, k))
    decreases k
  {
    if k > 0 {
      IterateStep(combine, Step(combine, q), k - 1);
    }
  }

  /** Every iteration shrinks the queue by one and leaves the final root unchanged. */
  lemma {:induction false} IterateShape(combine: Combiner, q: seq<string>, k: nat)
    requires k < |q|
    ensures |Iterate(combine, q, k)| == |q| - k
    ensures Reduce(combine, Iterate(combine, q, k)) == Reduce(combine, q)
    decreases k
  {
    if k > 0 {
      IterateShape(combine, Step(combine, q), k - 1);
    }
  }

  /** So the loop stops after exactly |q| − 1 iterations, holding one entry: the root. */
  lemma {:induction false} QueueEndsWithRoot(combine: Combiner, q: seq<string>)
    requires |q| >= 1
    ensures Iterate(combine, q, |q| - 1) == [Reduce(combine, q)]
    decreases |q|
  {
    if |q| == 1 {
      assert Iterate(combine, q, 0) == q;
      assert q == [q[0]];
    } else {
      var next := Step(combine, q);
      QueueEndsWithRoot(combine, next);
      assert Iterate(combine, q, |q| - 1) == Iterate(combine, next, |next| - 1);
      assert Reduce(combine, q) == Reduce(combine, next);
    }
  }

  /** The padded queue of a non-empty list is even and holds at least two entries. */
  lemma PaddedEven(hash: Hasher, txs: seq<Transaction>)
    requires |txs| > 0
    ensures var padded := Padded(Leaves(hash, txs));
      |padded| % 2 == 0 && 2 <= |padded| <= |txs| + 1
  {
  }

  /** From two entries on, the entry left at the end is a merge, never an entry passed through. */
  lemma {:induction false} ReduceIsMerge(combine: Combiner, q: seq<string>)
    requires |q| >= 2
    ensures exists left, right :: Reduce(combine, q) == combine(left, right)
    decreases |q|
  {
    var next := Step(combine, q);
    if |next| == 1 {
      assert next == [combine(q[0], q[1])];
      assert Reduce(combine, q) == combine(q[0], q[1]);
    } else {
      ReduceIsMerge(combine, next);
    }
  }

  /**
   * The padded queue has at least two entries, so even a single transaction's
   * root is the hash of a concatenation, shaped like any other fingerprint.
   */
  lemma MerkleRootIsHash(hash: Hasher, txs: seq<Transaction>)
    requires |txs| > 0
    ensures exists left, right :: MerkleRoot(hash, txs) == hash(TextValue(left + right))
    ensures FingerprintShaped(hash) ==> var r := MerkleRoot(hash, txs);
      DIGEST_SIZE <= |r| <= 2 * DIGEST_SIZE && IsHexString(r)
  {
    var combine := PairHash(hash);
    ReduceIsMerge(combine, Padded(Leaves(hash, txs)));
    var left, right :| MerkleRoot(hash, txs) == combine(left, right);
    assert MerkleRoot(hash, txs) == hash(TextValue(left + right));
  }

  /** A single transaction is paired with itself: `hash(hash(t) ++ hash(t))`. */
  lemma MerkleSingle(hash: Hasher, t: Transaction)
    ensures MerkleRoot(hash, [t])
         == hash(TextValue(hash(TxValue(t)) + hash(TxValue(t))))
  {
    var combine := PairHash(hash);
    var h := hash(TxValue(t));
    assert Leaves(hash, [t]) == [h];
    assert Padded([h]) == [h, h];
    assert Step(combine, [h, h]) == [combine(h, h)];
    assert Reduce(combine, [h, h]) == Reduce(combine, [combine(h, h)]);
  }

  /** Three transactions: the padded fourth copy of `c` is paired with `c`. */
  lemma MerkleThree(hash: Hasher, a: Transaction, b: Transaction, c: Transaction)
    ensures var ha, hb, hc := hash(TxValue(a)), hash(TxValue(b)), hash(TxValue(c));
      MerkleRoot(hash, [a, b, c])
        == hash(TextValue(hash(TextValue(ha + hb)) + hash(TextValue(hc + hc))))
  {
    var combine := PairHash(hash);
    var ha, hb, hc := hash(TxValue(a)), hash(TxValue(b)), hash(TxValue(c));
    assert Leaves(hash, [a, b, c]) == [ha, hb, hc];
    var q := Padded([ha, hb, hc]);
    assert q == [ha, hb, hc, hc];
    var ab := combine(ha, hb);
    var cc := combine(hc, hc);
    var root := combine(ab, cc);
    assert Step(combine, q) == [hc, hc, ab];
    assert Step(combine, [hc, hc, ab]) == [ab, cc];
    assert Step(combine, [ab, cc]) == [root];
    assert Reduce(combine, [ab, cc]) == Reduce(combine, [root]);
    assert Reduce(combine, [hc, hc, ab]) == Reduce(combine, [ab, cc]);
    assert Reduce(combine, q) == Reduce(combine, [hc, hc, ab]);
  }

  /**
   * Six entries show the queue order: after the first level the odd entry
   * `ef` meets the merged `abcd` as its LEFT operand, with no padding.
   */
  lemma ReduceSix(combine: Combiner, q: seq<string>)
    requires |q| == 6
    ensures var c := combine;
      Reduce(combine, q) == c(c(q[4], q[5]), c(c(q[0], q[1]), c(q[2], q[3])))
  {
    var ab := combine(q[0], q[1]);
    var cd := combine(q[2], q[3]);
    var ef := combine(q[4], q[5]);
    var abcd := combine(ab, cd);
    var root := combine(ef, abcd);
    var q1, q2, q3, q4 := [q[2], q[3], q[4], q[5], ab], [q[4], q[5], ab, cd], [ab, cd, ef], [ef, abcd];
    assert Step(combine, q) == q1;
    assert Step(combine, q1) == q2;
    assert Step(combine, q2) == q3;
    assert Step(combine, q3) == q4;
    assert Step(combine, q4) == [root];
    assert Reduce(combine, q4) == Reduce(combine, [root]);
    assert Reduce(combine, q3) == Reduce(combine, q4);
    assert Reduce(combine, q2) == Reduce(combine, q3);
    assert Reduce(combine, q1) == Reduce(combine, q2);
    assert Reduce(combine, q) == Reduce(combine, q1);
  }

  /** One level of a binary tree: neighbours merged left to right. */
  function Pairs(combine: Combiner, q: seq<string>): (r: seq<string>)
    requires |q| % 2 == 0
    ensures |r| == |q| / 2
    decreases |q|
  {
    if q == [] then [] else [combine(q[0], q[1])] + Pairs(combine, q[2..])
  }

  function Pow2(k: nat): (p: nat)
    ensures p >= 1
  {
    if k == 0 then 1 else 2 * Pow2(k - 1)
  }

  /** A level-by-level binary tree over 2^k entries: the reference definition. */
  function TreeRoot(combine: Combiner, q: seq<string>, k: nat): string
    requires |q| == Pow2(k)
    decreases k
  {
    if k == 0 then q[0] else TreeRoot(combine, Pairs(combine, q), k - 1)
  }

  /** Popping |q|/2 pairs from the front of `q ++ r` builds one tree level behind `r`. */
  lemma {:induction false} IterateHalf(combine: Combiner, q: seq<string>, r: seq<string>)
    requires |q| % 2 == 0 && |q| + |r| > 0
    ensures |q| / 2 < |q + r|
    ensures Iterate(combine, q + r, |q| / 2) == r + Pairs(combine, q)
    decreases |q|
  {
    if q == [] {
      assert q + r == r;
    } else {
      var c := combine(q[0], q[1]);
      var rest := q[2..];
      assert (q + r)[2..] == rest + r;
      assert Step(combine, q + r) == rest + (r + [c]);
      assert Iterate(combine, q + r, |q| / 2) == Iterate(combine, rest + (r + [c]), |rest| / 2);
      IterateHalf(combine, rest, r + [c]);
      assert Pairs(combine, q) == [c] + Pairs(combine, rest);
      assert (r + [c]) + Pairs(combine, rest) == r + Pairs(combine, q);
    }
  }

  /**
   * When the queue holds a power of two of entries the front-to-back pairing
   * agrees with the level-by-level tree; other sizes need not (see ReduceSix).
   */
  lemma {:induction false} ReduceMatchesTree(combine: Combiner, q: seq<string>, k: nat)
    requires |q| == Pow2(k)
    ensures Reduce(combine, q) == TreeRoot(combine, q, k)
    decreases k
  {
    if k > 0 {
      IterateHalf(combine, q, []);
      assert q + [] == q;
      assert Iterate(combine, q, |q| / 2) == Pairs(combine, q);
      IterateShape(combine, q, |q| / 2);
      ReduceMatchesTree(combine, Pairs(combine, q), k - 1);
      assert TreeRoot(combine, q, k) == TreeRoot(combine, Pairs(combine, q), k - 1);
    }
  }
}
