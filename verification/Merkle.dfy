/**
 The Merkle fold of components/stratum/mining.c: a coinbase hash combined with the branches
 of the pool's notification, against the Merkle root of the whole block.
 */
module Merkle {
  import opened Sha256
  import opened Digits

  /** How two child hashes give their parent. */
  type Join = (State, State) -> State

  /** The Bitcoin rule: the double hash of both children. */
  function Parent(f: Compress): Join {
    (left: State, right: State) => DoubleHash(f, left + right)
  }

  // ---------- the tree ----------

  /** One level up. A lone last node is its own sibling. */
  function Parents(join: Join, nodes: seq<State>): (up: seq<State>)
    ensures |up| == (|nodes| + 1) / 2
    decreases |nodes|
  {
    if nodes == [] then []
    else if |nodes| == 1 then [join(nodes[0], nodes[0])]
    else [join(nodes[0], nodes[1])] + Parents(join, nodes[2..])
  }

  /** The Merkle root of the transactions of a block. */
  function Root(join: Join, leaves: seq<State>): State
    requires leaves != []
    decreases |leaves|
  {
    if |leaves| == 1 then leaves[0] else Root(join, Parents(join, leaves))
  }

  /** The right siblings along the path from the first leaf to the root. */
  function Branches(join: Join, leaves: seq<State>): seq<State>
    requires leaves != []
    decreases |leaves|
  {
    if |leaves| == 1 then [] else [leaves[1]] + Branches(join, Parents(join, leaves))
  }

  /** Combines a hash with branches, from the leaves upwards. */
  function Fold(join: Join, hash: State, branches: seq<State>): State
    decreases |branches|
  {
    if branches == [] then hash else Fold(join, join(hash, branches[0]), branches[1..])
  }

  // ---------- the fold is the root ----------

  /** The branches do not depend on the first leaf. */
  lemma {:induction false} BranchesSkipFirst(join: Join, leaves: seq<State>, first: State)
    requires leaves != []
    ensures Branches(join, leaves[0 := first]) == Branches(join, leaves)
    decreases |leaves|
  {
    if |leaves| > 1 {
      var other := leaves[0 := first];
      assert other[2..] == leaves[2..];
      assert Parents(join, other) == Parents(join, leaves)[0 := join(first, leaves[1])];
      BranchesSkipFirst(join, Parents(join, leaves), join(first, leaves[1]));
    }
  }

  /** Folding the branches into the first leaf gives the root of the tree. */
  lemma {:induction false} FoldIsRoot(join: Join, leaves: seq<State>)
    requires leaves != []
    ensures Fold(join, leaves[0], Branches(join, leaves)) == Root(join, leaves)
    decreases |leaves|
  {
    if |leaves| > 1 {
      var up := Parents(join, leaves);
      FoldIsRoot(join, up);
      assert Branches(join, leaves)[1..] == Branches(join, up);
    }
  }

  /**
   The pool sends the branches once; every coinbase of the miner's own making, folded with
   them, gives the root of the block that starts with that coinbase.
   */
  lemma AnyCoinbase(join: Join, leaves: seq<State>, coinbase: State)
    requires leaves != []
    ensures Fold(join, coinbase, Branches(join, leaves)) == Root(join, leaves[0 := coinbase])
  {
    BranchesSkipFirst(join, leaves, coinbase);
    FoldIsRoot(join, leaves[0 := coinbase]);
  }

  lemma {:induction false} ParentsOdd(join: Join, nodes: seq<State>)
    requires |nodes| % 2 == 1
    ensures Parents(join, nodes) == Parents(join, nodes + [nodes[|nodes| - 1]])
    decreases |nodes|
  {
    if |nodes| > 1 {
      var last := [nodes[|nodes| - 1]];
      assert (nodes + last)[2..] == nodes[2..] + last;
      ParentsOdd(join, nodes[2..]);
    }
  }

  /** An odd level counts as one in which the last node stands twice. */
  lemma OddLevel(join: Join, leaves: seq<State>)
    requires |leaves| > 1 && |leaves| % 2 == 1
    ensures Root(join, leaves) == Root(join, leaves + [leaves[|leaves| - 1]])
  {
    hide Parents;
    ParentsOdd(join, leaves);
  }

  /** Two leaves have their join as their root. */
  lemma RootOfTwo(join: Join, left: State, right: State)
    ensures Root(join, [left, right]) == join(left, right)
  {
    assert [left, right][2..] == [];
    assert Parents(join, [left, right]) == [join(left, right)];
  }

  lemma {:induction false} ParentsConcat(join: Join, a: seq<State>, b: seq<State>)
    requires |a| % 2 == 0
    ensures Parents(join, a + b) == Parents(join, a) + Parents(join, b)
    decreases |a|
  {
    if a == [] {
      assert a + b == b;
    } else {
      assert (a + b)[2..] == a[2..] + b;
      ParentsConcat(join, a[2..], b);
    }
  }

  /** The root of two whole trees side by side is the join of their roots. */
  lemma {:induction false} RootOfHalves(join: Join, left: seq<State>, right: seq<State>, k: nat)
    requires |left| == |right| == Pow(2, k)
    ensures left != [] && right != [] && Root(join, left + right) == join(Root(join, left), Root(join, right))
    decreases k
  {
    hide Parents;
    if k == 0 {
      RootOfTwo(join, left[0], right[0]);
      assert left + right == [left[0], right[0]];
    } else {
      PowPositive(2, k - 1);
      assert |left| == 2 * Pow(2, k - 1);
      ParentsConcat(join, left, right);
      RootOfHalves(join, Parents(join, left), Parents(join, right), k - 1);
    }
  }

  /**
   Two different ways to fold to the same root exhibit a collision of the hash, so as long as
   none is known a root fixes the coinbase and every branch.
   */
  function Collision(join: Join, a: State, b: State, us: seq<State>, vs: seq<State>): (r: ((State, State), (State, State)))
    requires |us| == |vs| && (a != b || us != vs)
    requires Fold(join, a, us) == Fold(join, b, vs)
    ensures r.0 != r.1 && join(r.0.0, r.0.1) == join(r.1.0, r.1.1)
    decreases |us|
  {
    assert us != [];
    var x, y := join(a, us[0]), join(b, vs[0]);
    assert us == [us[0]] + us[1..] && vs == [vs[0]] + vs[1..];
    if (a, us[0]) != (b, vs[0]) && x == y then ((a, us[0]), (b, vs[0]))
    else Collision(join, x, y, us[1..], vs[1..])
  }

  /** A tree of n leaves needs as many branches as it takes doublings to reach n. */
  lemma {:induction false} BranchCount(join: Join, leaves: seq<State>)
    requires leaves != []
    ensures |leaves| <= Pow(2, |Branches(join, leaves)|)
    ensures |leaves| > 1 ==> Pow(2, |Branches(join, leaves)| - 1) < |leaves|
    decreases |leaves|
  {
    if |leaves| > 2 {
      BranchCount(join, Parents(join, leaves));
    }
  }

  // ---------- the C function ----------

  /** Folding one branch more. */
  lemma {:induction false} FoldSnoc(join: Join, hash: State, branches: seq<State>, last: State)
    ensures Fold(join, hash, branches + [last]) == join(Fold(join, hash, branches), last)
    decreases |branches|
  {
    if branches != [] {
      assert (branches + [last])[1..] == branches[1..] + [last];
      FoldSnoc(join, join(hash, branches[0]), branches[1..], last);
    }
  }

  /** calculate_merkle_root_hash: the running hash stays in the lower half of one buffer. */
  method MerkleRootHash(f: Compress, coinbase: State, branches: seq<State>) returns (dest: State)
    ensures dest == Fold(Parent(f), coinbase, branches)
    ensures |branches| == 0 ==> dest == coinbase
    ensures |branches| > 0 ==>
      var n := |branches| - 1;
      dest == Hash(f, Hash(f, Fold(Parent(f), coinbase, branches[..n]) + branches[n]))
  {
    hide Hash;
    var both := new byte[64];
    forall i | 0 <= i < 32 { both[i] := coinbase[i]; }
    assert branches[..0] == [];
    var i := 0;
    while i < |branches|
      invariant 0 <= i <= |branches|
      invariant both[..32] == Fold(Parent(f), coinbase, branches[..i])
    {
      FoldSnoc(Parent(f), coinbase, branches[..i], branches[i]);
      assert branches[..i + 1] == branches[..i] + [branches[i]];
      ghost var left: State := both[..32];
      forall k | 0 <= k < 32 { both[32 + k] := branches[i][k]; }
      assert both[..] == left + branches[i];
      var first := OneShot(f, both[..]);
      var digest := OneShot(f, first);
      forall k | 0 <= k < 32 { both[k] := digest[k]; }
      assert both[..32] == digest;
      i := i + 1;
    }
    assert branches[..i] == branches;
    dest := both[..32];
    if |branches| > 0 {
      var n := |branches| - 1;
      assert branches == branches[..n] + [branches[n]];
      FoldSnoc(Parent(f), coinbase, branches[..n], branches[n]);
    }
  }
}
