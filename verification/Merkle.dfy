/** src/core/merkle.cpp: the level-by-level Merkle tree, its proofs, and what they bind. */
module Merkle {
  import opened Primitives

  datatype ProofStep = ProofStep(sibling: Hash256, siblingOnLeft: bool)

  function Concat(left: Bytes, right: Bytes): Bytes { left + right }

  function HashPair(c: Crypto, left: Hash256, right: Hash256): Hash256 {
    c.sha256(Concat(left, right))
  }

  // ---- Reference: a top-down tree ------------------------------------------

  /** ceil(log2 n): how often a level of `n` nodes is halved before one is left. */
  function CeilLog2(n: nat): (h: nat)
    requires n > 0
    ensures n <= Pow2(h)
    ensures h > 0 ==> Pow2(h - 1) < n
  {
    if n == 1 then 0 else 1 + CeilLog2((n + 1) / 2)
  }

  function Height(n: nat): nat
    requires n > 0
  {
    if n == 1 then 1 else CeilLog2(n)
  }

  /** A node of height `h` splits its leaves at 2^(h-1); when the right half is empty the
      node is paired with itself, so the left half stands on both sides. */
  function LeftHalf<T>(s: seq<T>, h: nat): (r: seq<T>)
    requires h > 0 && s != []
    ensures r != []
  {
    if |s| <= Pow2(h - 1) then s else s[..Pow2(h - 1)]
  }

  function RightHalf<T>(s: seq<T>, h: nat): (r: seq<T>)
    requires h > 0 && s != []
    ensures r != []
  {
    if |s| <= Pow2(h - 1) then s else s[Pow2(h - 1)..]
  }

  function Tree(c: Crypto, s: seq<Hash256>, h: nat): Hash256
    requires s != []
    decreases h
  {
    if h == 0 then s[0]
    else HashPair(c, Tree(c, LeftHalf(s, h), h - 1), Tree(c, RightHalf(s, h), h - 1))
  }

  function RootOf(c: Crypto, leaves: seq<Hash256>): Hash256 {
    if leaves == [] then c.sha256([]) else Tree(c, leaves, Height(|leaves|))
  }

  /** The strings hashed while computing a node of height `h`. */
  ghost function TreeInputs(c: Crypto, s: seq<Hash256>, h: nat): set<Bytes>
    requires s != []
    decreases h
  {
    if h == 0 then {}
    else
      var l, r := LeftHalf(s, h), RightHalf(s, h);
      TreeInputs(c, l, h - 1) + TreeInputs(c, r, h - 1) + {Concat(Tree(c, l, h - 1), Tree(c, r, h - 1))}
  }

  ghost function RootInputs(c: Crypto, leaves: seq<Hash256>): set<Bytes> {
    if leaves == [] then {[]} else TreeInputs(c, leaves, Height(|leaves|))
  }

  // ---- One level of the loops ----------------------------------------------

  function SiblingIndex(n: nat, i: nat): (j: nat)
    requires i < n
    ensures j < n
  {
    if i % 2 == 1 then i - 1 else if i + 1 < n then i + 1 else i
  }

  /** The string hashed for parent `i` of a level. */
  function PairAt(level: seq<Hash256>, i: nat): Bytes
    requires 2 * i < |level|
  {
    Concat(level[2 * i], if 2 * i + 1 < |level| then level[2 * i + 1] else level[2 * i])
  }

  function ParentAt(c: Crypto, level: seq<Hash256>, i: nat): Hash256
    requires 2 * i < |level|
  {
    c.sha256(PairAt(level, i))
  }

  function NextLevel(c: Crypto, level: seq<Hash256>): (next: seq<Hash256>)
    ensures |next| == (|level| + 1) / 2
  {
    seq((|level| + 1) / 2, i requires 0 <= i < (|level| + 1) / 2 => ParentAt(c, level, i))
  }

  ghost function LevelInputs(level: seq<Hash256>): set<Bytes> {
    set i | 0 <= i < (|level| + 1) / 2 :: PairAt(level, i)
  }

  /** Cutting a level at an even position cuts the next level at half of it. */
  lemma NextLevelSplit(c: Crypto, s: seq<Hash256>, k: nat)
    requires 2 * k <= |s|
    ensures NextLevel(c, s)[..k] == NextLevel(c, s[..2 * k])
    ensures NextLevel(c, s)[k..] == NextLevel(c, s[2 * k..])
  {
    var next, left, right := NextLevel(c, s), NextLevel(c, s[..2 * k]), NextLevel(c, s[2 * k..]);
    forall i | 0 <= i < k
      ensures next[i] == left[i]
    {
      assert next[i] == ParentAt(c, s, i) && left[i] == ParentAt(c, s[..2 * k], i);
    }
    forall i | 0 <= i < |right|
      ensures next[k + i] == right[i]
    {
      assert next[k + i] == ParentAt(c, s, k + i) && right[i] == ParentAt(c, s[2 * k..], i);
    }
  }

  lemma PairAtSplit(s: seq<Hash256>, k: nat, i: nat)
    requires 2 * k <= |s| && 2 * i < |s|
    ensures i < k ==> PairAt(s[..2 * k], i) == PairAt(s, i)
    ensures i >= k ==> PairAt(s[2 * k..], i - k) == PairAt(s, i)
  {
  }

  lemma LevelInputsSplit(s: seq<Hash256>, k: nat)
    requires 2 * k <= |s|
    ensures LevelInputs(s) == LevelInputs(s[..2 * k]) + LevelInputs(s[2 * k..])
  {
    hide PairAt;
    var l, r := s[..2 * k], s[2 * k..];
    assert (|s| + 1) / 2 == k + (|r| + 1) / 2 && (|l| + 1) / 2 == k;
    forall i | 0 <= i < (|s| + 1) / 2
      ensures PairAt(s, i) in LevelInputs(l) + LevelInputs(r)
    {
      PairAtSplit(s, k, i);
    }
    forall i | 0 <= i < k
      ensures PairAt(l, i) in LevelInputs(s)
    {
      PairAtSplit(s, k, i);
    }
    forall i | 0 <= i < (|r| + 1) / 2
      ensures PairAt(r, i) in LevelInputs(s)
    {
      PairAtSplit(s, k, k + i);
    }
  }

  lemma HalvesFit<T>(s: seq<T>, h: nat)
    requires h > 0 && 0 < |s| <= Pow2(h)
    ensures |LeftHalf(s, h)| <= Pow2(h - 1) && |RightHalf(s, h)| <= Pow2(h - 1)
  {
  }

  /** Halving a node and moving up one level commute. */
  lemma NextLevelHalves(c: Crypto, s: seq<Hash256>, h: nat)
    requires h > 1 && 0 < |s| <= Pow2(h)
    ensures LeftHalf(NextLevel(c, s), h - 1) == NextLevel(c, LeftHalf(s, h))
    ensures RightHalf(NextLevel(c, s), h - 1) == NextLevel(c, RightHalf(s, h))
    ensures LevelInputs(s) == LevelInputs(LeftHalf(s, h)) + LevelInputs(RightHalf(s, h))
  {
    assert Pow2(h - 1) == 2 * Pow2(h - 2);
    if |s| > Pow2(h - 1) {
      NextLevelSplit(c, s, Pow2(h - 2));
      LevelInputsSplit(s, Pow2(h - 2));
    }
  }

  /** The tree over the next level is the same tree. */
  lemma {:induction false} TreeOfNextLevel(c: Crypto, s: seq<Hash256>, h: nat)
    requires h > 0 && 0 < |s| <= Pow2(h)
    ensures Tree(c, NextLevel(c, s), h - 1) == Tree(c, s, h)
    decreases h
  {
    if h == 1 {
      assert Pow2(0) == 1;
      assert NextLevel(c, s)[0] == ParentAt(c, s, 0);
    } else {
      var l, r := LeftHalf(s, h), RightHalf(s, h);
      HalvesFit(s, h);
      NextLevelHalves(c, s, h);
      TreeOfNextLevel(c, l, h - 1);
      TreeOfNextLevel(c, r, h - 1);
      assert Tree(c, NextLevel(c, s), h - 1)
          == HashPair(c, Tree(c, NextLevel(c, l), h - 2), Tree(c, NextLevel(c, r), h - 2));
    }
  }

  /** The top-down tree hashes the very strings that the loops hash. */
  lemma {:induction false} InputsOfNextLevel(c: Crypto, s: seq<Hash256>, h: nat)
    requires h > 0 && 0 < |s| <= Pow2(h)
    ensures TreeInputs(c, s, h) == TreeInputs(c, NextLevel(c, s), h - 1) + LevelInputs(s)
    decreases h
  {
    if h == 1 {
      assert Pow2(0) == 1;
      assert LevelInputs(s) == {PairAt(s, 0)};
    } else {
      var l, r := LeftHalf(s, h), RightHalf(s, h);
      HalvesFit(s, h);
      NextLevelHalves(c, s, h);
      InputsOfNextLevel(c, l, h - 1);
      InputsOfNextLevel(c, r, h - 1);
      TreeOfNextLevel(c, l, h - 1);
      TreeOfNextLevel(c, r, h - 1);
      Regroup(TreeInputs(c, NextLevel(c, l), h - 2), LevelInputs(l),
              TreeInputs(c, NextLevel(c, r), h - 2), LevelInputs(r),
              {Concat(Tree(c, l, h - 1), Tree(c, r, h - 1))});
    }
  }

  lemma Regroup(a: set<Bytes>, x: set<Bytes>, b: set<Bytes>, y: set<Bytes>, top: set<Bytes>)
    ensures (a + x) + (b + y) + top == (a + b + top) + (x + y)
  {
  }

  /** The root of a level reached by the loops. */
  function LevelRoot(c: Crypto, level: seq<Hash256>): Hash256
    requires level != []
  {
    Tree(c, level, CeilLog2(|level|))
  }

  lemma LevelStep(c: Crypto, level: seq<Hash256>)
    requires |level| > 1
    ensures LevelRoot(c, NextLevel(c, level)) == LevelRoot(c, level)
    ensures TreeInputs(c, level, CeilLog2(|level|))
         == TreeInputs(c, NextLevel(c, level), CeilLog2((|level| + 1) / 2)) + LevelInputs(level)
  {
    TreeOfNextLevel(c, level, CeilLog2(|level|));
    InputsOfNextLevel(c, level, CeilLog2(|level|));
  }

  // ---- Paths ---------------------------------------------------------------

  /** The step recorded for node `i` of a level. */
  function StepAt(level: seq<Hash256>, i: nat): ProofStep
    requires i < |level|
  {
    ProofStep(level[SiblingIndex(|level|, i)], i % 2 == 1)
  }

  /** The authentication path of node `i`, from the level up. */
  function Path(c: Crypto, level: seq<Hash256>, i: nat): (p: seq<ProofStep>)
    requires i < |level|
    ensures |p| == CeilLog2(|level|)
    decreases |level|
  {
    if |level| == 1 then [] else [StepAt(level, i)] + Path(c, NextLevel(c, level), i / 2)
  }

  /** The string that one step hashes on top of `h`. */
  function StepInput(h: Hash256, step: ProofStep): Bytes {
    if step.siblingOnLeft then Concat(step.sibling, h) else Concat(h, step.sibling)
  }

  function Fold(c: Crypto, h: Hash256, steps: seq<ProofStep>): Hash256
    decreases |steps|
  {
    if steps == [] then h else Fold(c, c.sha256(StepInput(h, steps[0])), steps[1..])
  }

  lemma FoldStep(c: Crypto, h: Hash256, step: ProofStep, rest: seq<ProofStep>)
    ensures Fold(c, h, [step] + rest) == Fold(c, c.sha256(StepInput(h, step)), rest)
  {
    assert ([step] + rest)[1..] == rest;
  }

  function LeafDigest(c: Crypto, leaf: Bytes): Hash256 {
    if |leaf| == 32 then leaf else c.sha256(leaf)
  }

  predicate Verifies(c: Crypto, leaf: Bytes, proof: seq<ProofStep>, expected: Hash256) {
    var h := LeafDigest(c, leaf);
    expected == if proof == [] then HashPair(c, h, h) else Fold(c, h, proof)
  }

  // ---- The three operations ------------------------------------------------

  /** The inner `for` loop shared by `root` and `build_proof`. */
  method ComputeNextLevel(c: Crypto, level: seq<Hash256>) returns (next: seq<Hash256>)
    ensures next == NextLevel(c, level)
  {
    next := [];
    var i := 0;
    while i < |level|
      invariant i == 2 * |next| <= |level| + 1
      invariant next == NextLevel(c, level)[..|next|]
    {
      var left := level[i];
      var right := if i + 1 < |level| then level[i + 1] else level[i];
      assert NextLevel(c, level)[i / 2] == ParentAt(c, level, i / 2);
      next := next + [HashPair(c, left, right)];
      i := i + 2;
    }
  }

  method Root(c: Crypto, leaves: seq<Hash256>) returns (r: Hash256)
    ensures r == RootOf(c, leaves)
  {
    if leaves == [] {
      return c.sha256([]);
    }
    if |leaves| == 1 {
      assert Pow2(0) == 1;
      return HashPair(c, leaves[0], leaves[0]);
    }
    var level := leaves;
    while |level| > 1
      invariant |level| > 0
      invariant LevelRoot(c, level) == RootOf(c, leaves)
      decreases |level|
    {
      LevelStep(c, level);
      level := ComputeNextLevel(c, level);
    }
    return level[0];
  }

  method BuildProof(c: Crypto, leaves: seq<Hash256>, index: nat) returns (proof: seq<ProofStep>)
    requires leaves != [] ==> index < |leaves|  // the source's assert
    ensures leaves == [] ==> proof == []
    ensures leaves != [] ==> proof == Path(c, leaves, index)
  {
    proof := [];
    if leaves == [] {
      return;
    }
    var level := leaves;
    var proofIndex: nat := index;
    while |level| > 1
      invariant proofIndex < |level|
      invariant proof + Path(c, level, proofIndex) == Path(c, leaves, index)
      decreases |level|
    {
      var lastIndex := |level| - 1;
      var siblingIndex :=
        if proofIndex % 2 == 0 then (if proofIndex + 1 <= lastIndex then proofIndex + 1 else proofIndex)
        else proofIndex - 1;
      PathConcat(proof, [StepAt(level, proofIndex)], Path(c, NextLevel(c, level), proofIndex / 2));
      proof := proof + [ProofStep(level[siblingIndex], proofIndex % 2 == 1)];
      proofIndex := proofIndex / 2;
      level := ComputeNextLevel(c, level);
    }
  }

  lemma PathConcat(x: seq<ProofStep>, y: seq<ProofStep>, z: seq<ProofStep>)
    ensures (x + y) + z == x + (y + z)
  {
  }

  method VerifyProof(c: Crypto, leaf: Bytes, proof: seq<ProofStep>, expected: Hash256) returns (ok: bool)
    ensures ok == Verifies(c, leaf, proof, expected)
  {
    var current := LeafDigest(c, leaf);
    if proof == [] {
      return HashPair(c, current, current) == expected;
    }
    for k := 0 to |proof|
      invariant Fold(c, current, proof[k..]) == Fold(c, LeafDigest(c, leaf), proof)
    {
      assert proof[k..][1..] == proof[k + 1..];
      if proof[k].siblingOnLeft {
        current := HashPair(c, proof[k].sibling, current);
      } else {
        current := HashPair(c, current, proof[k].sibling);
      }
    }
    return current == expected;
  }

  // ---- Completeness and shape ----------------------------------------------

  /** On top of its own node, the recorded step hashes the string of the parent. */
  lemma StepCompletes(level: seq<Hash256>, i: nat)
    requires i < |level|
    ensures StepInput(level[i], StepAt(level, i)) == PairAt(level, i / 2)
  {
    assert i == if i % 2 == 1 then 2 * (i / 2) + 1 else 2 * (i / 2);
  }

  lemma {:induction false} PathFoldsToRoot(c: Crypto, level: seq<Hash256>, i: nat)
    requires i < |level|
    ensures Fold(c, level[i], Path(c, level, i)) == LevelRoot(c, level)
    decreases |level|
  {
    if |level| > 1 {
      var next := NextLevel(c, level);
      LevelStep(c, level);
      PathFoldsToRoot(c, next, i / 2);
      StepCompletes(level, i);
      assert next[i / 2] == ParentAt(c, level, i / 2);
      FoldStep(c, level[i], StepAt(level, i), Path(c, next, i / 2));
    }
  }

  /** The proof that `build_proof` returns is accepted by `verify_proof`. */
  lemma ProofComplete(c: Crypto, leaves: seq<Hash256>, index: nat)
    requires index < |leaves|
    ensures Verifies(c, leaves[index], Path(c, leaves, index), RootOf(c, leaves))
  {
    if |leaves| == 1 {
      assert Pow2(0) == 1;
    } else {
      PathFoldsToRoot(c, leaves, index);
    }
  }

  /** Bit `k` of `i`. */
  predicate Bit(i: nat, k: nat)
    decreases k
  {
    if k == 0 then i % 2 == 1 else Bit(i / 2, k - 1)
  }

  /** The steps turn the way the low bits of `i` say. */
  ghost predicate TurnsLike(steps: seq<ProofStep>, i: nat) {
    forall k :: 0 <= k < |steps| ==> (steps[k].siblingOnLeft <==> Bit(i, k))
  }

  /** A built proof has ceil(log2 n) steps, and step `k` has its sibling on the left
      exactly when bit `k` of the index is 1. */
  lemma {:induction false} ProofShape(c: Crypto, level: seq<Hash256>, i: nat)
    requires i < |level|
    ensures |Path(c, level, i)| == CeilLog2(|level|)
    ensures TurnsLike(Path(c, level, i), i)
    decreases |level|
  {
    if |level| > 1 {
      var p, q := Path(c, level, i), Path(c, NextLevel(c, level), i / 2);
      ProofShape(c, NextLevel(c, level), i / 2);
      forall k | 0 <= k < |p|
        ensures p[k].siblingOnLeft <==> Bit(i, k)
      {
        assert k > 0 ==> p[k] == q[k - 1];
      }
    }
  }

  // ---- Binding -------------------------------------------------------------

  /** The strings hashed while folding a path. */
  ghost function FoldInputs(c: Crypto, h: Hash256, steps: seq<ProofStep>): set<Bytes>
    decreases |steps|
  {
    if steps == [] then {}
    else var x := StepInput(h, steps[0]); {x} + FoldInputs(c, c.sha256(x), steps[1..])
  }

  /** The strings hashed by `verify_proof` on a 32-byte leaf. */
  ghost function VerifyInputs(c: Crypto, leaf: Hash256, steps: seq<ProofStep>): set<Bytes> {
    if steps == [] then {Concat(leaf, leaf)} else FoldInputs(c, leaf, steps)
  }

  lemma SplitPair(a: Hash256, b: Hash256, x: Hash256, y: Hash256)
    requires Concat(a, b) == Concat(x, y)
    ensures a == x && b == y
  {
    assert a == Concat(a, b)[..32] && x == Concat(x, y)[..32];
    assert b == Concat(a, b)[32..] && y == Concat(x, y)[32..];
  }

  /** A step that hashes the same string as the loop did has the loop's node below it. */
  lemma StepBinds(h: Hash256, step: ProofStep, level: seq<Hash256>, i: nat)
    requires i < |level| && (step.siblingOnLeft <==> i % 2 == 1)
    requires StepInput(h, step) == PairAt(level, i / 2)
    ensures h == level[i]
  {
    var left := level[2 * (i / 2)];
    var right := if 2 * (i / 2) + 1 < |level| then level[2 * (i / 2) + 1] else left;
    if step.siblingOnLeft {
      SplitPair(step.sibling, h, left, right);
    } else {
      SplitPair(h, step.sibling, left, right);
    }
  }

  lemma TurnsOn(steps: seq<ProofStep>, i: nat)
    requires steps != [] && TurnsLike(steps, i)
    ensures TurnsLike(steps[1..], i / 2) && (steps[0].siblingOnLeft <==> i % 2 == 1)
  {
    assert Bit(i, 0) == (i % 2 == 1);
    forall k | 0 <= k < |steps[1..]|
      ensures steps[1..][k].siblingOnLeft <==> Bit(i / 2, k)
    {
      assert steps[1..][k] == steps[k + 1] && Bit(i, k + 1) == Bit(i / 2, k);
    }
  }

  lemma FoldUnfold(c: Crypto, h: Hash256, steps: seq<ProofStep>)
    requires steps != []
    ensures var x := StepInput(h, steps[0]);
            && Fold(c, h, steps) == Fold(c, c.sha256(x), steps[1..])
            && x in FoldInputs(c, h, steps)
            && FoldInputs(c, c.sha256(x), steps[1..]) <= FoldInputs(c, h, steps)
  {
    hide StepInput;
  }

  /** One level up: the parent of node `i`, and where its string is hashed. */
  lemma LevelUp(c: Crypto, level: seq<Hash256>, h: nat, i: nat)
    requires h > 0 && i < |level| <= Pow2(h)
    ensures |NextLevel(c, level)| <= Pow2(h - 1) && i / 2 < |NextLevel(c, level)|
    ensures NextLevel(c, level)[i / 2] == c.sha256(PairAt(level, i / 2))
    ensures Tree(c, NextLevel(c, level), h - 1) == Tree(c, level, h)
    ensures PairAt(level, i / 2) in TreeInputs(c, level, h)
    ensures TreeInputs(c, NextLevel(c, level), h - 1) <= TreeInputs(c, level, h)
  {
    hide Tree, TreeInputs, PairAt;
    assert Pow2(h) == 2 * Pow2(h - 1);
    TreeOfNextLevel(c, level, h);
    InputsOfNextLevel(c, level, h);
    assert NextLevel(c, level)[i / 2] == ParentAt(c, level, i / 2);
    assert PairAt(level, i / 2) in LevelInputs(level);
  }

  lemma NoSteps(c: Crypto, h: Hash256, level: seq<Hash256>)
    requires 0 < |level| <= Pow2(0) && Fold(c, h, []) == Tree(c, level, 0)
    ensures |level| == 1 && h == level[0]
  {
  }

  /** A fold of as many steps as the tree is high, turning like `i`, starts at node `i`. */
  lemma {:induction false} FoldBinds(c: Crypto, h: Hash256, steps: seq<ProofStep>, level: seq<Hash256>, i: nat)
    requires i < |level| <= Pow2(|steps|) && TurnsLike(steps, i)
    requires Fold(c, h, steps) == Tree(c, level, |steps|)
    ensures h == level[i] || CollisionBetween(c, FoldInputs(c, h, steps), TreeInputs(c, level, |steps|))
    decreases |steps|
  {
    hide *;
    if steps == [] {
      NoSteps(c, h, level);
    } else {
      var next, x, y := NextLevel(c, level), StepInput(h, steps[0]), PairAt(level, i / 2);
      LevelUp(c, level, |steps|, i);
      FoldUnfold(c, h, steps);
      TurnsOn(steps, i);
      FoldBinds(c, c.sha256(x), steps[1..], next, i / 2);
      if c.sha256(x) != next[i / 2] {
        CollisionGrows(c, FoldInputs(c, c.sha256(x), steps[1..]), TreeInputs(c, next, |steps| - 1),
                       FoldInputs(c, h, steps), TreeInputs(c, level, |steps|));
      } else if x == y {
        StepBinds(h, steps[0], level, i);
      } else {
        CollisionOf(c, FoldInputs(c, h, steps), TreeInputs(c, level, |steps|), x, y);
      }
    }
  }

  /** The level `d` steps above the leaves. */
  function Ascend(c: Crypto, level: seq<Hash256>, d: nat): (r: seq<Hash256>)
    ensures level != [] ==> r != []
    decreases d
  {
    if d == 0 then level else Ascend(c, NextLevel(c, level), d - 1)
  }

  lemma {:induction false} AscendTree(c: Crypto, s: seq<Hash256>, h: nat, d: nat)
    requires d <= h && 0 < |s| <= Pow2(h)
    ensures |Ascend(c, s, d)| <= Pow2(h - d)
    ensures Tree(c, Ascend(c, s, d), h - d) == Tree(c, s, h)
    ensures TreeInputs(c, Ascend(c, s, d), h - d) <= TreeInputs(c, s, h)
    decreases d
  {
    hide Tree, TreeInputs, NextLevel;
    if d > 0 {
      assert Pow2(h) == 2 * Pow2(h - 1);
      TreeOfNextLevel(c, s, h);
      InputsOfNextLevel(c, s, h);
      AscendTree(c, NextLevel(c, s), h - 1, d - 1);
    }
  }

  /** The steps that `verify_proof` takes: an empty proof pairs the leaf with itself. */
  function Steps(leaf: Hash256, proof: seq<ProofStep>): (steps: seq<ProofStep>)
    ensures steps != []
  {
    if proof == [] then [ProofStep(leaf, false)] else proof
  }

  lemma StepsVerify(c: Crypto, leaf: Hash256, proof: seq<ProofStep>, expected: Hash256)
    ensures Verifies(c, leaf, proof, expected) <==> Fold(c, leaf, Steps(leaf, proof)) == expected
    ensures FoldInputs(c, leaf, Steps(leaf, proof)) == VerifyInputs(c, leaf, proof)
  {
    if proof == [] {
      FoldStep(c, leaf, ProofStep(leaf, false), []);
      assert [ProofStep(leaf, false)][1..] == [];
      assert FoldInputs(c, c.sha256(Concat(leaf, leaf)), []) == {};
    }
  }

  /** A 32-byte value accepted against the root of `leaves`, by a proof no longer than the tree
      is high, is the node that the proof's turns lead to, on the level that its length leaves
      room for; otherwise two of the strings hashed by `verify_proof` and `root` collide. */
  lemma ShortProofBinds(c: Crypto, leaf: Hash256, proof: seq<ProofStep>, leaves: seq<Hash256>, index: nat)
    requires leaves != [] && Verifies(c, leaf, proof, RootOf(c, leaves))
    requires |Steps(leaf, proof)| <= Height(|leaves|) && TurnsLike(Steps(leaf, proof), index)
    requires index < |Ascend(c, leaves, Height(|leaves|) - |Steps(leaf, proof)|)|
    ensures leaf == Ascend(c, leaves, Height(|leaves|) - |Steps(leaf, proof)|)[index]
         || CollisionBetween(c, VerifyInputs(c, leaf, proof), RootInputs(c, leaves))
  {
    hide Tree, TreeInputs, Ascend, Height, Pow2, CollisionBetween, Fold, FoldInputs, Verifies, VerifyInputs, Steps;
    hide TurnsLike;
    var steps, h := Steps(leaf, proof), Height(|leaves|);
    var level := Ascend(c, leaves, h - |steps|);
    HeightFits(|leaves|);
    AscendTree(c, leaves, h, h - |steps|);
    StepsVerify(c, leaf, proof, RootOf(c, leaves));
    FoldBinds(c, leaf, steps, level, index);
    if leaf != level[index] {
      CollisionGrows(c, FoldInputs(c, leaf, steps), TreeInputs(c, level, |steps|),
                     VerifyInputs(c, leaf, proof), RootInputs(c, leaves));
    }
  }

  lemma {:induction false} FoldSplit(c: Crypto, h: Hash256, steps: seq<ProofStep>, k: nat)
    requires k <= |steps|
    ensures var mid := Fold(c, h, steps[..k]);
            && Fold(c, mid, steps[k..]) == Fold(c, h, steps)
            && FoldInputs(c, mid, steps[k..]) <= FoldInputs(c, h, steps)
    decreases k
  {
    hide Fold, FoldInputs, StepInput;
    if k == 0 {
      assert steps[..0] == [] && steps[0..] == steps;
      FoldNone(c, h);
    } else {
      var h', rest := c.sha256(StepInput(h, steps[0])), steps[1..];
      FoldUnfold(c, h, steps);
      assert steps[..k] == [steps[0]] + rest[..k - 1] && steps[k..] == rest[k - 1..];
      FoldStep(c, h, steps[0], rest[..k - 1]);
      FoldSplit(c, h', rest, k - 1);
    }
  }

  lemma FoldNone(c: Crypto, h: Hash256)
    ensures Fold(c, h, []) == h
  {
  }

  /** A proof longer than the tree is high: what it folds to after its surplus steps is the leaf
      that the remaining turns lead to, or two of the hashed strings collide. */
  lemma LongProofBinds(c: Crypto, value: Hash256, proof: seq<ProofStep>, leaves: seq<Hash256>, index: nat)
    requires index < |leaves| && Verifies(c, value, proof, RootOf(c, leaves)) && |proof| >= Height(|leaves|)
    requires TurnsLike(proof[|proof| - Height(|leaves|)..], index)
    ensures Fold(c, value, proof[..|proof| - Height(|leaves|)]) == leaves[index]
         || CollisionBetween(c, VerifyInputs(c, value, proof), RootInputs(c, leaves))
  {
    hide Tree, TreeInputs, CeilLog2, Pow2, CollisionBetween, Fold, FoldInputs, TurnsLike;
    var h := Height(|leaves|);
    var k := |proof| - h;
    HeightFits(|leaves|);
    LeafLevel(c, leaves);
    FoldSplit(c, value, proof, k);
    var mid := Fold(c, value, proof[..k]);
    FoldBinds(c, mid, proof[k..], leaves, index);
    if mid != leaves[index] {
      CollisionGrows(c, FoldInputs(c, mid, proof[k..]), TreeInputs(c, leaves, h),
                     VerifyInputs(c, value, proof), RootInputs(c, leaves));
    }
  }

  /** A 32-byte leaf accepted against the root of `leaves`, by a proof of the tree's length
      that turns like `index`, is the leaf at `index`; otherwise two of the strings hashed
      by `verify_proof` and `root` collide. */
  lemma ProofBinds(c: Crypto, leaf: Hash256, proof: seq<ProofStep>, leaves: seq<Hash256>, index: nat)
    requires index < |leaves|
    requires |proof| == CeilLog2(|leaves|) && TurnsLike(proof, index)
    requires Verifies(c, leaf, proof, RootOf(c, leaves))
    ensures leaf == leaves[index]
         || CollisionBetween(c, VerifyInputs(c, leaf, proof), RootInputs(c, leaves))
  {
    hide Verifies, RootOf, VerifyInputs, RootInputs, CollisionBetween;
    LeafLevel(c, leaves);
    assert TurnsLike(Steps(leaf, proof), index) by { assert !Bit(0, 0); }
    ShortProofBinds(c, leaf, proof, leaves, index);
  }

  lemma LeafLevel(c: Crypto, leaves: seq<Hash256>)
    requires leaves != []
    ensures Ascend(c, leaves, 0) == leaves
    ensures |leaves| > 1 ==> CeilLog2(|leaves|) > 0
  {
  }

  lemma AscendUnfold(c: Crypto, level: seq<Hash256>, d: nat)
    ensures Ascend(c, level, 0) == level
    ensures d > 0 ==> Ascend(c, level, d) == Ascend(c, NextLevel(c, level), d - 1)
  {
    hide NextLevel;
  }

  lemma LevelShrinks(c: Crypto, level: seq<Hash256>)
    requires level != [] && CeilLog2(|level|) > 0
    ensures |level| > 1 && NextLevel(c, level) != []
    ensures CeilLog2(|NextLevel(c, level)|) == CeilLog2(|level|) - 1
    ensures LevelRoot(c, NextLevel(c, level)) == LevelRoot(c, level)
  {
    hide Pow2, LevelRoot, NextLevel;
    LevelStep(c, level);
  }

  /** Going up the levels leaves the root where it is. */
  lemma {:induction false} AscendRoot(c: Crypto, level: seq<Hash256>, d: nat)
    requires level != [] && d <= CeilLog2(|level|)
    ensures CeilLog2(|Ascend(c, level, d)|) == CeilLog2(|level|) - d
    ensures LevelRoot(c, Ascend(c, level, d)) == LevelRoot(c, level)
    decreases d
  {
    hide *;
    AscendUnfold(c, level, d);
    if d > 0 {
      LevelShrinks(c, level);
      AscendRoot(c, NextLevel(c, level), d - 1);
    }
  }

  /** The strings hashed for the next level. */
  function Pairs(level: seq<Hash256>): (r: seq<Bytes>)
    ensures |r| == (|level| + 1) / 2
  {
    seq((|level| + 1) / 2, i requires 0 <= i < (|level| + 1) / 2 => PairAt(level, i))
  }

  lemma {:induction false} AscendOnce(c: Crypto, level: seq<Hash256>, d: nat)
    ensures Ascend(c, level, d + 1) == NextLevel(c, Ascend(c, level, d))
    decreases d
  {
    hide *;
    AscendUnfold(c, level, d);
    AscendUnfold(c, level, d + 1);
    AscendUnfold(c, NextLevel(c, level), 0);
    if d > 0 {
      AscendOnce(c, NextLevel(c, level), d - 1);
    }
  }

  /** The strings of every level below the root are among those hashed for the root. */
  lemma PairsAreInputs(c: Crypto, s: seq<Hash256>, h: nat, d: nat, i: nat)
    requires d < h && 0 < |s| <= Pow2(h) && i < |Pairs(Ascend(c, s, d))|
    ensures Pairs(Ascend(c, s, d))[i] in TreeInputs(c, s, h)
  {
    hide Tree, TreeInputs, Ascend, PairAt, Pow2;
    var level := Ascend(c, s, d);
    AscendTree(c, s, h, d);
    LevelUp(c, level, h - d, 2 * i);
    assert Pairs(level)[i] == PairAt(level, i);
  }

  /** Every node below the root is accepted as a leaf: leaves and nodes are not told apart. */
  lemma InnerNodeVerifies(c: Crypto, leaves: seq<Hash256>, d: nat, i: nat)
    requires leaves != [] && d < CeilLog2(|leaves|) && i < |Ascend(c, leaves, d)|
    ensures var level := Ascend(c, leaves, d); Verifies(c, level[i], Path(c, level, i), RootOf(c, leaves))
  {
    hide Ascend, Fold, Tree;
    var level := Ascend(c, leaves, d);
    AscendRoot(c, leaves, d);
    PathFoldsToRoot(c, level, i);
  }

  lemma HeightFits(n: nat)
    requires n > 0
    ensures n <= Pow2(Height(n))
  {
    assert Pow2(0) == 1;
  }

  /** The full list of 2^h leaves that a node of height `h` hashes, duplicates written out. */
  function Expand<T>(s: seq<T>, h: nat): (r: seq<T>)
    requires 0 < |s| <= Pow2(h)
    ensures |r| == Pow2(h)
    decreases h
  {
    if h == 0 then s
    else Expand(LeftHalf(s, h), h - 1) + Expand(RightHalf(s, h), h - 1)
  }

  /** Two lists that fit a tree of height `h` and are the same there, duplicates written out. */
  ghost predicate ExpandAlike<T>(a: seq<T>, b: seq<T>, h: nat) {
    && 0 < |a| <= Pow2(h) && 0 < |b| <= Pow2(h)
    && Expand(a, h) == Expand(b, h)
  }

  lemma ExpandUnfold<T>(s: seq<T>, h: nat)
    requires h > 0 && 0 < |s| <= Pow2(h)
    ensures |LeftHalf(s, h)| <= Pow2(h - 1) && |RightHalf(s, h)| <= Pow2(h - 1)
    ensures Expand(s, h) == Expand(LeftHalf(s, h), h - 1) + Expand(RightHalf(s, h), h - 1)
  {
    HalvesFit(s, h);
  }

  lemma PrefixOfJoin<T>(x: seq<T>, y: seq<T>, n: nat)
    ensures n <= |x| ==> (x + y)[..n] == x[..n]
    ensures |x| <= n <= |x| + |y| ==> (x + y)[..n] == x + y[..n - |x|]
  {
  }

  lemma HalvesJoin<T>(s: seq<T>, h: nat)
    requires h > 0 && s != []
    ensures |s| <= Pow2(h - 1) ==> LeftHalf(s, h) == s
    ensures |s| > Pow2(h - 1) ==> |LeftHalf(s, h)| == Pow2(h - 1) && LeftHalf(s, h) + RightHalf(s, h) == s
  {
    hide Pow2;
  }

  lemma ExpandNone<T>(s: seq<T>)
    requires 0 < |s| <= Pow2(0)
    ensures Expand(s, 0) == s && s[..|s|] == s
  {
  }

  lemma {:induction false} ExpandStarts<T>(s: seq<T>, h: nat)
    requires 0 < |s| <= Pow2(h)
    ensures Expand(s, h)[..|s|] == s
    decreases h
  {
    hide *;
    if h == 0 {
      ExpandNone(s);
    } else {
      ExpandUnfold(s, h);
      HalvesJoin(s, h);
      var l, r := LeftHalf(s, h), RightHalf(s, h);
      var el, er := Expand(l, h - 1), Expand(r, h - 1);
      ExpandStarts(l, h - 1);
      ExpandStarts(r, h - 1);
      PrefixOfJoin(el, er, |s|);
      if |s| > Pow2(h - 1) {
        assert el[..|l|] == el;
      }
    }
  }

  lemma {:induction false} ExpandElements<T>(s: seq<T>, h: nat, i: nat)
    requires 0 < |s| <= Pow2(h) && i < Pow2(h)
    ensures Expand(s, h)[i] in s
    decreases h
  {
    if h > 0 {
      HalvesFit(s, h);
      if i < Pow2(h - 1) {
        ExpandElements(LeftHalf(s, h), h - 1, i);
      } else {
        ExpandElements(RightHalf(s, h), h - 1, i - Pow2(h - 1));
      }
    }
  }

  lemma {:induction false} TreeBinds(c: Crypto, a: seq<Hash256>, b: seq<Hash256>, h: nat)
    requires 0 < |a| <= Pow2(h) && 0 < |b| <= Pow2(h)
    requires Tree(c, a, h) == Tree(c, b, h)
    ensures Expand(a, h) == Expand(b, h) || CollisionBetween(c, TreeInputs(c, a, h), TreeInputs(c, b, h))
    decreases h
  {
    if h > 0 {
      var al, ar := LeftHalf(a, h), RightHalf(a, h);
      var bl, br := LeftHalf(b, h), RightHalf(b, h);
      var x := Concat(Tree(c, al, h - 1), Tree(c, ar, h - 1));
      var y := Concat(Tree(c, bl, h - 1), Tree(c, br, h - 1));
      assert x in TreeInputs(c, a, h) && y in TreeInputs(c, b, h);
      if x == y {
        SplitPair(Tree(c, al, h - 1), Tree(c, ar, h - 1), Tree(c, bl, h - 1), Tree(c, br, h - 1));
        TreeBinds(c, al, bl, h - 1);
        TreeBinds(c, ar, br, h - 1);
      }
    }
  }

  lemma {:induction false} SameExpansionSameTree(c: Crypto, a: seq<Hash256>, b: seq<Hash256>, h: nat)
    requires 0 < |a| <= Pow2(h) && 0 < |b| <= Pow2(h)
    requires Expand(a, h) == Expand(b, h)
    ensures Tree(c, a, h) == Tree(c, b, h)
    decreases h
  {
    if h > 0 {
      var ea, eb, half := Expand(a, h), Expand(b, h), Pow2(h - 1);
      assert ea[..half] == Expand(LeftHalf(a, h), h - 1) && ea[half..] == Expand(RightHalf(a, h), h - 1);
      assert eb[..half] == Expand(LeftHalf(b, h), h - 1) && eb[half..] == Expand(RightHalf(b, h), h - 1);
      SameExpansionSameTree(c, LeftHalf(a, h), LeftHalf(b, h), h - 1);
      SameExpansionSameTree(c, RightHalf(a, h), RightHalf(b, h), h - 1);
    }
  }

  /** For trees of any two heights and no collision between the two computations, the roots
      agree exactly when the lower list, duplicates written out, is the inner level of the
      taller tree that stands at its height. */
  lemma RootsAgreeAcrossHeights(c: Crypto, a: seq<Hash256>, b: seq<Hash256>)
    requires a != [] && b != [] && Height(|a|) >= Height(|b|)
    requires !CollisionBetween(c, RootInputs(c, a), RootInputs(c, b))
    ensures RootOf(c, a) == RootOf(c, b)
       <==> ExpandAlike(Ascend(c, a, Height(|a|) - Height(|b|)), b, Height(|b|))
  {
    hide Tree, TreeInputs, Expand, Ascend, Height, Pow2, CollisionBetween;
    var h, d := Height(|b|), Height(|a|) - Height(|b|);
    var level := Ascend(c, a, d);
    HeightFits(|a|);
    HeightFits(|b|);
    AscendTree(c, a, Height(|a|), d);
    if RootOf(c, a) == RootOf(c, b) {
      TreeBinds(c, level, b, h);
      if CollisionBetween(c, TreeInputs(c, level, h), TreeInputs(c, b, h)) {
        CollisionGrows(c, TreeInputs(c, level, h), TreeInputs(c, b, h), RootInputs(c, a), RootInputs(c, b));
      }
    } else if Expand(level, h) == Expand(b, h) {
      SameExpansionSameTree(c, level, b, h);
    }
  }

  /** For trees of one height and no collision between the two computations, the roots agree
      exactly when the leaf lists agree once the duplicated nodes are written out. */
  lemma RootsAgreeIffExpansionsAgree(c: Crypto, a: seq<Hash256>, b: seq<Hash256>)
    requires a != [] && b != [] && Height(|a|) == Height(|b|)
    requires !CollisionBetween(c, RootInputs(c, a), RootInputs(c, b))
    ensures RootOf(c, a) == RootOf(c, b) <==> ExpandAlike(a, b, Height(|a|))
  {
    hide RootOf, RootInputs, ExpandAlike, Height;
    RootsAgreeAcrossHeights(c, a, b);
  }

  /** Leaf lists of equal length with equal roots are equal, or the two computations collide. */
  lemma RootBinds(c: Crypto, a: seq<Hash256>, b: seq<Hash256>)
    requires |a| == |b| && RootOf(c, a) == RootOf(c, b)
    ensures a == b || CollisionBetween(c, RootInputs(c, a), RootInputs(c, b))
  {
    if a != [] {
      HeightFits(|a|);
      TreeBinds(c, a, b, Height(|a|));
      ExpandStarts(a, Height(|a|));
      ExpandStarts(b, Height(|b|));
    }
  }

  /** Why the lengths matter: repeating the last leaf of an odd list keeps the root. */
  lemma OddDuplicateKeepsRoot(c: Crypto, s: seq<Hash256>)
    requires |s| % 2 == 1
    ensures RootOf(c, s + [s[|s| - 1]]) == RootOf(c, s)
  {
    var t := s + [s[|s| - 1]];
    if |s| == 1 {
      assert Pow2(0) == 1;
      assert t[..1] == s && t[1..] == s;
      assert CeilLog2(1) == 0;
    } else {
      LevelStep(c, s);
      LevelStep(c, t);
      SameNextLevel(c, s, t);
    }
  }

  lemma SameNextLevel(c: Crypto, s: seq<Hash256>, t: seq<Hash256>)
    requires |s| % 2 == 1 && t == s + [s[|s| - 1]]
    ensures NextLevel(c, s) == NextLevel(c, t)
  {
    forall i | 0 <= i < |NextLevel(c, s)|
      ensures NextLevel(c, s)[i] == NextLevel(c, t)[i]
    {
      assert NextLevel(c, s)[i] == ParentAt(c, s, i) && NextLevel(c, t)[i] == ParentAt(c, t, i);
    }
  }
}
