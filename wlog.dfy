/** Symmetry reduction of A_committee_size_7/utility_functions.py:
    `generate_wlog_partition` groups the alternatives by which of the
    identifiable sets contain them, and `is_wlog` decides whether a selection
    takes, inside each block, the lowest-numbered alternatives. */
module Wlog {
  import opened Collections

  // ---------------------------------------------------------------------------
  // generate_wlog_partition

  /** `itertools.product([True, False], repeat=m)`: every inclusion pattern,
      the first position varying slowest and True before False. */
  function Inclusions(m: nat): seq<seq<bool>>
  {
    if m == 0 then [[]]
    else Prepend(true, Inclusions(m - 1)) + Prepend(false, Inclusions(m - 1))
  }

  lemma {:induction false} InclusionsSized(m: nat)
    ensures forall p | p in Inclusions(m) :: |p| == m
  {
    if m > 0 {
      InclusionsSized(m - 1);
      var rest := Inclusions(m - 1);
      PrependSized(true, rest, m - 1);
      PrependSized(false, rest, m - 1);
      var T, F := Prepend(true, rest), Prepend(false, rest);
      assert forall p | p in T + F :: p in T || p in F;
    }
  }

  lemma PrependSized(b: bool, ps: seq<seq<bool>>, m: nat)
    requires forall p | p in ps :: |p| == m
    ensures forall p | p in Prepend(b, ps) :: |p| == m + 1
  {
    forall p | p in Prepend(b, ps) ensures |p| == m + 1 {
      var i :| 0 <= i < |ps| && Prepend(b, ps)[i] == p;
      assert ps[i] in ps;
    }
  }

  lemma {:induction false} InclusionsComplete(m: nat, p: seq<bool>)
    requires |p| == m
    ensures p in Inclusions(m)
  {
    if m > 0 {
      var rest := Inclusions(m - 1);
      InclusionsComplete(m - 1, p[1..]);
      assert p == [p[0]] + p[1..];
      var i :| 0 <= i < |rest| && rest[i] == p[1..];
      if p[0] {
        assert Prepend(true, rest)[i] == p;
      } else {
        assert Prepend(false, rest)[i] == p;
      }
    }
  }

  /** The patterns are exactly the boolean lists of length m. */
  lemma InclusionsLength(m: nat, p: seq<bool>)
    ensures p in Inclusions(m) <==> |p| == m
  {
    InclusionsSized(m);
    if |p| == m {
      InclusionsComplete(m, p);
    }
  }

  lemma {:induction false} InclusionsNoDup(m: nat)
    ensures NoDup(Inclusions(m))
  {
    if m > 0 {
      InclusionsNoDup(m - 1);
      var rest := Inclusions(m - 1);
      var all := Inclusions(m);
      forall i, j | 0 <= i < j < |all| ensures all[i] != all[j] {
        if j < |rest| || i >= |rest| {
          var i', j' := if i < |rest| then i else i - |rest|, if j < |rest| then j else j - |rest|;
          assert all[i][1..] == rest[i'] && all[j][1..] == rest[j'];
        } else {
          assert all[i][0] != all[j][0];
        }
      }
    }
  }

  /** Line 20's `all((x in S) == inclusion for inclusion, S in zip(...))`. */
  predicate Matches(x: Alt, sets: seq<set<Alt>>, inclusions: seq<bool>)
  {
    forall i | 0 <= i < |inclusions| && i < |sets| :: (x in sets[i]) == inclusions[i]
  }

  /** Which of the identifiable sets contain x. */
  function Signature(x: Alt, sets: seq<set<Alt>>): (p: seq<bool>)
    ensures |p| == |sets|
    ensures Matches(x, sets, p)
  {
    seq(|sets|, i requires 0 <= i < |sets| => x in sets[i])
  }

  /** `partition_block`: the alternatives of A, in A's order, whose membership
      pattern is `inclusions`. */
  function Block(A: seq<Alt>, sets: seq<set<Alt>>, inclusions: seq<bool>): seq<Alt>
  {
    if A == [] then []
    else
      var x := A[|A| - 1];
      Block(A[..|A| - 1], sets, inclusions) + (if Matches(x, sets, inclusions) then [x] else [])
  }

  /** The list of nonempty blocks, one per pattern, in the order of `patterns`. */
  function BlocksOf(A: seq<Alt>, sets: seq<set<Alt>>, patterns: seq<seq<bool>>): seq<seq<Alt>>
  {
    if patterns == [] then []
    else
      var b := Block(A, sets, patterns[|patterns| - 1]);
      BlocksOf(A, sets, patterns[..|patterns| - 1]) + (if b != [] then [b] else [])
  }

  /** The patterns whose block is nonempty. */
  function UsedPatterns(A: seq<Alt>, sets: seq<set<Alt>>, patterns: seq<seq<bool>>): seq<seq<bool>>
  {
    if patterns == [] then []
    else
      var p := patterns[|patterns| - 1];
      UsedPatterns(A, sets, patterns[..|patterns| - 1]) + (if Block(A, sets, p) != [] then [p] else [])
  }

  /** The value `generate_wlog_partition(A, identifiable_sets)` returns. */
  function WlogPartition(A: seq<Alt>, sets: seq<set<Alt>>): seq<seq<Alt>>
  {
    BlocksOf(A, sets, Inclusions(|sets|))
  }

  method GenerateWlogPartition(A: seq<Alt>, sets: seq<set<Alt>>) returns (partition: seq<seq<Alt>>)
    ensures partition == WlogPartition(A, sets)
  {
    var patterns := Inclusions(|sets|);
    partition := [];
    for p := 0 to |patterns|
      invariant partition == BlocksOf(A, sets, patterns[..p])
    {
      var inclusions := patterns[p];
      var block := [];
      for j := 0 to |A|
        invariant block == Block(A[..j], sets, inclusions)
      {
        var x := A[j];
        assert A[..j + 1][..j] == A[..j];
        if Matches(x, sets, inclusions) {
          block := block + [x];
        }
      }
      assert A[..|A|] == A;
      assert patterns[..p + 1][..p] == patterns[..p];
      if block != [] {
        partition := partition + [block];
      }
    }
    assert patterns[..|patterns|] == patterns;
  }

  lemma {:induction false} BlockSpec(A: seq<Alt>, sets: seq<set<Alt>>, inclusions: seq<bool>, x: Alt)
    ensures x in Block(A, sets, inclusions) <==> x in A && Matches(x, sets, inclusions)
  {
    if A != [] {
      var init := A[..|A| - 1];
      BlockSpec(init, sets, inclusions, x);
      assert A == init + [A[|A| - 1]];
    }
  }

  lemma {:induction false} BlockNoDup(A: seq<Alt>, sets: seq<set<Alt>>, inclusions: seq<bool>)
    requires NoDup(A)
    ensures NoDup(Block(A, sets, inclusions))
  {
    if A != [] {
      var init, x := A[..|A| - 1], A[|A| - 1];
      assert A == init + [x];
      assert NoDup(init);
      BlockNoDup(init, sets, inclusions);
      BlockSpec(init, sets, inclusions, x);
    }
  }

  lemma {:induction false} BlocksOfIsMap(A: seq<Alt>, sets: seq<set<Alt>>, patterns: seq<seq<bool>>)
    ensures |BlocksOf(A, sets, patterns)| == |UsedPatterns(A, sets, patterns)|
    ensures forall i | 0 <= i < |BlocksOf(A, sets, patterns)| ::
              BlocksOf(A, sets, patterns)[i] == Block(A, sets, UsedPatterns(A, sets, patterns)[i])
  {
    if patterns != [] {
      BlocksOfIsMap(A, sets, patterns[..|patterns| - 1]);
    }
  }

  lemma {:induction false} UsedPatternsSpec(A: seq<Alt>, sets: seq<set<Alt>>, patterns: seq<seq<bool>>)
    ensures forall p :: p in UsedPatterns(A, sets, patterns) <==> p in patterns && Block(A, sets, p) != []
    ensures NoDup(patterns) ==> NoDup(UsedPatterns(A, sets, patterns))
  {
    if patterns != [] {
      var init, p := patterns[..|patterns| - 1], patterns[|patterns| - 1];
      assert patterns == init + [p];
      UsedPatternsSpec(A, sets, init);
      if NoDup(patterns) {
        assert NoDup(init);
      }
    }
  }

  lemma MatchesSame(x: Alt, y: Alt, sets: seq<set<Alt>>, p: seq<bool>, q: seq<bool>)
    requires |p| == |sets| && |q| == |sets|
    requires Matches(x, sets, p) && Matches(y, sets, q)
    ensures p == q <==> forall j | 0 <= j < |sets| :: (x in sets[j] <==> y in sets[j])
  {
    if forall j | 0 <= j < |sets| :: (x in sets[j] <==> y in sets[j]) {
      forall j | 0 <= j < |sets| ensures p[j] == q[j] {
      }
    }
  }

  /** The block i of the partition holds exactly the alternatives of A whose
      pattern is the i-th used one; the used patterns are distinct. */
  lemma PartitionShape(A: seq<Alt>, sets: seq<set<Alt>>)
    ensures var P, U := WlogPartition(A, sets), UsedPatterns(A, sets, Inclusions(|sets|));
      |P| == |U| && NoDup(U) &&
      (forall i | 0 <= i < |P| :: P[i] == Block(A, sets, U[i]) && P[i] != [] && |U[i]| == |sets|) &&
      (forall p :: p in U <==> |p| == |sets| && Block(A, sets, p) != [])
  {
    forall p ensures p in Inclusions(|sets|) <==> |p| == |sets| {
      InclusionsLength(|sets|, p);
    }
    InclusionsNoDup(|sets|);
    BlocksOfIsMap(A, sets, Inclusions(|sets|));
    UsedPatternsSpec(A, sets, Inclusions(|sets|));
    var U := UsedPatterns(A, sets, Inclusions(|sets|));
    forall i | 0 <= i < |U| ensures Block(A, sets, U[i]) != [] && |U[i]| == |sets| {
      assert U[i] in U;
    }
  }

  /** Every block of the partition is nonempty. */
  lemma WlogPartitionNonempty(A: seq<Alt>, sets: seq<set<Alt>>)
    ensures forall i | 0 <= i < |WlogPartition(A, sets)| :: WlogPartition(A, sets)[i] != []
  {
    PartitionShape(A, sets);
  }

  /** Blocks hold no repeated alternative when A has none. */
  lemma WlogPartitionBlocksNoDup(A: seq<Alt>, sets: seq<set<Alt>>)
    requires NoDup(A)
    ensures forall i | 0 <= i < |WlogPartition(A, sets)| :: NoDup(WlogPartition(A, sets)[i])
  {
    PartitionShape(A, sets);
    var P, U := WlogPartition(A, sets), UsedPatterns(A, sets, Inclusions(|sets|));
    forall i | 0 <= i < |P| ensures NoDup(P[i]) {
      BlockNoDup(A, sets, U[i]);
    }
  }

  /** x lies in block i iff x is in A with the i-th used pattern. */
  lemma InBlock(A: seq<Alt>, sets: seq<set<Alt>>, i: nat, x: Alt)
    requires i < |WlogPartition(A, sets)|
    ensures var U := UsedPatterns(A, sets, Inclusions(|sets|));
      i < |U| && (x in WlogPartition(A, sets)[i] <==> x in A && Matches(x, sets, U[i]))
  {
    PartitionShape(A, sets);
    BlockSpec(A, sets, UsedPatterns(A, sets, Inclusions(|sets|))[i], x);
  }

  /** Distinct blocks share no alternative. */
  lemma WlogPartitionDisjoint(A: seq<Alt>, sets: seq<set<Alt>>)
    ensures PairwiseDisjoint(WlogPartition(A, sets))
  {
    PartitionShape(A, sets);
    var P, U := WlogPartition(A, sets), UsedPatterns(A, sets, Inclusions(|sets|));
    forall i, j | 0 <= i < j < |P| ensures Elems(P[i]) * Elems(P[j]) == {} {
      forall x | x in Elems(P[i]) && x in Elems(P[j]) ensures false {
        InBlock(A, sets, i, x);
        InBlock(A, sets, j, x);
        MatchesSame(x, x, sets, U[i], U[j]);
      }
    }
  }

  /** The blocks together hold exactly the alternatives of A. */
  lemma WlogPartitionCovers(A: seq<Alt>, sets: seq<set<Alt>>, x: Alt)
    ensures x in A <==> exists i :: 0 <= i < |WlogPartition(A, sets)| && x in WlogPartition(A, sets)[i]
  {
    PartitionShape(A, sets);
    var P, U := WlogPartition(A, sets), UsedPatterns(A, sets, Inclusions(|sets|));
    if x in A {
      var p := Signature(x, sets);
      BlockSpec(A, sets, p, x);
      assert p in U;
      var i :| 0 <= i < |U| && U[i] == p;
      InBlock(A, sets, i, x);
    }
    if exists i :: 0 <= i < |P| && x in P[i] {
      var i :| 0 <= i < |P| && x in P[i];
      InBlock(A, sets, i, x);
    }
  }

  /** Two alternatives of A share a block iff every identifiable set contains
      both or neither of them. */
  lemma WlogPartitionSameBlock(A: seq<Alt>, sets: seq<set<Alt>>, x: Alt, y: Alt)
    requires x in A && y in A
    ensures (exists i :: 0 <= i < |WlogPartition(A, sets)| && x in WlogPartition(A, sets)[i] && y in WlogPartition(A, sets)[i])
            <==> forall j | 0 <= j < |sets| :: (x in sets[j] <==> y in sets[j])
  {
    PartitionShape(A, sets);
    var P, U := WlogPartition(A, sets), UsedPatterns(A, sets, Inclusions(|sets|));
    WlogPartitionCovers(A, sets, x);
    WlogPartitionCovers(A, sets, y);
    var i :| 0 <= i < |P| && x in P[i];
    var j :| 0 <= j < |P| && y in P[j];
    InBlock(A, sets, i, x);
    InBlock(A, sets, j, y);
    MatchesSame(x, y, sets, U[i], U[j]);
    if i != j {
      assert U[i] != U[j];
      forall i' | 0 <= i' < |P| && x in P[i'] && y in P[i'] ensures false {
        InBlock(A, sets, i', x);
        InBlock(A, sets, i', y);
        MatchesSame(x, x, sets, U[i], U[i']);
        MatchesSame(y, y, sets, U[j], U[i']);
      }
    }
  }

  /** The union of the blocks of a partition. */
  function UnionOf(blocks: seq<seq<Alt>>): set<Alt>
  {
    if blocks == [] then {} else Elems(blocks[0]) + UnionOf(blocks[1..])
  }

  lemma {:induction false} UnionOfSpec(blocks: seq<seq<Alt>>, x: Alt)
    ensures x in UnionOf(blocks) <==> exists i :: 0 <= i < |blocks| && x in blocks[i]
  {
    if blocks != [] {
      UnionOfSpec(blocks[1..], x);
      if exists i :: 0 <= i < |blocks| && x in blocks[i] {
        var i :| 0 <= i < |blocks| && x in blocks[i];
        if i > 0 { assert x in blocks[1..][i - 1]; }
      }
      if x in UnionOf(blocks[1..]) {
        var i :| 0 <= i < |blocks[1..]| && x in blocks[1..][i];
        assert x in blocks[i + 1];
      }
    }
  }

  /** The blocks of the partition together hold exactly the alternatives of A. */
  lemma WlogPartitionUnion(A: seq<Alt>, sets: seq<set<Alt>>)
    ensures UnionOf(WlogPartition(A, sets)) == Elems(A)
  {
    forall x ensures x in UnionOf(WlogPartition(A, sets)) <==> x in A {
      UnionOfSpec(WlogPartition(A, sets), x);
      WlogPartitionCovers(A, sets, x);
    }
  }

  // ---------------------------------------------------------------------------
  // is_wlog

  datatype WlogFailure =
    | BlocksOverlap        // the assertion of line 30
    | SelectionNotCovered  // the assertion of line 32

  predicate PairwiseDisjoint(blocks: seq<seq<Alt>>)
  {
    forall i, j | 0 <= i < j < |blocks| :: Elems(blocks[i]) * Elems(blocks[j]) == {}
  }

  /** `sorted_partition`. */
  function SortedBlocks(partition: seq<seq<Alt>>): (r: seq<seq<Alt>>)
    ensures |r| == |partition|
  {
    if partition == [] then [] else [Sort(partition[0])] + SortedBlocks(partition[1..])
  }

  /** `number_from_block`: how many alternatives of xs each block holds. */
  function Counts(xs: seq<Alt>, blocks: seq<seq<Alt>>): (r: seq<nat>)
    ensures |r| == |blocks|
  {
    if blocks == [] then [] else [|Elems(blocks[0]) * Elems(xs)|] + Counts(xs, blocks[1..])
  }

  /** `block[:num] for num, block in zip(counts, blocks)`. */
  function Selections(blocks: seq<seq<Alt>>, counts: seq<nat>): (r: seq<seq<Alt>>)
    requires |counts| == |blocks|
    ensures |r| == |blocks|
  {
    if blocks == [] then [] else [Take(blocks[0], counts[0])] + Selections(blocks[1..], counts[1..])
  }

  /** `wlog_selections`: from every sorted block, as many of its first
      alternatives as xs holds in that block. */
  function Chosen(xs: seq<Alt>, partition: seq<seq<Alt>>): (r: seq<seq<Alt>>)
    ensures |r| == |partition|
  {
    var sp := SortedBlocks(partition);
    Selections(sp, Counts(xs, sp))
  }

  /** `itertools.chain(*wlog_selections)`. */
  function WlogSelection(xs: seq<Alt>, partition: seq<seq<Alt>>): seq<Alt>
  {
    Concat(Chosen(xs, partition))
  }

  /** `is_wlog(xs, partition)`; a failed assertion is an Err. */
  function IsWlog(xs: seq<Alt>, partition: seq<seq<Alt>>): Result<bool, WlogFailure>
  {
    var sp := SortedBlocks(partition);
    if !PairwiseDisjoint(sp) then Err(BlocksOverlap)
    else if Sum(Counts(xs, sp)) != |xs| then Err(SelectionNotCovered)
    else Ok(Sort(WlogSelection(xs, partition)) == Sort(xs))
  }

  /** The alternatives of xs inside a block. */
  function Meet(xs: seq<Alt>, block: seq<Alt>): set<Alt>
  {
    Elems(xs) * Elems(block)
  }

  /** Inside the block, xs is closed downwards: it holds the lowest-numbered
      alternatives of the block. */
  ghost predicate BlockCanonical(xs: seq<Alt>, block: seq<Alt>)
  {
    forall a, b | a in block && b in block && b in xs && a < b :: a in xs
  }

  /** The independent reading of "canonical selection": closed downwards in every block. */
  ghost predicate Canonical(xs: seq<Alt>, partition: seq<seq<Alt>>)
  {
    forall i | 0 <= i < |partition| :: BlockCanonical(xs, partition[i])
  }

  /** Every alternative of xs lies in some block. */
  ghost predicate Covered(xs: seq<Alt>, partition: seq<seq<Alt>>)
  {
    Elems(xs) <= UnionOf(partition)
  }

  lemma {:induction false} SortedBlocksSpec(partition: seq<seq<Alt>>)
    ensures forall i | 0 <= i < |partition| :: SortedBlocks(partition)[i] == Sort(partition[i])
  {
    if partition != [] {
      SortedBlocksSpec(partition[1..]);
    }
  }

  lemma SortedBlock(partition: seq<seq<Alt>>, i: nat)
    requires i < |partition|
    ensures Elems(SortedBlocks(partition)[i]) == Elems(partition[i])
    ensures |SortedBlocks(partition)[i]| == |partition[i]|
    ensures NoDup(partition[i]) ==> Increasing(SortedBlocks(partition)[i])
  {
    SortedBlocksSpec(partition);
    SortElems(partition[i]);
  }

  lemma SortedBlocksDisjoint(partition: seq<seq<Alt>>)
    ensures PairwiseDisjoint(SortedBlocks(partition)) <==> PairwiseDisjoint(partition)
  {
    forall i | 0 <= i < |partition| ensures Elems(SortedBlocks(partition)[i]) == Elems(partition[i]) {
      SortedBlock(partition, i);
    }
  }

  lemma {:induction false} UnionOfSorted(partition: seq<seq<Alt>>)
    ensures UnionOf(SortedBlocks(partition)) == UnionOf(partition)
  {
    if partition != [] {
      UnionOfSorted(partition[1..]);
      assert SortedBlocks(partition)[1..] == SortedBlocks(partition[1..]);
      SortElems(partition[0]);
    }
  }

  lemma {:induction false} CountsSpec(xs: seq<Alt>, blocks: seq<seq<Alt>>)
    ensures forall i | 0 <= i < |blocks| :: Counts(xs, blocks)[i] == |Elems(blocks[i]) * Elems(xs)|
  {
    if blocks != [] {
      CountsSpec(xs, blocks[1..]);
    }
  }

  lemma {:induction false} SelectionsSpec(blocks: seq<seq<Alt>>, counts: seq<nat>)
    requires |counts| == |blocks|
    ensures forall i | 0 <= i < |blocks| :: Selections(blocks, counts)[i] == Take(blocks[i], counts[i])
  {
    if blocks != [] {
      SelectionsSpec(blocks[1..], counts[1..]);
    }
  }

  /** Selection i is the first |Meet(xs, block i)| alternatives of sorted block i. */
  lemma ChosenSpec(xs: seq<Alt>, partition: seq<seq<Alt>>, i: nat)
    requires i < |partition| && NoDup(partition[i])
    ensures |Meet(xs, partition[i])| <= |SortedBlocks(partition)[i]|
    ensures Chosen(xs, partition)[i] == SortedBlocks(partition)[i][..|Meet(xs, partition[i])|]
  {
    var sp := SortedBlocks(partition);
    SortedBlock(partition, i);
    CountsSpec(xs, sp);
    SelectionsSpec(sp, Counts(xs, sp));
    assert Elems(sp[i]) * Elems(xs) == Meet(xs, partition[i]);
    SubsetCard(Meet(xs, partition[i]), Elems(partition[i]));
    NoDupCard(partition[i]);
  }

  lemma ChosenElems(xs: seq<Alt>, partition: seq<seq<Alt>>, i: nat)
    requires i < |partition| && NoDup(partition[i])
    ensures NoDup(Chosen(xs, partition)[i])
    ensures Elems(Chosen(xs, partition)[i]) <= Elems(partition[i])
    ensures |Elems(Chosen(xs, partition)[i])| == |Meet(xs, partition[i])|
  {
    var s := SortedBlocks(partition)[i];
    var n := |Meet(xs, partition[i])|;
    ChosenSpec(xs, partition, i);
    SortedBlock(partition, i);
    assert Increasing(s[..n]);
    NoDupCard(s[..n]);
    forall y | y in s[..n] ensures y in Elems(s) {
      var k :| 0 <= k < n && s[..n][k] == y;
      assert s[k] == y;
    }
  }

  /** A downward-closed subset d of an increasing list s is the set of its
      first |d| entries, and conversely. */
  lemma PrefixDownwardClosed(s: seq<Alt>, d: set<Alt>)
    requires Increasing(s) && d <= Elems(s)
    ensures |d| <= |s|
    ensures (forall a, b | a in s && b in d && a < b :: a in d) <==> d == Elems(s[..|d|])
  {
    var n := |d|;
    NoDupCard(s);
    SubsetCard(d, Elems(s));
    assert NoDup(s[..n]);
    NoDupCard(s[..n]);
    if forall a, b | a in s && b in d && a < b :: a in d {
      forall x | x in d ensures x in Elems(s[..n]) {
        var j :| 0 <= j < |s| && s[j] == x;
        PrefixBelow(s, d, j);
        assert s[..n][j] == x;
      }
      SubsetCard(d, Elems(s[..n]));
    }
    if d == Elems(s[..n]) {
      forall a, b | a in s && b in d && a < b ensures a in d {
        var i :| 0 <= i < |s| && s[i] == a;
        var j :| 0 <= j < n && s[..n][j] == b;
        assert s[..n][i] == a;
      }
    }
  }

  /** In a downward-closed d, an entry at position j forces j < |d|. */
  lemma PrefixBelow(s: seq<Alt>, d: set<Alt>, j: nat)
    requires Increasing(s) && d <= Elems(s)
    requires forall a, b | a in s && b in d && a < b :: a in d
    requires j < |s| && s[j] in d
    ensures j < |d|
  {
    assert Elems(s[..j + 1]) <= d by {
      forall y | y in Elems(s[..j + 1]) ensures y in d {
        var i :| 0 <= i < j + 1 && s[i] == y;
        if i < j { assert s[i] < s[j]; }
      }
    }
    assert NoDup(s[..j + 1]);
    NoDupCard(s[..j + 1]);
    SubsetCard(Elems(s[..j + 1]), d);
  }

  /** Canonicity inside a block, read on any list s with the block's elements. */
  lemma CanonicalClosed(xs: seq<Alt>, block: seq<Alt>, s: seq<Alt>)
    requires Elems(s) == Elems(block)
    ensures BlockCanonical(xs, block) <==>
            forall a, b | a in s && b in Meet(xs, block) && a < b :: a in Meet(xs, block)
  {
    var d := Meet(xs, block);
    if BlockCanonical(xs, block) {
      forall a, b | a in s && b in d && a < b ensures a in d {
        assert a in Elems(s) && b in Elems(block);
      }
    }
    if forall a, b | a in s && b in d && a < b :: a in d {
      forall a, b | a in block && b in block && b in xs && a < b ensures a in xs {
        assert a in Elems(s) && b in d;
      }
    }
  }

  /** Inside block i, xs is canonical iff it meets the block exactly in selection i. */
  lemma BlockCanonicalIff(xs: seq<Alt>, partition: seq<seq<Alt>>, i: nat)
    requires i < |partition| && NoDup(partition[i])
    ensures BlockCanonical(xs, partition[i]) <==> Meet(xs, partition[i]) == Elems(Chosen(xs, partition)[i])
  {
    var s := SortedBlocks(partition)[i];
    ChosenSpec(xs, partition, i);
    SortedBlock(partition, i);
    PrefixDownwardClosed(s, Meet(xs, partition[i]));
    CanonicalClosed(xs, partition[i], s);
  }

  /** For disjoint blocks, the counts add up to the number of covered alternatives of xs. */
  lemma {:induction false} CountsSum(xs: seq<Alt>, blocks: seq<seq<Alt>>)
    requires PairwiseDisjoint(blocks)
    ensures Sum(Counts(xs, blocks)) == |Elems(xs) * UnionOf(blocks)|
  {
    if blocks != [] {
      var rest := blocks[1..];
      assert PairwiseDisjoint(rest) by {
        forall i, j | 0 <= i < j < |rest| ensures Elems(rest[i]) * Elems(rest[j]) == {} {
          assert rest[i] == blocks[i + 1] && rest[j] == blocks[j + 1];
        }
      }
      CountsSum(xs, rest);
      var X, E0, U := Elems(xs), Elems(blocks[0]), UnionOf(rest);
      forall x | x in E0 ensures x !in U {
        UnionOfSpec(rest, x);
        forall k | 0 <= k < |rest| ensures x !in rest[k] {
          assert rest[k] == blocks[k + 1];
          OtherBlock(blocks, 0, k + 1, x);
        }
      }
      assert X * (E0 + U) == (E0 * X) + (X * U);
      assert (E0 * X) * (X * U) == {};
    }
  }

  /** The first assertion of is_wlog fails exactly when two blocks overlap. */
  lemma IsWlogOverlap(xs: seq<Alt>, partition: seq<seq<Alt>>)
    ensures IsWlog(xs, partition) == Err(BlocksOverlap) <==> !PairwiseDisjoint(partition)
  {
    SortedBlocksDisjoint(partition);
  }

  /** With disjoint blocks, the second assertion fails when some alternative
      of xs lies in no block. */
  lemma IsWlogUncovered(xs: seq<Alt>, partition: seq<seq<Alt>>)
    requires PairwiseDisjoint(partition)
    requires !Covered(xs, partition)
    ensures IsWlog(xs, partition) == Err(SelectionNotCovered)
  {
    var sp := SortedBlocks(partition);
    SortedBlocksDisjoint(partition);
    UnionOfSorted(partition);
    CountsSum(xs, sp);
    var X, U := Elems(xs), UnionOf(partition);
    var x :| x in X && x !in U;
    SubsetCard(X * U, X - {x});
    ElemsCard(xs);
    assert Sum(Counts(xs, sp)) < |xs|;
  }

  /** With disjoint blocks and a duplicate-free xs they cover, neither
      assertion fails. */
  lemma IsWlogDefined(xs: seq<Alt>, partition: seq<seq<Alt>>)
    requires PairwiseDisjoint(partition)
    requires NoDup(xs) && Covered(xs, partition)
    ensures IsWlog(xs, partition).Ok?
  {
    var sp := SortedBlocks(partition);
    SortedBlocksDisjoint(partition);
    UnionOfSorted(partition);
    CountsSum(xs, sp);
    assert Elems(xs) * UnionOf(sp) == Elems(xs);
    NoDupCard(xs);
  }

  lemma InSelection(xs: seq<Alt>, partition: seq<seq<Alt>>, y: Alt)
    ensures y in WlogSelection(xs, partition) <==>
            exists i :: 0 <= i < |partition| && y in Chosen(xs, partition)[i]
  {
    ConcatMember(Chosen(xs, partition), y);
  }

  /** An alternative of one block lies in no other block of a disjoint list. */
  lemma OtherBlock(blocks: seq<seq<Alt>>, i: nat, j: nat, y: Alt)
    requires PairwiseDisjoint(blocks)
    requires i < |blocks| && j < |blocks| && i != j && y in blocks[i]
    ensures y !in blocks[j]
  {
    assert Elems(blocks[i]) * Elems(blocks[j]) == {} by {
      if j < i {
        assert Elems(blocks[j]) * Elems(blocks[i]) == {};
      }
    }
    assert y in Elems(blocks[i]);
    assert y !in Elems(blocks[i]) * Elems(blocks[j]);
  }

  /** An alternative lies in at most one of a list of disjoint blocks. */
  lemma OneBlock(blocks: seq<seq<Alt>>, i: nat, j: nat, y: Alt)
    requires PairwiseDisjoint(blocks)
    requires i < |blocks| && j < |blocks| && y in blocks[i] && y in blocks[j]
    ensures i == j
  {
    if i != j {
      OtherBlock(blocks, i, j, y);
    }
  }

  lemma {:induction false} ConcatDisjointNoDup(ss: seq<seq<Alt>>)
    requires forall i | 0 <= i < |ss| :: NoDup(ss[i])
    requires PairwiseDisjoint(ss)
    ensures NoDup(Concat(ss))
  {
    if ss != [] {
      var rest := ss[1..];
      assert PairwiseDisjoint(rest) by {
        forall i, j | 0 <= i < j < |rest| ensures Elems(rest[i]) * Elems(rest[j]) == {} {
          assert rest[i] == ss[i + 1] && rest[j] == ss[j + 1];
        }
      }
      ConcatDisjointNoDup(rest);
      var c := Concat(ss);
      assert c == ss[0] + Concat(rest);
      forall y | y in Concat(rest) ensures y !in ss[0] {
        ConcatMember(rest, y);
        var j :| 0 <= j < |rest| && y in rest[j];
        assert rest[j] == ss[j + 1];
        OtherBlock(ss, j + 1, 0, y);
      }
      forall p, q | 0 <= p < q < |c| ensures c[p] != c[q] {
        if p < |ss[0]| && q >= |ss[0]| {
          assert c[q] in Concat(rest);
        } else if p >= |ss[0]| {
          assert c[p] == Concat(rest)[p - |ss[0]|] && c[q] == Concat(rest)[q - |ss[0]|];
        }
      }
    }
  }

  /** With disjoint duplicate-free blocks, the canonical selection has no repeats. */
  lemma SelectionNoDup(xs: seq<Alt>, partition: seq<seq<Alt>>)
    requires PairwiseDisjoint(partition)
    requires forall i | 0 <= i < |partition| :: NoDup(partition[i])
    ensures NoDup(WlogSelection(xs, partition))
  {
    var sel := Chosen(xs, partition);
    forall i | 0 <= i < |sel| ensures NoDup(sel[i]) && Elems(sel[i]) <= Elems(partition[i]) {
      ChosenElems(xs, partition, i);
    }
    assert PairwiseDisjoint(sel) by {
      forall i, j | 0 <= i < j < |sel| ensures Elems(sel[i]) * Elems(sel[j]) == {} {
        assert Elems(partition[i]) * Elems(partition[j]) == {};
      }
    }
    ConcatDisjointNoDup(sel);
  }

  /** The canonical selection meets block i exactly in selection i. */
  lemma SelectionMeetsBlock(xs: seq<Alt>, partition: seq<seq<Alt>>, i: nat)
    requires PairwiseDisjoint(partition)
    requires forall j | 0 <= j < |partition| :: NoDup(partition[j])
    requires i < |partition|
    ensures Meet(WlogSelection(xs, partition), partition[i]) == Elems(Chosen(xs, partition)[i])
  {
    var sel := Chosen(xs, partition);
    ChosenElems(xs, partition, i);
    forall y | y in WlogSelection(xs, partition) && y in partition[i] ensures y in sel[i] {
      InSelection(xs, partition, y);
      var j :| 0 <= j < |partition| && y in sel[j];
      ChosenElems(xs, partition, j);
      assert y in Elems(sel[j]);
      assert y in Elems(partition[j]);
      assert y in partition[j];
      OneBlock(partition, i, j, y);
      assert sel[j] == sel[i];
    }
    forall y | y in sel[i] ensures y in WlogSelection(xs, partition) && y in partition[i] {
      InSelection(xs, partition, y);
      assert y in Elems(sel[i]);
    }
  }

  /** The canonical selection lies inside the blocks. */
  lemma SelectionCovered(xs: seq<Alt>, partition: seq<seq<Alt>>)
    requires forall j | 0 <= j < |partition| :: NoDup(partition[j])
    ensures Covered(WlogSelection(xs, partition), partition)
  {
    forall y | y in WlogSelection(xs, partition) ensures y in UnionOf(partition) {
      InSelection(xs, partition, y);
      var i :| 0 <= i < |partition| && y in Chosen(xs, partition)[i];
      ChosenElems(xs, partition, i);
      assert y in Elems(Chosen(xs, partition)[i]);
      UnionOfSpec(partition, y);
    }
  }

  /** `is_wlog` decides canonicity: for disjoint duplicate-free blocks and a
      duplicate-free xs they cover, it returns True exactly when xs holds, in
      every block, the lowest-numbered alternatives. */
  lemma IsWlogCanonical(xs: seq<Alt>, partition: seq<seq<Alt>>)
    requires PairwiseDisjoint(partition)
    requires forall i | 0 <= i < |partition| :: NoDup(partition[i])
    requires NoDup(xs) && Covered(xs, partition)
    ensures IsWlog(xs, partition) == Ok(Canonical(xs, partition))
  {
    IsWlogDefined(xs, partition);
    var sel := Chosen(xs, partition);
    var w := WlogSelection(xs, partition);
    var X := Elems(xs);
    SelectionNoDup(xs, partition);
    SortEquality(w, xs);
    NoDupMultiset(w, xs);
    var perBlock := forall i | 0 <= i < |partition| :: Meet(xs, partition[i]) == Elems(sel[i]);
    forall i | 0 <= i < |partition| {
      BlockCanonicalIff(xs, partition, i);
    }
    assert Canonical(xs, partition) <==> perBlock;
    if Elems(w) == X {
      forall i | 0 <= i < |partition| ensures Meet(xs, partition[i]) == Elems(sel[i]) {
        SelectionMeetsBlock(xs, partition, i);
      }
    }
    if perBlock {
      forall y | y in X ensures y in w {
        UnionOfSpec(partition, y);
        var i :| 0 <= i < |partition| && y in partition[i];
        assert y in Meet(xs, partition[i]);
        InSelection(xs, partition, y);
      }
      forall y | y in w ensures y in X {
        InSelection(xs, partition, y);
        var i :| 0 <= i < |partition| && y in sel[i];
        assert y in Elems(sel[i]);
      }
      assert Elems(w) == X;
    }
  }

  /** At most one canonical selection per orbit: two covered canonical
      selections holding equally many alternatives of every block are equal
      as sets. */
  lemma CanonicalUnique(xs: seq<Alt>, ys: seq<Alt>, partition: seq<seq<Alt>>)
    requires forall i | 0 <= i < |partition| :: NoDup(partition[i])
    requires Covered(xs, partition) && Covered(ys, partition)
    requires Canonical(xs, partition) && Canonical(ys, partition)
    requires forall i | 0 <= i < |partition| :: |Meet(xs, partition[i])| == |Meet(ys, partition[i])|
    ensures Elems(xs) == Elems(ys)
  {
    forall i | 0 <= i < |partition| ensures Meet(xs, partition[i]) == Meet(ys, partition[i]) {
      BlockCanonicalIff(xs, partition, i);
      BlockCanonicalIff(ys, partition, i);
      ChosenSpec(xs, partition, i);
      ChosenSpec(ys, partition, i);
    }
    forall y | y in Elems(xs) ensures y in Elems(ys) {
      UnionOfSpec(partition, y);
      var i :| 0 <= i < |partition| && y in partition[i];
      assert y in Meet(xs, partition[i]);
    }
    forall y | y in Elems(ys) ensures y in Elems(xs) {
      UnionOfSpec(partition, y);
      var i :| 0 <= i < |partition| && y in partition[i];
      assert y in Meet(ys, partition[i]);
    }
  }

  /** At least one canonical selection per orbit: the canonical selection of
      a covered xs holds as many alternatives of every block as xs does, and
      is_wlog accepts it. */
  lemma WlogSelectionCanonical(xs: seq<Alt>, partition: seq<seq<Alt>>)
    requires PairwiseDisjoint(partition)
    requires forall i | 0 <= i < |partition| :: NoDup(partition[i])
    ensures forall i | 0 <= i < |partition| ::
              |Meet(WlogSelection(xs, partition), partition[i])| == |Meet(xs, partition[i])|
    ensures IsWlog(WlogSelection(xs, partition), partition) == Ok(true)
  {
    var w := WlogSelection(xs, partition);
    SelectionNoDup(xs, partition);
    SelectionCovered(xs, partition);
    forall i | 0 <= i < |partition| ensures |Meet(w, partition[i])| == |Meet(xs, partition[i])| {
      SelectionMeetsBlock(xs, partition, i);
      ChosenElems(xs, partition, i);
    }
    forall i | 0 <= i < |partition| ensures BlockCanonical(w, partition[i]) {
      SelectionMeetsBlock(xs, partition, i);
      ChosenSpec(xs, partition, i);
      ChosenSpec(w, partition, i);
      BlockCanonicalIff(w, partition, i);
    }
    IsWlogCanonical(w, partition);
  }

  /** Alternatives that every identifiable set contains both or neither of. */
  predicate Indistinguishable(a: Alt, b: Alt, sets: seq<set<Alt>>)
  {
    forall j | 0 <= j < |sets| :: (a in sets[j] <==> b in sets[j])
  }

  /** Canonicity for the partition of generate_wlog_partition, stated on the
      identifiable sets alone: whenever xs holds b, it holds every smaller
      alternative that no identifiable set tells apart from b. */
  lemma CanonicalForSets(A: seq<Alt>, sets: seq<set<Alt>>, xs: seq<Alt>)
    requires Elems(xs) <= Elems(A)
    ensures Canonical(xs, WlogPartition(A, sets)) <==>
            forall a, b | a in A && b in xs && a < b && Indistinguishable(a, b, sets) :: a in xs
  {
    if Canonical(xs, WlogPartition(A, sets)) {
      CanonicalTakesSmallest(A, sets, xs);
    }
    if forall a, b | a in A && b in xs && a < b && Indistinguishable(a, b, sets) :: a in xs {
      SmallestIsCanonical(A, sets, xs);
    }
  }

  lemma CanonicalTakesSmallest(A: seq<Alt>, sets: seq<set<Alt>>, xs: seq<Alt>)
    requires Elems(xs) <= Elems(A) && Canonical(xs, WlogPartition(A, sets))
    ensures forall a, b | a in A && b in xs && a < b && Indistinguishable(a, b, sets) :: a in xs
  {
    var P := WlogPartition(A, sets);
    forall a, b | a in A && b in xs && a < b && Indistinguishable(a, b, sets) ensures a in xs {
      assert b in Elems(A);
      WlogPartitionSameBlock(A, sets, a, b);
      var i :| 0 <= i < |P| && a in P[i] && b in P[i];
      assert BlockCanonical(xs, P[i]);
    }
  }

  lemma SmallestIsCanonical(A: seq<Alt>, sets: seq<set<Alt>>, xs: seq<Alt>)
    requires Elems(xs) <= Elems(A)
    requires forall a, b | a in A && b in xs && a < b && Indistinguishable(a, b, sets) :: a in xs
    ensures Canonical(xs, WlogPartition(A, sets))
  {
    var P := WlogPartition(A, sets);
    forall i | 0 <= i < |P| ensures BlockCanonical(xs, P[i]) {
      forall a, b | a in P[i] && b in P[i] && b in xs && a < b ensures a in xs {
        InBlock(A, sets, i, a);
        InBlock(A, sets, i, b);
        WlogPartitionSameBlock(A, sets, a, b);
      }
    }
  }

  /** For the partition generate_wlog_partition builds over a duplicate-free A,
      is_wlog never fails on a duplicate-free selection from A, and returns
      whether the selection is canonical. */
  lemma IsWlogOnWlogPartition(A: seq<Alt>, sets: seq<set<Alt>>, xs: seq<Alt>)
    requires NoDup(A) && NoDup(xs) && Elems(xs) <= Elems(A)
    ensures IsWlog(xs, WlogPartition(A, sets)) ==
            Ok(forall a, b | a in A && b in xs && a < b && Indistinguishable(a, b, sets) :: a in xs)
  {
    WlogPartitionDisjoint(A, sets);
    WlogPartitionBlocksNoDup(A, sets);
    WlogPartitionUnion(A, sets);
    IsWlogCanonical(xs, WlogPartition(A, sets));
    CanonicalForSets(A, sets, xs);
  }
}
