/** lib/falists.c: address lists sorted and freed of duplicates by relinking their nodes. */
module FaLists {
  import opened Bytes

  /** fa_list with the two parts of its address that are compared. */
  class FaNode {
    const net: word
    const node: word
    var next: FaNode?

    constructor (net: word, node: word)
      ensures this.net == net && this.node == node && next == null
    {
      this.net, this.node, next := net, node, null;
    }
  }

  /** An unsigned difference read as an int. */
  function Signed(d: int): int
  {
    var w := d % 0x1_0000_0000;
    if w < 0x8000_0000 then w else w - 0x1_0000_0000
  }

  function Compaddr(a: FaNode, b: FaNode): int
  {
    if a.net != b.net then Signed(a.net - b.net) else Signed(a.node - b.node)
  }

  predicate SameKey(a: FaNode, b: FaNode) { a.net == b.net && a.node == b.node }

  predicate Below(a: FaNode, b: FaNode) { a.net < b.net || (a.net == b.net && a.node < b.node) }

  /** compaddr tells equal pairs exactly, and orders two pairs as numbers exactly when the
      difference it computes fits an int. */
  lemma ComparesExactly(a: FaNode, b: FaNode)
    ensures Compaddr(a, b) == 0 <==> SameKey(a, b)
    ensures var d := if a.net != b.net then a.net - b.net else a.node - b.node;
            (Compaddr(a, b) < 0 <==> Below(a, b)) <==> -0x8000_0000 <= d < 0x8000_0000
  {
  }

  /** Where it does not fit: of nets 0xffffffff and 0 the larger one counts as the lower. */
  lemma FarNetsSwap(a: FaNode, b: FaNode)
    requires a.net == 0xffff_ffff && b.net == 0
    ensures Compaddr(a, b) < 0 && Below(b, a)
  {
  }

  // ----- lists

  ghost predicate Distinct(s: seq<FaNode>) { forall i, j :: 0 <= i < j < |s| ==> s[i] != s[j] }

  ghost predicate Chained(s: seq<FaNode>)
    reads s
  {
    forall i, j {:trigger s[i], s[j]} :: 0 <= i && j == i + 1 && j < |s| ==> s[i].next == s[j]
  }

  /** The list at head consists of these nodes. */
  ghost predicate IsList(head: FaNode?, s: seq<FaNode>)
    reads s
  {
    Distinct(s) && Chained(s) && if s == [] then head == null else head == s[0] && s[|s| - 1].next == null
  }

  /** Every node that differs from the one before it. */
  function Keep(s: seq<FaNode>): (r: seq<FaNode>)
    ensures s != [] ==> r != []
  {
    if s == [] then []
    else
      var init, last := s[..|s| - 1], s[|s| - 1];
      if init != [] && SameKey(init[|init| - 1], last) then Keep(init) else Keep(init) + [last]
  }

  function Drop(s: seq<FaNode>): seq<FaNode>
  {
    if s == [] then []
    else
      var init, last := s[..|s| - 1], s[|s| - 1];
      if init != [] && SameKey(init[|init| - 1], last) then Drop(init) + [last] else Drop(init)
  }

  lemma KeepStep(s: seq<FaNode>, i: nat)
    requires 0 < i < |s|
    ensures Keep(s[..i + 1]) == (if SameKey(s[i - 1], s[i]) then Keep(s[..i]) else Keep(s[..i]) + [s[i]])
    ensures Drop(s[..i + 1]) == (if SameKey(s[i - 1], s[i]) then Drop(s[..i]) + [s[i]] else Drop(s[..i]))
  {
    assert s[..i + 1][..i] == s[..i];
  }

  /** Of the first n nodes those that are first in the list or differ from the one before, in
      their order. */
  ghost function Firsts(s: seq<FaNode>, n: nat): seq<FaNode>
    requires n <= |s|
  {
    if n == 0 then [] else Firsts(s, n - 1) + if n == 1 || !SameKey(s[n - 2], s[n - 1]) then [s[n - 1]] else []
  }

  /** Of neighbours with the same pair the first is kept. */
  lemma {:induction false} FirstsKept(s: seq<FaNode>, n: nat)
    requires n <= |s|
    ensures Keep(s[..n]) == Firsts(s, n)
    decreases n
  {
    if n > 0 {
      FirstsKept(s, n - 1);
      assert s[..n][..n - 1] == s[..n - 1];
    }
  }

  /** What is kept and what is dropped are, together, the nodes, each exactly once. */
  lemma {:induction false} KeepDrop(s: seq<FaNode>)
    ensures multiset(Keep(s)) + multiset(Drop(s)) == multiset(s)
  {
    if s != [] {
      KeepDrop(s[..|s| - 1]);
      assert s == s[..|s| - 1] + [s[|s| - 1]];
    }
  }

  /** Some node of s has x's pair. */
  ghost predicate Has(s: seq<FaNode>, x: FaNode) { exists j :: 0 <= j < |s| && SameKey(x, s[j]) }

  lemma {:induction false} LastKept(s: seq<FaNode>)
    requires s != []
    ensures SameKey(Keep(s)[|Keep(s)| - 1], s[|s| - 1])
  {
    if |s| > 1 { LastKept(s[..|s| - 1]); }
  }

  lemma HasMore(s: seq<FaNode>, t: seq<FaNode>, x: FaNode)
    requires Has(s, x)
    ensures Has(s + t, x)
  {
    var j :| 0 <= j < |s| && SameKey(x, s[j]);
    assert SameKey(x, (s + t)[j]);
  }

  /** Every pair of the list is still there. */
  lemma {:induction false} KeepsPairs(s: seq<FaNode>, i: nat)
    requires i < |s|
    ensures Has(Keep(s), s[i])
  {
    var init, last := s[..|s| - 1], s[|s| - 1];
    if i == |s| - 1 {
      LastKept(s);
      assert SameKey(s[i], Keep(s)[|Keep(s)| - 1]);
    } else {
      KeepsPairs(init, i);
      HasMore(Keep(init), [last], s[i]);
    }
  }

  /** No pair is new. */
  lemma {:induction false} KeepsNoMore(s: seq<FaNode>, j: nat)
    requires j < |Keep(s)|
    ensures Keep(s)[j] in s
  {
    var init := s[..|s| - 1];
    if j < |Keep(init)| {
      KeepsNoMore(init, j);
      assert Keep(s)[j] == Keep(init)[j] && Keep(init)[j] in init;
    }
  }

  /** What qsort leaves, given compaddr. */
  ghost predicate Ordered(s: seq<FaNode>) { forall i, j :: 0 <= i < j < |s| ==> Compaddr(s[i], s[j]) <= 0 }

  /** Numbers whose differences fit an int. */
  predicate Small(s: seq<FaNode>) { forall i :: 0 <= i < |s| ==> s[i].net < 0x8000_0000 && s[i].node < 0x8000_0000 }

  ghost predicate Increasing(s: seq<FaNode>) { forall i, j :: 0 <= i < j < |s| ==> Below(s[i], s[j]) }

  lemma InOrder(a: FaNode, b: FaNode)
    requires Small([a, b]) && Compaddr(a, b) <= 0
    ensures SameKey(a, b) || Below(a, b)
  {
    assert [a, b][0] == a && [a, b][1] == b;
    ComparesExactly(a, b);
  }

  /** Of an ordered list a strictly increasing one is kept. */
  lemma {:induction false} KeepIncreases(s: seq<FaNode>)
    requires Ordered(s) && Small(s)
    ensures Increasing(Keep(s))
  {
    if s != [] {
      var init, last := s[..|s| - 1], s[|s| - 1];
      KeepIncreases(init);
      var k := Keep(init);
      if init != [] { LastKept(init); }
      if init != [] && !SameKey(init[|init| - 1], last) {
        InOrder(init[|init| - 1], last);
        forall j | 0 <= j < |k| ensures Below(k[j], last) {
          assert j < |k| - 1 ==> Below(k[j], k[|k| - 1]);
        }
      }
    }
  }

  lemma IncreasingInit(s: seq<FaNode>)
    requires Increasing(s) && s != []
    ensures Increasing(s[..|s| - 1]) && (|s| > 1 ==> !SameKey(s[|s| - 2], s[|s| - 1]))
  {
    if |s| > 1 { assert Below(s[|s| - 2], s[|s| - 1]); }
  }

  lemma LastDiffers(s: seq<FaNode>)
    requires s != [] && (|s| > 1 ==> !SameKey(s[|s| - 2], s[|s| - 1]))
    ensures Keep(s) == Keep(s[..|s| - 1]) + [s[|s| - 1]] && Drop(s) == Drop(s[..|s| - 1])
  {
  }

  lemma InitAndLast<T>(s: seq<T>)
    requires s != []
    ensures s[..|s| - 1] + [s[|s| - 1]] == s
  {
  }

  /** Of a strictly increasing list everything is kept. */
  lemma {:induction false} IncreasingKept(s: seq<FaNode>)
    requires Increasing(s)
    ensures Keep(s) == s && Drop(s) == []
  {
    if s != [] {
      IncreasingInit(s);
      IncreasingKept(s[..|s| - 1]);
      LastDiffers(s);
      InitAndLast(s);
    }
  }

  lemma {:induction false} DistinctCount(s: seq<FaNode>)
    requires Distinct(s)
    ensures forall x :: multiset(s)[x] <= 1
  {
    if s != [] {
      var init, last := s[..|s| - 1], s[|s| - 1];
      DistinctCount(init);
      assert s == init + [last];
      assert last !in init;
    }
  }

  lemma CountedTwice(s: seq<FaNode>, i: nat, j: nat)
    requires i < j < |s| && s[i] == s[j]
    ensures multiset(s)[s[i]] >= 2
  {
    assert s == s[..i] + [s[i]] + s[i + 1..j] + [s[j]] + s[j + 1..];
  }

  lemma DistinctOrTwice(s: seq<FaNode>)
    ensures Distinct(s) || exists x :: multiset(s)[x] >= 2
  {
    if i, j :| 0 <= i < j < |s| && s[i] == s[j] {
      CountedTwice(s, i, j);
    }
  }

  lemma PermutedDistinct(s: seq<FaNode>, t: seq<FaNode>)
    requires Distinct(s) && multiset(s) == multiset(t)
    ensures Distinct(t)
  {
    DistinctCount(s);
    DistinctOrTwice(t);
  }

  // ----- the lists in place

  /** The loops that count the nodes and put them in a vector. */
  method Vector(fap: FaNode, ghost nodes: seq<FaNode>) returns (vector: array<FaNode>)
    requires IsList(fap, nodes)
    ensures fresh(vector) && vector[..] == nodes
  {
    var n, ta: FaNode? := 0, fap;
    while ta != null
      invariant n <= |nodes| && (if n < |nodes| then ta == nodes[n] else ta == null)
      decreases |nodes| - n
    {
      n := n + 1;
      assert n < |nodes| ==> nodes[n - 1].next == nodes[n];
      ta := ta.next;
    }
    vector := new FaNode[n](_ => fap);
    var i := 0;
    ta := fap;
    while ta != null
      invariant i <= n == |nodes| == vector.Length && (if i < n then ta == nodes[i] else ta == null)
      invariant forall k :: 0 <= k < i ==> vector[k] == nodes[k]
      decreases n - i
    {
      vector[i] := ta;
      i := i + 1;
      assert i < n ==> nodes[i - 1].next == nodes[i];
      ta := ta.next;
    }
  }

  /** None of the nodes from i on is in s. */
  ghost predicate Before(s: seq<FaNode>, vector: seq<FaNode>, i: nat)
  {
    forall j, k {:trigger s[j], vector[k]} :: 0 <= j < |s| && i <= k < |vector| ==> s[j] != vector[k]
  }

  /** The inner loop: passes over the nodes with ta's pair and frees them. */
  method SkipEqual(ta: FaNode, vector: seq<FaNode>, i: nat, ghost dropped: seq<FaNode>) returns (next: nat, ghost freed: seq<FaNode>)
    requires 1 <= i <= |vector| && SameKey(ta, vector[i - 1]) && dropped == Drop(vector[..i])
    ensures i <= next <= |vector| && Keep(vector[..next]) == Keep(vector[..i]) && freed == Drop(vector[..next])
    ensures SameKey(ta, vector[next - 1]) && (next < |vector| ==> !SameKey(ta, vector[next]))
  {
    next, freed := i, dropped;
    while next < |vector| && Compaddr(ta, vector[next]) == 0
      invariant i <= next <= |vector| && Keep(vector[..next]) == Keep(vector[..i]) && freed == Drop(vector[..next])
      invariant SameKey(ta, vector[next - 1])
    {
      ComparesExactly(ta, vector[next]);
      KeepStep(vector, next);
      freed := freed + [vector[next]];
      next := next + 1;
    }
    if next < |vector| { ComparesExactly(ta, vector[next]); }
  }

  /** kept is a chain up to ta that starts at head, apart from ta's own link. */
  ghost predicate Kept(head: FaNode, ta: FaNode, kept: seq<FaNode>)
    reads kept
  {
    kept != [] && head == kept[0] && ta == kept[|kept| - 1] && Distinct(kept) && Chained(kept)
  }

  method LinkNext(ta: FaNode, node: FaNode, ghost head: FaNode, ghost kept: seq<FaNode>)
    requires Kept(head, ta, kept) && node !in kept
    modifies ta
    ensures Kept(head, node, kept + [node])
  {
    ta.next := node;
  }

  /** The first i nodes have been kept or freed. */
  ghost predicate Done(vector: seq<FaNode>, i: nat, kept: seq<FaNode>, freed: seq<FaNode>)
  {
    1 <= i <= |vector| && kept == Keep(vector[..i]) && freed == Drop(vector[..i]) && Before(kept, vector, i)
  }

  lemma DoneFirst(vector: seq<FaNode>)
    requires vector != [] && Distinct(vector)
    ensures Done(vector, 1, [vector[0]], [])
  {
    assert vector[..1] == [vector[0]] && vector[..1][..0] == [];
  }

  lemma DoneNext(vector: seq<FaNode>, i: nat, kept: seq<FaNode>, freed: seq<FaNode>)
    requires Distinct(vector) && i < |vector| && Done(vector, i, kept, freed) && !SameKey(vector[i - 1], vector[i])
    ensures Done(vector, i + 1, kept + [vector[i]], freed) && vector[i] !in kept
  {
    KeepStep(vector, i);
  }

  /** Finds the next node to keep and links it in after ta; or ends the list at ta. */
  method RelinkNext(head: FaNode, ta: FaNode, vector: seq<FaNode>, i: nat, ghost kept: seq<FaNode>, ghost dropped: seq<FaNode>)
    returns (next: nat, now: FaNode, ghost keep: seq<FaNode>, ghost freed: seq<FaNode>)
    requires Distinct(vector) && Done(vector, i, kept, dropped) && Kept(head, ta, kept) && SameKey(ta, vector[i - 1])
    modifies ta
    ensures i <= next && Done(vector, next, keep, freed) && Kept(head, now, keep) && SameKey(now, vector[next - 1])
    ensures if now == ta then next == |vector| && ta.next == null else now in vector && i < next
  {
    next, freed := SkipEqual(ta, vector, i, dropped);
    assert Before(kept, vector, next);
    if next < |vector| {
      DoneNext(vector, next, kept, freed);
      now := vector[next];
      LinkNext(ta, now, head, kept);
      keep := kept + [now];
      next := next + 1;
    } else {
      ta.next := null;
      now, keep := ta, kept;
    }
  }

  /** The loop that relinks the sorted vector. */
  method Relink(vector: seq<FaNode>) returns (head: FaNode, ghost kept: seq<FaNode>, ghost freed: seq<FaNode>)
    requires vector != [] && Distinct(vector)
    modifies vector
    ensures kept == Keep(vector) && freed == Drop(vector) && IsList(head, kept)
  {
    head := vector[0];
    var n, i, ta, done := |vector|, 1, head, false;
    kept, freed := [head], [];
    DoneFirst(vector);
    while !done
      invariant Done(vector, i, kept, freed) && Kept(head, ta, kept) && ta in vector && SameKey(ta, vector[i - 1])
      invariant done ==> i == n && ta.next == null
      decreases n - i, if done then 0 else 1
    {
      var now;
      i, now, kept, freed := RelinkNext(head, ta, vector, i, kept, freed);
      done := now == ta;
      ta := now;
    }
    assert vector[..n] == vector;
  }

  /** qsort leaves the nodes in an order that compaddr accepts. */
  ghost predicate Sorts(qsort: seq<FaNode> -> seq<FaNode>, nodes: seq<FaNode>)
  {
    multiset(qsort(nodes)) == multiset(nodes) && Ordered(qsort(nodes))
  }

  /** The same pairs occur in both. */
  ghost predicate SamePairs(s: seq<FaNode>, t: seq<FaNode>)
  {
    (forall i :: 0 <= i < |t| ==> Has(s, t[i])) && forall i :: 0 <= i < |s| ==> s[i] in t
  }

  lemma SortedPairs(nodes: seq<FaNode>, sorted: seq<FaNode>)
    requires multiset(sorted) == multiset(nodes)
    ensures SamePairs(Keep(sorted), nodes)
  {
    forall i | 0 <= i < |nodes| ensures Has(Keep(sorted), nodes[i]) {
      assert nodes[i] in multiset(sorted);
      var k :| 0 <= k < |sorted| && sorted[k] == nodes[i];
      KeepsPairs(sorted, k);
    }
    forall i | 0 <= i < |Keep(sorted)| ensures Keep(sorted)[i] in nodes {
      KeepsNoMore(sorted, i);
      assert Keep(sorted)[i] in multiset(sorted);
    }
  }

  lemma SortedSmall(nodes: seq<FaNode>, sorted: seq<FaNode>)
    requires multiset(sorted) == multiset(nodes) && Small(nodes)
    ensures Small(sorted)
  {
    forall i | 0 <= i < |sorted| ensures sorted[i].net < 0x8000_0000 && sorted[i].node < 0x8000_0000 {
      assert sorted[i] in multiset(nodes);
      var k :| 0 <= k < |nodes| && nodes[k] == sorted[i];
    }
  }

  /** sort_list: the list becomes strictly increasing with the same pairs, and every node is
      either on it or freed, exactly once. */
  method SortList(fap: FaNode?, qsort: seq<FaNode> -> seq<FaNode>, ghost nodes: seq<FaNode>)
    returns (head: FaNode?, ghost kept: seq<FaNode>, ghost freed: seq<FaNode>)
    requires IsList(fap, nodes) && Sorts(qsort, nodes)
    modifies nodes
    ensures IsList(head, kept) && SamePairs(kept, nodes) && multiset(kept) + multiset(freed) == multiset(nodes)
    ensures Small(nodes) ==> Increasing(kept)
  {
    if fap == null {
      return null, [], [];
    }
    var vector := Vector(fap, nodes);
    var sorted := qsort(vector[..]);
    PermutedDistinct(nodes, sorted);
    assert |multiset(sorted)| == |multiset(nodes)|;
    SameNodes(nodes, sorted);
    head, kept, freed := Relink(sorted);
    KeepDrop(sorted);
    SortedPairs(nodes, sorted);
    if Small(nodes) {
      SortedSmall(nodes, sorted);
      KeepIncreases(sorted);
    }
  }

  lemma SameNodes(nodes: seq<FaNode>, sorted: seq<FaNode>)
    requires multiset(sorted) == multiset(nodes)
    ensures forall i :: 0 <= i < |sorted| ==> sorted[i] in nodes
  {
    forall i | 0 <= i < |sorted| ensures sorted[i] in nodes { assert sorted[i] in multiset(nodes); }
  }

  // ----- removing neighbours with the same pair

  /** The nodes from i on are still linked as they were. */
  ghost predicate Rest(nodes: seq<FaNode>, i: nat)
    reads nodes
  {
    && (forall j, k {:trigger nodes[j], nodes[k]} :: i <= j && k == j + 1 && k < |nodes| ==> nodes[j].next == nodes[k])
    && (i < |nodes| ==> nodes[|nodes| - 1].next == null)
  }

  ghost function NodeAt(nodes: seq<FaNode>, i: nat): FaNode? { if i < |nodes| then nodes[i] else null }

  /** Unlinks and frees the nodes after ta with its pair. */
  method UnlinkEqual(ta: FaNode, ghost nodes: seq<FaNode>, ghost i: nat, ghost dropped: seq<FaNode>)
    returns (ghost next: nat, ghost freed: seq<FaNode>)
    requires 1 <= i <= |nodes| && SameKey(ta, nodes[i - 1]) && dropped == Drop(nodes[..i])
    requires Rest(nodes, i) && ta.next == NodeAt(nodes, i) && forall k :: i <= k < |nodes| ==> nodes[k] != ta
    modifies ta
    ensures i <= next <= |nodes| && Keep(nodes[..next]) == Keep(nodes[..i]) && freed == Drop(nodes[..next])
    ensures SameKey(ta, nodes[next - 1]) && (next < |nodes| ==> !SameKey(ta, nodes[next]))
    ensures Rest(nodes, next) && ta.next == NodeAt(nodes, next)
  {
    next, freed := i, dropped;
    while ta.next != null && Compaddr(ta, ta.next) == 0
      invariant i <= next <= |nodes| && Keep(nodes[..next]) == Keep(nodes[..i]) && freed == Drop(nodes[..next])
      invariant SameKey(ta, nodes[next - 1]) && Rest(nodes, next) && ta.next == NodeAt(nodes, next)
      decreases |nodes| - next
    {
      var tan := ta.next;
      ComparesExactly(ta, tan);
      KeepStep(nodes, next);
      assert next + 1 < |nodes| ==> nodes[next].next == nodes[next + 1];
      freed := freed + [nodes[next]];
      next := next + 1;
      ta.next := tan.next;
    }
    if next < |nodes| { ComparesExactly(ta, nodes[next]); }
  }

  /** One round of uniq_list: frees ta's duplicates and moves to the next node, if there is one. */
  method UniqNext(ta: FaNode, ghost head: FaNode, ghost nodes: seq<FaNode>, ghost i: nat,
                  ghost kept: seq<FaNode>, ghost dropped: seq<FaNode>)
    returns (now: FaNode?, ghost next: nat, ghost keep: seq<FaNode>, ghost freed: seq<FaNode>)
    requires Distinct(nodes) && Done(nodes, i, kept, dropped) && Kept(head, ta, kept) && SameKey(ta, nodes[i - 1])
    requires Rest(nodes, i) && ta.next == NodeAt(nodes, i)
    modifies ta
    ensures i <= next && Done(nodes, next, keep, freed)
    ensures now == null ==> next == |nodes| && Kept(head, ta, keep) && ta.next == null
    ensures now != null ==> i < next && Kept(head, now, keep) && SameKey(now, nodes[next - 1]) && now in nodes &&
                            Rest(nodes, next) && now.next == NodeAt(nodes, next)
  {
    assert forall k :: i <= k < |nodes| ==> kept[|kept| - 1] != nodes[k];
    next, freed := UnlinkEqual(ta, nodes, i, dropped);
    assert Before(kept, nodes, next);
    now, keep := ta.next, kept;
    if now != null {
      DoneNext(nodes, next, kept, freed);
      keep := kept + [now];
      assert next + 1 < |nodes| ==> nodes[next].next == nodes[next + 1];
      next := next + 1;
    }
  }

  /** uniq_list: of neighbours with the same pair the first stays. */
  method UniqList(fap: FaNode?, ghost nodes: seq<FaNode>) returns (ghost kept: seq<FaNode>, ghost freed: seq<FaNode>)
    requires IsList(fap, nodes)
    modifies nodes
    ensures IsList(fap, kept) && kept == Keep(nodes) && freed == Drop(nodes)
  {
    if fap == null {
      return [], [];
    }
    ghost var head: FaNode, last: FaNode, i := fap, fap, 1;
    var ta: FaNode? := fap;
    kept, freed := [head], [];
    DoneFirst(nodes);
    assert |nodes| > 1 ==> nodes[0].next == nodes[1];
    while ta != null
      invariant Done(nodes, i, kept, freed) && Kept(head, last, kept)
      invariant ta != null ==> ta == last && ta in nodes && SameKey(ta, nodes[i - 1]) && Rest(nodes, i) && ta.next == NodeAt(nodes, i)
      invariant ta == null ==> i == |nodes| && last.next == null
      decreases |nodes| - i, if ta == null then 0 else 1
    {
      last := ta;
      ta, i, kept, freed := UniqNext(ta, head, nodes, i, kept, freed);
      last := if ta == null then last else ta;
    }
    assert nodes[..|nodes|] == nodes;
  }

  /** sort_list and then uniq_list: the second frees nothing. */
  method SortThenUniq(fap: FaNode?, qsort: seq<FaNode> -> seq<FaNode>, ghost nodes: seq<FaNode>)
    returns (head: FaNode?, ghost kept: seq<FaNode>, ghost freed: seq<FaNode>)
    requires IsList(fap, nodes) && Sorts(qsort, nodes) && Small(nodes)
    modifies nodes
    ensures IsList(head, kept) && Increasing(kept) && SamePairs(kept, nodes) && freed == []
  {
    ghost var sorted, dropped;
    head, sorted, dropped := SortList(fap, qsort, nodes);
    IncreasingKept(sorted);
    kept, freed := UniqList(head, sorted);
  }
}
