/**
 * The MeMS registry as example.c keeps it on the heap: the arena node main_chain_head,
 * and the doubly linked sub-chain of segment nodes hanging from it. The Allocator class
 * plays the role of the global state. Its ghost fields give the sub-chain as a sequence
 * of nodes (`nodes`) and the registry's value (`segs`, a Registry.Chain), and every
 * method is proved against the specification functions of module Registry.
 *
 * Only mems_init creates an arena node, so the main chain always has exactly one node;
 * Valid() records that, and the walks over the main chain in mems_free and
 * mems_print_stats are kept as the loops they are.
 *
 * The host's mmap is a supply of addresses passed in as parameters: a mapping that
 * succeeds is page aligned and does not overlap a live one.
 */
module Mems {
  import opened Registry

  /** struct SubChainNode: a segment (size, type) with its sub-chain links; `addr` is where it is mapped. */
  class SubChainNode {
    const addr: nat
    var size: nat
    var kind: SegType
    var prev: SubChainNode?
    var next: SubChainNode?

    /** The node as mems_malloc fills it in: the rounded size, type 1, no neighbours. */
    constructor (addr: nat, size: nat)
      ensures this.addr == addr && this.size == size && kind == Process
      ensures prev == null && next == null
    {
      this.addr := addr;
      this.size := size;
      kind := Process;
      prev := null;
      next := null;
    }
  }

  /** struct MainChainNode: an arena, owning the head of a sub-chain, with its main-chain links. */
  class MainChainNode {
    var subChain: SubChainNode?
    var prev: MainChainNode?
    var next: MainChainNode?

    /** The node as mems_init fills it in: no sub-chain, no neighbours. */
    constructor ()
      ensures subChain == null && prev == null && next == null
    {
      subChain := null;
      prev := null;
      next := null;
    }
  }

  class Allocator {
    /** main_chain_head */
    var head: MainChainNode

    /** The sub-chain of the head arena, in order. */
    ghost var nodes: seq<SubChainNode>
    /** The registry's value: what each node records. */
    ghost var segs: Chain
    ghost var Repr: set<SubChainNode>

    /** The head arena is the whole main chain, and its sub-chain is a doubly linked list of distinct nodes. */
    ghost predicate Linked()
      reads this`head, this`nodes, this`Repr, head, Repr`prev, Repr`next
    {
      head.prev == null && head.next == null &&
      head.subChain == (if nodes == [] then null else nodes[0]) &&
      (forall j | 0 <= j < |nodes| :: nodes[j] in Repr) &&
      (forall j {:trigger nodes[j].prev} | 0 <= j < |nodes| :: nodes[j].prev == (if j == 0 then null else nodes[j - 1])) &&
      (forall j | 0 <= j < |nodes| :: nodes[j].next == (if j + 1 < |nodes| then nodes[j + 1] else null)) &&
      (forall j, k | 0 <= j < k < |nodes| :: nodes[j] != nodes[k])
    }

    /** The nodes record exactly what segs says. */
    ghost predicate Abstracts()
      reads this, Repr
    {
      |segs| == 1 && |segs[0]| == |nodes| &&
      (forall j | 0 <= j < |nodes| :: nodes[j] in Repr) &&
      (forall j | 0 <= j < |nodes| ::
         nodes[j].addr == segs[0][j].addr && nodes[j].size == segs[0][j].size && nodes[j].kind == segs[0][j].kind)
    }

    ghost predicate Valid()
      reads this, head, Repr
    {
      Linked() && Abstracts() && WellFormed(segs)
    }

    /** The links of every node of the sub-chain, spelled out. */
    lemma Links()
      requires Linked()
      ensures forall j {:trigger nodes[j].prev} | 0 <= j < |nodes| :: nodes[j].prev == (if j == 0 then null else nodes[j - 1])
      ensures forall j | 0 <= j < |nodes| :: nodes[j].next == (if j + 1 < |nodes| then nodes[j + 1] else null)
    {
    }

    /** The successor of the j-th node of the sub-chain. */
    lemma NextOf(j: nat)
      requires Linked() && j < |nodes|
      ensures nodes[j].next == (if j + 1 < |nodes| then nodes[j + 1] else null)
    {
    }

    /** mems_init: one arena with no neighbours and an empty sub-chain. */
    constructor Init()
      ensures Valid() && fresh(head) && Repr == {}
      ensures segs == [[]] && nodes == []
    {
      head := new MainChainNode();
      nodes := [];
      segs := [[]];
      Repr := {};
    }

    /**
     * mems_malloc(size): round the size up to whole pages, map a payload of that size at
     * payloadAddr and a node at nodeAddr, append the node to the tail of the head arena's
     * sub-chain, and return the payload address. A request of 0 bytes rounds to a mapping
     * of length 0, which mmap refuses, so the program exits before recording anything;
     * hence size > 0.
     */
    method Malloc(size: nat, payloadAddr: nat, nodeAddr: nat) returns (ptr: nat)
      requires Valid()
      requires size > 0
      requires payloadAddr % PAGE_SIZE == 0 && nodeAddr % PAGE_SIZE == 0
      requires PayloadUnused(segs, payloadAddr)
      modifies this, head`subChain, Repr`prev, Repr`next
      ensures Valid()
      ensures ptr == payloadAddr
      ensures segs == AppendSegment(old(segs), Segment(nodeAddr, payloadAddr, RoundUp(size), Process))
      ensures head == old(head) && |nodes| == |old(nodes)| + 1 && nodes[..|old(nodes)|] == old(nodes)
      ensures fresh(nodes[|old(nodes)|]) && Repr == old(Repr) + {nodes[|old(nodes)|]}
    {
      var required := RoundUp(size);
      ptr := payloadAddr;
      ghost var g := Segment(nodeAddr, payloadAddr, required, Process);
      AppendKeepsWellFormed(segs, g);
      var node := new SubChainNode(nodeAddr, required);
      LinkAtTail(node);
      segs := AppendSegment(segs, g);
      assert nodes[..|old(nodes)|] == old(nodes);
    }

    /** The tail of the sub-chain, found by following next pointers from its head as mems_malloc does. */
    method Tail() returns (last: SubChainNode)
      requires Linked() && nodes != []
      ensures last == nodes[|nodes| - 1]
    {
      last := head.subChain;
      ghost var j := 0;
      while last.next != null
        invariant 0 <= j < |nodes| && last == nodes[j]
        decreases |nodes| - j
      {
        NextOf(j);
        last := last.next;
        j := j + 1;
      }
      NextOf(j);
    }

    /** The linking step of mems_malloc: `node` becomes the head of an empty sub-chain or follows its tail. */
    method LinkAtTail(node: SubChainNode)
      requires Linked() && node !in Repr && node.prev == null && node.next == null
      modifies this`nodes, this`Repr, head`subChain, Repr`next, node`prev
      ensures Linked()
      ensures nodes == old(nodes) + [node] && Repr == old(Repr) + {node}
    {
      Links();
      ghost var n := |nodes|;
      if head.subChain == null {
        head.subChain := node;
      } else {
        var last := Tail();
        last.next := node;
        node.prev := last;
      }
      assert node.prev == (if n == 0 then null else old(nodes)[n - 1]);
      nodes := nodes + [node];
      Repr := Repr + {node};
      forall j | 0 <= j < |nodes|
        ensures nodes[j].prev == (if j == 0 then null else nodes[j - 1])
      {
        if j < n {
          assert nodes[j] == old(nodes)[j] && nodes[j] != node;
          assert nodes[j].prev == old(nodes[j].prev);
          assert old(Linked());
          assert old(nodes[j].prev) == (if j == 0 then null else old(nodes)[j - 1]);
          assert j > 0 ==> nodes[j - 1] == old(nodes)[j - 1];
        } else {
          assert nodes[j] == node;
          assert j > 0 ==> nodes[j - 1] == old(nodes)[n - 1];
        }
      }
      forall j | 0 <= j < |nodes|
        ensures nodes[j].next == (if j + 1 < |nodes| then nodes[j + 1] else null)
      {
        if j < n - 1 {
          assert nodes[j] == old(nodes)[j] && nodes[j] != node && nodes[j] != old(nodes)[n - 1];
          assert old(Linked());
        }
      }
    }

    /**
     * mems_free(p): in every arena, mark as a hole the first node whose address plus
     * SUB_NODE_SIZE is p. The `break` leaves only the walk of one sub-chain.
     */
    method Free(p: nat)
      requires Valid()
      modifies this, Repr`kind
      ensures Valid()
      ensures segs == FreeSpec(old(segs), p)
      ensures head == old(head) && nodes == old(nodes) && Repr == old(Repr)
    {
      ghost var target: Chain := FreeSpec(segs, p);
      FreeKeepsWellFormed(segs, p);
      var current: MainChainNode? := head;
      ghost var i := 0;
      while current != null
        modifies Repr`kind
        invariant Linked() && |segs[0]| == |nodes|
        invariant 0 <= i <= 1 && current == (if i == 0 then head else null)
        invariant forall j | 0 <= j < |nodes| :: nodes[j].addr == segs[0][j].addr && nodes[j].size == segs[0][j].size
        invariant forall j | 0 <= j < |nodes| :: nodes[j].kind == (if i == 0 then segs[0] else target[0])[j].kind
        decreases 1 - i
      {
        FreeInSubChain(current.subChain, p);
        current := current.next;
        i := i + 1;
      }
      segs := target;
    }

    /**
     * The inner loop of mems_free: walk the sub-chain from `first`, mark the first node
     * whose address plus SUB_NODE_SIZE is p as a hole, and stop there.
     */
    method FreeInSubChain(first: SubChainNode?, p: nat)
      requires Linked() && Abstracts() && first == head.subChain
      modifies Repr`kind
      ensures forall j | 0 <= j < |nodes| :: nodes[j].kind == FreeArena(segs[0], p)[j].kind
    {
      var sub := first;
      ghost var j := 0;
      ghost var m := FirstMatch(NodeKeys(segs[0]), p);
      while sub != null
        invariant Linked()
        invariant 0 <= j <= m && sub == (if j < |nodes| then nodes[j] else null)
        invariant forall k | 0 <= k < |nodes| :: nodes[k].kind == segs[0][k].kind
        decreases |nodes| - j
      {
        if p == sub.addr + SUB_NODE_SIZE {
          assert NodeKeys(segs[0])[j] == p;
          sub.kind := Hole;
          break;
        }
        NextOf(j);
        sub := sub.next;
        j := j + 1;
      }
    }

    /**
     * The counting part of mems_print_stats: page, hole and used totals over every node,
     * the main-chain length, and each arena's sub-chain length, in the source's three
     * passes over the main chain. Nothing is written.
     */
    method CollectStats() returns (st: Stats)
      requires Valid()
      ensures st == StatsOf(segs)
    {
      var t := CountTotals();
      var mainLength := CountArenas();
      var lengths := CountSubChains();
      st := Stats(t.pages, t.hole, t.used, mainLength, lengths);
    }

    /** The first pass of mems_print_stats: the page, hole and used totals over every node. */
    method CountTotals() returns (t: Totals)
      requires Valid()
      ensures Valid() && t == ChainTotals(segs)
    {
      var totalPages: nat, totalUsed: nat, totalHole: nat := 0, 0, 0;
      var current: MainChainNode? := head;
      ghost var i := 0;
      while current != null
        invariant 0 <= i <= 1 && current == (if i == 0 then head else null)
        invariant Totals(totalPages, totalHole, totalUsed) == if i == 0 then Totals(0, 0, 0) else ArenaTotals(segs[0])
        decreases 1 - i
      {
        totalPages, totalHole, totalUsed := AddSubChainTotals(current.subChain, totalPages, totalHole, totalUsed);
        current := current.next;
        i := i + 1;
      }
      SingleArenaStats(segs[0]);
      assert [segs[0]] == segs;
      t := Totals(totalPages, totalHole, totalUsed);
    }

    /** The inner loop of the first pass: add every node of the sub-chain from `first` to the running totals. */
    method AddSubChainTotals(first: SubChainNode?, pages: nat, hole: nat, used: nat)
      returns (pages': nat, hole': nat, used': nat)
      requires Linked() && Abstracts() && first == head.subChain
      ensures Totals(pages', hole', used') == Totals(pages, hole, used).Plus(ArenaTotals(segs[0]))
    {
      pages', hole', used' := pages, hole, used;
      var sub := first;
      ghost var j := 0;
      while sub != null
        invariant 0 <= j <= |nodes| && sub == (if j < |nodes| then nodes[j] else null)
        invariant Totals(pages', hole', used') == Totals(pages, hole, used).Plus(ArenaTotals(segs[0][..j]))
        decreases |nodes| - j
      {
        NextOf(j);
        ArenaTotalsStep(segs[0], j);
        assert SegmentTotals(segs[0][j]) ==
          Totals(sub.size / PAGE_SIZE, if sub.kind == Hole then sub.size else 0, if sub.kind == Process then sub.size else 0);
        pages' := pages' + sub.size / PAGE_SIZE;
        hole' := hole' + (if sub.kind == Hole then sub.size else 0);
        used' := used' + (if sub.kind == Process then sub.size else 0);
        sub := sub.next;
        j := j + 1;
      }
      assert segs[0][..j] == segs[0];
    }

    /** The second pass of mems_print_stats: the length of the main chain. */
    method CountArenas() returns (mainLength: nat)
      requires Valid()
      ensures Valid() && mainLength == |segs|
    {
      mainLength := 0;
      var mc: MainChainNode? := head;
      while mc != null
        invariant 0 <= mainLength <= 1 && mc == (if mainLength == 0 then head else null)
        decreases 1 - mainLength
      {
        mainLength := mainLength + 1;
        mc := mc.next;
      }
    }

    /** The third pass of mems_print_stats: the length of each arena's sub-chain. */
    method CountSubChains() returns (lengths: seq<nat>)
      requires Valid()
      ensures lengths == SubLengths(segs)
    {
      lengths := [];
      var current: MainChainNode? := head;
      ghost var i := 0;
      while current != null
        invariant 0 <= i <= 1 && current == (if i == 0 then head else null)
        invariant lengths == if i == 0 then [] else [|segs[0]|]
        decreases 1 - i
      {
        var subLength := 0;
        var sub := current.subChain;
        while sub != null
          invariant 0 <= subLength <= |nodes| && sub == (if subLength < |nodes| then nodes[subLength] else null)
          decreases |nodes| - subLength
        {
          NextOf(subLength);
          subLength := subLength + 1;
          sub := sub.next;
        }
        lengths := lengths + [subLength];
        current := current.next;
        i := i + 1;
      }
    }
  }
}
