/**
 * The MeMS registry as a value: the main chain is a sequence of arenas, each arena the
 * sequence of its sub-chain's segment nodes in list order. This module holds the
 * page-size rounding of mems_malloc and the specification functions against which the
 * pointer-walking methods of module Mems are proved: what mems_malloc appends, what
 * mems_free flips, and what mems_print_stats counts.
 */
module Registry {

  /** PAGE_SIZE of the allocator: every mapping is a whole number of these. */
  const PAGE_SIZE: nat := 4096

  /**
   * sizeof(struct SubChainNode) on an LP64 target: an 8-byte size_t, a 4-byte int and
   * 4 bytes of padding, then two 8-byte pointers. mems_free compares its argument with
   * a node's address plus this amount.
   */
  const SUB_NODE_SIZE: nat := 32

  /** The segment's `type` field: 0 marks a hole, 1 a segment in use by the process. */
  datatype SegType = Hole | Process

  /**
   * One sub-chain node as a value. `addr` is the address of the node's own mapping,
   * `size` and `kind` are its segment fields. `payload` is the address mems_malloc
   * returned for this node; the C node never stores it, so it is provenance that lets
   * the intended behaviour of mems_free be stated, and no operation that models the
   * code as written reads it.
   */
  datatype Segment = Segment(addr: nat, payload: nat, size: nat, kind: SegType)

  /** One arena: its sub-chain, head first. */
  type Arena = seq<Segment>

  /** The main chain: its arenas, head first. */
  type Chain = seq<Arena>

  // ---------------------------------------------------------------------------
  // Page-size rounding (mems_malloc)
  // ---------------------------------------------------------------------------

  /** The size mems_malloc maps and records for a request of `size` bytes. */
  function RoundUp(size: nat): (r: nat)
    ensures r % PAGE_SIZE == 0
    ensures size <= r < size + PAGE_SIZE
  {
    var required := (size / PAGE_SIZE) * PAGE_SIZE;
    if size % PAGE_SIZE != 0 then required + PAGE_SIZE else required
  }

  /** An already aligned size (0 included) is left as it is. */
  lemma RoundUpKeepsAligned(size: nat)
    requires size % PAGE_SIZE == 0
    ensures RoundUp(size) == size
  {
  }

  /** Rounding twice is rounding once. */
  lemma RoundUpIdempotent(size: nat)
    ensures RoundUp(RoundUp(size)) == RoundUp(size)
  {
    RoundUpKeepsAligned(RoundUp(size));
  }

  /** RoundUp gives the least multiple of PAGE_SIZE that holds `size` bytes. */
  lemma RoundUpIsLeast(size: nat, k: nat)
    requires size <= k * PAGE_SIZE
    ensures RoundUp(size) <= k * PAGE_SIZE
  {
    var r := RoundUp(size);
    var q := r / PAGE_SIZE;
    assert r == q * PAGE_SIZE;
  }

  // ---------------------------------------------------------------------------
  // Appending a segment (mems_malloc)
  // ---------------------------------------------------------------------------

  /**
   * The chain after mems_malloc links `g` at the tail of the head arena's sub-chain: `g`
   * is the new last node of the head arena, and every earlier node and every other arena
   * is as it was.
   */
  function AppendSegment(reg: Chain, g: Segment): (r: Chain)
    requires |reg| > 0
    ensures |r| == |reg| && |r[0]| == |reg[0]| + 1 && r[0][|reg[0]|] == g
    ensures forall j | 0 <= j < |reg[0]| :: r[0][j] == reg[0][j]
    ensures forall i | 1 <= i < |reg| :: r[i] == reg[i]
  {
    reg[0 := reg[0] + [g]]
  }

  /** The chain after mems_malloc has appended each of `gs` in turn. */
  function AppendAll(reg: Chain, gs: seq<Segment>): Chain
    requires |reg| > 0
    decreases |gs|
  {
    if gs == [] then reg else AppendAll(AppendSegment(reg, gs[0]), gs[1..])
  }

  /** Appending one segment after another to a one-arena chain leaves that arena holding them in call order. */
  lemma {:induction false} AppendAllInOrder(s: Arena, gs: seq<Segment>)
    ensures AppendAll([s], gs) == [s + gs]
    decreases |gs|
  {
    if gs != [] {
      assert AppendSegment([s], gs[0]) == [s + [gs[0]]];
      assert AppendAll([s], gs) == AppendAll([s + [gs[0]]], gs[1..]);
      AppendAllInOrder(s + [gs[0]], gs[1..]);
      assert gs == [gs[0]] + gs[1..];
      assert s + [gs[0]] + gs[1..] == s + gs;
    } else {
      assert s + gs == s;
    }
  }

  // ---------------------------------------------------------------------------
  // Marking a hole (mems_free)
  // ---------------------------------------------------------------------------

  /** The index of the first key equal to `p`, or |keys| when there is none. */
  function FirstMatch(keys: seq<nat>, p: nat): (m: nat)
    ensures m <= |keys|
    ensures forall k | 0 <= k < m :: keys[k] != p
    ensures m < |keys| ==> keys[m] == p
  {
    if keys == [] || keys[0] == p then 0 else 1 + FirstMatch(keys[1..], p)
  }

  /** The value mems_free compares its argument with, node by node: node address plus SUB_NODE_SIZE. */
  function NodeKeys(s: Arena): seq<nat>
  {
    seq(|s|, j requires 0 <= j < |s| => s[j].addr + SUB_NODE_SIZE)
  }

  /** The payload addresses mems_malloc returned for the nodes of `s`. */
  function PayloadKeys(s: Arena): seq<nat>
  {
    seq(|s|, j requires 0 <= j < |s| => s[j].payload)
  }

  /**
   * `s` with its first node whose key is `p` marked as a hole: a node changes only if its
   * key is `p` and no earlier key is, and then only its type, to Hole.
   */
  function MarkFirst(s: Arena, keys: seq<nat>, p: nat): (r: Arena)
    requires |keys| == |s|
    ensures |r| == |s|
    ensures forall j | 0 <= j < |s| ::
      r[j] == s[j] || (r[j] == s[j].(kind := Hole) && keys[j] == p && forall k | 0 <= k < j :: keys[k] != p)
  {
    var m := FirstMatch(keys, p);
    if m < |s| then s[m := s[m].(kind := Hole)] else s
  }

  /** One arena after the inner loop of mems_free: the first node whose address plus SUB_NODE_SIZE is `p`. */
  function FreeArena(s: Arena, p: nat): Arena
  {
    MarkFirst(s, NodeKeys(s), p)
  }

  /**
   * The chain after mems_free(p) as written: the `break` leaves only the inner loop,
   * so every arena has its own first match marked. No arena or node is added, removed or
   * moved, a node changes at most its type and only to Hole, and at most one node of
   * each arena changes.
   */
  function FreeSpec(reg: Chain, p: nat): (r: Chain)
    ensures |r| == |reg|
    ensures forall i | 0 <= i < |reg| :: |r[i]| == |reg[i]|
    ensures forall i, j | 0 <= i < |reg| && 0 <= j < |reg[i]| :: r[i][j] == reg[i][j] || r[i][j] == reg[i][j].(kind := Hole)
    ensures forall i, j, k | 0 <= i < |reg| && 0 <= j < k < |reg[i]| :: r[i][j] == reg[i][j] || r[i][k] == reg[i][k]
  {
    seq(|reg|, i requires 0 <= i < |reg| => FreeArena(reg[i], p))
  }

  /**
   * mems_free changes no size, address, length or order, and marks a node as a hole exactly
   * when its address plus SUB_NODE_SIZE is `p` and no earlier node of the same arena has
   * that key; every other node keeps its type, so a hole stays a hole.
   */
  lemma FreeMarksFirstMatchOnly(reg: Chain, p: nat, i: nat, j: nat)
    requires i < |reg| && j < |reg[i]|
    ensures |FreeSpec(reg, p)| == |reg| && |FreeSpec(reg, p)[i]| == |reg[i]|
    ensures FreeSpec(reg, p)[i][j].addr == reg[i][j].addr
    ensures FreeSpec(reg, p)[i][j].payload == reg[i][j].payload
    ensures FreeSpec(reg, p)[i][j].size == reg[i][j].size
    ensures FreeSpec(reg, p)[i][j].kind ==
              if reg[i][j].addr + SUB_NODE_SIZE == p &&
                 forall k | 0 <= k < j :: reg[i][k].addr + SUB_NODE_SIZE != p
              then Hole
              else reg[i][j].kind
  {
    var keys := NodeKeys(reg[i]);
    var m := FirstMatch(keys, p);
    assert keys[j] == reg[i][j].addr + SUB_NODE_SIZE;
    if reg[i][j].addr + SUB_NODE_SIZE == p && forall k | 0 <= k < j :: reg[i][k].addr + SUB_NODE_SIZE != p {
      assert forall k | 0 <= k < j :: keys[k] != p;
      assert m == j;
    } else if reg[i][j].addr + SUB_NODE_SIZE == p {
      var k :| 0 <= k < j && reg[i][k].addr + SUB_NODE_SIZE == p;
      assert keys[k] == p;
      assert m != j;
    } else {
      assert m != j;
    }
  }

  /** Freeing the same pointer a second time changes nothing. */
  lemma FreeIdempotent(reg: Chain, p: nat)
    ensures FreeSpec(FreeSpec(reg, p), p) == FreeSpec(reg, p)
  {
    var once := FreeSpec(reg, p);
    forall i | 0 <= i < |reg|
      ensures FreeArena(once[i], p) == once[i]
    {
      assert NodeKeys(once[i]) == NodeKeys(reg[i]);
    }
  }

  /** A pointer that is no node's address plus SUB_NODE_SIZE leaves the chain as it was. */
  lemma FreeWithoutMatch(reg: Chain, p: nat)
    requires forall i, j | 0 <= i < |reg| && 0 <= j < |reg[i]| :: reg[i][j].addr + SUB_NODE_SIZE != p
    ensures FreeSpec(reg, p) == reg
  {
    forall i | 0 <= i < |reg|
      ensures FreeArena(reg[i], p) == reg[i]
    {
      var keys := NodeKeys(reg[i]);
      var m := FirstMatch(keys, p);
      if m < |reg[i]| {
        assert false;
      }
    }
  }

  /** mmap hands out page-aligned addresses: every node address is a multiple of PAGE_SIZE. */
  predicate AddressesAligned(reg: Chain)
  {
    forall i, j | 0 <= i < |reg| && 0 <= j < |reg[i]| :: reg[i][j].addr % PAGE_SIZE == 0 && reg[i][j].payload % PAGE_SIZE == 0
  }

  /**
   * Since SUB_NODE_SIZE is not a multiple of PAGE_SIZE, a page-aligned node address plus
   * SUB_NODE_SIZE is never page aligned, so mems_free as written never matches a
   * page-aligned pointer, and every pointer mems_malloc returns is one.
   */
  lemma FreeOfAlignedPointerIsNoOp(reg: Chain, p: nat)
    requires AddressesAligned(reg)
    requires p % PAGE_SIZE == 0
    ensures FreeSpec(reg, p) == reg
  {
    forall i, j | 0 <= i < |reg| && 0 <= j < |reg[i]|
      ensures reg[i][j].addr + SUB_NODE_SIZE != p
    {
      assert reg[i][j].addr % PAGE_SIZE == 0;
    }
    FreeWithoutMatch(reg, p);
  }

  /** No two nodes of the chain were handed the same payload address. */
  predicate DistinctPayloads(reg: Chain)
  {
    forall i, j, i2, j2 |
      0 <= i < |reg| && 0 <= j < |reg[i]| && 0 <= i2 < |reg| && 0 <= j2 < |reg[i2]| && (i != i2 || j != j2) ::
      reg[i][j].payload != reg[i2][j2].payload
  }

  /**
   * The chain after the evidently intended free(h): in each arena the first node whose
   * payload is `h` becomes a hole. As with FreeSpec, only types change, only to Hole, and
   * at most one node per arena.
   */
  function FreeByPayload(reg: Chain, h: nat): (r: Chain)
    ensures |r| == |reg|
    ensures forall i | 0 <= i < |reg| :: |r[i]| == |reg[i]|
    ensures forall i, j | 0 <= i < |reg| && 0 <= j < |reg[i]| :: r[i][j] == reg[i][j] || r[i][j] == reg[i][j].(kind := Hole)
    ensures forall i, j, k | 0 <= i < |reg| && 0 <= j < k < |reg[i]| :: r[i][j] == reg[i][j] || r[i][k] == reg[i][k]
  {
    seq(|reg|, i requires 0 <= i < |reg| => MarkFirst(reg[i], PayloadKeys(reg[i]), h))
  }

  /** Freeing the handle mems_malloc returned for node (i, j) marks that node, and only it, as a hole. */
  lemma FreeByPayloadMarksSegment(reg: Chain, i: nat, j: nat)
    requires DistinctPayloads(reg)
    requires i < |reg| && j < |reg[i]|
    ensures FreeByPayload(reg, reg[i][j].payload) == reg[i := reg[i][j := reg[i][j].(kind := Hole)]]
  {
    var h := reg[i][j].payload;
    var r := FreeByPayload(reg, h);
    forall i2 | 0 <= i2 < |reg|
      ensures r[i2] == reg[i := reg[i][j := reg[i][j].(kind := Hole)]][i2]
    {
      var keys := PayloadKeys(reg[i2]);
      var m := FirstMatch(keys, h);
      if i2 == i {
        assert keys[j] == h;
        if m < j {
          assert false;
        }
        assert m == j;
      } else if m < |reg[i2]| {
        assert false;
      }
    }
  }

  // ---------------------------------------------------------------------------
  // Statistics (mems_print_stats)
  // ---------------------------------------------------------------------------

  /** The three running totals of mems_print_stats. */
  datatype Totals = Totals(pages: nat, hole: nat, used: nat) {
    function Plus(o: Totals): Totals
    {
      Totals(pages + o.pages, hole + o.hole, used + o.used)
    }
  }

  /** What one node adds to the totals: its pages whatever its type, its bytes to hole or used by type. */
  function SegmentTotals(g: Segment): Totals
  {
    Totals(g.size / PAGE_SIZE, if g.kind == Hole then g.size else 0, if g.kind == Process then g.size else 0)
  }

  /** The totals over one sub-chain. */
  function ArenaTotals(s: Arena): Totals
  {
    if s == [] then Totals(0, 0, 0) else ArenaTotals(s[..|s| - 1]).Plus(SegmentTotals(s[|s| - 1]))
  }

  /** The totals over the whole main chain. */
  function ChainTotals(reg: Chain): Totals
  {
    if reg == [] then Totals(0, 0, 0) else ChainTotals(reg[..|reg| - 1]).Plus(ArenaTotals(reg[|reg| - 1]))
  }

  /** The sub-chain lengths, appended arena by arena as the third pass does: one entry per arena, in order. */
  function SubLengths(reg: Chain): (r: seq<nat>)
    ensures |r| == |reg|
    ensures forall i | 0 <= i < |reg| :: r[i] == |reg[i]|
  {
    if reg == [] then [] else SubLengths(reg[..|reg| - 1]) + [|reg[|reg| - 1]|]
  }

  lemma SubLengthsUpdate(reg: Chain, i: nat, a: Arena)
    requires i < |reg|
    ensures SubLengths(reg[i := a]) == SubLengths(reg)[i := |a|]
  {
  }

  lemma SubLengthsSameLength(reg: Chain, i: nat, a: Arena)
    requires i < |reg| && |a| == |reg[i]|
    ensures SubLengths(reg[i := a]) == SubLengths(reg)
  {
    assert forall k | 0 <= k < |reg| :: reg[i := a][k] == reg[k] || k == i;
  }

  /**
   * What mems_print_stats computes. It prints all of it except `usedBytes`, which it
   * accumulates but never prints.
   */
  datatype Stats = Stats(totalPages: nat, holeBytes: nat, usedBytes: nat, mainLength: nat, subLengths: seq<nat>)

  /** The statistics of a chain. */
  function StatsOf(reg: Chain): Stats
  {
    var t := ChainTotals(reg);
    Stats(t.pages, t.hole, t.used, |reg|, SubLengths(reg))
  }

  /**
   * One node adds its size to exactly one of hole bytes and used bytes, by type, and its
   * whole pages, rounded down, to the page count.
   */
  lemma SegmentTotalsSplit(g: Segment)
    ensures SegmentTotals(g).hole + SegmentTotals(g).used == g.size
    ensures SegmentTotals(g).hole == 0 || SegmentTotals(g).used == 0
    ensures SegmentTotals(g).pages * PAGE_SIZE <= g.size < (SegmentTotals(g).pages + 1) * PAGE_SIZE
  {
  }

  /**
   * Over a sub-chain, the pages counted cover at most the hole and used bytes together,
   * and fall short of them by less than a page per node.
   */
  lemma {:induction false} ArenaTotalsBounds(s: Arena)
    ensures ArenaTotals(s).pages * PAGE_SIZE <= ArenaTotals(s).hole + ArenaTotals(s).used
    ensures ArenaTotals(s).hole + ArenaTotals(s).used <= ArenaTotals(s).pages * PAGE_SIZE + |s| * (PAGE_SIZE - 1)
  {
    if s != [] {
      ArenaTotalsBounds(s[..|s| - 1]);
      SegmentTotalsSplit(s[|s| - 1]);
    }
  }

  /** Over the whole chain, the pages counted never cover more than the hole and used bytes together. */
  lemma {:induction false} StatsBounds(reg: Chain)
    ensures StatsOf(reg).totalPages * PAGE_SIZE <= StatsOf(reg).holeBytes + StatsOf(reg).usedBytes
    ensures StatsOf(reg).mainLength == |StatsOf(reg).subLengths|
  {
    if reg != [] {
      StatsBounds(reg[..|reg| - 1]);
      ArenaTotalsBounds(reg[|reg| - 1]);
    }
  }

  /** A sub-chain in which every node is in use counts no hole bytes. */
  lemma {:induction false} NoHoleNoHoleBytes(s: Arena)
    requires forall j | 0 <= j < |s| :: s[j].kind == Process
    ensures ArenaTotals(s).hole == 0
  {
    if s != [] {
      NoHoleNoHoleBytes(s[..|s| - 1]);
    }
  }

  /** Counting one more node of a sub-chain adds that node's contribution. */
  lemma ArenaTotalsStep(s: Arena, j: nat)
    requires j < |s|
    ensures ArenaTotals(s[..j + 1]) == ArenaTotals(s[..j]).Plus(SegmentTotals(s[j]))
  {
    assert s[..j + 1][..j] == s[..j];
  }

  /** Every recorded size is a whole number of pages. */
  predicate SizesAligned(reg: Chain)
  {
    forall i, j | 0 <= i < |reg| && 0 <= j < |reg[i]| :: reg[i][j].size % PAGE_SIZE == 0
  }

  lemma {:induction false} ArenaTotalsAligned(s: Arena)
    requires forall j | 0 <= j < |s| :: s[j].size % PAGE_SIZE == 0
    ensures ArenaTotals(s).hole + ArenaTotals(s).used == ArenaTotals(s).pages * PAGE_SIZE
  {
    if s != [] {
      ArenaTotalsAligned(s[..|s| - 1]);
    }
  }

  /** With page-aligned sizes, hole bytes plus used bytes is exactly the pages counted times PAGE_SIZE. */
  lemma {:induction false} StatsAligned(reg: Chain)
    requires SizesAligned(reg)
    ensures StatsOf(reg).holeBytes + StatsOf(reg).usedBytes == StatsOf(reg).totalPages * PAGE_SIZE
  {
    if reg != [] {
      var n := |reg| - 1;
      assert SizesAligned(reg[..n]);
      StatsAligned(reg[..n]);
      ArenaTotalsAligned(reg[n]);
    }
  }

  lemma {:induction false} ArenaTotalsConcat(s: Arena, t: Arena)
    ensures ArenaTotals(s + t) == ArenaTotals(s).Plus(ArenaTotals(t))
    decreases |t|
  {
    if t == [] {
      assert s + t == s;
    } else {
      var n := |t| - 1;
      assert (s + t)[..|s + t| - 1] == s + t[..n];
      ArenaTotalsConcat(s, t[..n]);
      assert (s + t)[|s + t| - 1] == t[n];
      assert ArenaTotals(s + t) == ArenaTotals(s + t[..n]).Plus(SegmentTotals(t[n]));
      assert ArenaTotals(t) == ArenaTotals(t[..n]).Plus(SegmentTotals(t[n]));
    }
  }

  lemma {:induction false} ChainTotalsConcat(x: Chain, y: Chain)
    ensures ChainTotals(x + y) == ChainTotals(x).Plus(ChainTotals(y))
    decreases |y|
  {
    if y == [] {
      assert x + y == x;
    } else {
      var n := |y| - 1;
      assert (x + y)[..|x + y| - 1] == x + y[..n];
      ChainTotalsConcat(x, y[..n]);
      assert (x + y)[|x + y| - 1] == y[n];
      assert ChainTotals(x + y) == ChainTotals(x + y[..n]).Plus(ArenaTotals(y[n]));
      assert ChainTotals(y) == ChainTotals(y[..n]).Plus(ArenaTotals(y[n]));
    }
  }

  /** Replacing one node changes the totals by the difference of the two nodes' contributions. */
  lemma ArenaTotalsUpdate(s: Arena, m: nat, x: Segment)
    requires m < |s|
    ensures ArenaTotals(s[m := x]).Plus(SegmentTotals(s[m])) == ArenaTotals(s).Plus(SegmentTotals(x))
  {
    assert s == s[..m] + [s[m]] + s[m + 1..];
    assert s[m := x] == s[..m] + [x] + s[m + 1..];
    ArenaTotalsConcat(s[..m] + [s[m]], s[m + 1..]);
    ArenaTotalsConcat(s[..m] + [x], s[m + 1..]);
    ArenaTotalsConcat(s[..m], [s[m]]);
    ArenaTotalsConcat(s[..m], [x]);
    assert [x][..0] == [] && [s[m]][..0] == [];
  }

  /** Replacing one arena changes the totals by the difference of the two arenas' totals. */
  lemma ChainTotalsUpdate(reg: Chain, i: nat, a: Arena)
    requires i < |reg|
    ensures ChainTotals(reg[i := a]).Plus(ArenaTotals(reg[i])) == ChainTotals(reg).Plus(ArenaTotals(a))
  {
    var pre, post := reg[..i], reg[i + 1..];
    assert reg == pre + [reg[i]] + post;
    assert reg[i := a] == pre + [a] + post;
    ChainTotalsConcat(pre + [reg[i]], post);
    ChainTotalsConcat(pre + [a], post);
    ChainTotalsConcat(pre, [reg[i]]);
    ChainTotalsConcat(pre, [a]);
    assert [a][..0] == [] && [reg[i]][..0] == [];
    assert ChainTotals([a]) == Totals(0, 0, 0).Plus(ArenaTotals(a));
    assert ChainTotals([reg[i]]) == Totals(0, 0, 0).Plus(ArenaTotals(reg[i]));
    var cp, cq := ChainTotals(pre), ChainTotals(post);
    assert ChainTotals(reg) == cp.Plus(Totals(0, 0, 0).Plus(ArenaTotals(reg[i]))).Plus(cq);
    assert ChainTotals(reg[i := a]) == cp.Plus(Totals(0, 0, 0).Plus(ArenaTotals(a))).Plus(cq);
    PlusExchange(cp, cq, ArenaTotals(reg[i]), ArenaTotals(a));
  }

  lemma PlusExchange(p: Totals, q: Totals, x: Totals, y: Totals)
    ensures p.Plus(Totals(0, 0, 0).Plus(y)).Plus(q).Plus(x) == p.Plus(Totals(0, 0, 0).Plus(x)).Plus(q).Plus(y)
  {
  }

  /**
   * mems_malloc adds the new node's pages to the page count and its bytes to the used
   * bytes, leaves the hole bytes and the main-chain length alone, and lengthens the head
   * arena's sub-chain by one.
   */
  lemma StatsAfterMalloc(reg: Chain, g: Segment)
    requires |reg| > 0 && g.kind == Process
    ensures StatsOf(AppendSegment(reg, g)).totalPages == StatsOf(reg).totalPages + g.size / PAGE_SIZE
    ensures StatsOf(AppendSegment(reg, g)).holeBytes == StatsOf(reg).holeBytes
    ensures StatsOf(AppendSegment(reg, g)).usedBytes == StatsOf(reg).usedBytes + g.size
    ensures StatsOf(AppendSegment(reg, g)).mainLength == StatsOf(reg).mainLength
    ensures StatsOf(AppendSegment(reg, g)).subLengths == SubLengths(reg)[0 := |reg[0]| + 1]
  {
    var a := reg[0] + [g];
    ArenaTotalsAppend(reg[0], g);
    ChainTotalsUpdate(reg, 0, a);
    SubLengthsUpdate(reg, 0, a);
    var before, after := ChainTotals(reg), ChainTotals(reg[0 := a]);
    assert after.Plus(ArenaTotals(reg[0])) == before.Plus(ArenaTotals(reg[0]).Plus(SegmentTotals(g)));
  }

  lemma ArenaTotalsAppend(s: Arena, g: Segment)
    ensures ArenaTotals(s + [g]) == ArenaTotals(s).Plus(SegmentTotals(g))
  {
    assert (s + [g])[..|s|] == s;
  }

  lemma {:induction false} ArenaTotalsFree(s: Arena, keys: seq<nat>, p: nat)
    requires |keys| == |s|
    ensures ArenaTotals(MarkFirst(s, keys, p)).pages == ArenaTotals(s).pages
    ensures ArenaTotals(MarkFirst(s, keys, p)).hole + ArenaTotals(MarkFirst(s, keys, p)).used ==
            ArenaTotals(s).hole + ArenaTotals(s).used
    ensures ArenaTotals(MarkFirst(s, keys, p)).hole >= ArenaTotals(s).hole
  {
    var m := FirstMatch(keys, p);
    if m < |s| {
      ArenaTotalsUpdate(s, m, s[m].(kind := Hole));
    }
  }

  /**
   * mems_free keeps the page count, the main-chain length and every sub-chain length; it
   * only moves bytes from used to hole.
   */
  lemma {:induction false} StatsAfterFree(reg: Chain, p: nat)
    ensures StatsOf(FreeSpec(reg, p)).totalPages == StatsOf(reg).totalPages
    ensures StatsOf(FreeSpec(reg, p)).holeBytes + StatsOf(FreeSpec(reg, p)).usedBytes ==
            StatsOf(reg).holeBytes + StatsOf(reg).usedBytes
    ensures StatsOf(FreeSpec(reg, p)).holeBytes >= StatsOf(reg).holeBytes
    ensures StatsOf(FreeSpec(reg, p)).mainLength == StatsOf(reg).mainLength
    ensures StatsOf(FreeSpec(reg, p)).subLengths == StatsOf(reg).subLengths
  {
    if reg != [] {
      var n := |reg| - 1;
      assert FreeSpec(reg, p)[..n] == FreeSpec(reg[..n], p);
      StatsAfterFree(reg[..n], p);
      ArenaTotalsFree(reg[n], NodeKeys(reg[n]), p);
    }
  }

  /** Marking one in-use node as a hole moves exactly its bytes from used to hole. */
  lemma StatsAfterMarking(reg: Chain, i: nat, j: nat)
    requires i < |reg| && j < |reg[i]| && reg[i][j].kind == Process
    ensures var marked := reg[i := reg[i][j := reg[i][j].(kind := Hole)]];
      StatsOf(marked).holeBytes == StatsOf(reg).holeBytes + reg[i][j].size &&
      StatsOf(marked).usedBytes + reg[i][j].size == StatsOf(reg).usedBytes &&
      StatsOf(marked).totalPages == StatsOf(reg).totalPages &&
      StatsOf(marked).mainLength == StatsOf(reg).mainLength &&
      StatsOf(marked).subLengths == StatsOf(reg).subLengths
  {
    var a := reg[i][j := reg[i][j].(kind := Hole)];
    ArenaTotalsUpdate(reg[i], j, reg[i][j].(kind := Hole));
    ChainTotalsUpdate(reg, i, a);
    SubLengthsUpdate(reg, i, a);
    SubLengthsSameLength(reg, i, a);
  }

  /** The intended free of a live handle moves exactly that node's bytes from used to hole. */
  lemma StatsAfterFreeByPayload(reg: Chain, i: nat, j: nat)
    requires DistinctPayloads(reg)
    requires i < |reg| && j < |reg[i]| && reg[i][j].kind == Process
    ensures StatsOf(FreeByPayload(reg, reg[i][j].payload)).holeBytes == StatsOf(reg).holeBytes + reg[i][j].size
    ensures StatsOf(FreeByPayload(reg, reg[i][j].payload)).usedBytes + reg[i][j].size == StatsOf(reg).usedBytes
    ensures StatsOf(FreeByPayload(reg, reg[i][j].payload)).totalPages == StatsOf(reg).totalPages
    ensures StatsOf(FreeByPayload(reg, reg[i][j].payload)).mainLength == StatsOf(reg).mainLength
    ensures StatsOf(FreeByPayload(reg, reg[i][j].payload)).subLengths == StatsOf(reg).subLengths
  {
    FreeByPayloadMarksSegment(reg, i, j);
    StatsAfterMarking(reg, i, j);
  }

  /** A sub-chain of n one-page nodes all in use counts n pages, no hole and n pages of used bytes. */
  lemma {:induction false} UniformArenaTotals(s: Arena)
    requires forall j | 0 <= j < |s| :: s[j].size == PAGE_SIZE && s[j].kind == Process
    ensures ArenaTotals(s) == Totals(|s|, 0, |s| * PAGE_SIZE)
  {
    if s != [] {
      UniformArenaTotals(s[..|s| - 1]);
    }
  }

  /**
   * After init and k mallocs with no free, there is one arena holding the k nodes in call
   * order, no hole bytes, and the sub-chain length array is [k].
   */
  lemma MallocsAfterInit(gs: seq<Segment>)
    requires forall j | 0 <= j < |gs| :: gs[j].kind == Process
    ensures AppendAll([[]], gs) == [gs]
    ensures StatsOf([gs]).mainLength == 1 && StatsOf([gs]).subLengths == [|gs|]
    ensures StatsOf([gs]).holeBytes == 0
  {
    AppendAllInOrder([], gs);
    assert [] + gs == gs;
    NoHoleNoHoleBytes(gs);
    SingleArenaStats(gs);
  }

  /** The statistics of a main chain with one arena are that arena's totals and its length. */
  lemma SingleArenaStats(s: Arena)
    ensures StatsOf([s]) == Stats(ArenaTotals(s).pages, ArenaTotals(s).hole, ArenaTotals(s).used, 1, [|s|])
  {
    var reg := [s];
    assert reg[..0] == [] && reg[0] == s;
    assert ChainTotals(reg) == Totals(0, 0, 0).Plus(ArenaTotals(s));
    assert SubLengths(reg) == [|s|];
  }

  // ---------------------------------------------------------------------------
  // What every registry reachable from mems_init satisfies
  // ---------------------------------------------------------------------------

  /** Sizes are whole pages, addresses come from mmap, and no payload was handed out twice. */
  predicate WellFormed(reg: Chain)
  {
    SizesAligned(reg) && AddressesAligned(reg) && DistinctPayloads(reg)
  }

  /** No node of the chain holds payload `h`: a mapping mmap hands out is not live already. */
  predicate PayloadUnused(reg: Chain, h: nat)
  {
    forall i, j | 0 <= i < |reg| && 0 <= j < |reg[i]| :: reg[i][j].payload != h
  }

  /** mems_malloc keeps the registry well formed when mmap gives it a fresh, aligned payload. */
  lemma AppendKeepsWellFormed(reg: Chain, g: Segment)
    requires |reg| > 0 && WellFormed(reg)
    requires g.size % PAGE_SIZE == 0 && g.addr % PAGE_SIZE == 0 && g.payload % PAGE_SIZE == 0
    requires PayloadUnused(reg, g.payload)
    ensures WellFormed(AppendSegment(reg, g))
  {
    var r := AppendSegment(reg, g);
    assert forall i, j | 0 <= i < |r| && 0 <= j < |r[i]| ::
      r[i][j] == (if i == 0 && j == |reg[0]| then g else reg[i][j]);
  }

  /** mems_free changes only types, so it keeps the registry well formed. */
  lemma FreeKeepsWellFormed(reg: Chain, p: nat)
    requires WellFormed(reg)
    ensures WellFormed(FreeSpec(reg, p))
  {
    var r: Chain := FreeSpec(reg, p);
    assert |r| == |reg|;
    forall i, j | 0 <= i < |reg| && 0 <= j < |reg[i]|
      ensures |r[i]| == |reg[i]| && r[i][j].addr == reg[i][j].addr
      ensures r[i][j].payload == reg[i][j].payload && r[i][j].size == reg[i][j].size
    {
      FreeMarksFirstMatchOnly(reg, p, i, j);
    }
  }
}
