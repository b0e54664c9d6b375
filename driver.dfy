/**
 * The program's main(): mems_init, ten calls mems_malloc(sizeof(int) * 250), the
 * statistics, mems_free(ptr[3]), and the statistics again. The addresses mmap hands out
 * are parameters; the two sets of statistics are the method's results.
 */
module Driver {
  import opened Registry
  import opened Mems

  /** sizeof(int) on the LP64 hosts the program targets. */
  const INT_SIZE: nat := 4

  /** The ten segments main() registers: one page each, in call order, all in use. */
  function Registered(payloads: seq<nat>, nodeAddrs: seq<nat>, n: nat): (s: Arena)
    requires n <= |payloads| && n <= |nodeAddrs|
    ensures |s| == n
    ensures forall k | 0 <= k < n :: s[k].size == PAGE_SIZE && s[k].kind == Process && s[k].payload == payloads[k]
  {
    seq(n, k requires 0 <= k < n => Segment(nodeAddrs[k], payloads[k], PAGE_SIZE, Process))
  }

  /** A request of sizeof(int) * 250 = 1000 bytes occupies exactly one page. */
  lemma OnePagePerRequest()
    ensures RoundUp(INT_SIZE * 250) == PAGE_SIZE
  {
    assert (INT_SIZE * 250) / PAGE_SIZE == 0;
  }

  /**
   * The allocation loop of main(): after mems_init, ten requests of sizeof(int) * 250 bytes,
   * each returning its payload address and registering one page in call order.
   */
  method AllocateTen(payloads: seq<nat>, nodeAddrs: seq<nat>) returns (m: Allocator, ptr: seq<nat>)
    requires |payloads| == 10 && |nodeAddrs| == 10
    requires forall k | 0 <= k < 10 :: payloads[k] % PAGE_SIZE == 0 && nodeAddrs[k] % PAGE_SIZE == 0
    requires forall k, l | 0 <= k < l < 10 :: payloads[k] != payloads[l]
    ensures m.Valid() && m.segs == [Registered(payloads, nodeAddrs, 10)]
    ensures ptr == payloads
    ensures fresh(m) && fresh(m.head) && fresh(m.Repr)
  {
    m := new Allocator.Init();
    ptr := [];
    OnePagePerRequest();
    var i := 0;
    while i < 10
      invariant 0 <= i <= 10 && ptr == payloads[..i]
      invariant m.Valid() && fresh(m.head) && fresh(m.Repr)
      invariant m.segs == [Registered(payloads, nodeAddrs, i)]
    {
      var p := m.Malloc(INT_SIZE * 250, payloads[i], nodeAddrs[i]);
      assert Registered(payloads, nodeAddrs, i) + [Segment(nodeAddrs[i], payloads[i], PAGE_SIZE, Process)]
          == Registered(payloads, nodeAddrs, i + 1);
      ptr := ptr + [p];
      i := i + 1;
    }
    assert payloads[..10] == payloads;
  }

  /**
   * main() as written: the first statistics are 10 pages, no hole bytes and 40960 used bytes
   * in one arena of ten nodes; since ptr[3] is page aligned, mems_free(ptr[3]) finds no
   * node and the second statistics are the same as the first.
   */
  method Scenario(payloads: seq<nat>, nodeAddrs: seq<nat>) returns (before: Stats, after: Stats)
    requires |payloads| == 10 && |nodeAddrs| == 10
    requires forall k | 0 <= k < 10 :: payloads[k] % PAGE_SIZE == 0 && nodeAddrs[k] % PAGE_SIZE == 0
    requires forall k, l | 0 <= k < l < 10 :: payloads[k] != payloads[l]
    ensures before == Stats(10, 0, 10 * PAGE_SIZE, 1, [10])
    ensures after == before
  {
    var m, ptr := AllocateTen(payloads, nodeAddrs);
    ghost var gs := Registered(payloads, nodeAddrs, 10);
    UniformArenaTotals(gs);
    SingleArenaStats(gs);
    before := m.CollectStats();
    FreeOfAlignedPointerIsNoOp(m.segs, ptr[3]);
    m.Free(ptr[3]);
    after := m.CollectStats();
  }

  /**
   * The evidently intended outcome of main(): had mems_free matched the handle mems_malloc
   * returned, ptr[3]'s page would be reported as a hole and the rest as used.
   */
  lemma IntendedScenario(payloads: seq<nat>, nodeAddrs: seq<nat>)
    requires |payloads| == 10 && |nodeAddrs| == 10
    requires forall k, l | 0 <= k < l < 10 :: payloads[k] != payloads[l]
    ensures StatsOf(FreeByPayload([Registered(payloads, nodeAddrs, 10)], payloads[3]))
         == Stats(10, PAGE_SIZE, 9 * PAGE_SIZE, 1, [10])
  {
    var gs := Registered(payloads, nodeAddrs, 10);
    var reg := [gs];
    UniformArenaTotals(gs);
    SingleArenaStats(gs);
    assert DistinctPayloads(reg) by {
      forall i, j, i2, j2 | 0 <= i < |reg| && 0 <= j < |reg[i]| && 0 <= i2 < |reg| && 0 <= j2 < |reg[i2]| && (i != i2 || j != j2)
        ensures reg[i][j].payload != reg[i2][j2].payload
      {
        assert reg[i][j].payload == payloads[j] && reg[i2][j2].payload == payloads[j2];
      }
    }
    StatsAfterFreeByPayload(reg, 0, 3);
  }
}
