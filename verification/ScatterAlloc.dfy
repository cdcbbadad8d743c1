/** The scatter-gather buffers of ax_mmb.c: a greedy loop that takes blocks of 2^order pages,
  and a free routine that computes each order anew from the length it stored.

  The page allocator and the DMA mapping are parameters: grant answers the n-th request for a
  block of some order, with a page or with nothing; every theorem holds for all of them. */
module ScatterAlloc {
  import opened Common

  const MAX_ENTRIES: nat := 64     // MAX_SG_LIST_ENTRY

  /** One scatterlist entry: the frame it starts at and its length in bytes. */
  datatype Entry = Entry(page: nat, len: nat)

  /** A block as the page allocator knows it: first frame and order. */
  type Block = (nat, nat)

  type Grant = (nat, nat) -> Option<nat>

  // ------------------------------------------------------------------- orders

  function Pow2(o: nat): (r: nat)
    ensures r > 0
  {
    if o == 0 then 1 else 2 * Pow2(o - 1)
  }

  function BlockBytes(o: nat): nat { Pow2(o) * 0x1000 }

  function Fls(x: nat): nat {
    if x == 0 then 0 else 1 + Fls(x / 2)
  }

  /** get_order of the kernel; of 0 it is BITS_PER_LONG - PAGE_SHIFT. */
  function GetOrder(n: nat): nat {
    if n == 0 then 52 else Fls((n - 1) / 0x1000)
  }

  /** PAGE_ALIGN on a 32-bit size. */
  function PageAlign(n: nat): nat {
    ((n + 0x1000 - 1) / 0x1000 * 0x1000) % 0x1_0000_0000
  }

  lemma {:induction false} FlsBelow(x: nat, o: nat)
    ensures Fls(x) <= o <==> x < Pow2(o)
    decreases x
  {
    if x > 0 && o > 0 {
      FlsBelow(x / 2, o - 1);
    }
  }

  /** get_order gives the smallest block that is large enough. */
  lemma OrderIsLeast(n: nat, o: nat)
    requires n > 0
    ensures GetOrder(n) <= o <==> n <= BlockBytes(o)
  {
    FlsBelow((n - 1) / 0x1000, o);
    assert (n - 1) / 0x1000 < Pow2(o) <==> n - 1 < Pow2(o) * 0x1000;
  }

  lemma {:induction false} PowerGrows(a: nat, b: nat)
    requires a < b
    ensures 2 * Pow2(a) <= Pow2(b)
    decreases b
  {
    if a < b - 1 {
      PowerGrows(a, b - 1);
    }
  }

  /** The order computed from a whole block's bytes is the block's. */
  lemma WholeBlockOrder(o: nat)
    ensures GetOrder(BlockBytes(o)) == o
  {
    var n := BlockBytes(o);
    OrderIsLeast(n, o);
    if o > 0 {
      PowerGrows(o - 1, o);
      OrderIsLeast(n, o - 1);
    }
  }

  /** A 32-bit size that wraps to 0 when aligned is still asked for with the largest order. */
  lemma StartOrder(size: nat, maxOrder: nat)
    requires 0 < size < 0x1_0000_0000 && maxOrder <= 20
    ensures (if GetOrder(PageAlign(size)) < maxOrder then GetOrder(PageAlign(size)) else maxOrder)
         == (if GetOrder(size) < maxOrder then GetOrder(size) else maxOrder)
  {
    var up := (size + 0x1000 - 1) / 0x1000 * 0x1000;
    assert size <= up < size + 0x1000;
    if up == 0x1_0000_0000 {
      assert PageAlign(size) == 0;
      if GetOrder(size) < maxOrder {
        OrderIsLeast(size, 19);
        PowerValues();
        assert false;
      }
    } else {
      assert up < 0x1_0000_0000;
      assert PageAlign(size) == up;
      assert (up - 1) / 0x1000 == (size - 1) / 0x1000;
    }
  }

  lemma PowerValues()
    ensures Pow2(19) == 0x8_0000
  {
    assert Pow2(4) == 16 && Pow2(8) == 256 && Pow2(12) == 4096 && Pow2(16) == 65536;
  }

  /** A block of order 0 is a page, and each order has blocks twice as large as the one below. */
  lemma {:induction false} BlockSizes(o: nat)
    ensures BlockBytes(0) == 0x1000 && BlockBytes(o + 1) == BlockBytes(o) + BlockBytes(o)
    ensures BlockBytes(8) == 0x10_0000
  {
    assert Pow2(4) == 16 && Pow2(8) == 256;
  }

  // -------------------------------------------------------------------- tables

  function Total(es: seq<Entry>): nat {
    if es == [] then 0 else Total(es[..|es| - 1]) + es[|es| - 1].len
  }

  function BlockOf(e: Entry): Block { (e.page, GetOrder(e.len)) }

  /** What freeing the table gives back. */
  function Blocks(es: seq<Entry>): (r: seq<Block>)
    ensures |r| == |es|
  {
    seq(|es|, i requires 0 <= i < |es| => BlockOf(es[i]))
  }

  predicate WholeBlock(e: Entry) { e.len > 0 && e.len == BlockBytes(GetOrder(e.len)) }

  predicate AllWhole(es: seq<Entry>) {
    es == [] || (AllWhole(es[..|es| - 1]) && WholeBlock(es[|es| - 1]))
  }

  /** A request of size bytes cut into entries: at most 64 of them, none empty, all but the
      last whole blocks, and together exactly the request. */
  predicate CutOf(es: seq<Entry>, size: nat) {
    && 0 < |es| <= MAX_ENTRIES && Total(es) == size
    && es[|es| - 1].len > 0 && AllWhole(es[..|es| - 1])
  }

  lemma {:induction false} WholeAt(es: seq<Entry>, i: nat)
    requires AllWhole(es) && i < |es|
    ensures WholeBlock(es[i])
  {
    if i < |es| - 1 {
      WholeAt(es[..|es| - 1], i);
    }
  }

  function Given(pg: Option<nat>, order: nat): seq<Block> {
    if pg.Some? then [(pg.value, order)] else []
  }

  /** The requests for the orders above order and up to start failed, one after the other,
      the one for order 0 being number base. */
  predicate Refused(grant: Grant, base: nat, order: nat, start: nat)
    requires start <= base
    decreases start - order
  {
    order < start ==> grant(base - (order + 1), order + 1).None? && Refused(grant, base, order + 1, start)
  }

  /** The allocation gets as far as asking for pages. */
  predicate Reached(hasDev: bool, size: nat, device: bool, table: bool, backup: bool) {
    !hasDev && size > 0 && device && table && backup
  }

  // ---------------------------------------------------------------- the buffer

  class MmbBuf {
    const maxOrder: nat            // MAX_ORDER - 1
    var hasDev: bool
    var hasTables: bool            // sgt.sgl and sgt_bak.sgl are there
    var dmaMapped: bool
    var actualNents: nat
    var bak: seq<Entry>            // sgt_bak, up to its nents
    var requests: nat              // how often the page allocator was called
    /** The blocks the page allocator gave to this buffer and has not got back, without
        those no table names any more. */
    ghost var held: seq<Block>
    ghost var leaked: seq<Block>

    /** The blocks held are exactly those the backup table gives back. */
    ghost predicate Valid()
      reads this
    {
      && maxOrder < 20
      && held == (if hasTables then Blocks(bak) else [])
      && (hasTables ==> hasDev)
      && (!hasTables ==> actualNents == 0 && !dmaMapped)
    }

    constructor (maxOrder: nat)
      requires maxOrder < 20
      ensures Valid() && !hasDev && !hasTables && held == leaked == [] && this.maxOrder == maxOrder
    {
      this.maxOrder := maxOrder;
      hasDev, hasTables, dmaMapped, actualNents, bak, requests := false, false, false, 0, [], 0;
      held, leaked := [], [];
    }

    method AllocPages(order: nat, grant: Grant) returns (pg: Option<nat>)
      modifies this`requests, this`held
      ensures requests == old(requests) + 1 && pg == grant(old(requests), order)
      ensures held == old(held) + Given(pg, order)
    {
      pg := grant(requests, order);
      requests := requests + 1;
      held := held + Given(pg, order);
    }

    /** Only a block that is held may be freed, and only with the order it was taken with. */
    method FreePages(page: nat, order: nat, ghost k: nat)
      requires k < |held| && held[k] == (page, order)
      modifies this`held
      ensures held == old(held)[..k] + old(held)[k + 1..]
    {
      held := held[..k] + held[k + 1..];
    }

    /** The inner loop: smaller and smaller blocks, until one is granted. */
    method TakeBlock(start: nat, grant: Grant) returns (pg: Option<nat>, order: nat)
      modifies this`requests, this`held
      ensures held == old(held) + Given(pg, order)
      ensures order <= start
      ensures pg == grant(old(requests) + (start - order), order) && requests == old(requests) + (start - order) + 1
      ensures Refused(grant, old(requests) + start, order, start)
      ensures pg.None? ==> order == 0
    {
      order := start;
      while true
        invariant order <= start && requests == old(requests) + (start - order) && held == old(held)
        invariant Refused(grant, old(requests) + start, order, start)
        decreases order
      {
        pg := AllocPages(order, grant);
        if pg.Some? || order == 0 {
          return;
        }
        order := order - 1;
      }
    }

    /** One entry for what is left of the request: the largest block that is granted, cut
        short if it is more than needed. The first one asked for is the smallest that holds
        what is left, or the largest there is. */
    method TakeEntry(left: nat, grant: Grant) returns (e: Option<Entry>, ghost start: nat)
      requires 0 < left < 0x1_0000_0000 && maxOrder < 20
      modifies this`requests, this`held
      ensures held == old(held) + (if e.Some? then [BlockOf(e.value)] else [])
      ensures e.Some? ==> IsCut(e.value, left)
      ensures AsksFirst(left, maxOrder, start)
      ensures e.Some? ==> var o := GetOrder(e.value.len);
        && o <= start && Refused(grant, old(requests) + start, o, start)
        && grant(old(requests) + (start - o), o) == Some(e.value.page) && requests == old(requests) + (start - o) + 1
        && e.value.len == if left >= BlockBytes(o) then BlockBytes(o) else left
      ensures e.None? ==> Refused(grant, old(requests) + start, 0, start)
      ensures e.None? ==> requests == old(requests) + start + 1 && grant(old(requests) + start, 0).None?
      ensures AllGranted(grant) ==> (e.Some?
        && Units(left, BlockBytes(maxOrder)) == 1 + Units(left - e.value.len, BlockBytes(maxOrder)))
    {
      var first := GetOrder(PageAlign(left));
      var from := if first < maxOrder then first else maxOrder;
      start := from;
      StartOrder(left, maxOrder);
      FirstOrder(left, maxOrder, start);
      var pg, order := TakeBlock(from, grant);
      if pg.None? {
        return None, start;
      }
      var len := if left >= BlockBytes(order) then BlockBytes(order) else left;
      StoredOrder(left, order, len);
      e := Some(Entry(pg.value, len));
      if AllGranted(grant) {
        GrantedTakesUnit(left, maxOrder, start, order, grant, requests, len);
      }
    }

    /** One turn of the outer loop: one more entry, or nothing if no page was granted. */
    method FillOne(es: seq<Entry>, left: nat, size: nat, grant: Grant) returns (ok: bool, es': seq<Entry>, left': nat)
      requires 0 < left <= size < 0x1_0000_0000 && maxOrder < 20 && |es| < MAX_ENTRIES
      requires held == Blocks(es) && PartlyCut(es, left, size)
      modifies this`requests, this`held
      ensures held == Blocks(es') && PartlyCut(es', left', size)
      ensures if ok then left' < left && |es'| == |es| + 1 else es' == es && left' == left
      ensures !ok ==> requests > 0 && grant(requests - 1, 0).None?
      ensures AllGranted(grant) ==> ok && Units(left, BlockBytes(maxOrder)) == 1 + Units(left', BlockBytes(maxOrder))
    {
      var e;
      ghost var start;
      e, start := TakeEntry(left, grant);
      if e.None? {
        return false, es, left;
      }
      CutOne(es, left, size, e.value);
      assert Blocks(es + [e.value]) == Blocks(es) + [BlockOf(e.value)];
      return true, es + [e.value], left - e.value.len;
    }

    /** The outer loop. On failure the blocks taken so far are still out: the table was full
        before the request was met, or not even a single page was granted. */
    method FillTable(size: nat, grant: Grant) returns (ret: int, es: seq<Entry>)
      requires 0 < size < 0x1_0000_0000 && maxOrder < 20 && held == []
      modifies this`requests, this`held
      ensures held == Blocks(es)
      ensures ret == 0 ==> CutOf(es, size)
      ensures ret == 0 || ret == -12 || ret == -22
      ensures ret == -12 ==> |es| == MAX_ENTRIES && Total(es) < size
      ensures ret == -22 ==> |es| < MAX_ENTRIES && requests > 0 && grant(requests - 1, 0).None?
      ensures AllGranted(grant) ==> ret == if Units(size, BlockBytes(maxOrder)) <= MAX_ENTRIES then 0 else -12
      ensures AllGranted(grant) && ret == 0 ==> |es| == Units(size, BlockBytes(maxOrder))
    {
      var left, ok := size, true;
      es := [];
      while left > 0 && |es| < MAX_ENTRIES && ok
        invariant 0 <= left <= size && held == Blocks(es) && PartlyCut(es, left, size)
        invariant !ok ==> left > 0 && |es| < MAX_ENTRIES && requests > 0 && grant(requests - 1, 0).None?
        invariant AllGranted(grant) ==> ok && Units(size, BlockBytes(maxOrder)) == |es| + Units(left, BlockBytes(maxOrder))
        decreases left, ok
      {
        ok, es, left := FillOne(es, left, size, grant);
      }
      ret := if left == 0 then 0 else if ok then -12 else -22;
    }

    /** ax_mmb_sglist_free_mem */
    method FreeMem()
      requires Valid()
      modifies this
      ensures Valid() && !hasTables && leaked == old(leaked) && hasDev == old(hasDev) && requests == old(requests)
      ensures bak == old(bak)
    {
      if hasTables {
        dmaMapped := false;
        var i: nat := 0;
        while i < |bak|
          invariant i <= |bak| && bak == old(bak) && leaked == old(leaked) && hasDev == old(hasDev)
          invariant requests == old(requests)
          invariant held == Blocks(bak)[i..] && !dmaMapped
        {
          FreePages(bak[i].page, GetOrder(bak[i].len), 0);
          i := i + 1;
        }
      }
      hasTables, dmaMapped, actualNents := false, false, 0;
    }

    /** The code of an allocation that gets as far as asking for pages: -22 if not even a page
        was granted, -12 if the table is full, and with a full cut in the table -5 or 0 as the
        mapping fails or not. If every request is granted, only the number of largest blocks in
        the size decides between the last two and -12. */
    ghost predicate RightCode(ret: int, size: nat, grant: Grant, mapping: seq<Entry> -> seq<Entry>, taken: seq<Block>)
      reads this
    {
      && ret in {0, -22, -12, -5}
      && (ret == -22 ==> |taken| < MAX_ENTRIES && requests > 0 && grant(requests - 1, 0).None?)
      && (ret == -12 ==> |taken| == MAX_ENTRIES)
      && (ret in {0, -5} ==> CutOf(bak, size) && taken == Blocks(bak) && (ret == -5 <==> mapping(bak) == []))
      && (AllGranted(grant) ==>
            (ret == -12 <==> Units(size, BlockBytes(maxOrder)) > MAX_ENTRIES) && ret != -22
            && (ret in {0, -5} ==> |bak| == Units(size, BlockBytes(maxOrder))))
    }

    /** ax_sglist_alloc_mem. device: the id names a device; table and backup: the kernel has
        memory for the two tables; map: what DMA mapping makes of the entries, nothing if it
        fails. mems is the list returned to the caller, taken the blocks granted to this call:
        success holds on to them, a failed mapping gives back every one of them, and a failure
        in between forgets them. */
    method SgAlloc(device: bool, size: nat, table: bool, backup: bool, grant: Grant, mapping: seq<Entry> -> seq<Entry>)
      returns (ret: int, mems: seq<Entry>, ghost taken: seq<Block>)
      requires Valid() && size < 0x1_0000_0000
      modifies this
      ensures Valid()
      ensures ret in {0, -22, -19, -12, -5}
      ensures ret == 0 ==> !old(hasDev) && hasTables && dmaMapped && CutOf(bak, size)
      ensures ret == 0 ==> mems == mapping(bak) != []
      ensures ret != 0 ==> hasTables == old(hasTables) && held == old(held)
      ensures old(hasDev) ==> ret == -22 && bak == old(bak)
      ensures hasDev <==> old(hasDev) || (size > 0 && device)
      ensures !Reached(old(hasDev), size, device, table, backup) ==> taken == []
      ensures !Reached(old(hasDev), size, device, table, backup) ==>
        ret == if old(hasDev) || size == 0 then -22 else if !device then -19 else -12
      ensures Reached(old(hasDev), size, device, table, backup) ==> RightCode(ret, size, grant, mapping, taken)
      ensures ret == 0 ==> actualNents == |mems|
      ensures ret == 0 ==> held == taken && taken != []
      ensures leaked == if ret in {0, -5} then old(leaked) else old(leaked) + taken
    {
      ret, mems, taken := -22, [], [];
      if hasDev || hasTables {
        return;
      }
      if size == 0 {
        return;
      }
      if !device {
        ret := -19;
        return;
      }
      hasDev := true;
      if !table || !backup {
        ret := -12;
        return;
      }
      ret, mems, taken := FillAndMap(size, grant, mapping);
    }

    /** The rest of ax_sglist_alloc_mem, once both tables are there. */
    method FillAndMap(size: nat, grant: Grant, mapping: seq<Entry> -> seq<Entry>)
      returns (ret: int, mems: seq<Entry>, ghost taken: seq<Block>)
      requires Valid() && hasDev && !hasTables && 0 < size < 0x1_0000_0000
      modifies this
      ensures Valid() && hasDev && RightCode(ret, size, grant, mapping, taken)
      ensures ret == 0 ==> actualNents == |mems|
      ensures ret == 0 ==> hasTables && dmaMapped && CutOf(bak, size) && held == taken != []
      ensures ret == 0 ==> mems == mapping(bak) != []
      ensures ret != 0 ==> !hasTables
      ensures leaked == if ret in {0, -5} then old(leaked) else old(leaked) + taken
    {
      var es;
      ret, es := FillTable(size, grant);
      taken, mems := held, [];
      if ret != 0 {
        leaked, held := leaked + held, [];
        return;
      }
      hasTables, bak := true, es;
      ret, mems := MapTables(mapping);
    }

    /** The DMA mapping of a filled table; if it fails the buffer is freed at once. */
    method MapTables(mapping: seq<Entry> -> seq<Entry>) returns (ret: int, mems: seq<Entry>)
      requires Valid() && hasTables
      modifies this
      ensures Valid() && hasDev && leaked == old(leaked) && bak == old(bak)
      ensures ret == if mapping(bak) == [] then -5 else 0
      ensures ret == 0 ==> hasTables && dmaMapped && held == old(held) && mems == mapping(bak) && actualNents == |mems|
      ensures requests == old(requests)
      ensures ret != 0 ==> !hasTables && held == []
    {
      mems := mapping(bak);
      actualNents := |mems|;
      if |mems| == 0 {
        FreeMem();
        return -5, [];
      }
      dmaMapped := true;
      ret := 0;
    }

    /** The scatter branch of ax_mmb_mmap: remap maps one range and gives 0 or an error. The
        result is that of the last range alone. */
    method Mmap(vmStart: nat, remap: (nat, nat, nat) -> int) returns (ret: int, ranges: seq<Range>)
      requires Valid()
      ensures !hasDev || !hasTables ==> ret == -1 && ranges == []
      ensures hasDev && hasTables ==>
        (ranges == Tiling(bak, vmStart)
         && ret == if bak == [] then 0 else var r := ranges[|bak| - 1]; remap(r.vm, r.page, r.len))
    {
      ret, ranges := 0, [];
      if !hasDev || !hasTables {
        return -1, [];
      }
      var vm, i: nat := vmStart, 0;
      while i < |bak|
        invariant i <= |bak| && vm == vmStart + Total(bak[..i])
        invariant ranges == Tiling(bak[..i], vmStart)
        invariant ret == if i == 0 then 0 else var r := ranges[i - 1]; remap(r.vm, r.page, r.len)
      {
        assert bak[..i + 1][..i] == bak[..i];
        ret := remap(vm, bak[i].page, bak[i].len);
        ranges := ranges + [Range(vm, bak[i].page, bak[i].len)];
        vm := vm + bak[i].len;
        i := i + 1;
      }
      assert bak[..i] == bak;
    }
  }

  /** What the loop stores gives the order back: a whole block stores its size, and a block
      that is cut short is one that no smaller order could have covered. */
  lemma StoredOrder(left: nat, order: nat, len: nat)
    requires 0 < left && order <= GetOrder(left)
    requires len == if left >= BlockBytes(order) then BlockBytes(order) else left
    ensures 0 < len <= left && GetOrder(len) == order
    ensures len < left ==> len == BlockBytes(order)
  {
    WholeBlockOrder(order);
    if left < BlockBytes(order) {
      OrderIsLeast(left, order);
    }
  }

  ghost predicate PartlyCut(es: seq<Entry>, left: nat, size: nat) {
    && |es| <= MAX_ENTRIES && Total(es) + left == size
    && (left > 0 ==> AllWhole(es))
    && (left == 0 ==> CutOf(es, size))
  }

  /** e takes a part of what is left, all of it or a whole block. */
  predicate IsCut(e: Entry, left: nat) {
    && 0 < e.len <= left
    && (e.len < left ==> WholeBlock(e))
  }

  /** The order asked for first. */
  predicate AsksFirst(left: nat, maxOrder: nat, start: nat) {
    && start <= maxOrder
    && (start == maxOrder || left <= BlockBytes(start))
    && (start > 0 ==> BlockBytes(start - 1) < left)
  }

  lemma FirstOrder(left: nat, maxOrder: nat, start: nat)
    requires left > 0 && start == if GetOrder(left) < maxOrder then GetOrder(left) else maxOrder
    ensures AsksFirst(left, maxOrder, start)
  {
    OrderIsLeast(left, start);
    if start > 0 {
      OrderIsLeast(left, start - 1);
    }
  }

  ghost predicate AllGranted(grant: Grant) {
    forall n, o :: grant(n, o).Some?
  }

  /** If every request is granted, an entry takes one unit of the largest block. */
  lemma GrantedTakesUnit(left: nat, maxOrder: nat, start: nat, o: nat, grant: Grant, requests: nat, len: nat)
    requires AllGranted(grant) && left > 0 && AsksFirst(left, maxOrder, start) && o <= start
    requires requests >= start - o + 1 && Refused(grant, requests - 1 + o, o, start)
    requires len == if left >= BlockBytes(o) then BlockBytes(o) else left
    ensures len <= left && Units(left, BlockBytes(maxOrder)) == 1 + Units(left - len, BlockBytes(maxOrder))
  {
    if start < maxOrder {
      PowerGrows(start, maxOrder);
    }
  }

  lemma CutOne(es: seq<Entry>, left: nat, size: nat, e: Entry)
    requires PartlyCut(es, left, size) && 0 < left && |es| < MAX_ENTRIES && IsCut(e, left)
    ensures PartlyCut(es + [e], left - e.len, size)
  {
    assert (es + [e])[..|es|] == es;
  }

  // ------------------------------------------------------------------- mapping

  /** One mapped range: len bytes at address vm show the memory from frame page on. */
  datatype Range = Range(vm: nat, page: nat, len: nat)

  function Tiling(es: seq<Entry>, vm: nat): (r: seq<Range>)
    ensures |r| == |es|
  {
    if es == [] then []
    else
      var n := |es| - 1;
      Tiling(es[..n], vm) + [Range(vm + Total(es[..n]), es[n].page, es[n].len)]
  }

  lemma {:induction false} TilingAt(es: seq<Entry>, vm: nat, i: nat)
    requires i < |es|
    ensures Tiling(es, vm)[i] == Range(vm + Total(es[..i]), es[i].page, es[i].len)
  {
    var n := |es| - 1;
    if i < n {
      TilingAt(es[..n], vm, i);
      assert es[..n][..i] == es[..i];
    }
  }

  lemma TotalStep(es: seq<Entry>, i: nat)
    requires i < |es|
    ensures Total(es[..i + 1]) == Total(es[..i]) + es[i].len
  {
    assert es[..i + 1][..i] == es[..i];
  }

  lemma {:induction false} WholePages(es: seq<Entry>, i: nat)
    requires i <= |es| && AllWhole(es[..i])
    ensures Aligned(Total(es[..i]))
  {
    if i > 0 {
      assert es[..i][..i - 1] == es[..i - 1] && es[..i][i - 1] == es[i - 1];
      WholePages(es, i - 1);
      TotalStep(es, i - 1);
      PageMultiple(Total(es[..i - 1]), Pow2(GetOrder(es[i - 1].len)));
    }
  }

  predicate Aligned(a: nat) { a % 0x1000 == 0 }

  lemma PageMultiple(a: nat, k: nat)
    requires Aligned(a)
    ensures Aligned(a + k * 0x1000)
  {
  }

  /** The mapped ranges lie end to end from vm on, in table order, and cover every byte. */
  lemma TilingContiguous(es: seq<Entry>, vm: nat, i: nat)
    requires i < |es|
    ensures var r := Tiling(es, vm);
      && r[i].page == es[i].page && r[i].len == es[i].len
      && (if i == 0 then r[i].vm == vm else r[i].vm == r[i - 1].vm + r[i - 1].len)
      && (i == |es| - 1 ==> r[i].vm + r[i].len == vm + Total(es))
  {
    TilingAt(es, vm, i);
    TotalStep(es, i);
    if i == 0 {
      assert es[..0] == [];
    } else {
      TilingAt(es, vm, i - 1);
      TotalStep(es, i - 1);
    }
    assert es[..|es|] == es;
  }

  /** Every range starts on a page boundary if the whole mapping does. */
  lemma TilingAligned(es: seq<Entry>, vm: nat, i: nat)
    requires i < |es| && Aligned(vm) && AllWhole(es[..|es| - 1])
    ensures Aligned(Tiling(es, vm)[i].vm)
  {
    TilingAt(es, vm, i);
    WholeFront(es[..|es| - 1], i);
    assert es[..|es| - 1][..i] == es[..i];
    WholePages(es, i);
    AlignedSum(vm, Total(es[..i]));
  }

  lemma {:induction false} WholeFront(es: seq<Entry>, i: nat)
    requires AllWhole(es) && i <= |es|
    ensures AllWhole(es[..i])
  {
    if i < |es| {
      WholeFront(es[..|es| - 1], i);
      assert es[..|es| - 1][..i] == es[..i];
    } else {
      assert es[..i] == es;
    }
  }

  lemma AlignedSum(a: nat, b: nat)
    requires Aligned(a) && Aligned(b)
    ensures Aligned(a + b)
  {
  }
}
