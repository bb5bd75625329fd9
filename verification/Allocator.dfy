/** The allocator of nodes and strings: pages in a list, each filled from its start, and
    given back as a whole when nothing in it is in use any more. */
module Allocator {

  /** `sizeof(xml_memory_page)`, five words. */
  const PAGE_HEADER: nat := 40
  const PAGE_SIZE: nat := 32768 - PAGE_HEADER
  const LARGE: nat := PAGE_SIZE / 4
  const ALIGNMENT: nat := 8
  const STRING_HEADER: nat := 4
  const MAX_ENCODED: nat := 0x1_0000 * ALIGNMENT

  // ---------- the blocks of a page ----------

  /** A block that was handed out; `live` until it is given back. */
  datatype Cell = Cell(size: nat, live: bool)

  /** The size of the first `n` blocks, which is where block number `n` begins. */
  ghost function Sum(cells: seq<Cell>, n: nat): nat
    requires n <= |cells|
  {
    if n == 0 then 0 else Sum(cells, n - 1) + cells[n - 1].size
  }

  /** How much of that was given back. */
  ghost function Dead(cells: seq<Cell>, n: nat): nat
    requires n <= |cells|
  {
    if n == 0 then 0 else Dead(cells, n - 1) + if cells[n - 1].live then 0 else cells[n - 1].size
  }

  ghost predicate SomeLive(cells: seq<Cell>) {
    exists i :: 0 <= i < |cells| && cells[i].live
  }

  ghost predicate Fine(cells: seq<Cell>) {
    forall i :: 0 <= i < |cells| ==> cells[i].size > 0 && cells[i].size % ALIGNMENT == 0
  }

  ghost function Kill(cells: seq<Cell>, i: nat): (r: seq<Cell>)
    requires i < |cells|
    ensures |r| == |cells|
  {
    cells[i := Cell(cells[i].size, false)]
  }

  lemma {:induction false} SumAppend(cells: seq<Cell>, c: Cell, n: nat)
    requires n <= |cells|
    ensures Sum(cells + [c], n) == Sum(cells, n) && Dead(cells + [c], n) == Dead(cells, n)
  {
    if n > 0 {
      SumAppend(cells, c, n - 1);
    }
  }

  lemma {:induction false} SumKill(cells: seq<Cell>, i: nat, n: nat)
    requires i < |cells| && n <= |cells| && cells[i].live
    ensures Sum(Kill(cells, i), n) == Sum(cells, n)
    ensures Dead(Kill(cells, i), n) == Dead(cells, n) + if i < n then cells[i].size else 0
  {
    if n > 0 {
      SumKill(cells, i, n - 1);
    }
  }

  lemma {:induction false} SumOrder(cells: seq<Cell>, i: nat, n: nat)
    requires i < n <= |cells|
    ensures Sum(cells, i) + cells[i].size <= Sum(cells, n)
  {
    if i < n - 1 {
      SumOrder(cells, i, n - 1);
    }
  }

  /** All was given back exactly if no block is live. */
  lemma {:induction false} AllDead(cells: seq<Cell>, n: nat)
    requires n <= |cells| && Fine(cells)
    ensures Dead(cells, n) <= Sum(cells, n)
    ensures Dead(cells, n) == Sum(cells, n) <==> forall i :: 0 <= i < n ==> !cells[i].live
  {
    if n > 0 {
      AllDead(cells, n - 1);
      assert cells[n - 1].size > 0;
    }
  }

  lemma {:induction false} SumAligned(cells: seq<Cell>, n: nat)
    requires n <= |cells| && Fine(cells)
    ensures Sum(cells, n) % ALIGNMENT == 0
  {
    if n > 0 {
      SumAligned(cells, n - 1);
    }
  }

  // ---------- pages ----------

  /** The 16-bit fields in front of a string. */
  datatype Header = Header(pageOffset: nat, fullSize: nat)

  class Page {
    const base: int
    const capacity: nat
    var prev: Page?
    var next: Page?
    var busySize: nat
    var freedSize: nat
    ghost var cells: seq<Cell>

    constructor (base: int, capacity: nat)
      ensures this.base == base && this.capacity == capacity && cells == []
      ensures prev == null && next == null && busySize == 0 && freedSize == 0
    {
      this.base, this.capacity := base, capacity;
      prev, next, busySize, freedSize, cells := null, null, 0, 0, [];
    }

    /** Where block number `i` begins. */
    ghost function Address(i: nat): int
      requires i <= |cells|
      reads this`cells
    {
      base + PAGE_HEADER + Sum(cells, i)
    }
  }

  ghost function Pages(ch: seq<Page>): set<Page> {
    set p | p in ch
  }

  ghost predicate Apart(p: Page, base: int, capacity: nat) {
    p.base + PAGE_HEADER + p.capacity <= base || base + PAGE_HEADER + capacity <= p.base
  }

  ghost predicate ApartPages(p: Page, q: Page) {
    Apart(p, q.base, q.capacity)
  }

  ghost predicate Linked(ch: seq<Page>, i: nat)
    requires i < |ch|
    reads {ch[i]}`prev, {ch[i]}`next
  {
    && ch[i].prev == (if i == 0 then null else ch[i - 1])
    && ch[i].next == (if i + 1 == |ch| then null else ch[i + 1])
  }

  ghost predicate Links(ch: seq<Page>)
    reads Pages(ch)`prev, Pages(ch)`next
  {
    forall i: nat {:trigger Linked(ch, i)} :: i < |ch| ==> Linked(ch, i)
  }

  /** Every page once, each in its own place in memory. */
  ghost predicate Placed(ch: seq<Page>, memory: map<int, Page>) {
    && (forall i, j :: 0 <= i < j < |ch| ==> ch[i] != ch[j])
    && (forall p, q {:trigger ApartPages(p, q)} :: p in ch && q in ch && p != q ==> ApartPages(p, q))
    && (forall p :: p in ch ==> p.base in memory && memory[p.base] == p)
  }

  ghost function Insert(ch: seq<Page>, at: nat, page: Page): (r: seq<Page>)
    requires at <= |ch|
    ensures |r| == |ch| + 1
    ensures forall i :: 0 <= i < |r| ==> r[i] == if i < at then ch[i] else if i == at then page else ch[i - 1]
    ensures Pages(r) == Pages(ch) + {page}
  {
    var r := ch[..at] + [page] + ch[at..];
    assert r[at] == page;
    assert forall i {:trigger ch[i]} :: 0 <= i < |ch| ==> r[if i < at then i else i + 1] == ch[i];
    assert Pages(r) == Pages(ch) + {page};
    r
  }

  ghost function Remove(ch: seq<Page>, at: nat): (r: seq<Page>)
    requires at < |ch|
    ensures |r| == |ch| - 1
    ensures forall i :: 0 <= i < |r| ==> r[i] == if i < at then ch[i] else ch[i + 1]
  {
    ch[..at] + ch[at + 1..]
  }

  lemma InsertPlaced(ch: seq<Page>, memory: map<int, Page>, at: nat, page: Page)
    requires Placed(ch, memory) && at <= |ch| && page !in ch
    requires forall p :: p in ch ==> Apart(p, page.base, page.capacity)
    ensures Placed(Insert(ch, at, page), memory[page.base := page])
  {
    var r := Insert(ch, at, page);
    forall p | p in r ensures p in ch || p == page {
      assert p in Pages(r);
    }
  }

  /** A page with `busy` bytes handed out in it. */
  ghost predicate Filled(p: Page, busy: nat)
    reads p`cells, p`freedSize
  {
    && Fine(p.cells) && Sum(p.cells, |p.cells|) == busy <= p.capacity
    && Dead(p.cells, |p.cells|) == p.freedSize
    && (p.cells == [] || SomeLive(p.cells))
  }

  /** A page that is not the one being filled: it has a live block, and if it was made for a
      large block it has only that. */
  ghost predicate Full(p: Page)
    reads p`cells, p`freedSize, p`busySize
  {
    && Filled(p, p.busySize) && SomeLive(p.cells)
    && (p.capacity == PAGE_SIZE || (|p.cells| == 1 && p.capacity == p.busySize > LARGE))
  }

  ghost predicate IsSentinel(p: Page)
    reads p`cells, p`freedSize, p`busySize
  {
    p.cells == [] && p.freedSize == 0 && p.busySize == PAGE_SIZE
  }

  /** What a string header says of a block at `offset` with `size` bytes. */
  ghost function HeaderOf(offset: nat, size: nat): Header {
    Header(offset / ALIGNMENT % 0x1_0000, if size < MAX_ENCODED then size / ALIGNMENT % 0x1_0000 else 0)
  }

  class Allocator {
    const sentinel: Page
    var root: Page
    var busySize: nat
    /** Which page is at an address, and which header: what a cast of a pointer finds. */
    var memory: map<int, Page>
    var headers: map<int, Header>
    ghost var chain: seq<Page>
    /** Whether anything was ever asked for. */
    ghost var begun: bool
    /** The addresses of the blocks that hold strings. */
    ghost var texts: set<int>

    /** The pages but the one being filled. */
    ghost function Front(): seq<Page>
      requires |chain| > 0
      reads this`chain
    {
      chain[..|chain| - 1]
    }

    ghost predicate Listed()
      reads this`chain, this`root, this`memory, Pages(chain)`prev, Pages(chain)`next
    {
      && |chain| > 0 && chain[0] == sentinel && chain[|chain| - 1] == root
      && Links(chain) && Placed(chain, memory)
    }

    ghost predicate Valid()
      reads this, Pages(chain)
    {
      Listed() && (begun <==> |chain| > 1) && AllBehind(Front()) && RootOk()
    }

    ghost predicate AllBehind(ch: seq<Page>)
      reads this`headers, this`texts, Pages(ch)`cells, Pages(ch)`freedSize, Pages(ch)`busySize
    {
      forall p {:trigger Behind(p)} :: p in ch ==> Behind(p)
    }

    /** A page that is not the one being filled. */
    ghost predicate Behind(p: Page)
      reads this`headers, this`texts, p`cells, p`freedSize, p`busySize
    {
      (if p == sentinel then IsSentinel(p) else Full(p)) && HeadersOk(p)
    }

    ghost predicate RootOk()
      reads this`root, this`busySize, this`headers, this`texts, root`cells, root`freedSize, root`busySize
    {
      && (if root == sentinel then IsSentinel(root) && busySize == PAGE_SIZE
          else Filled(root, busySize) && root.capacity == PAGE_SIZE)
      && HeadersOk(root)
    }

    ghost predicate HeadersOk(p: Page)
      reads this`headers, this`texts, p`cells
    {
      forall i: nat {:trigger HeaderOk(p, i)} :: i < |p.cells| && p.cells[i].live ==> HeaderOk(p, i)
    }

    ghost predicate HeaderOk(p: Page, i: nat)
      requires i < |p.cells|
      reads this`headers, this`texts, p`cells
    {
      p.Address(i) in texts ==>
        p.Address(i) in headers && headers[p.Address(i)] == HeaderOf(Sum(p.cells, i), p.cells[i].size)
    }

    /** The first page is part of the document itself, which has `size` bytes for it; it passes
        for full. */
    constructor (base: int, size: nat)
      ensures Valid() && !begun && chain == [sentinel] && fresh(sentinel) && root == sentinel
      ensures sentinel.base == base && sentinel.capacity == size
    {
      var s := new Page(base, size);
      s.busySize := PAGE_SIZE;
      sentinel, root, busySize := s, s, PAGE_SIZE;
      memory, headers := map[base := s], map[];
      chain, texts, begun := [s], {}, false;
    }

    /** The memory at an address is going to be used anew: no string is there. */
    ghost method Forget(address: int)
      requires Valid()
      modifies this`texts
      ensures Valid() && texts == old(texts) - {address}
    {
      texts := texts - {address};
      forall p | p in chain ensures HeadersOk(p) {
        assert p == root || p in Front();
        assert old(p == root || Behind(p));
        assert forall i: nat :: i < |p.cells| && p.cells[i].live ==> old(HeaderOk(p, i));
      }
      forall p | p in Front() ensures Behind(p) {
        assert old(Behind(p));
      }
    }

    /** The usual case: the block goes behind the others of the page being filled. */
    method TakeHere(size: nat) returns (address: int, page: Page)
      requires Valid() && size > 0 && size % ALIGNMENT == 0 && busySize + size <= PAGE_SIZE
      modifies this`busySize, this`texts, root`cells
      ensures Valid() && page == root && root != sentinel
      ensures page.cells == old(page.cells) + [Cell(size, true)]
      ensures address == page.Address(|page.cells| - 1) && texts == old(texts) - {address}
    {
      address, page := root.base + PAGE_HEADER + busySize, root;
      Forget(address);
      ghost var was := root.cells;
      busySize := busySize + size;
      root.cells := was + [Cell(size, true)];
      SumAppend(was, Cell(size, true), |was|);
      assert root.cells[|was|].live;
      forall i: nat | i < |was| && was[i].live ensures HeaderOk(root, i) {
        assert old(HeaderOk(root, i));
        SumAppend(was, Cell(size, true), i);
      }
      forall p | p in Front() ensures Behind(p) {
        assert old(Behind(p));
        assert p != root;
      }
    }

    /** A new page behind all others, which becomes the one being filled. */
    method LinkLast(page: Page)
      requires Listed() && page !in chain && page.next == null
      requires forall p :: p in chain ==> Apart(p, page.base, page.capacity)
      modifies this`root, this`memory, this`chain, root`next, page`prev
      ensures Listed() && root == page && chain == Insert(old(chain), |old(chain)|, page) && Front() == old(chain)
    {
      InsertPlaced(chain, memory, |chain|, page);
      page.prev := root;
      root.next := page;
      root := page;
      memory := memory[page.base := page];
      chain := Insert(chain, |chain|, page);
      forall i: nat | i < |chain| ensures Linked(chain, i) {
        assert i < |chain| - 1 ==> old(Linked(chain, i));
      }
    }

    /** A new page in front of the one being filled. */
    method LinkBeforeLast(page: Page)
      requires Listed() && |chain| > 1 && page !in chain
      requires forall p :: p in chain ==> Apart(p, page.base, page.capacity)
      modifies this`memory, this`chain, root`prev, {chain[|chain| - 2]}`next, page`prev, page`next
      ensures Listed() && chain == Insert(old(chain), |old(chain)| - 1, page) && Front() == old(Front()) + [page]
    {
      ghost var n := |chain|;
      assert Linked(chain, n - 1);
      InsertPlaced(chain, memory, n - 1, page);
      page.prev := root.prev;
      page.next := root;
      root.prev.next := page;
      root.prev := page;
      memory := memory[page.base := page];
      chain := Insert(chain, n - 1, page);
      forall i: nat | i < |chain| ensures Linked(chain, i) {
        assert i < n - 1 ==> old(Linked(chain, i));
        assert i >= n - 1 ==> old(Linked(chain, n - 1));
      }
    }

    /** `allocate_page`, with its first block. */
    method NewPage(base: int, capacity: nat, size: nat) returns (page: Page)
      requires 0 < size <= capacity && size % ALIGNMENT == 0 && base + PAGE_HEADER !in texts
      ensures fresh(page) && page.base == base && page.capacity == capacity && page.cells == [Cell(size, true)]
      ensures page.next == null && page.prev == null && page.busySize == size && Filled(page, size) && HeadersOk(page)
      ensures page.Address(0) == base + PAGE_HEADER && SomeLive(page.cells)
    {
      page := new Page(base, capacity);
      page.busySize := size;
      page.cells := [Cell(size, true)];
      assert page.cells[0].live;
    }

    /** The page that was filled so far joins the others. */
    method Retire()
      requires Valid() && (root != sentinel ==> busySize > 0)
      modifies root`busySize
      ensures Listed() && AllBehind(chain)
    {
      root.busySize := busySize;
      forall p | p in chain ensures Behind(p) {
        assert p == root || p in Front();
        assert p != root ==> old(Behind(p));
      }
    }

    method OpenPage(size: nat, base: int) returns (page: Page)
      requires Listed() && AllBehind(chain) && 0 < size <= PAGE_SIZE && size % ALIGNMENT == 0
      requires base + PAGE_HEADER !in texts && forall p :: p in chain ==> Apart(p, base, PAGE_SIZE)
      modifies this`root, this`memory, this`chain, root`next
      ensures Listed() && |chain| > 1 && AllBehind(Front()) && fresh(page) && page.base == base && root == page
      ensures chain == Insert(old(chain), |old(chain)|, page) && page.cells == [Cell(size, true)]
      ensures page.Address(0) == base + PAGE_HEADER && page.capacity == PAGE_SIZE
      ensures Filled(page, size) && HeadersOk(page)
    {
      ghost var was := chain;
      page := NewPage(base, PAGE_SIZE, size);
      assert AllBehind(was);
      LinkLast(page);
      assert AllBehind(was);
    }

    /** `allocate_memory_oob` for a small block: a new page becomes the one being filled. */
    method TakeInNewPage(size: nat, base: int) returns (address: int, page: Page)
      requires Valid() && 0 < size <= LARGE && size % ALIGNMENT == 0 && busySize + size > PAGE_SIZE
      requires forall p :: p in chain ==> Apart(p, base, PAGE_SIZE)
      modifies this`root, this`busySize, this`memory, this`chain, this`begun, this`texts, root`busySize, root`next
      ensures Valid() && fresh(page) && page.base == base && root == page
      ensures chain == Insert(old(chain), |old(chain)|, page) && page.cells == [Cell(size, true)]
      ensures address == page.Address(0) && texts == old(texts) - {address}
    {
      address := base + PAGE_HEADER;
      Forget(address);
      Retire();
      ghost var was := chain;
      busySize, begun := size, true;
      page := OpenPage(size, base);
      assert AllBehind(was);
    }

    /** `allocate_memory_oob` for a large block: it has a page of its own, in front of the one
        being filled. */
    method TakeOwnPage(size: nat, base: int) returns (address: int, page: Page)
      requires Valid() && size > LARGE && size % ALIGNMENT == 0 && begun
      requires forall p :: p in chain ==> Apart(p, base, size)
      modifies this`memory, this`chain, this`texts, root`prev, {chain[|chain| - 2]}`next
      ensures Valid() && fresh(page) && page.base == base && root == old(root)
      ensures chain == Insert(old(chain), |old(chain)| - 1, page) && page.cells == [Cell(size, true)]
      ensures address == page.Address(0) && texts == old(texts) - {address}
    {
      address := base + PAGE_HEADER;
      Forget(address);
      ghost var was := Front();
      page := NewPage(base, size, size);
      assert AllBehind(was + [page]);
      LinkBeforeLast(page);
      assert AllBehind(was + [page]);
      assert Front() == was + [page];
    }

    /** `allocate_memory`: a block in the page being filled if it fits, otherwise in a new page.
        `base` is where the system has room for the new page; the first request is small. */
    method AllocateMemory(size: nat, base: int) returns (address: int, page: Page)
      requires Valid() && size > 0 && size % ALIGNMENT == 0 && (begun || size <= LARGE)
      requires busySize + size > PAGE_SIZE ==> forall p :: p in chain ==> Apart(p, base, NewCapacity(size))
      modifies this`root, this`busySize, this`memory, this`chain, this`begun, this`texts, Pages(chain)
      ensures Valid() && begun && page in chain && |page.cells| > 0
      ensures address == page.Address(|page.cells| - 1) && texts == old(texts) - {address}
      ensures if old(busySize) + size <= PAGE_SIZE
              then chain == old(chain) && page == root && page.cells == old(root.cells) + [Cell(size, true)]
              else fresh(page) && page.base == base && page.cells == [Cell(size, true)]
                   && (size <= LARGE <==> page == root)
                   && chain == Insert(old(chain), if size <= LARGE then |old(chain)| else |old(chain)| - 1, page)
      ensures forall q :: q in old(chain) && q != page ==> q.cells == old(q.cells)
    {
      if busySize + size <= PAGE_SIZE {
        address, page := TakeHere(size);
      } else if size <= LARGE {
        address, page := TakeInNewPage(size, base);
      } else {
        address, page := TakeOwnPage(size, base);
      }
    }

    /** The page has been counted as far as it was handed out, and what was given back. */
    ghost predicate Marked(page: Page)
      reads this`headers, this`texts, page`cells, page`freedSize, page`busySize
    {
      && Fine(page.cells) && Sum(page.cells, |page.cells|) == page.busySize <= page.capacity
      && Dead(page.cells, |page.cells|) == page.freedSize
      && (page.freedSize == page.busySize <==> !SomeLive(page.cells))
      && (page.capacity == PAGE_SIZE || (|page.cells| == 1 && page.capacity == page.busySize > LARGE))
      && HeadersOk(page)
    }

    ghost predicate OthersBehind(page: Page)
      requires |chain| > 0
      reads this`chain, this`headers, this`texts, Pages(chain)`cells, Pages(chain)`freedSize, Pages(chain)`busySize
    {
      forall p {:trigger Behind(p)} :: p in Front() && p != page ==> Behind(p)
    }

    /** A block with `size` bytes is given back. */
    method Mark(page: Page, size: nat, ghost i: nat)
      requires Valid() && page in chain && i < |page.cells| && page.cells[i] == Cell(size, true)
      modifies page`busySize, page`freedSize, page`cells
      ensures Listed() && page != sentinel && Marked(page) && page.cells == Kill(old(page.cells), i)
      ensures OthersBehind(page) && (if page == root then root.capacity == PAGE_SIZE && root.busySize == busySize else RootOk())
    {
      assert page == root || Behind(page);
      ghost var was := page.cells;
      if page == root {
        page.busySize := busySize;
      }
      page.freedSize := page.freedSize + size;
      page.cells := Kill(was, i);
      SumKill(was, i, |was|);
      AllDead(page.cells, |was|);
      forall k: nat | k < |was| && page.cells[k].live ensures HeaderOk(page, k) {
        assert old(HeaderOk(page, k));
        SumKill(was, i, k);
      }
      forall p | p in Front() && p != page ensures Behind(p) {
        assert old(Behind(p));
      }
    }

    /** A page out of the list. */
    method Unlink(page: Page, ghost k: nat)
      requires Listed() && 0 < k < |chain| - 1 && chain[k] == page
      modifies this`memory, this`chain, {chain[k - 1]}`next, {chain[k + 1]}`prev
      ensures Listed() && chain == Remove(old(chain), k) && Front() == Remove(old(Front()), k)
    {
      assert Linked(chain, k);
      page.prev.next := page.next;
      page.next.prev := page.prev;
      DeallocatePage(page);
      ghost var was := chain;
      chain := Remove(chain, k);
      forall i: nat | i < |chain| ensures Linked(chain, i) {
        assert old(Linked(chain, if i < k then i else i + 1));
        assert i == k - 1 ==> chain[i] == was[k - 1];
        assert i == k ==> chain[i] == was[k + 1];
      }
      RemovePlaced(was, old(memory), k);
    }

    /** `deallocate_page`: its memory goes back to the system. */
    method DeallocatePage(page: Page)
      modifies this`memory
      ensures memory == old(memory) - {page.base}
    {
      memory := memory - {page.base};
    }

    /** The page being filled is empty again. */
    method Reset()
      requires Listed() && root != sentinel && Marked(root) && root.capacity == PAGE_SIZE && OthersBehind(root)
      requires begun <==> |chain| > 1
      modifies this`busySize, root`busySize, root`freedSize, root`cells
      ensures Valid() && root.cells == []
    {
      root.busySize := 0;
      root.freedSize := 0;
      root.cells := [];
      busySize := 0;
      forall p | p in Front() ensures Behind(p) {
        assert p != root && old(Behind(p));
      }
    }

    /** The page still has a live block. */
    ghost method StaysValid(page: Page)
      requires Listed() && page in chain && page != sentinel && Marked(page) && OthersBehind(page)
      requires if page == root then root.capacity == PAGE_SIZE && root.busySize == busySize else RootOk()
      requires SomeLive(page.cells) && (begun <==> |chain| > 1)
      ensures Valid()
    {
      forall p | p in Front() ensures Behind(p) {
        assert p == page || Behind(p);
      }
    }

    /** The page is not there any more. */
    ghost method AfterUnlink(was: seq<Page>, k: nat)
      requires Listed() && 0 < k < |was| - 1 && Front() == Remove(was[..|was| - 1], k) && begun
      requires forall i, j :: 0 <= i < j < |was| ==> was[i] != was[j]
      requires forall p :: p in was[..|was| - 1] && p != was[k] ==> Behind(p)
      requires RootOk()
      ensures Valid()
    {
      forall p | p in Front() ensures Behind(p) {
        var i :| 0 <= i < |Front()| && Front()[i] == p;
        assert p == was[if i < k then i else i + 1];
        assert p in was[..|was| - 1];
      }
    }

    /** `deallocate_memory`: block number `i` of a page is given back. */
    method DeallocateMemory(address: int, size: nat, page: Page, ghost i: nat) returns (ghost k: nat)
      requires Valid() && page in chain && i < |page.cells| && page.cells[i] == Cell(size, true) && address == page.Address(i)
      modifies this`busySize, this`memory, this`chain, Pages(chain)
      ensures Valid() && k < |old(chain)| && old(chain)[k] == page && page != sentinel
      ensures var rest := Kill(old(page.cells), i);
              if SomeLive(rest) then chain == old(chain) && page.cells == rest
              else if page == root then chain == old(chain) && page.cells == []
              else chain == Remove(old(chain), k)
      ensures forall q :: q in old(chain) && q != page ==> q.cells == old(q.cells)
    {
      k :| k < |chain| && chain[k] == page;
      Mark(page, size, i);
      assert Linked(chain, k);
      if page.freedSize == page.busySize {
        if page.next == null {
          Reset();
        } else {
          ghost var was := chain;
          Unlink(page, k);
          AfterUnlink(was, k);
        }
      } else {
        StaysValid(page);
      }
    }

    /** How many bytes of a page are handed out. */
    ghost function Busy(p: Page): nat
      reads this`root, this`busySize, p`busySize
    {
      if p == root then busySize else p.busySize
    }

    lemma CellsOf(p: Page)
      requires Valid() && p in chain && p != sentinel
      ensures Fine(p.cells) && Sum(p.cells, |p.cells|) == Busy(p) <= p.capacity
      ensures Dead(p.cells, |p.cells|) == p.freedSize
      ensures p != root ==> SomeLive(p.cells)
      ensures p.capacity == PAGE_SIZE || (|p.cells| == 1 && p.capacity == p.busySize == Busy(p) > LARGE)
      ensures HeadersOk(p)
    {
      assert p == root || p in Front();
      assert p == root || Behind(p);
    }

    lemma AllHeaders()
      requires Valid()
      ensures forall p :: p in chain ==> HeadersOk(p)
    {
      forall p | p in chain ensures HeadersOk(p) {
        assert p == root || p in Front();
        assert p == root || Behind(p);
      }
    }

    lemma SentinelEmpty()
      requires Valid()
      ensures sentinel in chain && sentinel.cells == []
    {
      assert sentinel == root || sentinel in Front();
      assert sentinel == root || Behind(sentinel);
    }

    /** Every block lies in its page, and two blocks do not overlap. */
    lemma BlocksApart(p: Page, i: nat, q: Page, j: nat)
      requires Valid() && p in chain && q in chain && i < |p.cells| && j < |q.cells| && (p != q || i != j)
      ensures p.base + PAGE_HEADER <= p.Address(i)
      ensures p.Address(i) + p.cells[i].size <= p.base + PAGE_HEADER + Busy(p) <= p.base + PAGE_HEADER + p.capacity
      ensures p.Address(i) + p.cells[i].size <= q.Address(j) || q.Address(j) + q.cells[j].size <= p.Address(i)
    {
      SentinelEmpty();
      CellsOf(p);
      CellsOf(q);
      SumOrder(p.cells, i, |p.cells|);
      SumOrder(q.cells, j, |q.cells|);
      if p == q {
        if i < j {
          SumOrder(p.cells, i, j);
        } else {
          SumOrder(p.cells, j, i);
        }
      } else {
        assert ApartPages(p, q);
      }
    }

    lemma AddressUnique(p: Page, i: nat, q: Page, j: nat)
      requires Valid() && p in chain && q in chain && i < |p.cells| && j < |q.cells|
      ensures p.Address(i) == q.Address(j) ==> p == q && i == j
    {
      if p != q || i != j {
        BlocksApart(p, i, q, j);
        SentinelEmpty();
        CellsOf(p);
        CellsOf(q);
      }
    }

    /** The bytes in live blocks and those given back are all that were handed out. */
    lemma BytesConserved(p: Page)
      requires Valid() && p in chain && p != sentinel
      ensures Live(p.cells, |p.cells|) + p.freedSize == Busy(p)
      ensures p.freedSize == Busy(p) <==> p == root && p.cells == []
    {
      CellsOf(p);
      LiveAndDead(p.cells, |p.cells|);
      AllDead(p.cells, |p.cells|);
      assert p == root ==> p.cells == [] || SomeLive(p.cells);
    }

    /** `allocate_string`. */
    method AllocateString(length: nat, base: int) returns (text: int, page: Page)
      requires Valid() && (begun || StringSize(length) <= LARGE)
      requires busySize + StringSize(length) > PAGE_SIZE ==>
                 forall p :: p in chain ==> Apart(p, base, NewCapacity(StringSize(length)))
      modifies this`root, this`busySize, this`memory, this`chain, this`begun, this`texts, this`headers, Pages(chain)
      ensures Valid() && begun && page in chain && |page.cells| > 0
      ensures page.cells[|page.cells| - 1] == Cell(StringSize(length), true)
      ensures text == page.Address(|page.cells| - 1) + STRING_HEADER && text - STRING_HEADER in texts
      ensures if old(busySize) + StringSize(length) <= PAGE_SIZE
              then chain == old(chain) && page == root && page.cells == old(root.cells) + [Cell(StringSize(length), true)]
              else fresh(page) && page.base == base && page.cells == [Cell(StringSize(length), true)]
                   && chain == Insert(old(chain), if StringSize(length) <= LARGE then |old(chain)| else |old(chain)| - 1, page)
      ensures forall q :: q in old(chain) && q != page ==> q.cells == old(q.cells)
    {
      var fullSize := StringSize(length);
      var address;
      address, page := AllocateMemory(fullSize, base);
      var pageOffset := address - page.base - PAGE_HEADER;
      WriteHeader(address, page, pageOffset, fullSize, |page.cells| - 1);
      text := address + STRING_HEADER;
    }

    method WriteHeader(address: int, page: Page, pageOffset: nat, fullSize: nat, ghost i: nat)
      requires Valid() && page in chain && i < |page.cells| && page.cells[i] == Cell(fullSize, true)
      requires address == page.Address(i) && pageOffset == Sum(page.cells, i)
      modifies this`headers, this`texts
      ensures Valid() && texts == old(texts) + {address}
    {
      AllHeaders();
      forall p, k: nat | p in chain && k < |p.cells| && (p != page || k != i) ensures p.Address(k) != address {
        AddressUnique(p, k, page, i);
      }
      headers := headers[address := Header(pageOffset / ALIGNMENT % 0x1_0000,
                                           if fullSize < MAX_ENCODED then fullSize / ALIGNMENT % 0x1_0000 else 0)];
      texts := texts + {address};
      forall p | p in chain ensures HeadersOk(p) {
        assert old(HeadersOk(p));
        forall k: nat | k < |p.cells| && p.cells[k].live ensures HeaderOk(p, k) {
          assert old(HeaderOk(p, k));
        }
      }
      forall p | p in Front() ensures Behind(p) {
        assert old(Behind(p));
      }
    }

    /** What the header of a string says is where its page is and how large the block is. */
    lemma HeaderTells(p: Page, i: nat)
      requires Valid() && p in chain && i < |p.cells| && p.cells[i].live && p.Address(i) in texts
      ensures p.Address(i) in headers
      ensures var h := headers[p.Address(i)]; var base := p.Address(i) - (PAGE_HEADER + h.pageOffset * ALIGNMENT);
              base == p.base && base in memory && memory[base] == p
              && p.cells[i].size == if h.fullSize == 0 then p.busySize else h.fullSize * ALIGNMENT
    {
      SentinelEmpty();
      CellsOf(p);
      assert HeaderOk(p, i);
      SumAligned(p.cells, i);
      SumOrder(p.cells, i, |p.cells|);
    }

    /** `deallocate_string`: nothing but the address of the string is needed. */
    method DeallocateString(text: int, ghost page: Page, ghost i: nat) returns (ghost k: nat)
      requires Valid() && page in chain && i < |page.cells| && page.cells[i].live
      requires text == page.Address(i) + STRING_HEADER && page.Address(i) in texts
      modifies this`busySize, this`memory, this`chain, Pages(chain)
      ensures Valid() && k < |old(chain)| && old(chain)[k] == page && page != sentinel
      ensures var rest := Kill(old(page.cells), i);
              if SomeLive(rest) then chain == old(chain) && page.cells == rest
              else if page == root then chain == old(chain) && page.cells == []
              else chain == Remove(old(chain), k)
      ensures forall q :: q in old(chain) && q != page ==> q.cells == old(q.cells)
    {
      HeaderTells(page, i);
      var header := headers[text - STRING_HEADER];
      var pageOffset := PAGE_HEADER + header.pageOffset * ALIGNMENT;
      var found := memory[text - STRING_HEADER - pageOffset];
      var fullSize := if header.fullSize == 0 then found.busySize else header.fullSize * ALIGNMENT;
      k := DeallocateMemory(text - STRING_HEADER, fullSize, found, i);
    }
  }

  /** The size of a string with its header, rounded up. */
  function StringSize(length: nat): (r: nat)
    ensures STRING_HEADER + length <= r < STRING_HEADER + length + ALIGNMENT && r % ALIGNMENT == 0 && r > 0
  {
    (STRING_HEADER + length + (ALIGNMENT - 1)) / ALIGNMENT * ALIGNMENT
  }

  ghost function Live(cells: seq<Cell>, n: nat): nat
    requires n <= |cells|
  {
    if n == 0 then 0 else Live(cells, n - 1) + if cells[n - 1].live then cells[n - 1].size else 0
  }

  lemma {:induction false} LiveAndDead(cells: seq<Cell>, n: nat)
    requires n <= |cells|
    ensures Live(cells, n) + Dead(cells, n) == Sum(cells, n)
  {
    if n > 0 {
      LiveAndDead(cells, n - 1);
    }
  }

  lemma RemovePlaced(ch: seq<Page>, memory: map<int, Page>, at: nat)
    requires Placed(ch, memory) && at < |ch|
    ensures Placed(Remove(ch, at), memory - {ch[at].base})
  {
    var r := Remove(ch, at);
    forall p | p in r ensures p in ch && p.base != ch[at].base {
      var i :| 0 <= i < |r| && r[i] == p;
      assert p == ch[if i < at then i else i + 1];
      assert memory[p.base] == p;
    }
  }

  ghost function NewCapacity(size: nat): nat {
    if size <= LARGE then PAGE_SIZE else size
  }
}
