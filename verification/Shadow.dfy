/** Paged shadow memory: pages of byte expressions that are created when they are first written, and
    the iterators that walk over them with a pointer into the current page.

    Every operation is proved to do to the flat shadow (see module `FlatShadow`) what the concolic
    machine says. */
module Shadow {
  import opened BitVectors
  import opened Expressions
  import opened FlatShadow

  const PAGE_SIZE: nat := 4096

  /** Addresses are 64-bit numbers. */
  const ADDRESS_LIMIT: nat := 0x1_0000_0000_0000_0000

  type Cell = Option<Expr>

  function PageStart(addr: nat): nat {
    addr - addr % PAGE_SIZE
  }

  function PageOffset(addr: nat): (offset: nat)
    ensures offset < PAGE_SIZE
  {
    addr % PAGE_SIZE
  }

  lemma PageStartIsAligned(addr: nat)
    ensures PageStart(PageStart(addr)) == PageStart(addr)
  {
  }

  /** Addresses between two of the same page are on that page. */
  lemma SamePage(a: nat, b: nat, c: nat)
    requires a <= b <= c && PageStart(a) == PageStart(c)
    ensures PageStart(b) == PageStart(a)
  {
  }

  lemma SameCell(a: nat, b: nat)
    requires PageStart(a) == PageStart(b) && PageOffset(a) == PageOffset(b)
    ensures a == b
  {
  }

  /** Stepping to the neighbouring address either stays on the page or meets its boundary. */
  lemma NextOffset(addr: nat)
    ensures PageStart(addr + 1) == PageStart(addr) ==> PageOffset(addr + 1) == PageOffset(addr) + 1
  {
  }

  class ShadowPages {
    /** From page addresses to the shadow of the page, one cell per byte. */
    var pages: map<nat, array<Cell>>
    /** The shadow with paging forgotten, and the arrays that hold it. */
    ghost var flat: ShadowMap
    ghost var repr: set<array<Cell>>

    ghost predicate Valid()
      reads this, repr
    {
      && (forall p | p in pages :: PageStart(p) == p && pages[p] in repr && pages[p].Length == PAGE_SIZE)
      && (forall p, q | p in pages && q in pages && p != q :: pages[p] != pages[q])
      && (forall a :: CellAt(flat, a) == if PageStart(a) in pages then pages[PageStart(a)][PageOffset(a)] else None)
    }

    constructor ()
      ensures Valid() && flat == map[] && repr == {}
    {
      pages, flat, repr := map[], map[], {};
    }

    /** The page of an address, if it has a shadow. */
    function GetShadow(addr: nat): (page: array?<Cell>)
      reads this
      ensures page == null <==> PageStart(addr) !in pages
      ensures page != null ==> page == pages[PageStart(addr)]
    {
      if PageStart(addr) in pages then pages[PageStart(addr)] else null
    }

    /** The page of an address, created if need be.  No cell changes. */
    method GetOrCreateShadow(addr: nat) returns (page: array<Cell>)
      requires Valid()
      modifies this`pages, this`repr
      ensures Valid() && Grows(old(pages), pages) && fresh(repr - old(repr)) && old(repr) <= repr
      ensures PageStart(addr) in pages && page == pages[PageStart(addr)]
    {
      hide CellAt, PageStart, PageOffset;
      PageStartIsAligned(addr);
      var found := GetShadow(addr);
      if found != null {
        return found;
      }
      page := new Cell[PAGE_SIZE](_ => None);
      pages := pages[PageStart(addr) := page];
      repr := repr + {page};
    }
  }

  function SetCell(sh: ShadowMap, addr: nat, e: Cell): ShadowMap {
    match e
    case Some(x) => sh[addr := x]
    case None => sh - {addr}
  }

  lemma Extensional(a: ShadowMap, b: ShadowMap)
    requires forall x :: CellAt(a, x) == CellAt(b, x)
    ensures a == b
  {
    forall x
      ensures x in a <==> x in b
      ensures x in a ==> a[x] == b[x]
    {
      assert CellAt(a, x) == CellAt(b, x);
    }
  }

  /** Pages are added and never moved. */
  ghost predicate Grows(before: map<nat, array<Cell>>, after: map<nat, array<Cell>>) {
    forall p | p in before :: p in after && after[p] == before[p]
  }

  /** Walks over shadow bytes for reading.  `shadow` is null while on a page that had no shadow when
      the iterator arrived. */
  class ReadShadowIterator {
    const store: ShadowPages
    var address: nat
    var shadow: array?<Cell>
    var index: nat

    /** A non-null pointer points to the cell of the current address. */
    ghost predicate Points(pages: map<nat, array<Cell>>)
      reads this
    {
      shadow != null ==>
        PageStart(address) in pages && shadow == pages[PageStart(address)] && index == PageOffset(address)
    }

    /** On a page without shadow in `before`. */
    ghost predicate NullOnlyIfAbsent(before: set<nat>)
      reads this
    {
      shadow == null ==> PageStart(address) !in before
    }

    constructor (store: ShadowPages, addr: nat)
      requires store.Valid()
      ensures this.store == store && address == addr && Points(store.pages) && NullOnlyIfAbsent(store.pages.Keys)
    {
      this.store := store;
      address := addr;
      shadow := store.GetShadow(addr);
      index := PageOffset(addr);
    }

    method Next(ghost before: set<nat>)
      requires store.Valid() && Points(store.pages) && NullOnlyIfAbsent(before)
      requires before <= store.pages.Keys && address + 1 < ADDRESS_LIMIT
      modifies this
      ensures address == old(address) + 1 && Points(store.pages) && NullOnlyIfAbsent(before)
    {
      var previousAddress := address;
      address := address + 1;
      NextOffset(previousAddress);
      if shadow != null {
        index := index + 1;
      }
      if PageStart(address) != PageStart(previousAddress) {
        shadow, index := store.GetShadow(address), PageOffset(address);
      }
    }

    method Previous(ghost before: set<nat>)
      requires store.Valid() && Points(store.pages) && NullOnlyIfAbsent(before)
      requires before <= store.pages.Keys && address > 0
      modifies this
      ensures address == old(address) - 1 && Points(store.pages) && NullOnlyIfAbsent(before)
    {
      var previousAddress := address;
      address := address - 1;
      NextOffset(address);
      if PageStart(address) != PageStart(previousAddress) {
        shadow, index := store.GetShadow(address), PageOffset(address);
      } else if shadow != null {
        index := index - 1;
      }
    }

    /** The iterator may be behind: a page created since it arrived still reads as null. */
    method Read() returns (e: Cell)
      requires store.Valid() && Points(store.pages)
      ensures e == if shadow != null then CellAt(store.flat, address) else None
    {
      e := if shadow != null then shadow[index] else None;
    }
  }

  /** Walks over shadow bytes for writing, creating pages on the way. */
  class WriteShadowIterator {
    const store: ShadowPages
    var address: nat
    var shadow: array<Cell>
    var index: nat

    ghost predicate Points(pages: map<nat, array<Cell>>, arrays: set<array<Cell>>)
      reads this
    {
      && PageStart(address) in pages && shadow == pages[PageStart(address)] && index == PageOffset(address)
      && shadow in arrays
    }

    constructor (store: ShadowPages, addr: nat)
      requires store.Valid()
      modifies store`pages, store`repr
      ensures this.store == store && address == addr && store.Valid() && Points(store.pages, store.repr)
      ensures Grows(old(store.pages), store.pages) && fresh(store.repr - old(store.repr))
        && old(store.repr) <= store.repr
    {
      var page := store.GetOrCreateShadow(addr);
      this.store := store;
      address, shadow, index := addr, page, PageOffset(addr);
    }

    method Next()
      requires store.Valid() && Points(store.pages, store.repr) && address + 1 < ADDRESS_LIMIT
      modifies this, store`pages, store`repr
      ensures address == old(address) + 1 && store.Valid() && Points(store.pages, store.repr)
      ensures Grows(old(store.pages), store.pages) && fresh(store.repr - old(store.repr))
        && old(store.repr) <= store.repr
    {
      var previousAddress := address;
      address := address + 1;
      NextOffset(previousAddress);
      index := index + 1;
      if PageStart(address) != PageStart(previousAddress) {
        shadow := store.GetOrCreateShadow(address);
        index := PageOffset(address);
      }
    }

    method Previous()
      requires store.Valid() && Points(store.pages, store.repr) && address > 0
      modifies this, store`pages, store`repr
      ensures address == old(address) - 1 && store.Valid() && Points(store.pages, store.repr)
      ensures Grows(old(store.pages), store.pages) && fresh(store.repr - old(store.repr))
        && old(store.repr) <= store.repr
    {
      var previousAddress := address;
      address := address - 1;
      NextOffset(address);
      if PageStart(address) != PageStart(previousAddress) {
        shadow := store.GetOrCreateShadow(address);
        index := PageOffset(address);
      } else {
        index := index - 1;
      }
    }

    method Write(e: Cell)
      requires store.Valid() && Points(store.pages, store.repr)
      modifies shadow, store`flat
      ensures store.Valid() && store.flat == SetCell(old(store.flat), address, e)
    {
      shadow[index] := e;
      store.flat := SetCell(store.flat, address, e);
      forall a
        ensures CellAt(store.flat, a)
             == if PageStart(a) in store.pages then store.pages[PageStart(a)][PageOffset(a)] else None
      {
        assert CellAt(old(store.flat), a)
            == old(if PageStart(a) in store.pages then store.pages[PageStart(a)][PageOffset(a)] else None);
        if PageStart(a) == PageStart(address) && PageOffset(a) == PageOffset(address) {
          SameCell(a, address);
        }
      }
    }
  }

  // ----- Facts about the flat shadow -----

  /** Cells off these pages are null. */
  ghost predicate OnPages(sh: ShadowMap, pages: set<nat>) {
    forall a :: PageStart(a) !in pages ==> CellAt(sh, a) == None
  }

  lemma FlatIsOnPages(store: ShadowPages)
    requires store.Valid()
    ensures OnPages(store.flat, store.pages.Keys)
  {
  }

  lemma OffPages(sh: ShadowMap, pages: set<nat>, a: nat)
    requires OnPages(sh, pages)
    ensures PageStart(a) !in pages ==> CellAt(sh, a) == None
  {
  }

  lemma ConcreteUpTo(sh: ShadowMap, addr: nat, i: nat)
    ensures IsConcrete(sh, addr, i + 1) <==> IsConcrete(sh, addr, i) && CellAt(sh, addr + i) == None
  {
    assert Cells(sh, addr, i + 1) == Cells(sh, addr, i) + [CellAt(sh, addr + i)];
    if IsConcrete(sh, addr, i + 1) {
      assert Cells(sh, addr, i + 1)[i] == None;
      forall k | 0 <= k < i
        ensures Cells(sh, addr, i)[k] == None
      {
        assert Cells(sh, addr, i + 1)[k] == None;
      }
    }
  }

  lemma ConcretePrefix(sh: ShadowMap, addr: nat, i: nat, len: nat)
    requires i <= len
    ensures IsConcrete(sh, addr, len) ==> IsConcrete(sh, addr, i)
  {
    if IsConcrete(sh, addr, len) {
      forall k | 0 <= k < i
        ensures Cells(sh, addr, i)[k] == None
      {
        assert Cells(sh, addr, len)[k] == None;
      }
    }
  }

  lemma NoPageNoCells(sh: ShadowMap, pages: set<nat>, addr: nat, len: nat)
    requires OnPages(sh, pages) && PageStart(addr) == PageStart(addr + len) && PageStart(addr) !in pages
    ensures IsConcrete(sh, addr, len)
  {
    forall i | 0 <= i < len
      ensures Cells(sh, addr, len)[i] == None
    {
      SamePage(addr, addr + i, addr + len);
      OffPages(sh, pages, addr + i);
    }
  }

  lemma CopyOne(sh: ShadowMap, dest: nat, src: nat, i: nat)
    ensures CopyShadow(sh, dest, src, i + 1) == SetCell(CopyShadow(sh, dest, src, i), dest + i, CellAt(sh, src + i))
  {
    hide CopyShadow;
    var next, prev := CopyShadow(sh, dest, src, i + 1), CopyShadow(sh, dest, src, i);
    forall a
      ensures CellAt(next, a) == CellAt(SetCell(prev, dest + i, CellAt(sh, src + i)), a)
    {
      CopyShadowAt(sh, dest, src, i + 1, a);
      CopyShadowAt(sh, dest, src, i, a);
    }
    Extensional(next, SetCell(prev, dest + i, CellAt(sh, src + i)));
  }

  lemma CopyNone(sh: ShadowMap, dest: nat, src: nat)
    ensures CopyShadow(sh, dest, src, 0) == sh
  {
    Extensional(CopyShadow(sh, dest, src, 0), sh);
  }

  // ----- Operations -----

  /** `isConcrete`, with its fast path for ranges within one page. */
  method IsConcreteRange(store: ShadowPages, addr: nat, len: nat) returns (concrete: bool)
    requires store.Valid() && addr + len < ADDRESS_LIMIT
    ensures concrete == IsConcrete(store.flat, addr, len)
  {
    hide IsConcrete, CellAt, OnPages;
    FlatIsOnPages(store);
    if PageStart(addr) == PageStart(addr + len) && PageStart(addr) !in store.pages {
      NoPageNoCells(store.flat, store.pages.Keys, addr, len);
      return true;
    }
    concrete := AllOf(store, addr, len);
  }

  /** `std::all_of` over the range. */
  method AllOf(store: ShadowPages, addr: nat, len: nat) returns (concrete: bool)
    requires store.Valid() && addr + len < ADDRESS_LIMIT
    ensures concrete == IsConcrete(store.flat, addr, len)
  {
    hide IsConcrete, CellAt, OnPages, PageStart, ShadowPages.Valid;
    FlatIsOnPages(store);
    ghost var keys, i := store.pages.Keys, 0;
    var it := new ReadShadowIterator(store, addr);
    var end := new ReadShadowIterator(store, addr + len);
    NothingIsConcrete(store.flat, addr);
    while it.address != end.address
      invariant it.store == store && end.address == addr + len
      invariant store.Valid() && it.Points(store.pages) && it.NullOnlyIfAbsent(keys)
      invariant it.address == addr + i && i <= len
      invariant IsConcrete(store.flat, addr, i)
      modifies it
      decreases len - i
    {
      var e := it.Read();
      OffPages(store.flat, keys, addr + i);
      ConcreteUpTo(store.flat, addr, i);
      ConcretePrefix(store.flat, addr, i + 1, len);
      if e != None {
        return false;
      }
      it.Next(keys);
      i := i + 1;
    }
    return true;
  }

  lemma NothingIsConcrete(sh: ShadowMap, addr: nat)
    ensures IsConcrete(sh, addr, 0)
  {
  }

  /** The walk of a copy: `i` cells are done, and the iterators are at the next ones. */
  ghost predicate Walk(store: ShadowPages, first: ReadShadowIterator, result: WriteShadowIterator, keys: set<nat>)
    reads store, store.repr, first, result
  {
    && first.store == store && result.store == store && keys <= store.pages.Keys
    && store.Valid() && first.Points(store.pages) && first.NullOnlyIfAbsent(keys)
    && result.Points(store.pages, store.repr)
  }

  /** `*result = *first` */
  method CopyCell(store: ShadowPages, first: ReadShadowIterator, result: WriteShadowIterator, ghost keys: set<nat>,
                  ghost flat: ShadowMap)
    requires Walk(store, first, result, keys) && OnPages(flat, keys)
    requires CellAt(store.flat, first.address) == CellAt(flat, first.address)
    modifies store`flat, store.repr
    ensures Walk(store, first, result, keys)
    ensures store.flat == SetCell(old(store.flat), result.address, CellAt(flat, first.address))
  {
    hide CellAt, SetCell, OnPages, PageStart, ShadowPages.Valid;
    var e := first.Read();
    OffPages(flat, keys, first.address);
    result.Write(e);
  }

  /** `first++, result++` */
  method StepForward(store: ShadowPages, first: ReadShadowIterator, result: WriteShadowIterator, ghost keys: set<nat>)
    requires Walk(store, first, result, keys) && first.address + 1 < ADDRESS_LIMIT && result.address + 1 < ADDRESS_LIMIT
    modifies store`pages, store`repr, first, result
    ensures Walk(store, first, result, keys)
    ensures first.address == old(first.address) + 1 && result.address == old(result.address) + 1
    ensures fresh(store.repr - old(store.repr)) && old(store.repr) <= store.repr
  {
    hide CellAt, PageStart, ShadowPages.Valid;
    first.Next(keys);
    result.Next();
  }

  /** Iterators at a source and a destination address. */
  method Iterators(store: ShadowPages, dest: nat, src: nat)
    returns (first: ReadShadowIterator, result: WriteShadowIterator)
    requires store.Valid()
    modifies store`pages, store`repr
    ensures fresh(first) && fresh(result) && Walk(store, first, result, old(store.pages.Keys))
    ensures first.address == src && result.address == dest
    ensures fresh(store.repr - old(store.repr)) && old(store.repr) <= store.repr
  {
    hide CellAt, PageStart, ShadowPages.Valid;
    first := new ReadShadowIterator(store, src);
    result := new WriteShadowIterator(store, dest);
  }

  /** `std::copy` from the source range to the destination. */
  method CopyForward(store: ShadowPages, dest: nat, src: nat, len: nat)
    requires store.Valid() && src + len < ADDRESS_LIMIT && dest + len < ADDRESS_LIMIT
    requires dest <= src || src + len <= dest
    modifies store, store.repr
    ensures store.Valid() && fresh(store.repr - old(store.repr))
    ensures store.flat == CopyShadow(old(store.flat), dest, src, len)
  {
    hide CopyShadow, CellAt, SetCell, OnPages, Walk, ShadowPages.Valid;
    ghost var keys, flat, i := store.pages.Keys, store.flat, 0;
    FlatIsOnPages(store);
    var last := new ReadShadowIterator(store, src + len);
    var first, result := Iterators(store, dest, src);
    CopyNone(flat, dest, src);
    while first.address != last.address
      invariant fresh(first) && fresh(result) && last.address == src + len
      invariant Walk(store, first, result, keys) && fresh(store.repr - old(store.repr))
      invariant first.address == src + i && result.address == dest + i && i <= len
      invariant store.flat == CopyShadow(flat, dest, src, i)
      decreases len - i
    {
      CopyShadowAt(flat, dest, src, i, src + i);
      CopyOne(flat, dest, src, i);
      CopyCell(store, first, result, keys, flat);
      StepForward(store, first, result, keys);
      i := i + 1;
    }
    WalkIsValid(store, first, result, keys);
  }

  lemma WalkIsValid(store: ShadowPages, first: ReadShadowIterator, result: WriteShadowIterator, keys: set<nat>)
    requires Walk(store, first, result, keys)
    ensures store.Valid()
  {
  }

  /** `--result, --first` */
  method StepBackward(store: ShadowPages, first: ReadShadowIterator, result: WriteShadowIterator, ghost keys: set<nat>)
    requires Walk(store, first, result, keys) && first.address > 0 && result.address > 0
    modifies store`pages, store`repr, first, result
    ensures Walk(store, first, result, keys)
    ensures first.address == old(first.address) - 1 && result.address == old(result.address) - 1
    ensures fresh(store.repr - old(store.repr)) && old(store.repr) <= store.repr
  {
    hide CellAt, PageStart, ShadowPages.Valid;
    result.Previous();
    first.Previous(keys);
  }

  lemma CopyOneBack(sh: ShadowMap, dest: nat, src: nat, len: nat, i: nat)
    requires i < len
    ensures CopyShadow(sh, dest + i, src + i, len - i)
         == SetCell(CopyShadow(sh, dest + (i + 1), src + (i + 1), len - (i + 1)), dest + i, CellAt(sh, src + i))
  {
    hide CopyShadow;
    var next := CopyShadow(sh, dest + i, src + i, len - i);
    var prev := CopyShadow(sh, dest + (i + 1), src + (i + 1), len - (i + 1));
    forall a
      ensures CellAt(next, a) == CellAt(SetCell(prev, dest + i, CellAt(sh, src + i)), a)
    {
      CopyShadowAt(sh, dest + i, src + i, len - i, a);
      CopyShadowAt(sh, dest + (i + 1), src + (i + 1), len - (i + 1), a);
    }
    Extensional(next, SetCell(prev, dest + i, CellAt(sh, src + i)));
  }

  /** `std::copy_backward` from the source range to the one that ends where the destination does. */
  method CopyBackward(store: ShadowPages, dest: nat, src: nat, len: nat)
    requires store.Valid() && src + len < ADDRESS_LIMIT && dest + len < ADDRESS_LIMIT
    requires src <= dest
    modifies store, store.repr
    ensures store.Valid() && fresh(store.repr - old(store.repr))
    ensures store.flat == CopyShadow(old(store.flat), dest, src, len)
  {
    hide CopyShadow, CellAt, SetCell, OnPages, Walk, ShadowPages.Valid;
    ghost var keys, flat := store.pages.Keys, store.flat;
    ghost var i: nat := len;
    FlatIsOnPages(store);
    var first := new ReadShadowIterator(store, src);
    var last, result := Iterators(store, dest + len, src + len);
    CopyNone(flat, dest + len, src + len);
    while first.address != last.address
      invariant fresh(last) && fresh(result) && first.address == src
      invariant Walk(store, last, result, keys) && fresh(store.repr - old(store.repr))
      invariant last.address == src + i && result.address == dest + i && 0 <= i <= len
      invariant store.flat == CopyShadow(flat, dest + i, src + i, len - i)
      decreases i
    {
      StepBackward(store, last, result, keys);
      i := i - 1;
      CopyShadowAt(flat, dest + (i + 1), src + (i + 1), len - (i + 1), src + i);
      CopyOneBack(flat, dest, src, len, i);
      CopyCell(store, last, result, keys, flat);
    }
    WalkIsValid(store, last, result, keys);
  }

  // ----- The run-time library's operations on memory -----

  lemma ConcreteCopy(sh: ShadowMap, dest: nat, src: nat, len: nat)
    requires IsConcrete(sh, src, len) && IsConcrete(sh, dest, len)
    ensures CopyShadow(sh, dest, src, len) == sh
  {
    hide CopyShadow;
    forall a: nat
      ensures CellAt(CopyShadow(sh, dest, src, len), a) == CellAt(sh, a)
    {
      CopyShadowAt(sh, dest, src, len, a);
      if dest <= a < dest + len {
        assert Cells(sh, dest, len)[a - dest] == None && Cells(sh, src, len)[a - dest] == None;
      }
    }
    Extensional(CopyShadow(sh, dest, src, len), sh);
  }

  /** `_sym_memcpy` copies all cells at once when the ranges do not overlap, or the destination does
      not come after the source. */
  method MemCpy(store: ShadowPages, dest: nat, src: nat, len: nat)
    requires store.Valid() && src + len < ADDRESS_LIMIT && dest + len < ADDRESS_LIMIT
    requires dest <= src || src + len <= dest
    modifies store, store.repr
    ensures store.Valid() && fresh(store.repr - old(store.repr))
    ensures store.flat == CopyShadow(old(store.flat), dest, src, len)
  {
    hide IsConcrete, CopyShadow;
    var sourceConcrete := IsConcreteRange(store, src, len);
    if sourceConcrete {
      var destConcrete := IsConcreteRange(store, dest, len);
      if destConcrete {
        ConcreteCopy(store.flat, dest, src, len);
        return;
      }
    }
    CopyForward(store, dest, src, len);
  }

  /** `_sym_memmove` copies all cells at once, whatever the overlap. */
  method MemMove(store: ShadowPages, dest: nat, src: nat, len: nat)
    requires store.Valid() && src + len < ADDRESS_LIMIT && dest + len < ADDRESS_LIMIT
    modifies store, store.repr
    ensures store.Valid() && fresh(store.repr - old(store.repr))
    ensures store.flat == CopyShadow(old(store.flat), dest, src, len)
  {
    hide IsConcrete, CopyShadow;
    var sourceConcrete := IsConcreteRange(store, src, len);
    if sourceConcrete {
      var destConcrete := IsConcreteRange(store, dest, len);
      if destConcrete {
        ConcreteCopy(store.flat, dest, src, len);
        return;
      }
    }
    if dest > src {
      CopyBackward(store, dest, src, len);
    } else {
      CopyForward(store, dest, src, len);
    }
  }

  lemma FillOne(sh: ShadowMap, addr: nat, i: nat, e: Cell)
    ensures FillShadow(sh, addr, i + 1, e) == SetCell(FillShadow(sh, addr, i, e), addr + i, e)
  {
    hide FillShadow;
    var next, prev := FillShadow(sh, addr, i + 1, e), FillShadow(sh, addr, i, e);
    forall a
      ensures CellAt(next, a) == CellAt(SetCell(prev, addr + i, e), a)
    {
      FillShadowAt(sh, addr, i + 1, e, a);
      FillShadowAt(sh, addr, i, e, a);
    }
    Extensional(next, SetCell(prev, addr + i, e));
  }

  lemma FillNone(sh: ShadowMap, addr: nat, e: Cell)
    ensures FillShadow(sh, addr, 0, e) == sh
  {
    Extensional(FillShadow(sh, addr, 0, e), sh);
  }

  /** The walk of a write. */
  ghost predicate WriteWalk(store: ShadowPages, it: WriteShadowIterator)
    reads store, store.repr, it
  {
    it.store == store && store.Valid() && it.Points(store.pages, store.repr)
  }

  method BeginWrite(store: ShadowPages, addr: nat) returns (it: WriteShadowIterator)
    requires store.Valid()
    modifies store`pages, store`repr
    ensures fresh(it) && WriteWalk(store, it) && it.address == addr
    ensures fresh(store.repr - old(store.repr)) && old(store.repr) <= store.repr
  {
    it := new WriteShadowIterator(store, addr);
  }

  /** `*it = e, ++it` */
  method WriteStep(store: ShadowPages, it: WriteShadowIterator, e: Cell)
    requires WriteWalk(store, it) && it.address + 1 < ADDRESS_LIMIT
    modifies store, store.repr, it
    ensures WriteWalk(store, it) && it.address == old(it.address) + 1
    ensures store.flat == SetCell(old(store.flat), old(it.address), e)
    ensures fresh(store.repr - old(store.repr))
  {
    hide SetCell, CellAt, PageStart, ShadowPages.Valid;
    it.Write(e);
    it.Next();
  }

  lemma WriteWalkIsValid(store: ShadowPages, it: WriteShadowIterator)
    requires WriteWalk(store, it)
    ensures store.Valid()
  {
  }

  /** `std::fill` of a range. */
  method Fill(store: ShadowPages, addr: nat, len: nat, e: Cell)
    requires store.Valid() && addr + len < ADDRESS_LIMIT
    modifies store, store.repr
    ensures store.Valid() && fresh(store.repr - old(store.repr))
    ensures store.flat == FillShadow(old(store.flat), addr, len, e)
  {
    hide FillShadow, SetCell, WriteWalk;
    ghost var flat, i := store.flat, 0;
    var end := new WriteShadowIterator(store, addr + len);
    var it := BeginWrite(store, addr);
    FillNone(flat, addr, e);
    while it.address != end.address
      invariant fresh(it) && it != end && end.address == addr + len
      invariant WriteWalk(store, it) && fresh(store.repr - old(store.repr))
      invariant it.address == addr + i && i <= len
      invariant store.flat == FillShadow(flat, addr, i, e)
      decreases len - i
    {
      FillOne(flat, addr, i, e);
      WriteStep(store, it, e);
      i := i + 1;
    }
    WriteWalkIsValid(store, it);
  }

  lemma ConcreteClear(sh: ShadowMap, addr: nat, len: nat)
    requires IsConcrete(sh, addr, len)
    ensures Clear(sh, addr, len) == sh
  {
    hide Clear;
    forall a: nat
      ensures CellAt(Clear(sh, addr, len), a) == CellAt(sh, a)
    {
      FillShadowAt(sh, addr, len, None, a);
      if addr <= a < addr + len {
        assert Cells(sh, addr, len)[a - addr] == None;
      }
    }
    Extensional(Clear(sh, addr, len), sh);
  }

  /** `_sym_memset` */
  method MemSet(store: ShadowPages, addr: nat, value: Cell, len: nat)
    requires store.Valid() && addr + len < ADDRESS_LIMIT
    modifies store, store.repr
    ensures store.Valid() && fresh(store.repr - old(store.repr))
    ensures store.flat == FillShadow(old(store.flat), addr, len, value)
  {
    hide IsConcrete, Clear;
    if value == None {
      var concrete := IsConcreteRange(store, addr, len);
      if concrete {
        ConcreteClear(store.flat, addr, len);
        return;
      }
    }
    Fill(store, addr, len, value);
  }

  lemma WriteOne(sh: ShadowMap, addr: nat, len: nat, e: Expr, le: bool, i: nat)
    requires i < len
    ensures Written(sh, addr, len, e, le, i + 1)
         == SetCell(Written(sh, addr, len, e, le, i), addr + i, Some(StoredByte(e, le, len, i)))
  {
    hide StoredByte;
    var next, prev := Written(sh, addr, len, e, le, i + 1), Written(sh, addr, len, e, le, i);
    forall a: nat
      ensures CellAt(next, a) == CellAt(SetCell(prev, addr + i, Some(StoredByte(e, le, len, i))), a)
    {
    }
    Extensional(next, SetCell(prev, addr + i, Some(StoredByte(e, le, len, i))));
  }

  /** The first `n` bytes of a value stored in `len` bytes. */
  ghost function Written(sh: ShadowMap, addr: nat, len: nat, e: Expr, le: bool, n: nat): ShadowMap
    requires n <= len
  {
    sh + map a | a in Range(addr, n) :: StoredByte(e, le, len, a - addr)
  }

  lemma WrittenAll(sh: ShadowMap, addr: nat, len: nat, e: Expr, le: bool)
    ensures Written(sh, addr, len, e, le, 0) == sh
    ensures Written(sh, addr, len, e, le, len) == WriteShadow(sh, addr, len, Some(e), le)
  {
  }

  /** The byte that the loop of `_sym_write_memory` extracts. */
  function ByteToWrite(e: Expr, len: nat, i: nat, littleEndian: bool): Expr
    requires i < len
  {
    if littleEndian then Extract(8 * (i + 1) - 1, 8 * i, e) else Extract((len - i) * 8 - 1, (len - i - 1) * 8, e)
  }

  lemma ByteToWriteIsStored(e: Expr, len: nat, i: nat, littleEndian: bool)
    requires i < len
    ensures ByteToWrite(e, len, i, littleEndian) == StoredByte(e, littleEndian, len, i)
  {
  }

  method WriteBytes(store: ShadowPages, addr: nat, len: nat, e: Expr, littleEndian: bool)
    requires store.Valid() && addr + len < ADDRESS_LIMIT
    modifies store, store.repr
    ensures store.Valid() && fresh(store.repr - old(store.repr))
    ensures store.flat == WriteShadow(old(store.flat), addr, len, Some(e), littleEndian)
  {
    hide WriteShadow, Written, SetCell, WriteWalk, ByteToWrite, StoredByte;
    ghost var flat := store.flat;
    var end := new WriteShadowIterator(store, addr + len);
    var it := BeginWrite(store, addr);
    var i := 0;
    WrittenAll(flat, addr, len, e, littleEndian);
    while it.address != end.address
      invariant fresh(it) && it != end && end.address == addr + len
      invariant WriteWalk(store, it) && fresh(store.repr - old(store.repr))
      invariant it.address == addr + i && 0 <= i <= len
      invariant store.flat == Written(flat, addr, len, e, littleEndian, i)
      decreases len - i
    {
      WriteOne(flat, addr, len, e, littleEndian, i);
      ByteToWriteIsStored(e, len, i, littleEndian);
      WriteStep(store, it, Some(ByteToWrite(e, len, i, littleEndian)));
      i := i + 1;
    }
    WriteWalkIsValid(store, it);
  }

  /** `_sym_write_memory` */
  method WriteMemory(store: ShadowPages, addr: nat, len: nat, e: Cell, littleEndian: bool)
    requires store.Valid() && addr + len < ADDRESS_LIMIT && len > 0
    modifies store, store.repr
    ensures store.Valid() && fresh(store.repr - old(store.repr))
    ensures store.flat == WriteShadow(old(store.flat), addr, len, e, littleEndian)
  {
    hide IsConcrete, Clear;
    if e == None {
      var concrete := IsConcreteRange(store, addr, len);
      if concrete {
        ConcreteClear(store.flat, addr, len);
        return;
      }
      Fill(store, addr, len, None);
    } else {
      WriteBytes(store, addr, len, e.value, littleEndian);
    }
  }

  /** `_sym_read_memory`: a fold over the bytes of the range, with expressions made up for the
      concrete ones. */
  method ReadMemory(store: ShadowPages, mem: Memory, addr: nat, len: nat, littleEndian: bool) returns (result: Cell)
    requires store.Valid() && addr + len < ADDRESS_LIMIT && len > 0
    ensures result == ReadShadow(store.flat, mem, addr, len, littleEndian)
  {
    hide IsConcrete, ByteExprs;
    var concrete := IsConcreteRange(store, addr, len);
    if concrete {
      return None;
    }
    result := Accumulate(store, mem, addr, len, littleEndian);
  }

  /** The byte at an iterator, from the shadow or else from memory. */
  method ReadNonNull(store: ShadowPages, it: ReadShadowIterator, mem: Memory, ghost keys: set<nat>) returns (e: Expr)
    requires it.store == store && store.Valid() && it.Points(store.pages) && it.NullOnlyIfAbsent(keys)
    requires OnPages(store.flat, keys)
    ensures e == ByteExpr(store.flat, mem, it.address)
  {
    hide OnPages, ShadowPages.Valid, PageStart;
    var symbolicResult := it.Read();
    OffPages(store.flat, keys, it.address);
    match symbolicResult
    case Some(x) => e := x;
    case None => e := Const(MemAt(mem, it.address), 8);
  }

  lemma ConcatOne(sh: ShadowMap, mem: Memory, addr: nat, i: nat, le: bool)
    ensures ConcatBytes(le, ByteExprs(sh, mem, addr, i + 1))
         == if i == 0 then ByteExpr(sh, mem, addr)
            else if le then Concat(ByteExpr(sh, mem, addr + i), ConcatBytes(le, ByteExprs(sh, mem, addr, i)))
            else Concat(ConcatBytes(le, ByteExprs(sh, mem, addr, i)), ByteExpr(sh, mem, addr + i))
  {
    hide ByteExpr;
    assert ByteExprs(sh, mem, addr, i + 1)[..i] == ByteExprs(sh, mem, addr, i);
  }

  method Accumulate(store: ShadowPages, mem: Memory, addr: nat, len: nat, littleEndian: bool) returns (result: Cell)
    requires store.Valid() && addr + len < ADDRESS_LIMIT && len > 0
    ensures result == Some(ConcatBytes(littleEndian, ByteExprs(store.flat, mem, addr, len)))
  {
    hide ByteExpr, ByteExprs, ConcatBytes, OnPages, ShadowPages.Valid, PageStart;
    FlatIsOnPages(store);
    ghost var keys := store.pages.Keys;
    ghost var i := 0;
    var it := new ReadShadowIterator(store, addr);
    var end := new ReadShadowIterator(store, addr + len);
    result := None;
    while it.address != end.address
      invariant it.store == store && end.address == addr + len
      invariant store.Valid() && it.Points(store.pages) && it.NullOnlyIfAbsent(keys)
      invariant it.address == addr + i && 0 <= i <= len
      invariant result == if i == 0 then None else Some(ConcatBytes(littleEndian, ByteExprs(store.flat, mem, addr, i)))
      modifies it
      decreases len - i
    {
      var byteExpr := ReadNonNull(store, it, mem, keys);
      ConcatOne(store.flat, mem, addr, i, littleEndian);
      if result == None {
        result := Some(byteExpr);
      } else if littleEndian {
        result := Some(Concat(byteExpr, result.value));
      } else {
        result := Some(Concat(result.value, byteExpr));
      }
      it.Next(keys);
      i := i + 1;
    }
  }
}
