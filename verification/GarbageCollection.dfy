/** Releasing expressions that no shadow page and no registered region refers to.  Expressions are
    shared by value: equal ones are one allocation. */
module GarbageCollection {
  import opened BitVectors
  import opened Expressions
  import opened FlatShadow
  import opened Shadow

  // ----- What may happen between collections -----

  /** The set of all expressions handed out, and the places that are searched for them. */
  datatype Roots = Roots(live: set<Expr>, shadow: ShadowMap, regions: seq<seq<Cell>>)

  datatype Event =
    | Register(e: Expr)
    | Write(addr: nat, len: nat, value: Cell, littleEndian: bool)
    | Fill(addr: nat, len: nat, value: Cell)
    | Copy(dest: nat, src: nat, len: nat)
    | AddRegion(cells: seq<Cell>)
    | SetRegion(region: nat, index: nat, value: Cell)
    | Collect(threshold: nat)

  ghost predicate InShadow(shadow: ShadowMap, e: Expr) {
    exists a :: CellAt(shadow, a) == Some(e)
  }

  ghost predicate InRegions(regions: seq<seq<Cell>>, e: Expr) {
    exists k :: 0 <= k < |regions| && Some(e) in regions[k]
  }

  ghost predicate Reachable(r: Roots, e: Expr) {
    InShadow(r.shadow, e) || InRegions(r.regions, e)
  }

  /** Every expression that can still be found is allocated. */
  ghost predicate Safe(r: Roots) {
    forall e :: Reachable(r, e) ==> e in r.live
  }

  predicate IsLive(r: Roots, value: Cell) {
    value.Some? ==> value.value in r.live
  }

  /** Clients store expressions that are allocated. */
  predicate Permitted(r: Roots, ev: Event) {
    match ev
    case Fill(_, _, value) => IsLive(r, value)
    case AddRegion(cells) => forall i | 0 <= i < |cells| :: IsLive(r, cells[i])
    case SetRegion(_, _, value) => IsLive(r, value)
    case _ => true
  }

  /** The expressions of the bytes of a stored value; writing creates them. */
  function BytesOf(value: Cell, littleEndian: bool, len: nat): set<Expr> {
    match value
    case None => {}
    case Some(e) => set i | i in Range(0, len) && i < len :: StoredByte(e, littleEndian, len, i)
  }

  ghost function Happens(r: Roots, ev: Event): Roots {
    match ev
    case Register(e) => r.(live := r.live + {e})
    case Write(addr, len, value, le) =>
      r.(live := r.live + BytesOf(value, le, len), shadow := WriteShadow(r.shadow, addr, len, value, le))
    case Fill(addr, len, value) => r.(shadow := FillShadow(r.shadow, addr, len, value))
    case Copy(dest, src, len) => r.(shadow := CopyShadow(r.shadow, dest, src, len))
    case AddRegion(cells) => r.(regions := r.regions + [cells])
    case SetRegion(k, i, value) =>
      if k < |r.regions| && i < |r.regions[k]| then r.(regions := r.regions[k := r.regions[k][i := value]]) else r
    case Collect(threshold) => r.(live := Survivors(r, threshold))
  }

  ghost function Survivors(r: Roots, threshold: nat): set<Expr> {
    if |r.live| < threshold then r.live else set e | e in r.live && Reachable(r, e)
  }

  ghost function After(r: Roots, evs: seq<Event>): Roots {
    if evs == [] then r else Happens(After(r, evs[..|evs| - 1]), evs[|evs| - 1])
  }

  ghost predicate AllPermitted(r: Roots, evs: seq<Event>) {
    forall k | 0 <= k < |evs| :: Permitted(After(r, evs[..k]), evs[k])
  }

  lemma SetRegionReach(r: Roots, k: nat, i: nat, value: Cell, e: Expr)
    requires k < |r.regions| && i < |r.regions[k]|
    requires InRegions(r.regions[k := r.regions[k][i := value]], e)
    ensures InRegions(r.regions, e) || value == Some(e)
  {
    var regions := r.regions[k := r.regions[k][i := value]];
    var l :| 0 <= l < |regions| && Some(e) in regions[l];
    if l == k && value != Some(e) {
      var j :| 0 <= j < |regions[k]| && regions[k][j] == Some(e);
      assert r.regions[k][j] == Some(e);
    }
  }

  lemma AddRegionReach(r: Roots, cells: seq<Cell>, e: Expr)
    requires InRegions(r.regions + [cells], e)
    ensures InRegions(r.regions, e) || Some(e) in cells
  {
  }

  lemma ShadowReach(sh: ShadowMap, ev: Event, e: Expr)
    requires match ev
      case Write(addr, len, value, le) => InShadow(WriteShadow(sh, addr, len, value, le), e)
      case Fill(addr, len, value) => InShadow(FillShadow(sh, addr, len, value), e)
      case Copy(dest, src, len) => InShadow(CopyShadow(sh, dest, src, len), e)
      case _ => false
    ensures InShadow(sh, e) || match ev
      case Write(_, len, value, le) => e in BytesOf(value, le, len)
      case Fill(_, _, value) => value == Some(e)
      case _ => false
  {
    hide WriteShadow, FillShadow, CopyShadow, StoredByte;
    match ev
    case Write(addr, len, value, le) =>
      var a: nat :| CellAt(WriteShadow(sh, addr, len, value, le), a) == Some(e);
      WriteShadowAt(sh, addr, len, value, le, a);
      if addr <= a < addr + len {
        assert a - addr in Range(0, len);
      }
    case Fill(addr, len, value) =>
      var a: nat :| CellAt(FillShadow(sh, addr, len, value), a) == Some(e);
      FillShadowAt(sh, addr, len, value, a);
    case Copy(dest, src, len) =>
      var a: nat :| CellAt(CopyShadow(sh, dest, src, len), a) == Some(e);
      CopyShadowAt(sh, dest, src, len, a);
      if dest <= a < dest + len {
        assert CellAt(sh, a - dest + src) == Some(e);
      }
  }

  lemma EventKeepsSafe(r: Roots, ev: Event)
    requires Safe(r) && Permitted(r, ev)
    ensures Safe(Happens(r, ev))
  {
    hide InShadow, InRegions, WriteShadow, FillShadow, CopyShadow, BytesOf;
    var r' := Happens(r, ev);
    forall e | Reachable(r', e)
      ensures e in r'.live
    {
      match ev
      case Write(_, _, _, _) =>
        if !Reachable(r, e) {
          ShadowReach(r.shadow, ev, e);
        }
      case Fill(_, _, _) =>
        if !Reachable(r, e) {
          ShadowReach(r.shadow, ev, e);
        }
      case Copy(_, _, _) =>
        if !Reachable(r, e) {
          ShadowReach(r.shadow, ev, e);
        }
      case AddRegion(cells) =>
        if !Reachable(r, e) {
          AddRegionReach(r, cells, e);
        }
      case SetRegion(k, i, value) =>
        if !Reachable(r, e) {
          SetRegionReach(r, k, i, value, e);
        }
      case Register(_) => assert Reachable(r, e);
      case Collect(_) => assert Reachable(r, e);
    }
  }

  /** No interleaving of registrations, shadow operations and collections leaves a reachable
      expression unallocated. */
  lemma {:induction false} CollectionIsSafe(r: Roots, evs: seq<Event>)
    requires Safe(r) && AllPermitted(r, evs)
    ensures Safe(After(r, evs))
  {
    hide Safe, Permitted, Happens;
    if evs != [] {
      var n := |evs| - 1;
      forall k | 0 <= k < n
        ensures Permitted(After(r, evs[..n][..k]), evs[..n][k])
      {
        assert evs[..n][..k] == evs[..k];
        assert Permitted(After(r, evs[..k]), evs[k]);
      }
      CollectionIsSafe(r, evs[..n]);
      EventKeepsSafe(After(r, evs[..n]), evs[n]);
    }
  }

  // ----- The collector -----

  /** A registered region: the first cells of some memory of the program. */
  datatype ExpressionRegion = ExpressionRegion(start: array<Cell>, length: nat)

  class Runtime {
    const store: ShadowPages
    const threshold: nat
    var expressionRegions: seq<ExpressionRegion>
    var allocatedExpressions: set<Expr>

    ghost predicate Valid()
      reads this, store, store.repr
    {
      && store.Valid()
      && forall k | 0 <= k < |expressionRegions| ::
           expressionRegions[k].length <= expressionRegions[k].start.Length
    }

    ghost function Starts(): set<object>
      reads this
    {
      set k | 0 <= k < |expressionRegions| :: expressionRegions[k].start
    }

    ghost function RegionCells(): (cells: seq<seq<Cell>>)
      requires Valid()
      reads this, store, store.repr, Starts()
      ensures |cells| == |expressionRegions|
    {
      seq(|expressionRegions|,
          k requires 0 <= k < |expressionRegions| && Valid() reads this, store, store.repr, Starts() =>
            expressionRegions[k].start[..expressionRegions[k].length])
    }

    ghost function Model(): Roots
      requires Valid()
      reads this, store, store.repr, Starts()
    {
      Roots(allocatedExpressions, store.flat, RegionCells())
    }

    constructor (store: ShadowPages, threshold: nat)
      requires store.Valid()
      ensures this.store == store && this.threshold == threshold && Valid()
      ensures Model() == Roots({}, store.flat, [])
    {
      this.store := store;
      this.threshold := threshold;
      expressionRegions, allocatedExpressions := [], {};
    }

    /** `registerExpression` */
    method RegisterExpression(e: Expr) returns (result: Expr)
      requires Valid()
      modifies this`allocatedExpressions
      ensures result == e && Valid() && Model() == Happens(old(Model()), Register(e))
    {
      if e !in allocatedExpressions {
        allocatedExpressions := allocatedExpressions + {e};
      }
      assert allocatedExpressions == old(allocatedExpressions) + {e};
      assert RegionCells() == old(RegionCells());
      result := e;
    }

    /** `registerExpressionRegion` */
    method RegisterExpressionRegion(r: ExpressionRegion)
      requires Valid() && r.length <= r.start.Length
      modifies this`expressionRegions
      ensures Valid() && Model() == Happens(old(Model()), AddRegion(r.start[..r.length]))
    {
      expressionRegions := expressionRegions + [r];
      assert RegionCells() == old(RegionCells()) + [r.start[..r.length]];
    }

    method CollectFromRegions() returns (reachable: set<Expr>)
      requires Valid()
      ensures forall e :: e in reachable <==> InRegions(RegionCells(), e)
    {
      hide InRegions;
      reachable := {};
      ghost var cells := RegionCells();
      NoRegions();
      for k := 0 to |expressionRegions|
        invariant forall e :: e in reachable <==> InRegions(cells[..k], e)
      {
        var found := CollectFrom(expressionRegions[k].start, expressionRegions[k].length);
        assert cells[k] == expressionRegions[k].start[..expressionRegions[k].length];
        RegionSnoc(cells, k);
        reachable := reachable + found;
      }
      assert cells[..|expressionRegions|] == cells == RegionCells();
    }

    method CollectFromPages() returns (reachable: set<Expr>)
      requires Valid()
      ensures forall e :: e in reachable <==> InShadow(store.flat, e)
    {
      hide InShadow;
      reachable := {};
      var todo, done := store.pages.Keys, {};
      while todo != {}
        invariant todo + done == store.pages.Keys
        invariant forall e :: e in reachable <==> exists p :: p in done && Some(e) in store.pages[p][..]
        decreases |todo|
      {
        var p :| p in todo;
        var found := CollectFrom(store.pages[p], PAGE_SIZE);
        assert store.pages[p][..PAGE_SIZE] == store.pages[p][..];
        reachable := reachable + found;
        todo, done := todo - {p}, done + {p};
      }
      assert done == store.pages.Keys;
      forall e
        ensures InShadow(store.flat, e) <==> exists p :: p in done && Some(e) in store.pages[p][..]
      {
        ShadowIsPages(store, e);
      }
    }

    /** `collectReachableExpressions` */
    method CollectReachableExpressions() returns (reachable: set<Expr>)
      requires Valid()
      ensures forall e :: e in reachable <==> InShadow(store.flat, e) || InRegions(RegionCells(), e)
    {
      hide InShadow, InRegions;
      ghost var cells := RegionCells();
      var fromRegions := CollectFromRegions();
      assert forall e :: e in fromRegions <==> InRegions(cells, e) by {
        assert RegionCells() == cells;
      }
      var fromPages := CollectFromPages();
      assert RegionCells() == cells;
      reachable := fromRegions + fromPages;
    }

    /** `_sym_collect_garbage` */
    method CollectGarbage()
      requires Valid()
      modifies this`allocatedExpressions
      ensures Valid() && Model() == Happens(old(Model()), Collect(threshold))
    {
      hide InShadow, InRegions;
      ghost var roots := Model();
      if |allocatedExpressions| >= threshold {
        var reachable := CollectReachableExpressions();
        assert RegionCells() == roots.regions;
        assert forall e :: e in reachable <==> Reachable(roots, e);
        var kept := EraseUnreachable(allocatedExpressions, reachable);
        assert kept == Survivors(roots, threshold);
        allocatedExpressions := kept;
      }
      assert RegionCells() == roots.regions;
    }
  }

  method EraseUnreachable(expressions: set<Expr>, reachable: set<Expr>) returns (kept: set<Expr>)
    ensures kept == expressions * reachable
  {
    var todo: set<Expr> := expressions;
    kept := {};
    while todo != {}
      invariant todo <= expressions
      invariant kept == (expressions - todo) * reachable
      decreases |todo|
    {
      var e :| e in todo;
      if e in reachable {
        kept := kept + {e};
      }
      todo := todo - {e};
    }
  }

  lemma NoRegions()
    ensures forall e, regions: seq<seq<Cell>> :: !InRegions(regions[..0], e)
  {
  }

  lemma RegionSnoc(regions: seq<seq<Cell>>, k: nat)
    requires k < |regions|
    ensures forall e :: InRegions(regions[..k + 1], e) <==> InRegions(regions[..k], e) || Some(e) in regions[k]
  {
    forall e
      ensures InRegions(regions[..k + 1], e) <==> InRegions(regions[..k], e) || Some(e) in regions[k]
    {
      if InRegions(regions[..k], e) {
        var l :| 0 <= l < k && Some(e) in regions[..k][l];
        assert Some(e) in regions[..k + 1][l];
      }
      if Some(e) in regions[k] {
        assert Some(e) in regions[..k + 1][k];
      }
      if InRegions(regions[..k + 1], e) {
        var l :| 0 <= l < k + 1 && Some(e) in regions[..k + 1][l];
        if l < k {
          assert Some(e) in regions[..k][l];
        }
      }
    }
  }

  lemma ShadowIsPages(store: ShadowPages, e: Expr)
    requires store.Valid()
    ensures InShadow(store.flat, e) <==> exists p :: p in store.pages.Keys && Some(e) in store.pages[p][..]
  {
    hide ShadowPages.Valid, CellAt, PageStart;
    if InShadow(store.flat, e) {
      var a: nat :| CellAt(store.flat, a) == Some(e);
      OnItsPage(store, a, e);
    }
    if p :| p in store.pages.Keys && Some(e) in store.pages[p][..] {
      var i :| 0 <= i < |store.pages[p][..]| && store.pages[p][..][i] == Some(e);
      InsidePage(store, p, i, e);
    }
  }

  lemma OnItsPage(store: ShadowPages, a: nat, e: Expr)
    requires store.Valid() && CellAt(store.flat, a) == Some(e)
    ensures PageStart(a) in store.pages.Keys && Some(e) in store.pages[PageStart(a)][..]
  {
    assert store.pages[PageStart(a)][..][PageOffset(a)] == Some(e);
  }

  lemma InsidePage(store: ShadowPages, p: nat, i: nat, e: Expr)
    requires store.Valid() && p in store.pages && i < store.pages[p].Length && store.pages[p][i] == Some(e)
    ensures CellAt(store.flat, p + i) == Some(e)
  {
    PageParts(p, i);
  }

  lemma PageParts(p: nat, i: nat)
    requires PageStart(p) == p && i < PAGE_SIZE
    ensures PageStart(p + i) == p && PageOffset(p + i) == i
  {
  }

  method CollectFrom(start: array<Cell>, length: nat) returns (found: set<Expr>)
    requires length <= start.Length
    ensures forall e :: e in found <==> Some(e) in start[..length]
  {
    found := {};
    for i := 0 to length
      invariant forall e :: e in found <==> Some(e) in start[..i]
    {
      assert start[..i + 1] == start[..i] + [start[i]];
      if start[i] != None {
        found := found + {start[i].value};
      }
    }
  }
}
