/** The decision of pure concolic execution whether an input is worth saving when a path constraint is
    pushed, and the lists that it keeps. */
module SaveDecision {
  import opened Coverage

  /** Blocks and traces seen when a condition was false and when it was true, all traces seen, and the
      sites at which an input was saved. */
  datatype Lists = Lists(takens0: seq<Id>, takens1: seq<Id>, traceMaps: seq<Id>, siteIds: seq<nat>)

  /** What the decision looks at besides the lists: the counters of this run and the stored ones, the
      last block, and the trace. */
  datatype Situation = Situation(counters: Counters, stored: Counters, block: Id, trace: Id)

  predicate Beats(s: Situation, k: Id) {
    k in s.counters && (k !in s.stored || s.stored[k] < s.counters[k])
  }

  /** A counter that has grown beyond the stored one. */
  ghost predicate NewCounter(s: Situation) {
    exists k :: Beats(s, k)
  }

  function Added(list: seq<Id>, x: Id): seq<Id> {
    if x in list then list else list + [x]
  }

  function Takens(l: Lists, taken: bool): seq<Id> {
    if taken then l.takens1 else l.takens0
  }

  function WithTakens(l: Lists, taken: bool, list: seq<Id>): Lists {
    if taken then l.(takens1 := list) else l.(takens0 := list)
  }

  /** Something is new: a counter, the block or the trace for this direction, or the trace at all. */
  ghost predicate News(l: Lists, s: Situation, taken: bool) {
    || NewCounter(s)
    || s.block !in Takens(l, taken)
    || s.trace !in Added(Takens(l, taken), s.block)
    || s.trace !in l.traceMaps
  }

  ghost predicate ShouldSave(l: Lists, s: Situation, taken: bool, site: nat) {
    News(l, s, taken) || site in l.siteIds
  }

  ghost function ListsAfter(l: Lists, s: Situation, taken: bool, site: nat): Lists {
    var takens := Added(Added(Takens(l, taken), s.block), s.trace);
    var listed := WithTakens(l, taken, takens).(traceMaps := Added(l.traceMaps, s.trace));
    if ShouldSave(l, s, taken, site) then listed.(siteIds := l.siteIds + [site]) else listed
  }

  // ----- The code -----

  /** A scan over a list that appends what it does not find. */
  method FindOrAdd(list: seq<Id>, target: Id) returns (longer: seq<Id>, isNew: bool)
    ensures longer == Added(list, target) && isNew == (target !in list)
  {
    var found := false;
    for i := 0 to |list|
      invariant found <==> target in list[..i]
    {
      if list[i] == target {
        found := true;
      }
      assert list[..i + 1] == list[..i] + [list[i]];
    }
    assert list[..|list|] == list;
    longer := if found then list else list + [target];
    isNew := !found;
  }

  /** The files that processes leave for each other. */
  datatype Files = Files(counters: string, prev0s: string, prev1s: string, traceMaps: string)

  const NO_LISTS := Lists([], [], [], [])

  function StoredLists(files: Files): Lists {
    Lists(ListOf(files.prev0s), ListOf(files.prev1s), ListOf(files.traceMaps), [])
  }

  function StoredCounters(files: Files): Counters {
    ReadLines(Reader(false, 0, map[]), Lines(files.counters)).counters
  }

  class Decider {
    var initialised: bool
    var oldCounterMap: Counters
    var takens0: seq<Id>
    var takens1: seq<Id>
    var traceMaps: seq<Id>
    var siteIds: seq<nat>
    var previouslyBlockedASave: bool

    function View(): Lists
      reads this
    {
      Lists(takens0, takens1, traceMaps, siteIds)
    }

    /** Nothing is loaded before the first decision. */
    ghost predicate Valid()
      reads this
    {
      !initialised ==> View() == NO_LISTS && oldCounterMap == map[]
    }

    constructor ()
      ensures Valid() && !initialised
    {
      initialised, oldCounterMap, previouslyBlockedASave := false, map[], false;
      takens0, takens1, traceMaps, siteIds := [], [], [], [];
    }

    method Initialise(files: Files)
      requires Valid()
      modifies this
      ensures initialised && previouslyBlockedASave == old(previouslyBlockedASave)
      ensures View() == if old(initialised) then old(View()) else StoredLists(files)
      ensures oldCounterMap == if old(initialised) then old(oldCounterMap) else StoredCounters(files)
    {
      hide ListOf, ReadLines;
      if !initialised {
        oldCounterMap := ReadCounters(files.counters);
        traceMaps := ReadList(files.traceMaps);
        takens0 := ReadList(files.prev0s);
        takens1 := ReadList(files.prev1s);
        initialised := true;
      }
    }

    /** Does a counter of this run beat the stored one? */
    method CompareCounters(s: Situation, keys: seq<Id>) returns (better: bool)
      requires forall k :: k in keys <==> k in s.counters
      ensures better <==> NewCounter(s)
    {
      for i := 0 to |keys|
        invariant forall j | 0 <= j < i :: !Beats(s, keys[j])
      {
        var k := keys[i];
        if k !in s.stored || s.stored[k] < s.counters[k] {
          assert Beats(s, k);
          return true;
        }
      }
      return false;
    }

    /** `pure_concolic_should_save`; `keys` is the iteration order of the counters.  The first call
        loads the files. */
    method PureConcolicShouldSave(files: Files, counters: Counters, block: Id, trace: Id, keys: seq<Id>, taken: bool,
                                  site: nat)
      returns (save: bool)
      requires Valid() && forall k :: k in keys <==> k in counters
      modifies this
      ensures Valid() && initialised
      ensures oldCounterMap == if old(initialised) then old(oldCounterMap) else StoredCounters(files)
      ensures var l := if old(initialised) then old(View()) else StoredLists(files);
        var s := Situation(counters, oldCounterMap, block, trace);
        save == ShouldSave(l, s, taken, site) && View() == ListsAfter(l, s, taken, site)
      ensures previouslyBlockedASave == !save
    {
      Initialise(files);
      save := Decide(Situation(counters, oldCounterMap, block, trace), keys, taken, site);
    }

    method Decide(s: Situation, keys: seq<Id>, taken: bool, site: nat) returns (save: bool)
      requires initialised && forall k :: k in keys <==> k in s.counters
      modifies this
      ensures initialised && oldCounterMap == old(oldCounterMap)
      ensures save == ShouldSave(old(View()), s, taken, site)
      ensures View() == ListsAfter(old(View()), s, taken, site)
      ensures previouslyBlockedASave == !save
    {
      hide NewCounter;
      save := CompareCounters(s, keys);
      var save2, isNew;
      if !taken {
        takens0, save2 := FindOrAdd(takens0, s.block);
        takens0, isNew := FindOrAdd(takens0, s.trace);
      } else {
        takens1, save2 := FindOrAdd(takens1, s.block);
        takens1, isNew := FindOrAdd(takens1, s.trace);
      }
      save2 := save2 || isNew;
      if save2 {
        save := true;
      }
      var save3;
      traceMaps, save3 := FindOrAdd(traceMaps, s.trace);
      if save3 {
        save := true;
      }
      if !save {
        for i := 0 to |siteIds|
          invariant save <==> site in siteIds[..i]
        {
          if siteIds[i] == site {
            save := true;
          }
          assert siteIds[..i + 1] == siteIds[..i] + [siteIds[i]];
        }
        assert siteIds[..|siteIds|] == siteIds;
      }
      if save {
        siteIds := siteIds + [site];
      }
      previouslyBlockedASave := !save;
    }

    /** `__dtor_runtime`: the merged counters and the lists are written over the files; `keys` and
        `mergedKeys` are iteration orders. */
    method Exit(counters: Counters, keys: seq<Id>) returns (files: Files)
      requires forall k :: k in keys <==> k in counters
      ensures StoredLists(files) == View().(siteIds := [])
      ensures IsMaximum(oldCounterMap, counters, StoredCounters(files))
    {
      hide IsMaximum, FileText, ListText, Lines, ReadLines, ListOf;
      var merged := MergeCounters(oldCounterMap, counters, keys);
      var order := SomeOrder(merged.Keys);
      var text := WriteCounters(merged, order);
      CountersRoundTrip(merged, order);
      var text0 := WriteList(takens0);
      var text1 := WriteList(takens1);
      var text2 := WriteList(traceMaps);
      ListRoundTrip(takens0);
      ListRoundTrip(takens1);
      ListRoundTrip(traceMaps);
      files := Files(text, text0, text1, text2);
    }
  }

  /** Some iteration order. */
  method SomeOrder(ids: set<Id>) returns (order: seq<Id>)
    ensures forall k :: k in order <==> k in ids
  {
    order := [];
    var rest := ids;
    while rest != {}
      invariant rest <= ids && forall k :: k in order <==> k in ids - rest
      decreases rest
    {
      var k :| k in rest;
      order, rest := order + [k], rest - {k};
    }
  }

  // ----- What the answers mean -----

  /** Not saving means that there was nothing new: no counter beats the stored one, and the block and
      the trace have been recorded for this direction before; and it changes nothing. */
  lemma NotSavingMeans(l: Lists, s: Situation, taken: bool, site: nat)
    requires !ShouldSave(l, s, taken, site)
    ensures forall k | k in s.counters :: k in s.stored && s.counters[k] <= s.stored[k]
    ensures s.block in Takens(l, taken) && s.trace in Takens(l, taken) && s.trace in l.traceMaps
    ensures ListsAfter(l, s, taken, site) == l
  {
    forall k | k in s.counters
      ensures k in s.stored && s.counters[k] <= s.stored[k]
    {
      assert !Beats(s, k);
    }
  }

  predicate NoDuplicates(list: seq<Id>) {
    forall i, j | 0 <= i < j < |list| :: list[i] != list[j]
  }

  lemma KeepsDuplicateFree(l: Lists, s: Situation, taken: bool, site: nat)
    requires NoDuplicates(l.takens0) && NoDuplicates(l.takens1) && NoDuplicates(l.traceMaps)
    ensures var l' := ListsAfter(l, s, taken, site);
      NoDuplicates(l'.takens0) && NoDuplicates(l'.takens1) && NoDuplicates(l'.traceMaps)
  {
    hide ShouldSave;
    AddKeepsDuplicateFree(Takens(l, taken), s.block);
    AddKeepsDuplicateFree(Added(Takens(l, taken), s.block), s.trace);
    AddKeepsDuplicateFree(l.traceMaps, s.trace);
  }

  lemma AddKeepsDuplicateFree(list: seq<Id>, x: Id)
    requires NoDuplicates(list)
    ensures NoDuplicates(Added(list, x))
  {
  }

  /** One push of a path constraint. */
  datatype Push = Push(situation: Situation, taken: bool, site: nat)

  ghost function After(l: Lists, pushes: seq<Push>): Lists {
    if pushes == [] then l else
    var p := pushes[|pushes| - 1];
    ListsAfter(After(l, pushes[..|pushes| - 1]), p.situation, p.taken, p.site)
  }

  /** The answer for push number `k`. */
  ghost predicate Answer(l: Lists, pushes: seq<Push>, k: nat)
    requires k < |pushes|
  {
    ShouldSave(After(l, pushes[..k]), pushes[k].situation, pushes[k].taken, pushes[k].site)
  }

  lemma {:induction false} SitesStay(l: Lists, pushes: seq<Push>, k: nat, site: nat)
    requires k <= |pushes| && site in After(l, pushes[..k]).siteIds
    ensures site in After(l, pushes).siteIds
  {
    hide ShouldSave;
    if k == |pushes| {
      assert pushes[..k] == pushes;
    } else {
      assert pushes[..|pushes| - 1][..k] == pushes[..k];
      SitesStay(l, pushes[..|pushes| - 1], k, site);
    }
  }

  /** In one process the answers for a site, whatever happens in between, are false up to some point
      and true from then on. */
  lemma {:induction false} OnceSavedAlwaysSaved(l: Lists, pushes: seq<Push>, i: nat, j: nat)
    requires i < j < |pushes| && pushes[i].site == pushes[j].site
    requires Answer(l, pushes, i)
    ensures Answer(l, pushes, j)
  {
    hide ShouldSave, After;
    var p := pushes[..j];
    SavedIsListed(l, pushes, i);
    assert p[..i + 1] == pushes[..i + 1];
    SitesStay(l, p, i + 1, pushes[i].site);
    ListedIsSaved(l, pushes, j);
  }

  lemma {:induction false} SavedIsListed(l: Lists, pushes: seq<Push>, i: nat)
    requires i < |pushes| && Answer(l, pushes, i)
    ensures pushes[i].site in After(l, pushes[..i + 1]).siteIds
  {
    hide ShouldSave;
    assert pushes[..i + 1][..i] == pushes[..i];
  }

  lemma {:induction false} ListedIsSaved(l: Lists, pushes: seq<Push>, j: nat)
    requires j < |pushes| && pushes[j].site in After(l, pushes[..j]).siteIds
    ensures Answer(l, pushes, j)
  {
    hide After, News;
  }

  /** Seeing the same situation again at a new site is no reason to save. */
  lemma SecondTimeNothingNew(l: Lists, s: Situation, taken: bool, site: nat, other: nat)
    requires !NewCounter(s)
    ensures ShouldSave(ListsAfter(l, s, taken, site), s, taken, other)
       <==> other in l.siteIds || (other == site && ShouldSave(l, s, taken, site))
  {
    var list := Takens(l, taken);
    assert s.block in Added(list, s.block);
    assert s.block in Added(Added(list, s.block), s.trace);
    assert s.trace in Added(Added(list, s.block), s.trace);
    assert Added(Added(Added(list, s.block), s.trace), s.block) == Added(Added(list, s.block), s.trace);
  }

  // ----- From process to process -----

  /** What is in memory when a process exits that has made these decisions. */
  ghost function ListsAtExit(files: Files, pushes: seq<Push>): Lists {
    if pushes == [] then NO_LISTS else After(StoredLists(files), pushes)
  }

  ghost function CountersAtExit(files: Files, pushes: seq<Push>): Counters {
    if pushes == [] then map[] else StoredCounters(files)
  }

  predicate SubList(a: seq<Id>, b: seq<Id>) {
    forall x | x in a :: x in b
  }

  /** Everything recorded is still recorded. */
  ghost predicate Keeps(before: Files, after: Files) {
    var l, l' := StoredLists(before), StoredLists(after);
    && SubList(l.takens0, l'.takens0) && SubList(l.takens1, l'.takens1) && SubList(l.traceMaps, l'.traceMaps)
    && forall k | k in StoredCounters(before) ::
        k in StoredCounters(after) && StoredCounters(before)[k] <= StoredCounters(after)[k]
  }

  lemma {:induction false} ListsGrow(l: Lists, pushes: seq<Push>)
    ensures var l' := After(l, pushes);
      SubList(l.takens0, l'.takens0) && SubList(l.takens1, l'.takens1) && SubList(l.traceMaps, l'.traceMaps)
  {
    hide ShouldSave;
    if pushes != [] {
      ListsGrow(l, pushes[..|pushes| - 1]);
    }
  }

  /** A process in pure concolic mode: its decisions and the counters of its run. */
  datatype Process = Process(pushes: seq<Push>, counters: Counters)

  /** What the process leaves in the files. */
  ghost predicate Leaves(before: Files, process: Process, after: Files) {
    && StoredLists(after) == ListsAtExit(before, process.pushes).(siteIds := [])
    && IsMaximum(CountersAtExit(before, process.pushes), process.counters, StoredCounters(after))
  }

  /** The process has made a decision, or there is nothing in the lists and its own counters are no
      smaller than the stored ones. */
  ghost predicate Careful(before: Files, process: Process) {
    || process.pushes != []
    || (StoredLists(before) == NO_LISTS
        && forall k | k in StoredCounters(before) ::
             k in process.counters && StoredCounters(before)[k] <= process.counters[k])
  }

  /** A process keeps what is stored if and only if it is careful: without a decision it never loads
      what it then overwrites. */
  lemma {:induction false} ProcessKeepsIff(before: Files, process: Process, after: Files)
    requires Leaves(before, process, after)
    ensures Keeps(before, after) <==> Careful(before, process)
  {
    hide After, StoredLists, StoredCounters;
    var pushes, counters := process.pushes, process.counters;
    if pushes != [] {
      ListsGrow(StoredLists(before), pushes);
    } else {
      OnlyEmptyInEmpty(StoredLists(before).takens0);
      OnlyEmptyInEmpty(StoredLists(before).takens1);
      OnlyEmptyInEmpty(StoredLists(before).traceMaps);
      assert StoredLists(before).siteIds == [] by { NoSites(before); }
      forall k | k in StoredCounters(after)
        ensures k in counters && StoredCounters(after)[k] == counters[k]
      {
      }
    }
  }

  lemma NoSites(files: Files)
    ensures StoredLists(files).siteIds == []
  {
  }

  lemma OnlyEmptyInEmpty(list: seq<Id>)
    ensures SubList(list, []) <==> list == []
  {
    if list != [] {
      assert list[0] in list;
    }
  }

  // ----- Any number of processes -----

  /** The files before, between and after processes that run one after the other. */
  ghost predicate Chain(files: seq<Files>, processes: seq<Process>) {
    && |files| == |processes| + 1
    && forall k | 0 <= k < |processes| :: Leaves(files[k], processes[k], files[k + 1])
  }

  lemma KeepsIsTransitive(a: Files, b: Files, c: Files)
    requires Keeps(a, b) && Keeps(b, c)
    ensures Keeps(a, c)
  {
    hide StoredLists, StoredCounters;
  }

  lemma KeepsItself(a: Files)
    ensures Keeps(a, a)
  {
    hide StoredLists, StoredCounters;
  }

  lemma {:induction false} CarefulChainKeeps(files: seq<Files>, processes: seq<Process>, i: nat, j: nat)
    requires Chain(files, processes) && i <= j <= |processes|
    requires forall k | i <= k < j :: Careful(files[k], processes[k])
    ensures Keeps(files[i], files[j])
  {
    hide Keeps, Careful, Leaves;
    if i == j {
      KeepsItself(files[i]);
    } else {
      CarefulChainKeeps(files, processes, i, j - 1);
      ProcessKeepsIff(files[j - 1], processes[j - 1], files[j]);
      KeepsIsTransitive(files[i], files[j - 1], files[j]);
    }
  }

  /** In any sequence of processes, what is stored at some time is stored at all later times if and only
      if every process is careful. */
  lemma {:induction false} ChainKeepsIff(files: seq<Files>, processes: seq<Process>)
    requires Chain(files, processes)
    ensures (forall i, j | 0 <= i <= j < |files| :: Keeps(files[i], files[j]))
       <==> forall k | 0 <= k < |processes| :: Careful(files[k], processes[k])
  {
    hide Keeps, Careful, Leaves;
    forall k | 0 <= k < |processes|
      ensures Keeps(files[k], files[k + 1]) <==> Careful(files[k], processes[k])
    {
      ProcessKeepsIff(files[k], processes[k], files[k + 1]);
    }
    if forall i, j | 0 <= i <= j < |files| :: Keeps(files[i], files[j]) {
      forall k | 0 <= k < |processes|
        ensures Careful(files[k], processes[k])
      {
        assert Keeps(files[k], files[k + 1]);
      }
    }
    if forall k | 0 <= k < |processes| :: Careful(files[k], processes[k]) {
      forall i, j | 0 <= i <= j < |files|
        ensures Keeps(files[i], files[j])
      {
        CarefulChainKeeps(files, processes, i, j);
      }
    }
  }

  /** Comparing only the first and the last files does not show it: what a process without decisions
      loses, a later one may find again. */
  lemma LostAndFound(x: Id)
    ensures var stored := Files("", ListText([x]), "", ListText([x]));
      var nothing := Files("", "", "", "");
      var again := [Push(Situation(map[], map[], x, x), false, 0)];
      var processes := [Process([], map[]), Process(again, map[])];
      && Chain([stored, nothing, stored], processes)
      && Keeps(stored, stored) && !Careful(stored, processes[0])
  {
    hide ListText, Leaves, Keeps, Careful;
    var stored, nothing := Files("", ListText([x]), "", ListText([x])), Files("", "", "", "");
    var again := [Push(Situation(map[], map[], x, x), false, 0)];
    LosesAll(stored, nothing, x);
    FindsAgain(stored, nothing, x);
    KeepsItself(stored);
  }

  /** Files with one entry in two lists, and files without entries. */
  lemma StoredOnce(stored: Files, nothing: Files, x: Id)
    requires stored == Files("", ListText([x]), "", ListText([x])) && nothing == Files("", "", "", "")
    ensures StoredLists(stored) == Lists([x], [], [x], []) && StoredLists(nothing) == NO_LISTS
    ensures StoredCounters(stored) == map[] && StoredCounters(nothing) == map[]
  {
    hide ListOf, ListText;
    ListRoundTrip([x]);
    NothingListed();
  }

  lemma LosesAll(stored: Files, nothing: Files, x: Id)
    requires stored == Files("", ListText([x]), "", ListText([x])) && nothing == Files("", "", "", "")
    ensures Leaves(stored, Process([], map[]), nothing) && !Careful(stored, Process([], map[]))
  {
    hide StoredLists, StoredCounters, ListText;
    StoredOnce(stored, nothing, x);
  }

  lemma FindsAgain(stored: Files, nothing: Files, x: Id)
    requires stored == Files("", ListText([x]), "", ListText([x])) && nothing == Files("", "", "", "")
    ensures Leaves(nothing, Process([Push(Situation(map[], map[], x, x), false, 0)], map[]), stored)
  {
    hide StoredLists, StoredCounters, ListText, ShouldSave, ListsAfter;
    StoredOnce(stored, nothing, x);
    var push := Push(Situation(map[], map[], x, x), false, 0);
    assert [push][..0] == [];
    assert After(NO_LISTS, []) == NO_LISTS;
    assert After(NO_LISTS, [push]) == ListsAfter(NO_LISTS, push.situation, false, 0);
    OneDecision(push.situation, x);
  }

  lemma OneDecision(s: Situation, x: Id)
    requires s.block == s.trace == x
    ensures ListsAfter(NO_LISTS, s, false, 0).(siteIds := []) == Lists([x], [], [x], [])
  {
    hide ShouldSave;
    var none: seq<Id> := [];
    assert Added(none, x) == [x] && Added([x], x) == [x];
  }

  lemma NothingListed()
    ensures ListOf("") == []
    ensures ReadLines(Reader(false, 0, map[]), Lines("")).counters == map[]
  {
  }
}
