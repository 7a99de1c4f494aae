/** Coverage of pure concolic execution: block counters and trace sums, their merge and storage at the
    end of a run, and the decision whether to save an input. */
module Coverage {
  import opened BitVectors

  const ID_LIMIT: nat := 0x1_0000_0000

  type Id = n: nat | n < ID_LIMIT

  type Counters = map<Id, Id>

  function Mod32(n: nat): Id {
    n % ID_LIMIT
  }

  /** Addition on 32-bit numbers. */
  function Add32(a: nat, b: nat): Id {
    Mod32(a + b)
  }

  // ----- Counting visits -----

  function Count(visits: seq<Id>, k: Id): nat {
    if visits == [] then 0
    else Count(visits[..|visits| - 1], k) + if visits[|visits| - 1] == k then 1 else 0
  }

  /** The sum of the ids at their first visits. */
  function DistinctSum(visits: seq<Id>): nat {
    if visits == [] then 0 else
    var before, last := visits[..|visits| - 1], visits[|visits| - 1];
    DistinctSum(before) + if last in before then 0 else last
  }

  /** The counters and the trace sum describe this sequence of visits. */
  ghost predicate Describes(visits: seq<Id>, counters: Counters, trace: Id) {
    && (forall k :: k in counters <==> k in visits)
    && (forall k | k in counters :: counters[k] == Mod32(Count(visits, k)))
    && trace == Mod32(DistinctSum(visits))
  }

  class Recorder {
    var counterMap: Counters
    var currTraceMap: Id
    var justVisitedBb: Id

    constructor ()
      ensures Describes([], counterMap, currTraceMap)
    {
      counterMap, currTraceMap, justVisitedBb := map[], 0, 0;
    }

    /** `_symcc_cov_cb`: besides, the answer is whether the solver is asked to save at once, because a
        block is new and the last decision was not to save. */
    method CovCb(id: Id, stored: Counters, previouslyBlockedASave: bool, ghost visits: seq<Id>)
      returns (checkAndSave: bool)
      requires Describes(visits, counterMap, currTraceMap)
      modifies this
      ensures Describes(visits + [id], counterMap, currTraceMap)
      ensures justVisitedBb == id
      ensures checkAndSave <==> id !in visits && id !in stored && previouslyBlockedASave
    {
      hide Mod32, Add32;
      ghost var longer := visits + [id];
      assert longer[..|longer| - 1] == visits;
      assert forall k :: Count(longer, k) == Count(visits, k) + if id == k then 1 else 0;
      NoVisitNoCount(visits, id);
      assert Mod32(1) == 1 by { OneIsSmall(); }
      checkAndSave := false;
      if id !in counterMap {
        counterMap := counterMap[id := 1];
        SumStep(DistinctSum(visits), id);
        currTraceMap := Add32(currTraceMap, id);
        if id !in stored {
          if previouslyBlockedASave {
            checkAndSave := true;
          }
        }
      } else {
        SumStep(Count(visits, id), 1);
        counterMap := counterMap[id := Add32(counterMap[id], 1)];
      }
      justVisitedBb := id;
    }
  }

  lemma SumStep(n: nat, d: nat)
    ensures Add32(Mod32(n), d) == Mod32(n + d)
  {
  }

  lemma OneIsSmall()
    ensures Mod32(1) == 1
  {
  }

  lemma {:induction false} NoVisitNoCount(visits: seq<Id>, k: Id)
    ensures k !in visits ==> Count(visits, k) == 0
  {
    if visits != [] {
      NoVisitNoCount(visits[..|visits| - 1], k);
    }
  }

  /** Visits in turn. */
  method Record(visits: seq<Id>) returns (counters: Counters, trace: Id)
    ensures Describes(visits, counters, trace)
  {
    var recorder := new Recorder();
    for i := 0 to |visits|
      invariant Describes(visits[..i], recorder.counterMap, recorder.currTraceMap)
      modifies recorder
    {
      var checkAndSave := recorder.CovCb(visits[i], map[], false, visits[..i]);
      assert visits[..i + 1] == visits[..i] + [visits[i]];
    }
    assert visits[..|visits|] == visits;
    counters, trace := recorder.counterMap, recorder.currTraceMap;
  }

  // ----- The trace sum depends only on the set of visited ids -----

  ghost function SetSum(ids: set<Id>): nat {
    if ids == {} then 0 else
    var x :| x in ids;
    x + SetSum(ids - {x})
  }

  lemma {:induction false} SetSumTake(ids: set<Id>, y: Id)
    requires y in ids
    ensures SetSum(ids) == y + SetSum(ids - {y})
    decreases ids
  {
    var x :| x in ids && SetSum(ids) == x + SetSum(ids - {x});
    if x != y {
      SetSumTake(ids - {x}, y);
      SetSumTake(ids - {y}, x);
      assert ids - {x} - {y} == ids - {y} - {x};
    }
  }

  ghost function IdSet(visits: seq<Id>): set<Id> {
    set k | k in visits
  }

  lemma {:induction false} DistinctSumIsSetSum(visits: seq<Id>)
    ensures DistinctSum(visits) == SetSum(IdSet(visits))
  {
    if visits == [] {
      assert IdSet(visits) == {};
    } else {
      var before, last := visits[..|visits| - 1], visits[|visits| - 1];
      DistinctSumIsSetSum(before);
      assert visits == before + [last];
      assert IdSet(visits) == IdSet(before) + {last};
      assert last in before ==> IdSet(visits) == IdSet(before);
      if last !in before {
        SetSumTake(IdSet(visits), last);
        assert IdSet(visits) - {last} == IdSet(before);
      }
    }
  }

  /** Two runs that visit the same blocks, in any order and any number of times, have the same trace. */
  lemma TraceIgnoresOrder(a: seq<Id>, b: seq<Id>, countersA: Counters, countersB: Counters, traceA: Id, traceB: Id)
    requires Describes(a, countersA, traceA) && Describes(b, countersB, traceB)
    requires forall k :: k in a <==> k in b
    ensures traceA == traceB
  {
    DistinctSumIsSetSum(a);
    DistinctSumIsSetSum(b);
    assert IdSet(a) == IdSet(b);
  }

  lemma {:induction false} SetSumJoin(a: set<Id>, b: set<Id>)
    requires a !! b
    ensures SetSum(a + b) == SetSum(a) + SetSum(b)
    decreases b
  {
    if b == {} {
      assert a + b == a;
    } else {
      var x :| x in b;
      SetSumTake(b, x);
      SetSumTake(a + b, x);
      assert a + b - {x} == a + (b - {x});
      SetSumJoin(a, b - {x});
    }
  }

  lemma CancelMod32(c: nat, x: nat, y: nat)
    ensures Mod32(c + x) == Mod32(c + y) <==> Mod32(x) == Mod32(y)
  {
  }

  /** Two runs have the same trace if and only if the blocks that only one of them visits have the same
      sum as those that only the other visits, modulo 2^32. */
  lemma TracesEqualIff(a: seq<Id>, b: seq<Id>, countersA: Counters, countersB: Counters, traceA: Id, traceB: Id)
    requires Describes(a, countersA, traceA) && Describes(b, countersB, traceB)
    ensures traceA == traceB
       <==> Mod32(SetSum(countersA.Keys - countersB.Keys)) == Mod32(SetSum(countersB.Keys - countersA.Keys))
  {
    hide Mod32;
    var x, y := countersA.Keys, countersB.Keys;
    DistinctSumIsSetSum(a);
    DistinctSumIsSetSum(b);
    assert IdSet(a) == x && IdSet(b) == y;
    assert x == x * y + (x - y) && y == x * y + (y - x);
    SetSumJoin(x * y, x - y);
    SetSumJoin(x * y, y - x);
    CancelMod32(SetSum(x * y), SetSum(x - y), SetSum(y - x));
  }

  /** So equal traces do not mean equal blocks: visiting 1 and 2 looks like visiting 3. */
  lemma TracesCollide(countersA: Counters, countersB: Counters, traceA: Id, traceB: Id)
    requires Describes([1, 2], countersA, traceA) && Describes([3], countersB, traceB)
    ensures traceA == traceB && countersA.Keys != countersB.Keys
  {
    hide Mod32;
    TracesEqualIff([1, 2], [3], countersA, countersB, traceA, traceB);
    assert countersA.Keys == {1, 2} && countersB.Keys == {3};
    assert {1, 2} - {3} == {1, 2} && {3} - {1, 2} == {3};
    SetSumTake({1, 2}, 1);
    SetSumTake({2}, 2);
    SetSumTake({3}, 3);
    assert {1, 2} - {1} == {2} && {2} - {2} == {} && {3} - {3} == {};
  }

  // ----- Merging at exit -----

  function Max(a: Id, b: Id): Id {
    if a < b then b else a
  }

  function Get(m: Counters, k: Id): Id {
    if k in m then m[k] else 0
  }

  /** `merged` is the pointwise maximum; a counter is there if one of the maps has it. */
  ghost predicate IsMaximum(stored: Counters, counters: Counters, merged: Counters) {
    && merged.Keys == stored.Keys + counters.Keys
    && forall k | k in merged :: merged[k] == Max(Get(stored, k), Get(counters, k))
  }

  method MergeOne(m: Counters, k: Id, v: Id) returns (merged: Counters)
    ensures merged.Keys == m.Keys + {k}
    ensures forall x :: Get(merged, x) == if x == k then Max(Get(m, k), v) else Get(m, x)
  {
    merged := m;
    if k !in merged {
      merged := merged[k := v];
    }
    if merged[k] < v {
      merged := merged[k := v];
    }
  }

  /** The merge in `__dtor_runtime`, in the iteration order of the map. */
  method MergeCounters(stored: Counters, counters: Counters, keys: seq<Id>) returns (merged: Counters)
    requires forall k :: k in keys <==> k in counters
    ensures IsMaximum(stored, counters, merged)
  {
    hide Max, Get;
    merged := stored;
    for i := 0 to |keys|
      invariant forall x :: x in merged <==> x in stored || x in keys[..i]
      invariant forall x ::
        Get(merged, x) == if x in keys[..i] then Max(Get(stored, x), Get(counters, x)) else Get(stored, x)
    {
      merged := MergeOne(merged, keys[i], counters[keys[i]]);
      assert keys[..i + 1] == keys[..i] + [keys[i]];
      MaxTwice(Get(stored, keys[i]), Get(counters, keys[i]));
      GetPresent(counters, keys[i]);
    }
    assert keys[..|keys|] == keys;
    forall k | k in merged
      ensures merged[k] == Max(Get(stored, k), Get(counters, k))
    {
      GetPresent(merged, k);
      AbsentIsZero(stored, counters, k);
    }
  }

  lemma MaxTwice(a: Id, b: Id)
    ensures Max(Max(a, b), b) == Max(a, b)
  {
  }

  lemma GetPresent(m: Counters, k: Id)
    requires k in m
    ensures Get(m, k) == m[k]
  {
  }

  lemma AbsentIsZero(a: Counters, b: Counters, k: Id)
    ensures k !in b ==> Max(Get(a, k), Get(b, k)) == Get(a, k)
  {
  }

  // ----- The counter file -----

  function Digit(d: nat): char
    requires d < 10
  {
    ['0', '1', '2', '3', '4', '5', '6', '7', '8', '9'][d]
  }

  predicate IsDigit(c: char) {
    '0' <= c <= '9'
  }

  function Decimal(n: nat): (s: string)
    ensures s != "" && forall i | 0 <= i < |s| :: IsDigit(s[i])
  {
    if n < 10 then [Digit(n)] else Decimal(n / 10) + [Digit(n % 10)]
  }

  /** `atol` on a line that starts with a digit: the value of its leading digits. */
  function Atol(line: string): nat {
    AtolUpTo(line, LeadingDigits(line))
  }

  function LeadingDigits(line: string): (n: nat)
    ensures n <= |line| && forall i | 0 <= i < n :: IsDigit(line[i])
    ensures n == |line| || !IsDigit(line[n])
  {
    if line == "" || !IsDigit(line[0]) then 0 else 1 + LeadingDigits(line[1..])
  }

  function AtolUpTo(line: string, n: nat): nat
    requires n <= |line| && forall i | 0 <= i < n :: IsDigit(line[i])
  {
    if n == 0 then 0 else
    assert IsDigit(line[n - 1]);
    10 * AtolUpTo(line, n - 1) + (line[n - 1] as nat - '0' as nat)
  }

  function Line(n: nat): string {
    Decimal(n) + "\n"
  }

  /** Two lines for each entry. */
  function FileText(m: Counters, keys: seq<Id>): string
    requires forall i | 0 <= i < |keys| :: keys[i] in m
  {
    if keys == [] then "" else Line(keys[0]) + (Line(m[keys[0]]) + FileText(m, keys[1..]))
  }

  /** The length of the first line, without the newline character. */
  function LineEnd(text: string): (n: nat)
    ensures n <= |text| && '\n' !in text[..n] && (n < |text| ==> text[n] == '\n')
  {
    if text == "" || text[0] == '\n' then 0
    else
      var n := 1 + LineEnd(text[1..]);
      assert text[..n] == [text[0]] + text[1..][..n - 1];
      n
  }

  function RestOf(text: string): (rest: string)
    requires text != ""
    ensures |rest| < |text|
  {
    var n := LineEnd(text);
    if n == |text| then "" else text[n + 1..]
  }

  /** What repeated `getline` yields. */
  function Lines(text: string): seq<string>
    decreases |text|
  {
    if text == "" then [] else [text[..LineEnd(text)]] + Lines(RestOf(text))
  }

  /** The reader: whether the next line is a counter's value, and for which id. */
  datatype Reader = Reader(haveId: bool, id: Id, counters: Counters)

  function ReadLine(r: Reader, line: string): Reader {
    if !r.haveId then Reader(true, Mod32(Atol(line)), r.counters)
    else Reader(false, 0, r.counters[r.id := Mod32(Atol(line))])
  }

  function ReadLines(r: Reader, lines: seq<string>): Reader
    decreases |lines|
  {
    if lines == [] then r else ReadLines(ReadLine(r, lines[0]), lines[1..])
  }

  /** The loop that reads the counter file. */
  method ReadCounters(text: string) returns (counters: Counters)
    ensures counters == ReadLines(Reader(false, 0, map[]), Lines(text)).counters
  {
    hide Atol;
    var rest := text;
    var first := 0;
    var id: Id, count: Id := 0, 0;
    counters := map[];
    while rest != ""
      invariant first == 0 || first == 1
      invariant first == 0 ==> id == 0
      invariant ReadLines(Reader(false, 0, map[]), Lines(text))
        == ReadLines(Reader(first == 1, id, counters), Lines(rest))
      decreases |rest|
    {
      var line := rest[..LineEnd(rest)];
      assert Lines(rest) == [line] + Lines(RestOf(rest));
      assert ReadLines(Reader(first == 1, id, counters), Lines(rest))
          == ReadLines(ReadLine(Reader(first == 1, id, counters), line), Lines(RestOf(rest)));
      if first == 0 {
        id := Mod32(Atol(line));
        first := first + 1;
      } else {
        count := Mod32(Atol(line));
        first := 0;
        counters := counters[id := count];
        id := 0;
        count := 0;
      }
      rest := RestOf(rest);
    }
  }

  /** The loop that writes the counter file, in the iteration order of the map. */
  method WriteCounters(m: Counters, keys: seq<Id>) returns (text: string)
    requires forall i | 0 <= i < |keys| :: keys[i] in m
    ensures text == FileText(m, keys)
  {
    hide Line;
    text := "";
    for i := 0 to |keys|
      invariant text + FileText(m, keys[i..]) == FileText(m, keys)
    {
      text := text + Line(keys[i]);
      text := text + Line(m[keys[i]]);
      assert keys[i..][1..] == keys[i + 1..];
      assert text + FileText(m, keys[i + 1..]) == FileText(m, keys);
    }
    assert text + "" == text;
  }

  lemma {:induction false} AtolPrefix(a: string, b: string, n: nat)
    requires n <= |a| && forall i | 0 <= i < |a| :: IsDigit(a[i])
    ensures n <= |a + b| && (forall i | 0 <= i < n :: IsDigit((a + b)[i]))
    ensures AtolUpTo(a + b, n) == AtolUpTo(a, n)
  {
    if n > 0 {
      AtolPrefix(a, b, n - 1);
    }
  }

  lemma {:induction false} AllDigits(s: string)
    requires forall i | 0 <= i < |s| :: IsDigit(s[i])
    ensures LeadingDigits(s) == |s|
  {
    if s != "" {
      assert IsDigit(s[0]);
      forall i | 0 <= i < |s[1..]|
        ensures IsDigit(s[1..][i])
      {
        assert s[1..][i] == s[i + 1];
      }
      AllDigits(s[1..]);
    }
  }

  lemma {:induction false} AtolOfDecimal(n: nat)
    ensures Atol(Decimal(n)) == n
  {
    var s := Decimal(n);
    AllDigits(s);
    if n < 10 {
      assert AtolUpTo(s, 0) == 0;
    } else {
      var t := Decimal(n / 10);
      AtolOfDecimal(n / 10);
      AllDigits(t);
      AtolPrefix(t, [Digit(n % 10)], |t|);
    }
  }

  lemma LinesOfLine(n: nat, rest: string)
    ensures Lines(Line(n) + rest) == [Decimal(n)] + Lines(rest)
  {
    hide Lines, Decimal;
    var text, s := Line(n) + rest, Decimal(n);
    LineEndIs(s, rest);
    assert text == s + "\n" + rest;
    assert text[..|s|] == s && text[|s| + 1..] == rest;
    UnfoldLines(text);
  }

  lemma UnfoldLines(text: string)
    requires text != ""
    ensures Lines(text) == [text[..LineEnd(text)]] + Lines(RestOf(text))
  {
  }

  lemma {:induction false} LineEndIs(s: string, rest: string)
    requires forall i | 0 <= i < |s| :: IsDigit(s[i])
    ensures LineEnd(s + "\n" + rest) == |s|
  {
    var text := s + "\n" + rest;
    if s == "" {
      assert text[0] == '\n';
    } else {
      assert IsDigit(s[0]) && text[0] == s[0];
      assert text[1..] == s[1..] + "\n" + rest;
      LineEndIs(s[1..], rest);
    }
  }

  /** Reading the file that was written restores every counter. */
  lemma {:induction false} ReadBack(m: Counters, keys: seq<Id>, start: Counters)
    requires forall i | 0 <= i < |keys| :: keys[i] in m
    ensures ReadLines(Reader(false, 0, start), Lines(FileText(m, keys))).counters
         == start + map k | k in m && k in keys :: m[k]
  {
    hide Atol, Decimal, Line, Lines;
    if keys == [] {
      NoLines();
    } else {
      var k, v, more := keys[0], m[keys[0]], FileText(m, keys[1..]);
      LinesOfLine(k, Line(v) + more);
      LinesOfLine(v, more);
      AtolOfDecimal(k);
      AtolOfDecimal(v);
      var lines := [Decimal(k)] + ([Decimal(v)] + Lines(more));
      assert lines[1..] == [Decimal(v)] + Lines(more) && lines[1..][1..] == Lines(more);
      assert ReadLines(Reader(false, 0, start), lines) == ReadLines(Reader(false, 0, start[k := v]), Lines(more));
      ReadBack(m, keys[1..], start[k := v]);
      EntryAdded(m, keys, start);
    }
  }

  lemma EntryAdded(m: Counters, keys: seq<Id>, start: Counters)
    requires keys != [] && keys[0] in m
    ensures (start[keys[0] := m[keys[0]]] + map x | x in m && x in keys[1..] :: m[x])
         == start + map x | x in m && x in keys :: m[x]
  {
    assert keys == [keys[0]] + keys[1..];
  }

  lemma NoLines()
    ensures Lines("") == []
  {
  }

  /** Write, then read: a round trip for every map, in any iteration order. */
  lemma CountersRoundTrip(m: Counters, keys: seq<Id>)
    requires forall k :: k in keys <==> k in m
    ensures ReadLines(Reader(false, 0, map[]), Lines(FileText(m, keys))).counters == m
  {
    ReadBack(m, keys, map[]);
    assert (map k | k in m && k in keys :: m[k]) == m;
  }

  // ----- The list files -----

  /** One line for each entry. */
  function ListText(list: seq<Id>): string {
    if list == [] then "" else Line(list[0]) + ListText(list[1..])
  }

  function Numbers(lines: seq<string>): seq<Id> {
    if lines == [] then [] else [Mod32(Atol(lines[0]))] + Numbers(lines[1..])
  }

  function ListOf(text: string): seq<Id> {
    Numbers(Lines(text))
  }

  /** The loop that reads a list file. */
  method ReadList(text: string) returns (list: seq<Id>)
    ensures list == ListOf(text)
  {
    hide Atol;
    var rest := text;
    list := [];
    while rest != ""
      invariant list + ListOf(rest) == ListOf(text)
      decreases |rest|
    {
      var line := rest[..LineEnd(rest)];
      assert Lines(rest) == [line] + Lines(RestOf(rest));
      assert ListOf(rest) == [Mod32(Atol(line))] + ListOf(RestOf(rest));
      list := list + [Mod32(Atol(line))];
      rest := RestOf(rest);
    }
    assert ListOf("") == [];
  }

  /** The loop that writes a list file. */
  method WriteList(list: seq<Id>) returns (text: string)
    ensures text == ListText(list)
  {
    hide Line;
    text := "";
    for i := 0 to |list|
      invariant text + ListText(list[i..]) == ListText(list)
    {
      text := text + Line(list[i]);
      assert list[i..][1..] == list[i + 1..];
      assert text + ListText(list[i + 1..]) == ListText(list);
    }
    assert text + "" == text;
  }

  /** Write, then read, for lists. */
  lemma {:induction false} ListRoundTrip(list: seq<Id>)
    ensures ListOf(ListText(list)) == list
  {
    hide Atol, Decimal, Line, Lines;
    if list == [] {
      NoLines();
    } else {
      var x, more := list[0], ListText(list[1..]);
      LinesOfLine(x, more);
      AtolOfDecimal(x);
      ListRoundTrip(list[1..]);
      var lines := [Decimal(x)] + Lines(more);
      assert lines[1..] == Lines(more);
      assert Mod32(x) == x;
      assert list == [x] + list[1..];
    }
  }
}
