/** The fuzzing helper's coverage bitmap, and which new test cases it lets through. */
module AflMap {
  type Bitmap = seq<bv8>

  function Min(a: nat, b: nat): nat {
    if a < b then a else b
  }

  function OrByte(a: bv8, b: bv8): bv8 {
    a | b
  }

  /** The bytewise or of the first `n` bytes. */
  function OrUpTo(a: Bitmap, b: Bitmap, n: nat): (r: Bitmap)
    requires n <= |a| && n <= |b|
    ensures |r| == |a|
  {
    seq(|a|, i requires 0 <= i < |a| => if i < n then OrByte(a[i], b[i]) else a[i])
  }

  /** The bytewise or over the common prefix; the length is the first map's. */
  function Or(a: Bitmap, b: Bitmap): (r: Bitmap)
    ensures |r| == |a|
  {
    OrUpTo(a, b, Min(|a|, |b|))
  }

  lemma OrOneMore(a: Bitmap, b: Bitmap, n: nat)
    requires n < |a| && n < |b|
    ensures OrUpTo(a, b, n)[n] == a[n]
    ensures OrUpTo(a, b, n + 1) == OrUpTo(a, b, n)[n := OrByte(a[n], b[n])]
  {
    hide OrByte;
  }

  lemma OrNone(a: Bitmap, b: Bitmap)
    ensures OrUpTo(a, b, 0) == a
  {
  }

  /** What merging `other` into `known` leaves: the first map that is not empty is taken as it is. */
  function Merged(known: Bitmap, other: Bitmap): Bitmap {
    if known == [] then other else Or(known, other)
  }

  class CoverageMap {
    var data: Bitmap

    constructor ()
      ensures data == []
    {
      data := [];
    }

    /** `AflMap::merge`: the answer is whether the map has changed, except that merging an empty map
        into an empty one is also called interesting. */
    method Merge(other: Bitmap) returns (interesting: bool)
      modifies this
      ensures data == Merged(old(data), other)
      ensures interesting <==> data != old(data) || (old(data) == [] && other == [])
    {
      interesting := false;
      if |data| == 0 {
        data := other;
        return true;
      }
      hide OrUpTo, OrByte;
      ghost var before := data;
      OrNone(data, other);
      for i := 0 to Min(|data|, |other|)
        invariant |data| == |before| && data == OrUpTo(before, other, i)
        invariant interesting <==> data != before
      {
        OrOneMore(before, other, i);
        if data[i] != OrByte(data[i], other[i]) {
          data := data[i := OrByte(data[i], other[i])];
          assert data[i] != before[i];
          interesting := true;
        }
      }
    }
  }

  // ----- How often the answer can be yes -----

  function BitAt(b: bv8, mask: bv8): nat {
    if b & mask == 0 then 0 else 1
  }

  function Ones(b: bv8): (n: nat)
    ensures n <= 8
  {
    BitAt(b, 1) + BitAt(b, 2) + BitAt(b, 4) + BitAt(b, 8) + BitAt(b, 16) + BitAt(b, 32) + BitAt(b, 64) + BitAt(b, 128)
  }

  lemma OrGrows(a: bv8, b: bv8, mask: bv8)
    ensures BitAt(a | b, mask) >= BitAt(a, mask)
  {
  }

  lemma OnesGrow(a: bv8, b: bv8)
    ensures Ones(a | b) >= Ones(a)
    ensures a | b != a ==> Ones(a | b) > Ones(a)
  {
    OrGrows(a, b, 1);
    OrGrows(a, b, 2);
    OrGrows(a, b, 4);
    OrGrows(a, b, 8);
    OrGrows(a, b, 16);
    OrGrows(a, b, 32);
    OrGrows(a, b, 64);
    OrGrows(a, b, 128);
    if a | b != a {
      SomeBitDiffers(a, b);
    }
  }

  lemma SomeBitDiffers(a: bv8, b: bv8)
    requires a | b != a
    ensures BitAt(a | b, 1) != BitAt(a, 1) || BitAt(a | b, 2) != BitAt(a, 2) || BitAt(a | b, 4) != BitAt(a, 4)
         || BitAt(a | b, 8) != BitAt(a, 8) || BitAt(a | b, 16) != BitAt(a, 16) || BitAt(a | b, 32) != BitAt(a, 32)
         || BitAt(a | b, 64) != BitAt(a, 64) || BitAt(a | b, 128) != BitAt(a, 128)
  {
  }

  function TotalOnes(m: Bitmap): (n: nat)
    ensures n <= 8 * |m|
  {
    if m == [] then 0 else TotalOnes(m[..|m| - 1]) + Ones(m[|m| - 1])
  }

  /** All bits of `a` are set in `b`. */
  predicate Within(a: bv8, b: bv8) {
    a | b == b
  }

  lemma {:induction false} TotalGrows(a: Bitmap, b: Bitmap)
    requires |a| == |b| && forall i | 0 <= i < |a| :: Within(a[i], b[i])
    ensures TotalOnes(b) >= TotalOnes(a)
    ensures a != b ==> TotalOnes(b) > TotalOnes(a)
  {
    hide Ones;
    if a != [] {
      var k := |a| - 1;
      TotalGrows(a[..k], b[..k]);
      assert Within(a[k], b[k]);
      OnesGrow(a[k], b[k]);
      assert a == a[..k] + [a[k]] && b == b[..k] + [b[k]];
    }
  }

  lemma OrIsAbove(a: bv8, b: bv8)
    ensures Within(a, a | b) && Within(a, a)
  {
  }

  lemma OrTotal(a: Bitmap, b: Bitmap)
    ensures TotalOnes(Or(a, b)) >= TotalOnes(a)
    ensures Or(a, b) != a ==> TotalOnes(Or(a, b)) > TotalOnes(a)
  {
    forall i | 0 <= i < |a|
      ensures Within(a[i], Or(a, b)[i])
    {
      OrIsAbove(a[i], if i < |b| then b[i] else 0);
    }
    TotalGrows(a, Or(a, b));
  }

  /** The map after merging these, starting from an empty one. */
  function Accumulated(maps: seq<Bitmap>): Bitmap {
    if maps == [] then [] else Merged(Accumulated(maps[..|maps| - 1]), maps[|maps| - 1])
  }

  predicate Interesting(known: Bitmap, other: Bitmap) {
    Merged(known, other) != known || (known == [] && other == [])
  }

  /** The number of maps found interesting. */
  function YesCount(maps: seq<Bitmap>): nat {
    if maps == [] then 0 else
    var before := maps[..|maps| - 1];
    YesCount(before) + if Interesting(Accumulated(before), maps[|maps| - 1]) then 1 else 0
  }

  /** The number of empty maps before the first one that is not. */
  function LeadingEmpty(maps: seq<Bitmap>): (n: nat)
    ensures n <= |maps|
  {
    if maps == [] then 0 else
    var before := LeadingEmpty(maps[..|maps| - 1]);
    if before == |maps| - 1 && maps[|maps| - 1] == [] then |maps| else before
  }

  lemma {:induction false} AccumulatedEmpty(maps: seq<Bitmap>)
    ensures Accumulated(maps) == [] <==> LeadingEmpty(maps) == |maps|
  {
    if maps != [] {
      AccumulatedEmpty(maps[..|maps| - 1]);
    }
  }

  /** Each yes sets a bit that was not set, so there are at most 8 for each byte of the map, after the
      first one; empty maps before it are counted too. */
  lemma {:induction false} YesIsBounded(maps: seq<Bitmap>)
    ensures YesCount(maps) <= LeadingEmpty(maps)
                             + if Accumulated(maps) == [] then 0 else 1 + TotalOnes(Accumulated(maps))
  {
    hide TotalOnes, Or;
    if maps != [] {
      var before, last := maps[..|maps| - 1], maps[|maps| - 1];
      YesIsBounded(before);
      AccumulatedEmpty(before);
      OrTotal(Accumulated(before), last);
    }
  }

  /** For maps that are not empty: at most 1 + 8 * length, whatever the number of test cases. */
  lemma {:induction false} NewTestcasesAreBounded(maps: seq<Bitmap>)
    requires maps != [] && forall i | 0 <= i < |maps| :: maps[i] != []
    ensures |Accumulated(maps)| == |maps[0]|
    ensures YesCount(maps) <= 1 + 8 * |maps[0]|
  {
    hide YesCount, TotalOnes;
    FixedLength(maps);
    YesIsBounded(maps);
    NoneLeading(maps);
  }

  lemma {:induction false} NoneLeading(maps: seq<Bitmap>)
    requires maps == [] || maps[0] != []
    ensures LeadingEmpty(maps) == 0
  {
    if maps != [] {
      NoneLeading(maps[..|maps| - 1]);
    }
  }

  lemma {:induction false} FixedLength(maps: seq<Bitmap>)
    requires maps != [] && maps[0] != []
    ensures |Accumulated(maps)| == |maps[0]|
  {
    var before := maps[..|maps| - 1];
    if before == [] {
      assert Accumulated(before) == [];
    } else {
      assert before[0] == maps[0];
      FixedLength(before);
    }
  }

  /** Nothing that was covered is forgotten: a map seen before, or any part of one, is not interesting. */
  lemma {:induction false} SeenIsNotInteresting(maps: seq<Bitmap>, k: nat)
    requires k < |maps| && maps[0] != []
    ensures !Interesting(Accumulated(maps), maps[k])
  {
    FixedLength(maps);
    var m := Accumulated(maps);
    forall i | 0 <= i < |m| && i < |maps[k]|
      ensures m[i] | maps[k][i] == m[i]
    {
      BitsStay(maps, k, i);
    }
    assert Or(m, maps[k]) == m;
  }

  lemma {:induction false} BitsStay(maps: seq<Bitmap>, k: nat, i: nat)
    requires k < |maps| && maps[0] != [] && i < |maps[k]| && i < |maps[0]|
    ensures |Accumulated(maps)| == |maps[0]| && Accumulated(maps)[i] | maps[k][i] == Accumulated(maps)[i]
  {
    FixedLength(maps);
    var before, last := maps[..|maps| - 1], maps[|maps| - 1];
    if before == [] {
      assert Accumulated(before) == [];
    } else {
      FixedLength(before);
      assert before[0] == maps[0];
      if k < |before| {
        BitsStay(before, k, i);
        if i < |last| {
          OrKeeps(Accumulated(before)[i], last[i], maps[k][i]);
        }
      } else {
        OrAbsorbs(Accumulated(before)[i], last[i]);
      }
    }
  }

  lemma OrKeeps(a: bv8, b: bv8, c: bv8)
    requires a | c == a
    ensures (a | b) | c == a | b
  {
  }

  lemma OrAbsorbs(a: bv8, b: bv8)
    ensures (a | b) | b == a | b
  {
  }

  // ----- Processing new test cases -----

  /** What afl-showmap does on a test case; `Broken` is an error of the tool itself. */
  datatype Showmap = Success(bitmap: Bitmap) | TimedOut | Crashed | Broken

  /** `Failed` is an error result: the tool failed, or the test case could not be copied. */
  datatype TestcaseResult = Uninteresting | New | Hang | Crash | Failed

  class State {
    const currentBitmap: CoverageMap
    /** The next free ids of the directories. */
    var queueId: nat
    var crashesId: nat

    constructor ()
      ensures fresh(currentBitmap) && currentBitmap.data == [] && queueId == 0 && crashesId == 0
    {
      currentBitmap := new CoverageMap();
      queueId, crashesId := 0, 0;
    }

    /** `process_new_testcase`; copying fails if the parent's name has no id. */
    method ProcessNewTestcase(dontUseShowmap: bool, outcome: Showmap, parentHasId: bool)
      returns (result: TestcaseResult)
      modifies this, currentBitmap
      ensures currentBitmap.data
           == if !dontUseShowmap && outcome.Success? then Merged(old(currentBitmap.data), outcome.bitmap)
              else old(currentBitmap.data)
      ensures result == ResultOf(old(currentBitmap.data), dontUseShowmap, outcome, parentHasId)
      ensures queueId == old(queueId) + if result == New || result == Crash then 1 else 0
      ensures crashesId == old(crashesId) + if result == Crash then 1 else 0
    {
      if dontUseShowmap {
        if !parentHasId {
          return Failed;
        }
        queueId := queueId + 1;
        return New;
      }
      match outcome
      case Success(bitmap) =>
        var interesting := currentBitmap.Merge(bitmap);
        if !interesting {
          return Uninteresting;
        }
        if !parentHasId {
          // The coverage is recorded although the test case is not.
          return Failed;
        }
        queueId := queueId + 1;
        result := New;
      case TimedOut => result := Hang;
      case Crashed =>
        if !parentHasId {
          return Failed;
        }
        crashesId := crashesId + 1;
        queueId := queueId + 1;
        result := Crash;
      case Broken => result := Failed;
    }

    /** The loop of `test_input` over the test cases that one run of SymCC has generated; `history` are
        the maps merged so far. */
    method TestInput(dontUseShowmap: bool, outcomes: seq<Showmap>, parentHasId: bool, ghost history: seq<Bitmap>)
      returns (total: nat, interesting: nat)
      requires currentBitmap.data == Accumulated(history)
      modifies this, currentBitmap
      ensures currentBitmap.data == Accumulated(history + Maps(dontUseShowmap, outcomes))
      ensures total == NumberOf(history, dontUseShowmap, outcomes, parentHasId, {Uninteresting, New, Hang, Crash})
      ensures interesting == NumberOf(history, dontUseShowmap, outcomes, parentHasId, {New})
      ensures queueId == old(queueId) + interesting + NumberOf(history, dontUseShowmap, outcomes, parentHasId, {Crash})
      ensures crashesId == old(crashesId) + NumberOf(history, dontUseShowmap, outcomes, parentHasId, {Crash})
    {
      hide Merged, Interesting, Accumulated, ResultOf, NumberOf, Maps;
      total, interesting := 0, 0;
      NoneProcessed(history, dontUseShowmap, parentHasId);
      for i := 0 to |outcomes|
        invariant currentBitmap.data == Accumulated(history + Maps(dontUseShowmap, outcomes[..i]))
        invariant total
               == NumberOf(history, dontUseShowmap, outcomes[..i], parentHasId, {Uninteresting, New, Hang, Crash})
        invariant interesting == NumberOf(history, dontUseShowmap, outcomes[..i], parentHasId, {New})
        invariant queueId
               == old(queueId) + interesting + NumberOf(history, dontUseShowmap, outcomes[..i], parentHasId, {Crash})
        invariant crashesId == old(crashesId) + NumberOf(history, dontUseShowmap, outcomes[..i], parentHasId, {Crash})
      {
        assert outcomes[..i + 1][..i] == outcomes[..i];
        MergeStep(history, dontUseShowmap, outcomes[..i + 1]);
        OneProcessed(history, dontUseShowmap, outcomes[..i + 1], parentHasId, {Uninteresting, New, Hang, Crash});
        OneProcessed(history, dontUseShowmap, outcomes[..i + 1], parentHasId, {New});
        OneProcessed(history, dontUseShowmap, outcomes[..i + 1], parentHasId, {Crash});
        var result := ProcessNewTestcase(dontUseShowmap, outcomes[i], parentHasId);
        if result != Failed {
          total := total + 1;
          if result == New {
            interesting := interesting + 1;
          }
        }
      }
      assert outcomes[..|outcomes|] == outcomes;
    }
  }

  function ResultOf(known: Bitmap, dontUseShowmap: bool, outcome: Showmap, parentHasId: bool): TestcaseResult {
    if dontUseShowmap then (if parentHasId then New else Failed) else
    match outcome
    case Success(bitmap) => if !Interesting(known, bitmap) then Uninteresting else if parentHasId then New else Failed
    case TimedOut => Hang
    case Crashed => if parentHasId then Crash else Failed
    case Broken => Failed
  }

  /** The maps that are merged. */
  function Maps(dontUseShowmap: bool, outcomes: seq<Showmap>): seq<Bitmap> {
    if outcomes == [] then [] else
    var last := outcomes[|outcomes| - 1];
    Maps(dontUseShowmap, outcomes[..|outcomes| - 1]) + if !dontUseShowmap && last.Success? then [last.bitmap] else []
  }

  /** How many test cases have one of these results. */
  function NumberOf(history: seq<Bitmap>, dontUseShowmap: bool, outcomes: seq<Showmap>, parentHasId: bool,
                    kinds: set<TestcaseResult>): nat
  {
    if outcomes == [] then 0 else
    var before, last := outcomes[..|outcomes| - 1], outcomes[|outcomes| - 1];
    NumberOf(history, dontUseShowmap, before, parentHasId, kinds)
    + if ResultOf(Accumulated(history + Maps(dontUseShowmap, before)), dontUseShowmap, last, parentHasId) in kinds
        then 1 else 0
  }

  lemma NoneProcessed(history: seq<Bitmap>, dontUseShowmap: bool, parentHasId: bool)
    ensures history + Maps(dontUseShowmap, []) == history
    ensures forall kinds :: NumberOf(history, dontUseShowmap, [], parentHasId, kinds) == 0
  {
  }

  lemma OneProcessed(history: seq<Bitmap>, dontUseShowmap: bool, outcomes: seq<Showmap>, parentHasId: bool,
                     kinds: set<TestcaseResult>)
    requires outcomes != []
    ensures var before, last := outcomes[..|outcomes| - 1], outcomes[|outcomes| - 1];
      NumberOf(history, dontUseShowmap, outcomes, parentHasId, kinds)
      == NumberOf(history, dontUseShowmap, before, parentHasId, kinds)
         + if ResultOf(Accumulated(history + Maps(dontUseShowmap, before)), dontUseShowmap, last, parentHasId) in kinds
             then 1 else 0
  {
  }

  lemma MergeStep(history: seq<Bitmap>, dontUseShowmap: bool, outcomes: seq<Showmap>)
    requires outcomes != []
    ensures var before, last := outcomes[..|outcomes| - 1], outcomes[|outcomes| - 1];
      Accumulated(history + Maps(dontUseShowmap, outcomes))
      == if !dontUseShowmap && last.Success?
         then Merged(Accumulated(history + Maps(dontUseShowmap, before)), last.bitmap)
         else Accumulated(history + Maps(dontUseShowmap, before))
  {
    var before, last := outcomes[..|outcomes| - 1], outcomes[|outcomes| - 1];
    if !dontUseShowmap && last.Success? {
      var maps := history + Maps(dontUseShowmap, before);
      assert history + Maps(dontUseShowmap, outcomes) == maps + [last.bitmap];
      assert (maps + [last.bitmap])[..|maps|] == maps;
    } else {
      assert Maps(dontUseShowmap, outcomes) == Maps(dontUseShowmap, before);
    }
  }

  /** With afl-showmap, new test cases are interesting maps; without ids in the parent's name there are
      none at all. */
  lemma {:induction false} NewAreInteresting(history: seq<Bitmap>, outcomes: seq<Showmap>, parentHasId: bool)
    ensures NumberOf(history, false, outcomes, parentHasId, {New})
         == if parentHasId then YesCount(history + Maps(false, outcomes)) - YesCount(history) else 0
  {
    hide Interesting, Accumulated;
    if outcomes == [] {
      assert history + Maps(false, []) == history;
    } else {
      var before, last := outcomes[..|outcomes| - 1], outcomes[|outcomes| - 1];
      NewAreInteresting(history, before, parentHasId);
      var maps := history + Maps(false, before);
      if last.Success? {
        assert history + Maps(false, outcomes) == maps + [last.bitmap];
        assert (maps + [last.bitmap])[..|maps|] == maps;
      } else {
        assert history + Maps(false, outcomes) == maps;
      }
    }
  }

  /** One run of SymCC on an input: what afl-showmap does on each generated test case, and whether the
      input's name has an id. */
  datatype Generated = Generated(outcomes: seq<Showmap>, parentHasId: bool)

  /** All maps that a campaign merges. */
  function AllMaps(runs: seq<Generated>): seq<Bitmap> {
    if runs == [] then [] else AllMaps(runs[..|runs| - 1]) + Maps(false, runs[|runs| - 1].outcomes)
  }

  /** A whole campaign with afl-showmap: whatever SymCC generates, the test cases found new are bounded
      by the interesting maps, and for maps that are not empty by 1 + 8 * length; only crashes come to
      the queue on top of them. */
  method ProcessAll(state: State, runs: seq<Generated>) returns (enqueued: nat)
    requires state.currentBitmap.data == []
    modifies state, state.currentBitmap
    ensures state.currentBitmap.data == Accumulated(AllMaps(runs))
    ensures enqueued <= YesCount(AllMaps(runs))
    ensures (forall k | 0 <= k < |runs| :: runs[k].parentHasId) ==> enqueued == YesCount(AllMaps(runs))
    ensures AllMaps(runs) != [] && (forall m | m in AllMaps(runs) :: m != []) ==> enqueued <= 1 + 8 * |AllMaps(runs)[0]|
    ensures state.queueId - old(state.queueId) == enqueued + (state.crashesId - old(state.crashesId))
  {
    hide Interesting, Merged, Accumulated, YesCount, NumberOf;
    enqueued := 0;
    assert Accumulated([]) == [] && YesCount([]) == 0 by { NothingYet(); }
    for i := 0 to |runs|
      invariant state.currentBitmap.data == Accumulated(AllMaps(runs[..i]))
      invariant enqueued <= YesCount(AllMaps(runs[..i]))
      invariant (forall k | 0 <= k < i :: runs[k].parentHasId) ==> enqueued == YesCount(AllMaps(runs[..i]))
      invariant state.queueId - old(state.queueId) == enqueued + (state.crashesId - old(state.crashesId))
    {
      assert runs[..i + 1][..i] == runs[..i];
      var total, interesting := state.TestInput(false, runs[i].outcomes, runs[i].parentHasId, AllMaps(runs[..i]));
      NewAreInteresting(AllMaps(runs[..i]), runs[i].outcomes, runs[i].parentHasId);
      YesGrows(AllMaps(runs[..i]), Maps(false, runs[i].outcomes));
      enqueued := enqueued + interesting;
    }
    assert runs[..|runs|] == runs;
    if AllMaps(runs) != [] && forall m | m in AllMaps(runs) :: m != [] {
      assert forall i | 0 <= i < |AllMaps(runs)| :: AllMaps(runs)[i] in AllMaps(runs);
      NewTestcasesAreBounded(AllMaps(runs));
    }
  }

  lemma NothingYet()
    ensures Accumulated([]) == [] && YesCount([]) == 0
  {
  }

  lemma {:induction false} YesGrows(a: seq<Bitmap>, b: seq<Bitmap>)
    ensures YesCount(a + b) >= YesCount(a)
  {
    hide Interesting, Accumulated;
    if b == [] {
      assert a + b == a;
    } else {
      assert (a + b)[..|a + b| - 1] == a + b[..|b| - 1];
      YesGrows(a, b[..|b| - 1]);
    }
  }
}
