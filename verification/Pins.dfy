/** `tryAlternative` in the library wrappers: an argument with an expression is pinned to its value. */
module Pins {
  import opened BitVectors
  import opened Expressions
  import opened Builders
  import opened Programs
  import opened Concolic
  import opened Faithfulness

  /** An argument of a wrapper and its parameter expression. */
  datatype Argument = Argument(v: Value, e: Option<Expr>)

  /** An argument as wide as a pointer. */
  function Wide(n: nat, e: Option<Expr>): Argument {
    Argument(MakeValue(64, n), e)
  }

  function Pin(a: Argument): Path {
    match a.e
    case Some(e) => [Constraint(CmpExpr(Eq, e, Lift(a.v)), true)]
    case None => []
  }

  function PinAll(args: seq<Argument>): Path {
    if args == [] then [] else PinAll(args[..|args| - 1]) + Pin(args[|args| - 1])
  }

  method PushPins(args: seq<Argument>) returns (pushed: Path)
    ensures pushed == PinAll(args)
  {
    pushed := [];
    for k := 0 to |args|
      invariant pushed == PinAll(args[..k])
    {
      assert args[..k + 1][..k] == args[..k];
      if args[k].e.Some? {
        pushed := pushed + [Constraint(CmpExpr(Eq, args[k].e.value, Lift(args[k].v)), true)];
      }
    }
    assert args[..|args|] == args;
  }

  /** The argument has the value `d` on another input. */
  ghost predicate ArgumentRelated(a: Argument, d: Value, inp: Input) {
    RegRelated(a.v, a.e, d, inp)
  }

  ghost predicate ArgumentsRelated(args: seq<Argument>, ds: seq<Value>, inp: Input) {
    |args| == |ds| && forall k | 0 <= k < |args| :: ArgumentRelated(args[k], ds[k], inp) && args[k].v.bits <= 64
  }

  predicate Unchanged(args: seq<Argument>, ds: seq<Value>)
    requires |args| == |ds|
  {
    forall k | 0 <= k < |args| :: args[k].v == ds[k]
  }

  lemma PathHoldsJoin(a: Path, b: Path, inp: Input)
    ensures PathHolds(a + b, inp) <==> PathHolds(a, inp) && PathHolds(b, inp)
  {
    hide Holds;
    if PathHolds(a + b, inp) {
      forall i | 0 <= i < |a|
        ensures Holds(a[i], inp)
      {
        assert (a + b)[i] == a[i];
      }
      forall i | 0 <= i < |b|
        ensures Holds(b[i], inp)
      {
        assert (a + b)[|a| + i] == b[i];
      }
    }
  }

  lemma PinHoldsIff(a: Argument, d: Value, inp: Input)
    requires ArgumentRelated(a, d, inp) && a.v.bits <= 64
    ensures PathHolds(Pin(a), inp) <==> a.v == d
  {
    hide Eval, SortOf, Lift, Holds;
    if a.e.Some? {
      LiftDenotesIff(a.v, inp);
      EqualityHoldsIff(a.e.value, Lift(a.v), inp, d, a.v, true);
      var c := Constraint(CmpExpr(Eq, a.e.value, Lift(a.v)), true);
      PathHoldsSnoc([], c, inp);
      assert [] + [c] == [c];
    }
  }

  /** The pins of a call hold on exactly the inputs that leave all of its arguments unchanged. */
  lemma {:induction false} PinsHoldIff(args: seq<Argument>, ds: seq<Value>, inp: Input)
    requires ArgumentsRelated(args, ds, inp)
    ensures PathHolds(PinAll(args), inp) <==> Unchanged(args, ds)
  {
    hide ArgumentRelated, Pin, PathHolds;
    if args == [] {
      NothingPinned(inp);
    } else {
      var k := |args| - 1;
      forall i | 0 <= i < k
        ensures ArgumentRelated(args[..k][i], ds[..k][i], inp) && args[..k][i].v.bits <= 64
      {
        assert ArgumentRelated(args[i], ds[i], inp);
      }
      PinsHoldIff(args[..k], ds[..k], inp);
      PathHoldsJoin(PinAll(args[..k]), Pin(args[k]), inp);
      assert ArgumentRelated(args[k], ds[k], inp);
      PinHoldsIff(args[k], ds[k], inp);
      assert Unchanged(args, ds) <==> Unchanged(args[..k], ds[..k]) && args[k].v == ds[k];
    }
  }

  lemma NothingPinned(inp: Input)
    ensures PathHolds([], inp)
  {
  }
}
