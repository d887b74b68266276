/**
  Binder-aware equality of types, as `prop_equal` and its inner `go` decide
  it: `go` walks two expressions in step, keeping a stack of the binder names
  met on each side, and `match_vars` decides whether two variables refer to
  the same pair of binders.  `MatchVars` is `match_vars` as written;
  `MatchVarsCorrected` is the matcher the stack discipline calls for.  The
  judgement takes the matcher as a parameter, so that it can be run with
  either.
 */
module Alpha {
  import opened Syntax
  import opened Nameless

  /** The binder pairs met so far, outermost first (the order of `Vec::push`). */
  type Binders = seq<(Label, Label)>

  /** A variable matcher: left name and index, right name and index, binder stack. */
  type Matcher = (Label, int, Label, int, Binders) -> bool

  /**
    `match_vars` as written.  It reads the stack from index 0 (`split_first`),
    which is the OUTERMOST pair, and it decrements an index that may already
    be 0.  Indices are `int`: a release build wraps the `usize` to its
    maximum value, which agrees with `int` on equality and on the test for 0
    for every index below 2^64 minus the stack depth; a debug build aborts.
   */
  function MatchVars(xL: Label, nL: int, xR: Label, nR: int, ctx: Binders): bool
    decreases |ctx|
  {
    if |ctx| == 0 then xL == xR && nL == nR
    else
      var (xL2, xR2) := ctx[0];
      if nL == 0 && nR == 0 && xL == xL2 && xR == xR2 then true
      else
        var nL2 := if xL == xL2 then nL - 1 else nL;
        var nR2 := if xR == xR2 then nR - 1 else nR;
        MatchVars(xL, nL2, xR, nR2, ctx[1..])
  }

  /**
    The matcher the stack discipline calls for: the innermost pair (the last
    one pushed) first, and a variable that is bound by the current pair on
    one side only is a mismatch instead of an index below zero.
   */
  function MatchVarsCorrected(xL: Label, nL: int, xR: Label, nR: int, ctx: Binders): bool
    decreases |ctx|
  {
    if |ctx| == 0 then xL == xR && nL == nR
    else
      var (xL2, xR2) := ctx[|ctx| - 1];
      var hereL := xL == xL2 && nL == 0;
      var hereR := xR == xR2 && nR == 0;
      if hereL || hereR then hereL && hereR
      else
        var nL2 := if xL == xL2 then nL - 1 else nL;
        var nR2 := if xR == xR2 then nR - 1 else nR;
        MatchVarsCorrected(xL, nL2, xR, nR2, ctx[..|ctx| - 1])
  }

  /**
    The inner `go` of `prop_equal`, as a function of the stack it starts
    with; a function type pushes its binder pair for the codomain.  Only
    constants, variables, function types, applications, builtins, records
    and unions can compare equal.
   */
  function Equal(mv: Matcher, ctx: Binders, el: Expr, er: Expr): bool
    decreases el
  {
    match el
    case Const(a) => er.Const? && er.c == a
    case Var(vL) => er.Var? && mv(vL.name, vL.index, er.v.name, er.v.index, ctx)
    case Pi(xL, tL, bL) =>
      er.Pi? && Equal(mv, ctx, tL, er.tA) && Equal(mv, ctx + [(xL, er.x)], bL, er.tB)
    case App(fL, aL) => er.App? && Equal(mv, ctx, fL, er.fn) && Equal(mv, ctx, aL, er.arg)
    case Builtin(a) => er.Builtin? && er.builtin == a
    case Record(l) =>
      er.Record? && |l| == |er.fieldTypes| &&
      forall i | 0 <= i < |l| :: l[i].0 == er.fieldTypes[i].0 && Equal(mv, ctx, l[i].1, er.fieldTypes[i].1)
    case Union(l) =>
      er.Union? && |l| == |er.alternatives| &&
      forall i | 0 <= i < |l| :: l[i].0 == er.alternatives[i].0 && Equal(mv, ctx, l[i].1, er.alternatives[i].1)
    case _ => false
  }

  /** The left-hand and right-hand binder names of a stack. */
  function Lefts(ctx: Binders): (r: seq<Label>)
    ensures |r| == |ctx| && forall i :: 0 <= i < |ctx| ==> r[i] == ctx[i].0
  {
    seq(|ctx|, i requires 0 <= i < |ctx| => ctx[i].0)
  }

  function Rights(ctx: Binders): (r: seq<Label>)
    ensures |r| == |ctx| && forall i :: 0 <= i < |ctx| ==> r[i] == ctx[i].1
  {
    seq(|ctx|, i requires 0 <= i < |ctx| => ctx[i].1)
  }

  /**
    `prop_equal` over a normalizer and a matcher: with `MatchVars` it is
    `prop_equal` as written, with `MatchVarsCorrected` as intended.
   */
  function PropEqual(mv: Matcher, normalize: Expr -> Expr, eL: Expr, eR: Expr): bool {
    Equal(mv, [], normalize(eL), normalize(eR))
  }

  /**
    What `prop_equal` with the corrected matcher decides: the normal forms
    are both in the compared fragment and are the same up to the names of
    bound variables.
   */
  lemma PropEqualIsAlpha(normalize: Expr -> Expr, eL: Expr, eR: Expr)
    ensures PropEqual(MatchVarsCorrected, normalize, eL, eR) <==> AlphaEquivalent(normalize(eL), normalize(eR))
  {
    CorrectedEqualIsAlpha([], normalize(eL), normalize(eR));
  }

  // ---------------------------------------------------------------------
  // match_vars as written

  /** With no binders, two variables match iff names and indices are equal. */
  lemma MatchVarsEmpty(xL: Label, nL: int, xR: Label, nR: int)
    ensures MatchVars(xL, nL, xR, nR, []) <==> xL == xR && nL == nR
  {
  }

  /** Index 0 on both sides, named by the head pair: a match. */
  lemma MatchVarsHead(xL: Label, xR: Label, ctx: Binders)
    requires |ctx| > 0 && ctx[0] == (xL, xR)
    ensures MatchVars(xL, 0, xR, 0, ctx)
  {
  }

  /** Otherwise each index drops by one exactly when its name is its side of the head pair. */
  lemma MatchVarsStep(xL: Label, nL: int, xR: Label, nR: int, ctx: Binders)
    requires |ctx| > 0 && !(nL == 0 && nR == 0 && ctx[0] == (xL, xR))
    ensures MatchVars(xL, nL, xR, nR, ctx) ==
            MatchVars(xL, if xL == ctx[0].0 then nL - 1 else nL,
                      xR, if xR == ctx[0].1 then nR - 1 else nR, ctx[1..])
  {
  }

  /** Swapping the two sides of the variables and of every pair changes nothing. */
  lemma {:induction false} MatchVarsSymmetric(xL: Label, nL: int, xR: Label, nR: int, ctx: Binders)
    ensures MatchVars(xL, nL, xR, nR, ctx) ==
            MatchVars(xR, nR, xL, nL, seq(|ctx|, i requires 0 <= i < |ctx| => (ctx[i].1, ctx[i].0)))
    decreases |ctx|
  {
    var swapped := seq(|ctx|, i requires 0 <= i < |ctx| => (ctx[i].1, ctx[i].0));
    if |ctx| > 0 {
      var (xL2, xR2) := ctx[0];
      var nL2 := if xL == xL2 then nL - 1 else nL;
      var nR2 := if xR == xR2 then nR - 1 else nR;
      var tail := ctx[1..];
      assert swapped[1..] == seq(|tail|, i requires 0 <= i < |tail| => (tail[i].1, tail[i].0));
      MatchVarsSymmetric(xL, nL2, xR, nR2, tail);
    }
  }

  /** When both sides of every pair carry the same name, a variable matches itself. */
  lemma {:induction false} MatchVarsReflexive(x: Label, n: int, ctx: Binders)
    requires forall i :: 0 <= i < |ctx| ==> ctx[i].0 == ctx[i].1
    ensures MatchVars(x, n, x, n, ctx)
    decreases |ctx|
  {
    if |ctx| > 0 {
      var (a, b) := ctx[0];
      if !(n == 0 && x == a) {
        MatchVarsReflexive(x, if x == a then n - 1 else n, ctx[1..]);
      }
    }
  }

  // ---------------------------------------------------------------------
  // go, for any matcher

  /** Records (and unions) of different sizes are unequal. */
  lemma EqualSizes(mv: Matcher, ctx: Binders, l: seq<(Label, Expr)>, r: seq<(Label, Expr)>)
    requires |l| != |r|
    ensures !Equal(mv, ctx, Record(l), Record(r))
    ensures !Equal(mv, ctx, Union(l), Union(r))
  {
  }

  /** Builtins are equal iff they are the same builtin. */
  lemma EqualBuiltins(mv: Matcher, ctx: Binders, a: Builtin, b: Builtin)
    ensures Equal(mv, ctx, Builtin(a), Builtin(b)) <==> a == b
  {
  }

  /** The shapes `go` compares. */
  predicate Comparable(e: Expr) {
    e.Const? || e.Var? || e.Pi? || e.App? || e.Builtin? || e.Record? || e.Union?
  }

  /** Anything else, and any pair of different shapes, is unequal. */
  lemma EqualOnlySameShape(mv: Matcher, ctx: Binders, el: Expr, er: Expr)
    ensures Equal(mv, ctx, el, er) ==>
              (Comparable(el) && el.Const? == er.Const? &&
               el.Var? == er.Var? && el.Pi? == er.Pi? && el.App? == er.App? &&
               el.Builtin? == er.Builtin? && el.Record? == er.Record? && el.Union? == er.Union?)
  {
  }

  // ---------------------------------------------------------------------
  // The corrected matcher decides alpha-equivalence

  lemma NamesOfPush(ctx: Binders, a: Label, b: Label)
    ensures Lefts(ctx + [(a, b)]) == Lefts(ctx) + [a]
    ensures Rights(ctx + [(a, b)]) == Rights(ctx) + [b]
  {
  }

  /** Two variables match exactly when they have the same referent on their own side. */
  lemma {:induction false} CorrectedMatchResolves(xL: Label, nL: int, xR: Label, nR: int, ctx: Binders)
    ensures MatchVarsCorrected(xL, nL, xR, nR, ctx) ==
            (Resolve(xL, nL, Lefts(ctx)) == Resolve(xR, nR, Rights(ctx)))
    decreases |ctx|
  {
    if |ctx| > 0 {
      var init := ctx[..|ctx| - 1];
      assert Lefts(ctx)[..|ctx| - 1] == Lefts(init);
      assert Rights(ctx)[..|ctx| - 1] == Rights(init);
      var (xL2, xR2) := ctx[|ctx| - 1];
      var nL2 := if xL == xL2 then nL - 1 else nL;
      var nR2 := if xR == xR2 then nR - 1 else nR;
      CorrectedMatchResolves(xL, nL2, xR, nR2, init);
    }
  }

  /**
    With the corrected matcher, `go` holds exactly when both sides lie in
    the compared fragment and have the same nameless form under the
    stacked binders, i.e. they are equal up to renaming of bound variables.
   */
  lemma {:induction false} CorrectedEqualIsAlpha(ctx: Binders, el: Expr, er: Expr)
    ensures Equal(MatchVarsCorrected, ctx, el, er) <==>
            InFragment(el) && InFragment(er) && Erase(el, Lefts(ctx)) == Erase(er, Rights(ctx))
    decreases el, 1
  {
    if el.Var? && er.Var? {
      CorrectedMatchResolves(el.v.name, el.v.index, er.v.name, er.v.index, ctx);
    } else if el.Pi? && er.Pi? {
      CorrectedEqualIsAlpha(ctx, el.tA, er.tA);
      CorrectedEqualIsAlpha(ctx + [(el.x, er.x)], el.tB, er.tB);
      NamesOfPush(ctx, el.x, er.x);
    } else if el.App? && er.App? {
      CorrectedEqualIsAlpha(ctx, el.fn, er.fn);
      CorrectedEqualIsAlpha(ctx, el.arg, er.arg);
    } else if el.Record? && er.Record? {
      EntriesAlpha(ctx, el, el.fieldTypes, er.fieldTypes);
    } else if el.Union? && er.Union? {
      EntriesAlpha(ctx, el, el.alternatives, er.alternatives);
    } else {
      ShapesDiffer(ctx, el, er);
    }
  }

  /** The case where the two sides are not both of one compared shape. */
  lemma ShapesDiffer(ctx: Binders, el: Expr, er: Expr)
    requires !(el.Var? && er.Var?) && !(el.Pi? && er.Pi?) && !(el.App? && er.App?)
    requires !(el.Record? && er.Record?) && !(el.Union? && er.Union?)
    ensures Equal(MatchVarsCorrected, ctx, el, er) <==>
            InFragment(el) && InFragment(er) && Erase(el, Lefts(ctx)) == Erase(er, Rights(ctx))
  {
  }

  /** The entry-by-entry step of `CorrectedEqualIsAlpha`, for records and unions. */
  lemma {:induction false} EntriesAlpha(ctx: Binders, parent: Expr, l: seq<(Label, Expr)>, r: seq<(Label, Expr)>)
    requires parent == Record(l) || parent == Union(l)
    ensures (|l| == |r| && forall i | 0 <= i < |l| :: l[i].0 == r[i].0 && Equal(MatchVarsCorrected, ctx, l[i].1, r[i].1))
        <==> (forall i | 0 <= i < |l| :: InFragment(l[i].1)) && (forall i | 0 <= i < |r| :: InFragment(r[i].1)) &&
             seq(|l|, i requires 0 <= i < |l| => (l[i].0, Erase(l[i].1, Lefts(ctx)))) ==
             seq(|r|, i requires 0 <= i < |r| => (r[i].0, Erase(r[i].1, Rights(ctx))))
    decreases parent, 0
  {
    var L := seq(|l|, i requires 0 <= i < |l| => (l[i].0, Erase(l[i].1, Lefts(ctx))));
    var R := seq(|r|, i requires 0 <= i < |r| => (r[i].0, Erase(r[i].1, Rights(ctx))));
    if |l| == |r| {
      forall i | 0 <= i < |l|
        ensures Equal(MatchVarsCorrected, ctx, l[i].1, r[i].1) <==>
                InFragment(l[i].1) && InFragment(r[i].1) && L[i].1 == R[i].1
      {
        CorrectedEqualIsAlpha(ctx, l[i].1, r[i].1);
      }
      if L == R {
        assert forall i | 0 <= i < |l| :: L[i] == R[i];
      }
    } else {
      assert |L| != |R|;
    }
  }

  // ---------------------------------------------------------------------
  // What the matcher as written gets wrong

  /**
    Read outermost first, the stack pairs a variable with the wrong binder:
    `∀(a : Type) → ∀(a : Type) → a` names the inner binder and
    `∀(a : Type) → ∀(b : Type) → a` the outer one, yet `go` as written
    calls them equal; the corrected matcher does not.
   */
  lemma AsWrittenReadsOutermostFirst()
    ensures var inner := Pi("a", Const(Type), Pi("a", Const(Type), Var(V("a", 0))));
            var outer := Pi("a", Const(Type), Pi("b", Const(Type), Var(V("a", 0))));
            Equal(MatchVars, [], inner, outer) &&
            !Equal(MatchVarsCorrected, [], inner, outer) &&
            Erase(inner, []) != Erase(outer, [])
  {
    var inner := Pi("a", Const(Type), Pi("a", Const(Type), Var(V("a", 0))));
    var outer := Pi("a", Const(Type), Pi("b", Const(Type), Var(V("a", 0))));
    assert MatchVars("a", 0, "a", 0, [("a", "a"), ("a", "b")]);
    assert [] + [("a", "a")] + [("a", "b")] == [("a", "a"), ("a", "b")];
    var names := ["a", "a"];
    assert Resolve("a", 0, names) == Bound(0);
    assert Resolve("a", 0, ["a", "b"]) == Bound(1) by {
      assert ["a", "b"][..1] == ["a"];
    }
    CorrectedEqualIsAlpha([], inner, outer);
  }

  /**
    With the stack read in either order, an index that passes below zero on
    one side can meet one that passes below zero on the other:
    `∀(c : Type) → ∀(a : Type) → a` (the inner binder) and
    `∀(a : Type) → ∀(b : Type) → a` (the outer binder) are not the same
    type, yet both readings of the stack without the guard for 0 match them.
   */
  lemma AsWrittenUnderflowMatches()
    ensures MatchVars("a", 0, "a", 0, [("c", "a"), ("a", "b")])
    ensures MatchVars("a", 0, "a", 0, [("a", "b"), ("c", "a")])
    ensures !MatchVarsCorrected("a", 0, "a", 0, [("c", "a"), ("a", "b")])
    ensures var left := Pi("c", Const(Type), Pi("a", Const(Type), Var(V("a", 0))));
            var right := Pi("a", Const(Type), Pi("b", Const(Type), Var(V("a", 0))));
            Equal(MatchVars, [], left, right) && Erase(left, []) != Erase(right, [])
  {
    assert [("c", "a"), ("a", "b")][1..] == [("a", "b")];
    assert [("a", "b"), ("c", "a")][1..] == [("c", "a")];
    assert [("c", "a"), ("a", "b")][..1] == [("c", "a")];
    assert [] + [("c", "a")] + [("a", "b")] == [("c", "a"), ("a", "b")];
    assert Resolve("a", 0, ["c", "a"]) == Bound(0);
    assert Resolve("a", 0, ["a", "b"]) == Bound(1) by {
      assert ["a", "b"][..1] == ["a"];
    }
  }
}
