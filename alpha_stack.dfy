/**
  The inner `go` of `prop_equal` as the source runs it: one mutable stack
  of binder pairs, pushed before the codomains of two function types are
  compared and popped afterwards, with the entries of records and unions
  compared in a loop that stops at the first disagreement.
 */
module AlphaStack {
  import opened Wrappers
  import opened Syntax
  import opened Alpha

  /** The `Vec<(L, L)>` that `go` threads through its calls. */
  class BinderStack {
    var pairs: Binders

    constructor ()
      ensures pairs == []
    {
      pairs := [];
    }

    /** `Vec::push`: the pair goes on the end. */
    method Push(pair: (Label, Label))
      modifies this
      ensures pairs == old(pairs) + [pair]
    {
      pairs := pairs + [pair];
    }

    /** `Vec::pop`: the last pair comes off, if there is one. */
    method Pop() returns (top: Option<(Label, Label)>)
      modifies this
      ensures old(pairs) == [] ==> top == None && pairs == []
      ensures old(pairs) != [] ==> top == Some(old(pairs)[|old(pairs)| - 1]) &&
                                   pairs == old(pairs)[..|old(pairs)| - 1]
    {
      if pairs == [] {
        top := None;
      } else {
        top := Some(pairs[|pairs| - 1]);
        pairs := pairs[..|pairs| - 1];
      }
    }
  }

  /**
    `go(ctx, el, er)`: decides `Equal` with `match_vars` as written, and
    leaves the stack holding exactly what it held before.
   */
  method Go(stack: BinderStack, el: Expr, er: Expr) returns (eq: bool)
    modifies stack
    ensures stack.pairs == old(stack.pairs)
    ensures eq == Equal(MatchVars, old(stack.pairs), el, er)
    decreases el
  {
    if el.Pi? {
      eq := GoPi(stack, el, er);
    } else if el.App? {
      eq := GoApp(stack, el, er);
    } else if el.Record? || el.Union? {
      eq := GoComposite(stack, el, er);
    } else if el.Var? {
      eq := er.Var? && MatchVars(el.v.name, el.v.index, er.v.name, er.v.index, stack.pairs);
    } else if el.Const? {
      eq := er.Const? && er.c == el.c;
    } else if el.Builtin? {
      eq := er.Builtin? && er.builtin == el.builtin;
    } else {
      eq := false;
    }
  }

  /**
    Two function types: equal domains, then the codomains compared with the
    pair of bound names pushed for the duration of that comparison.
   */
  method GoPi(stack: BinderStack, el: Expr, er: Expr) returns (eq: bool)
    requires el.Pi?
    modifies stack
    ensures stack.pairs == old(stack.pairs)
    ensures eq == Equal(MatchVars, old(stack.pairs), el, er)
    decreases el, 0
  {
    if !er.Pi? {
      return false;
    }
    var eq1 := Go(stack, el.tA, er.tA);
    if eq1 {
      stack.Push((el.x, er.x));
      var eq2 := Go(stack, el.tB, er.tB);
      var _ := stack.Pop();
      eq := eq2;
    } else {
      eq := false;
    }
  }

  /** Two applications: equal functions, then equal arguments. */
  method GoApp(stack: BinderStack, el: Expr, er: Expr) returns (eq: bool)
    requires el.App?
    modifies stack
    ensures stack.pairs == old(stack.pairs)
    ensures eq == Equal(MatchVars, old(stack.pairs), el, er)
    decreases el, 0
  {
    if !er.App? {
      return false;
    }
    eq := Go(stack, el.fn, er.fn);
    if eq {
      eq := Go(stack, el.arg, er.arg);
    }
  }

  /** Two records, or two unions: their entries compared in order. */
  method GoComposite(stack: BinderStack, el: Expr, er: Expr) returns (eq: bool)
    requires el.Record? || el.Union?
    modifies stack
    ensures stack.pairs == old(stack.pairs)
    ensures eq == Equal(MatchVars, old(stack.pairs), el, er)
    decreases el, 1
  {
    if el.Record? {
      if !er.Record? {
        return false;
      }
      eq := GoEntries(stack, el, el.fieldTypes, er.fieldTypes);
    } else {
      if !er.Union? {
        return false;
      }
      eq := GoEntries(stack, el, el.alternatives, er.alternatives);
    }
  }

  /**
    The entries of two records (or two unions): unequal when their sizes
    differ, otherwise compared in order, stopping at the first pair whose
    labels or types disagree.
   */
  method GoEntries(stack: BinderStack, parent: Expr, l: seq<(Label, Expr)>, r: seq<(Label, Expr)>)
    returns (eq: bool)
    requires parent == Record(l) || parent == Union(l)
    modifies stack
    ensures stack.pairs == old(stack.pairs)
    ensures eq == (|l| == |r| && forall i | 0 <= i < |l| ::
                     l[i].0 == r[i].0 && Equal(MatchVars, old(stack.pairs), l[i].1, r[i].1))
    decreases parent, 0
  {
    if |l| != |r| {
      return false;
    }
    var i := 0;
    while i < |l|
      invariant 0 <= i <= |l|
      invariant stack.pairs == old(stack.pairs)
      invariant forall j | 0 <= j < i :: l[j].0 == r[j].0 && Equal(MatchVars, old(stack.pairs), l[j].1, r[j].1)
    {
      if l[i].0 != r[i].0 {
        return false;
      }
      var same := Go(stack, l[i].1, r[i].1);
      if !same {
        return false;
      }
      i := i + 1;
    }
    return true;
  }

  /** `prop_equal` on already-normalized types: a fresh, empty stack. */
  method PropEqualOnNormal(eL: Expr, eR: Expr) returns (eq: bool)
    ensures eq == Equal(MatchVars, [], eL, eR)
  {
    var stack := new BinderStack();
    eq := Go(stack, eL, eR);
  }
}
