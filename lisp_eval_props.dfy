/**
  What `eval` (examples/lisp.js:57-103) promises, proved about the
  functions of `LispEval`.
*/
module LispEvalProps {
  import opened Wrappers
  import opened LispSyntax
  import opened LispEnv
  import opened LispEval

  /** A symbol evaluates to its binding in the nearest frame of the chain
      that binds it, and nothing in the store changes. */
  lemma SymbolReadsNearestBinding(prims: Prims, fuel: nat, n: string, env: nat, st: Store, i: nat)
    requires ValidStore(st) && env < |st| && fuel > 0
    requires i < |Chain(st, env)| && n in st[Chain(st, env)[i]].vars
    requires forall j :: 0 <= j < i ==> n !in st[Chain(st, env)[j]].vars
    ensures Eval(prims, fuel, Sym(n), env, st) == Out(Ok(st[Chain(st, env)[i]].vars[n]), st)
  {
    var c := Chain(st, env);
    FindFrameNearest(st, env, n);
    var k := FindFrame(st, env, n).value;
    var i' :| 0 <= i' < |c| && c[i'] == k && n in st[c[i']].vars &&
              forall j :: 0 <= j < i' ==> n !in st[c[j]].vars;
    assert i' == i;
  }

  /** A symbol that no frame of the chain binds throws
      "Variable '<name>' not found", and only then. */
  lemma SymbolUnbound(prims: Prims, fuel: nat, n: string, env: nat, st: Store)
    requires ValidStore(st) && env < |st| && fuel > 0
    ensures Eval(prims, fuel, Sym(n), env, st).st == st
    ensures Eval(prims, fuel, Sym(n), env, st).result == Fail(Unbound(n)) <==>
              forall j :: 0 <= j < |Chain(st, env)| ==> n !in st[Chain(st, env)[j]].vars
  {
    FindFrameNearest(st, env, n);
  }

  /** A number evaluates to itself, in any environment. */
  lemma NumberSelfEvaluates(prims: Prims, fuel: nat, t: string, env: nat, st: Store)
    requires ValidStore(st) && env < |st| && fuel > 0
    ensures Eval(prims, fuel, Num(t), env, st) == Out(Ok(NumV(t)), st)
  {
  }

  /** `quote` returns its operand as data without looking at the
      environment: the same value from any frame, and the store untouched. */
  lemma QuoteIgnoresEnvironment(prims: Prims, fuel: nat, e: Expr, rest: seq<Expr>,
                                env1: nat, st1: Store, env2: nat, st2: Store)
    requires ValidStore(st1) && env1 < |st1| && ValidStore(st2) && env2 < |st2| && fuel > 0
    ensures Eval(prims, fuel, List([Sym("quote"), e] + rest), env1, st1) == Out(Ok(Datum(e)), st1)
    ensures Eval(prims, fuel, List([Sym("quote"), e] + rest), env1, st1).result ==
            Eval(prims, fuel, List([Sym("quote"), e] + rest), env2, st2).result
  {
    var xs := [Sym("quote"), e] + rest;
    assert IsForm(xs, "quote") && Element(xs, 1) == Some(e);
  }

  /** `if` evaluates exactly one branch: the consequent when the test is
      truthy (whatever the alternative is), the alternative otherwise
      (whatever the consequent is), in the store the test left. */
  lemma IfEvaluatesOneBranch(prims: Prims, fuel: nat, test: Expr, conseq: Expr, alt: Expr,
                             other: Expr, env: nat, st: Store)
    requires ValidStore(st) && env < |st| && fuel > 0
    ensures var t := Eval(prims, fuel - 1, test, env, st);
      t.result.Ok? && Truthy(t.result.value) ==>
        Eval(prims, fuel, List([Sym("if"), test, conseq, alt]), env, st) ==
          Eval(prims, fuel - 1, conseq, env, t.st) ==
          Eval(prims, fuel, List([Sym("if"), test, conseq, other]), env, st)
    ensures var t := Eval(prims, fuel - 1, test, env, st);
      t.result.Ok? && !Truthy(t.result.value) ==>
        Eval(prims, fuel, List([Sym("if"), test, conseq, alt]), env, st) ==
          Eval(prims, fuel - 1, alt, env, t.st) ==
          Eval(prims, fuel, List([Sym("if"), test, other, alt]), env, st)
    ensures var t := Eval(prims, fuel - 1, test, env, st);
      t.result.Fail? ==>
        Eval(prims, fuel, List([Sym("if"), test, conseq, alt]), env, st) == Out(Fail(t.result.error), t.st)
  {
    var xs := [Sym("if"), test, conseq, alt];
    var ys := [Sym("if"), test, conseq, other];
    var zs := [Sym("if"), test, other, alt];
    assert IsForm(xs, "if") && !IsForm(xs, "quote");
    assert IsForm(ys, "if") && !IsForm(ys, "quote");
    assert IsForm(zs, "if") && !IsForm(zs, "quote");
    assert Element(xs, 1) == Element(ys, 1) == Element(zs, 1) == Some(test);
    assert Element(xs, 2) == Element(ys, 2) == Some(conseq);
    assert Element(xs, 3) == Element(zs, 3) == Some(alt);
    assert Eval(prims, fuel, List(xs), env, st) == EvalIf(prims, fuel - 1, xs, env, st);
    assert Eval(prims, fuel, List(ys), env, st) == EvalIf(prims, fuel - 1, ys, env, st);
    assert Eval(prims, fuel, List(zs), env, st) == EvalIf(prims, fuel - 1, zs, env, st);
    var t := Eval(prims, fuel - 1, test, env, st);
    assert EvalOpt(prims, fuel - 1, Some(test), env, st) == t;
    if t.result.Ok? {
      assert EvalOpt(prims, fuel - 1, Some(conseq), env, t.st) == Eval(prims, fuel - 1, conseq, env, t.st);
      assert EvalOpt(prims, fuel - 1, Some(alt), env, t.st) == Eval(prims, fuel - 1, alt, env, t.st);
    }
  }

  /** Without an alternative, a falsy test makes `if` yield `undefined`. */
  lemma IfWithoutAlternative(prims: Prims, fuel: nat, test: Expr, conseq: Expr, env: nat, st: Store)
    requires ValidStore(st) && env < |st| && fuel > 0
    requires Eval(prims, fuel - 1, test, env, st).result.Ok?
    requires !Truthy(Eval(prims, fuel - 1, test, env, st).result.value)
    ensures Eval(prims, fuel, List([Sym("if"), test, conseq]), env, st) ==
            Out(Ok(Undefined), Eval(prims, fuel - 1, test, env, st).st)
  {
    var xs := [Sym("if"), test, conseq];
    assert IsForm(xs, "if") && !IsForm(xs, "quote") && Element(xs, 1) == Some(test) && Element(xs, 3) == None;
    assert Eval(prims, fuel, List(xs), env, st) == EvalIf(prims, fuel - 1, xs, env, st);
    assert EvalOpt(prims, fuel - 1, Some(test), env, st) == Eval(prims, fuel - 1, test, env, st);
  }

  /** `set!` on a name no frame binds throws before its value expression is
      evaluated: whatever that expression is, the store is left as it was. */
  lemma SetUnboundThrowsFirst(prims: Prims, fuel: nat, n: string, e: Expr, env: nat, st: Store)
    requires ValidStore(st) && env < |st| && fuel > 0
    requires forall j :: 0 <= j < |Chain(st, env)| ==> n !in st[Chain(st, env)[j]].vars
    ensures Eval(prims, fuel, List([Sym("set!"), Sym(n), e]), env, st) == Out(Fail(Unbound(n)), st)
  {
    FindFrameNearest(st, env, n);
    var xs := [Sym("set!"), Sym(n), e];
    assert IsForm(xs, "set!") && !IsForm(xs, "quote") && !IsForm(xs, "if") && Element(xs, 1) == Some(Sym(n));
    assert Eval(prims, fuel, List(xs), env, st) == EvalSet(prims, fuel - 1, xs, env, st);
  }

  /** `set!` on a bound name overwrites the binding in the frame that owned
      the name before the value was evaluated, and in no other frame; it
      creates no binding and yields `undefined`. */
  lemma SetWritesOwningFrame(prims: Prims, fuel: nat, n: string, e: Expr, env: nat, st: Store, i: nat)
    requires ValidStore(st) && env < |st| && fuel > 0
    requires i < |Chain(st, env)| && n in st[Chain(st, env)[i]].vars
    requires forall j :: 0 <= j < i ==> n !in st[Chain(st, env)[j]].vars
    requires Eval(prims, fuel - 1, e, env, st).result.Ok?
    ensures var val := Eval(prims, fuel - 1, e, env, st);
            var o := Eval(prims, fuel, List([Sym("set!"), Sym(n), e]), env, st);
            var k := Chain(st, env)[i];
      o.result == Ok(Undefined) && |o.st| == |val.st| &&
      o.st[k].vars == val.st[k].vars[n := val.result.value] &&
      (forall m :: 0 <= m < |o.st| && m != k ==> o.st[m] == val.st[m]) &&
      (forall m :: 0 <= m < |o.st| ==> o.st[m].outer == val.st[m].outer)
  {
    var c := Chain(st, env);
    FindFrameNearest(st, env, n);
    var k := FindFrame(st, env, n).value;
    var i' :| 0 <= i' < |c| && c[i'] == k && n in st[c[i']].vars &&
              forall j :: 0 <= j < i' ==> n !in st[c[j]].vars;
    assert i' == i;
    SetDispatch(prims, fuel, n, e, env, st);
    var val := Eval(prims, fuel - 1, e, env, st);
    AssignEffect(val.st, k, n, val.result.value);
  }

  /** `Assign` changes the bindings of one frame and nothing else. */
  lemma AssignEffect(st: Store, k: nat, n: string, v: Value)
    requires ValidStore(st) && k < |st|
    ensures var st' := Assign(st, k, n, v);
      st'[k].vars == st[k].vars[n := v] &&
      (forall m :: 0 <= m < |st'| && m != k ==> st'[m] == st[m]) &&
      (forall m :: 0 <= m < |st'| ==> st'[m].outer == st[m].outer)
  {
  }

  /** A `set!` of a bound name evaluates its value and assigns it in the
      frame `FindFrame` picks. */
  lemma SetDispatch(prims: Prims, fuel: nat, n: string, e: Expr, env: nat, st: Store)
    requires ValidStore(st) && env < |st| && fuel > 0
    requires FindFrame(st, env, n).Some?
    requires Eval(prims, fuel - 1, e, env, st).result.Ok?
    ensures var val := Eval(prims, fuel - 1, e, env, st);
      Eval(prims, fuel, List([Sym("set!"), Sym(n), e]), env, st) ==
        Out(Ok(Undefined), Assign(val.st, FindFrame(st, env, n).value, n, val.result.value))
  {
    var xs := [Sym("set!"), Sym(n), e];
    assert IsForm(xs, "set!") && !IsForm(xs, "quote") && !IsForm(xs, "if");
    assert Element(xs, 1) == Some(Sym(n)) && Element(xs, 2) == Some(e);
    assert Eval(prims, fuel, List(xs), env, st) == EvalSet(prims, fuel - 1, xs, env, st);
    assert EvalOpt(prims, fuel - 1, Some(e), env, st) == Eval(prims, fuel - 1, e, env, st);
  }

  /** `define` binds the name in the current frame only: afterwards the
      name is found in that frame with the new value, which shadows any
      outer binding, and every other frame is as the value expression left it. */
  lemma DefineBindsLocally(prims: Prims, fuel: nat, n: string, e: Expr, env: nat, st: Store)
    requires ValidStore(st) && env < |st| && fuel > 0
    requires Eval(prims, fuel - 1, e, env, st).result.Ok?
    ensures var val := Eval(prims, fuel - 1, e, env, st);
            var o := Eval(prims, fuel, List([Sym("define"), Sym(n), e]), env, st);
      o.result == Ok(Undefined) && |o.st| == |val.st| &&
      FindFrame(o.st, env, n) == Some(env) && o.st[env].vars[n] == val.result.value &&
      (forall m :: 0 <= m < |o.st| && m != env ==> o.st[m] == val.st[m])
  {
    var xs := [Sym("define"), Sym(n), e];
    assert IsForm(xs, "define") && !IsForm(xs, "quote") && !IsForm(xs, "if") && !IsForm(xs, "set!");
    assert Element(xs, 1) == Some(Sym(n)) && Element(xs, 2) == Some(e);
    assert Eval(prims, fuel, List(xs), env, st) == EvalDefine(prims, fuel - 1, xs, env, st);
    var val := Eval(prims, fuel - 1, e, env, st);
    assert EvalOpt(prims, fuel - 1, Some(e), env, st) == val;
    var st' := Assign(val.st, env, n, val.result.value);
    assert Eval(prims, fuel, List(xs), env, st) == Out(Ok(Undefined), st');
    assert n in st'[env].vars;
  }

  /** `lambda` evaluates neither its parameters nor its body: it captures
      them with the current frame and leaves the store as it was. */
  lemma LambdaCapturesFrame(prims: Prims, fuel: nat, params: Expr, body: Expr, env: nat, st: Store)
    requires ValidStore(st) && env < |st| && fuel > 0
    ensures Eval(prims, fuel, List([Sym("lambda"), params, body]), env, st) ==
            Out(Ok(Closure(Some(params), Some(body), env)), st)
  {
    var xs := [Sym("lambda"), params, body];
    assert IsForm(xs, "lambda") && !IsForm(xs, "quote") && !IsForm(xs, "if") &&
           !IsForm(xs, "set!") && !IsForm(xs, "define");
    assert Element(xs, 1) == Some(params) && Element(xs, 2) == Some(body);
  }

  /** Calling a closure binds the parameters in a fresh frame whose outer
      frame is the captured one: in the body, a parameter resolves to the
      new frame and every other name exactly as it did where the `lambda`
      was evaluated, whoever the caller is. */
  lemma ClosureCallIsLexical(prims: Prims, fuel: nat, names: seq<string>, body: Expr, cenv: nat,
                             args: seq<Value>, st: Store, n: string)
    requires ValidStore(st) && cenv < |st|
    ensures var st1 := st + [Frame(Bind(names, args), Some(cenv))];
      ValidStore(st1) &&
      Apply(prims, fuel, Closure(Some(List(seq(|names|, i requires 0 <= i < |names| => Sym(names[i])))),
                                 Some(body), cenv), args, st) ==
        Eval(prims, fuel, body, |st|, st1) &&
      FindFrame(st1, |st|, n) == (if n in names then Some(|st|) else FindFrame(st, cenv, n))
  {
    var ps := seq(|names|, i requires 0 <= i < |names| => Sym(names[i]));
    var pn := ParamNames(Some(List(ps)));
    assert pn.Ok?;
    assert pn.value == names;
    var f := Frame(Bind(names, args), Some(cenv));
    var st1 := st + [f];
    assert ValidStore(st1) by {
      forall m | 0 <= m < |st1| && st1[m].outer.Some? ensures st1[m].outer.value < m {
        if m < |st| { assert st1[m] == st[m]; }
      }
    }
    BindKeys(names, args);
    assert n in Bind(names, args) <==> n in names by {
      if n in names {
        var i :| 0 <= i < |names| && names[i] == n;
        assert n in (set i | 0 <= i < |names| :: names[i]);
      }
    }
    assert st1[|st|] == f;
    if n !in names {
      FindFrameExtend(st, f, cenv, n);
    }
  }

  /** Missing arguments are `undefined` and extra ones are dropped: a
      parameter that occurs once is bound to the argument at its position. */
  lemma ClosureCallBindsArguments(names: seq<string>, args: seq<Value>, i: nat)
    requires i < |names| && forall j :: 0 <= j < |names| && j != i ==> names[j] != names[i]
    ensures names[i] in Bind(names, args)
    ensures Bind(names, args)[names[i]] == (if i < |args| then args[i] else Undefined)
  {
    BindLastWins(names, args, i);
  }

  /** Evaluating two runs of expressions one after the other is evaluating
      their concatenation: later expressions see the store the earlier ones left. */
  lemma {:induction false} EvalAllAppend(prims: Prims, fuel: nat, xs: seq<Expr>, ys: seq<Expr>, env: nat, st: Store)
    requires ValidStore(st) && env < |st|
    ensures var a := EvalAll(prims, fuel, xs, env, st);
      EvalAll(prims, fuel, xs + ys, env, st) ==
        match a.result
        case Fail(e) => Out(Fail(e), a.st)
        case Ok(vs) =>
          var b := EvalAll(prims, fuel, ys, env, a.st);
          match b.result
          case Fail(e) => Out(Fail(e), b.st)
          case Ok(ws) => Out(Ok(vs + ws), b.st)
    decreases |xs|
  {
    if xs == [] {
      assert xs + ys == ys;
      var b := EvalAll(prims, fuel, ys, env, st);
      if b.result.Ok? {
        assert [] + b.result.value == b.result.value;
      }
    } else {
      assert (xs + ys)[0] == xs[0] && (xs + ys)[1..] == xs[1..] + ys;
      var first := Eval(prims, fuel, xs[0], env, st);
      if first.result.Ok? {
        EvalAllAppend(prims, fuel, xs[1..], ys, env, first.st);
        var r := EvalAll(prims, fuel, xs[1..], env, first.st);
        if r.result.Ok? {
          var b := EvalAll(prims, fuel, ys, env, r.st);
          if b.result.Ok? {
            assert [first.result.value] + (r.result.value + b.result.value) ==
                   ([first.result.value] + r.result.value) + b.result.value;
          }
        }
      }
    }
  }

  /** An empty `begin` yields `undefined` and leaves the store as it was. */
  lemma BeginEmpty(prims: Prims, fuel: nat, env: nat, st: Store)
    requires ValidStore(st) && env < |st| && fuel > 0
    ensures Eval(prims, fuel, List([Sym("begin")]), env, st) == Out(Ok(Undefined), st)
  {
    BeginDispatch(prims, fuel, [], env, st);
    assert [Sym("begin")] + [] == [Sym("begin")];
    assert EvalAll(prims, fuel - 1, [], env, st) == Out(Ok([]), st);
  }

  /** `begin` yields the value of its last expression, evaluated after all
      the others. */
  lemma BeginYieldsLast(prims: Prims, fuel: nat, xs: seq<Expr>, last: Expr, env: nat, st: Store)
    requires ValidStore(st) && env < |st| && fuel > 0
    requires EvalAll(prims, fuel - 1, xs, env, st).result.Ok?
    ensures Eval(prims, fuel, List([Sym("begin")] + xs + [last]), env, st) ==
            Eval(prims, fuel - 1, last, env, EvalAll(prims, fuel - 1, xs, env, st).st)
  {
    assert [Sym("begin")] + xs + [last] == [Sym("begin")] + (xs + [last]);
    BeginDispatch(prims, fuel, xs + [last], env, st);
    BeginOfSnoc(prims, fuel - 1, xs, last, env, st);
  }

  /** The value of a `begin` body is that of its last expression,
      evaluated in the store the others left. */
  lemma BeginOfSnoc(prims: Prims, fuel: nat, xs: seq<Expr>, last: Expr, env: nat, st: Store)
    requires ValidStore(st) && env < |st|
    requires EvalAll(prims, fuel, xs, env, st).result.Ok?
    ensures EvalBegin(prims, fuel, xs + [last], env, st) == Eval(prims, fuel, last, env, EvalAll(prims, fuel, xs, env, st).st)
  {
    EvalAllAppend(prims, fuel, xs, [last], env, st);
    var a := EvalAll(prims, fuel, xs, env, st);
    if a.result.Ok? {
      EvalAllSingleton(prims, fuel, last, env, a.st);
      var l := Eval(prims, fuel, last, env, a.st);
      if l.result.Ok? {
        var vs := a.result.value + [l.result.value];
        assert vs[|vs| - 1] == l.result.value;
        assert EvalAll(prims, fuel, xs + [last], env, st) == Out(Ok(vs), l.st);
      }
    }
  }

  /** A list headed by `begin` is evaluated as a `begin` of the rest. */
  lemma BeginDispatch(prims: Prims, fuel: nat, body: seq<Expr>, env: nat, st: Store)
    requires ValidStore(st) && env < |st| && fuel > 0
    ensures Eval(prims, fuel, List([Sym("begin")] + body), env, st) == EvalBegin(prims, fuel - 1, body, env, st)
  {
    var ws := [Sym("begin")] + body;
    assert IsForm(ws, "begin") && !IsForm(ws, "quote") && !IsForm(ws, "if") && !IsForm(ws, "set!") &&
           !IsForm(ws, "define") && !IsForm(ws, "lambda") && ws[1..] == body;
  }

  /** Evaluating a single expression as a run of one. */
  lemma EvalAllSingleton(prims: Prims, fuel: nat, e: Expr, env: nat, st: Store)
    requires ValidStore(st) && env < |st|
    ensures var l := Eval(prims, fuel, e, env, st);
      EvalAll(prims, fuel, [e], env, st) ==
        match l.result
        case Fail(err) => Out(Fail(err), l.st)
        case Ok(v) => Out(Ok([v]), l.st)
  {
    assert [e][0] == e && [e][1..] == [];
    var l := Eval(prims, fuel, e, env, st);
    if l.result.Ok? {
      assert EvalAll(prims, fuel, [], env, l.st) == Out(Ok([]), l.st);
      assert [l.result.value] + [] == [l.result.value];
    }
  }

  /** An application evaluates every element, the head included, left to
      right in the current frame, and then calls the head's value on the
      values of the rest. */
  lemma ApplicationEvaluatesAllThenCalls(prims: Prims, fuel: nat, head: Expr, operands: seq<Expr>, env: nat, st: Store)
    requires ValidStore(st) && env < |st| && fuel > 0
    requires !head.Sym? || head.name !in {"quote", "if", "set!", "define", "lambda", "begin"}
    ensures var a := EvalAll(prims, fuel - 1, [head] + operands, env, st);
      Eval(prims, fuel, List([head] + operands), env, st) ==
        match a.result
        case Fail(e) => Out(Fail(e), a.st)
        case Ok(vs) => Apply(prims, fuel - 1, vs[0], vs[1..], a.st)
  {
    var xs := [head] + operands;
    assert xs[0] == head;
    assert !IsForm(xs, "quote") && !IsForm(xs, "if") && !IsForm(xs, "set!") &&
           !IsForm(xs, "define") && !IsForm(xs, "lambda") && !IsForm(xs, "begin");
    assert Eval(prims, fuel, List(xs), env, st) == EvalApplication(prims, fuel - 1, xs, env, st);
  }

  /** The empty list is an application of nothing and throws. */
  lemma EmptyListNotCallable(prims: Prims, fuel: nat, env: nat, st: Store)
    requires ValidStore(st) && env < |st| && fuel > 0
    ensures Eval(prims, fuel, List([]), env, st) == Out(Fail(NotCallable), st)
  {
    assert Eval(prims, fuel, List([]), env, st) == EvalApplication(prims, fuel - 1, [], env, st);
  }

  /** The fuel bound only cuts evaluations short: a result other than
      running out of fuel stays the same with any larger bound. */
  lemma {:induction false} EvalFuelMonotone(prims: Prims, fuel: nat, more: nat, x: Expr, env: nat, st: Store)
    requires ValidStore(st) && env < |st| && fuel <= more
    requires Eval(prims, fuel, x, env, st).result != Fail(OutOfFuel)
    ensures Eval(prims, more, x, env, st) == Eval(prims, fuel, x, env, st)
    decreases fuel, 0, 0
  {
    if x.List? {
      var xs := x.items;
      if IsForm(xs, "quote") {
      } else if IsForm(xs, "if") {
        IfFuelMonotone(prims, fuel - 1, more - 1, xs, env, st);
      } else if IsForm(xs, "set!") {
        SetFuelMonotone(prims, fuel - 1, more - 1, xs, env, st);
      } else if IsForm(xs, "define") {
        DefineFuelMonotone(prims, fuel - 1, more - 1, xs, env, st);
      } else if IsForm(xs, "lambda") {
      } else if IsForm(xs, "begin") {
        BeginFuelMonotone(prims, fuel - 1, more - 1, xs[1..], env, st);
      } else {
        ApplicationFuelMonotone(prims, fuel - 1, more - 1, xs, env, st);
      }
    }
  }

  lemma {:induction false} IfFuelMonotone(prims: Prims, fuel: nat, more: nat, xs: seq<Expr>, env: nat, st: Store)
    requires ValidStore(st) && env < |st| && fuel <= more
    requires EvalIf(prims, fuel, xs, env, st).result != Fail(OutOfFuel)
    ensures EvalIf(prims, more, xs, env, st) == EvalIf(prims, fuel, xs, env, st)
    decreases fuel, 3, 0
  {
    EvalOptFuelMonotone(prims, fuel, more, Element(xs, 1), env, st);
    var test := EvalOpt(prims, fuel, Element(xs, 1), env, st);
    if test.result.Ok? {
      var branch := if Truthy(test.result.value) then Element(xs, 2) else Element(xs, 3);
      EvalOptFuelMonotone(prims, fuel, more, branch, env, test.st);
    }
  }

  lemma {:induction false} SetFuelMonotone(prims: Prims, fuel: nat, more: nat, xs: seq<Expr>, env: nat, st: Store)
    requires ValidStore(st) && env < |st| && fuel <= more
    requires EvalSet(prims, fuel, xs, env, st).result != Fail(OutOfFuel)
    ensures EvalSet(prims, more, xs, env, st) == EvalSet(prims, fuel, xs, env, st)
    decreases fuel, 3, 0
  {
    if Element(xs, 1).Some? && Element(xs, 1).value.Sym? && FindFrame(st, env, Element(xs, 1).value.name).Some? {
      EvalOptFuelMonotone(prims, fuel, more, Element(xs, 2), env, st);
    }
  }

  lemma {:induction false} DefineFuelMonotone(prims: Prims, fuel: nat, more: nat, xs: seq<Expr>, env: nat, st: Store)
    requires ValidStore(st) && env < |st| && fuel <= more
    requires EvalDefine(prims, fuel, xs, env, st).result != Fail(OutOfFuel)
    ensures EvalDefine(prims, more, xs, env, st) == EvalDefine(prims, fuel, xs, env, st)
    decreases fuel, 3, 0
  {
    if Element(xs, 1).Some? && Element(xs, 1).value.Sym? {
      EvalOptFuelMonotone(prims, fuel, more, Element(xs, 2), env, st);
    }
  }

  lemma {:induction false} BeginFuelMonotone(prims: Prims, fuel: nat, more: nat, body: seq<Expr>, env: nat, st: Store)
    requires ValidStore(st) && env < |st| && fuel <= more
    requires EvalBegin(prims, fuel, body, env, st).result != Fail(OutOfFuel)
    ensures EvalBegin(prims, more, body, env, st) == EvalBegin(prims, fuel, body, env, st)
    decreases fuel, 3, 0
  {
    EvalAllFuelMonotone(prims, fuel, more, body, env, st);
  }

  lemma {:induction false} ApplicationFuelMonotone(prims: Prims, fuel: nat, more: nat, xs: seq<Expr>, env: nat, st: Store)
    requires ValidStore(st) && env < |st| && fuel <= more
    requires EvalApplication(prims, fuel, xs, env, st).result != Fail(OutOfFuel)
    ensures EvalApplication(prims, more, xs, env, st) == EvalApplication(prims, fuel, xs, env, st)
    decreases fuel, 3, 0
  {
    EvalAllFuelMonotone(prims, fuel, more, xs, env, st);
    var vals := EvalAll(prims, fuel, xs, env, st);
    if vals.result.Ok? && vals.result.value != [] {
      ApplyFuelMonotone(prims, fuel, more, vals.result.value[0], vals.result.value[1..], vals.st);
    }
  }

  lemma {:induction false} EvalOptFuelMonotone(prims: Prims, fuel: nat, more: nat, oe: Option<Expr>, env: nat, st: Store)
    requires ValidStore(st) && env < |st| && fuel <= more
    requires EvalOpt(prims, fuel, oe, env, st).result != Fail(OutOfFuel)
    ensures EvalOpt(prims, more, oe, env, st) == EvalOpt(prims, fuel, oe, env, st)
    decreases fuel, 1, 0
  {
    if oe.Some? {
      EvalFuelMonotone(prims, fuel, more, oe.value, env, st);
    }
  }

  lemma {:induction false} EvalAllFuelMonotone(prims: Prims, fuel: nat, more: nat, xs: seq<Expr>, env: nat, st: Store)
    requires ValidStore(st) && env < |st| && fuel <= more
    requires EvalAll(prims, fuel, xs, env, st).result != Fail(OutOfFuel)
    ensures EvalAll(prims, more, xs, env, st) == EvalAll(prims, fuel, xs, env, st)
    decreases fuel, 1, |xs|
  {
    if xs != [] {
      EvalFuelMonotone(prims, fuel, more, xs[0], env, st);
      var first := Eval(prims, fuel, xs[0], env, st);
      if first.result.Ok? {
        EvalAllFuelMonotone(prims, fuel, more, xs[1..], env, first.st);
      }
    }
  }

  lemma {:induction false} ApplyFuelMonotone(prims: Prims, fuel: nat, more: nat, f: Value, args: seq<Value>, st: Store)
    requires ValidStore(st) && fuel <= more
    requires Apply(prims, fuel, f, args, st).result != Fail(OutOfFuel)
    ensures Apply(prims, more, f, args, st) == Apply(prims, fuel, f, args, st)
    decreases fuel, 2, 0
  {
    if f.Closure? && ParamNames(f.params).Ok? && f.env < |st| {
      var st1 := st + [Frame(Bind(ParamNames(f.params).value, args), Some(f.env))];
      EvalOptFuelMonotone(prims, fuel, more, f.body, |st|, st1);
    }
  }

  /** A number token is falsy exactly when every nonzero digit in it comes
      after the exponent marker: its mantissa spells zero, whatever the
      sign and the exponent. */
  lemma NumberFalsyIffZeroDigits(t: string)
    requires IsNumber(t)
    ensures !Truthy(NumV(t)) <==>
      forall i :: 0 <= i < |t| && '1' <= t[i] <= '9' ==> exists j :: 0 <= j < i && (t[j] == 'e' || t[j] == 'E')
  {
    var a := SignLength(t);
    var n := MantissaLength(t[a..]);
    MantissaCharsAt(t, a);
    assert a + n < |t| ==> t[a + n] == 'e' || t[a + n] == 'E' by {
      if a + n < |t| {
        assert t[a + n..][0] == t[a + n];
      }
    }
    ZeroMantissaAt(t, a, n);
    MarkerSplitsDigits(t, a, n);
  }

  /** `ZeroMantissa` of the text from `a` on, read in the text's own positions. */
  lemma ZeroMantissaAt(t: string, a: nat, n: nat)
    requires a + n <= |t|
    requires forall i :: a <= i < a + n ==> IsDigit(t[i]) || t[i] == '.'
    requires a + n < |t| ==> t[a + n] == 'e' || t[a + n] == 'E'
    ensures ZeroMantissa(t[a..]) <==> forall i :: a <= i < a + n ==> !('1' <= t[i] <= '9')
  {
    var r := t[a..];
    assert forall i :: 0 <= i < |r| ==> r[i] == t[a + i];
    ZeroMantissaPrefix(r, n);
  }

  /** The characters `MantissaLength` measures from `a`, in the text's own positions. */
  lemma MantissaCharsAt(t: string, a: nat)
    requires a <= |t| && MantissaLength(t[a..]) >= 0
    ensures forall i :: a <= i < a + MantissaLength(t[a..]) ==> IsDigit(t[i]) || t[i] == '.'
  {
    var r := t[a..];
    MantissaChars(r);
    assert forall i :: a <= i < |t| ==> t[i] == r[i - a];
  }

  /** In a text whose first marker can only be at `a + n`, with no nonzero
      digit before `a`: the nonzero digits all follow a marker exactly when
      none lies in `[a, a + n)`. */
  lemma MarkerSplitsDigits(t: string, a: nat, n: nat)
    requires a + n <= |t| && a <= 1 && (a == 1 ==> IsSign(t[0]))
    requires forall j :: a <= j < a + n ==> IsDigit(t[j]) || t[j] == '.'
    requires a + n < |t| ==> t[a + n] == 'e' || t[a + n] == 'E'
    ensures (forall i :: a <= i < a + n ==> !('1' <= t[i] <= '9')) <==>
      forall i :: 0 <= i < |t| && '1' <= t[i] <= '9' ==> exists j :: 0 <= j < i && (t[j] == 'e' || t[j] == 'E')
  {
    if forall i :: a <= i < a + n ==> !('1' <= t[i] <= '9') {
      forall i | 0 <= i < |t| && '1' <= t[i] <= '9'
        ensures exists j :: 0 <= j < i && (t[j] == 'e' || t[j] == 'E')
      {
        assert a + n < i;
        assert t[a + n] == 'e' || t[a + n] == 'E';
      }
    } else {
      var k :| a <= k < a + n && '1' <= t[k] <= '9';
      assert !exists j :: 0 <= j < k && (t[j] == 'e' || t[j] == 'E');
    }
  }

  /** Over a run of mantissa characters that ends the text or meets the
      exponent marker, `ZeroMantissa` holds exactly when none is a nonzero digit. */
  lemma {:induction false} ZeroMantissaPrefix(s: string, n: nat)
    requires n <= |s|
    requires forall i :: 0 <= i < n ==> IsDigit(s[i]) || s[i] == '.'
    requires n < |s| ==> s[n] == 'e' || s[n] == 'E'
    ensures ZeroMantissa(s) <==> forall i :: 0 <= i < n ==> !('1' <= s[i] <= '9')
  {
    if n > 0 {
      var s' := s[1..];
      assert forall i :: 0 <= i < n - 1 ==> s'[i] == s[i + 1];
      assert n - 1 < |s'| ==> s'[n - 1] == s[n];
      ZeroMantissaPrefix(s', n - 1);
      assert ZeroMantissa(s) == ((s[0] == '0' || s[0] == '.') && ZeroMantissa(s'));
      if forall i :: 0 <= i < n ==> !('1' <= s[i] <= '9') {
        assert forall i :: 0 <= i < n - 1 ==> !('1' <= s'[i] <= '9');
      }
    }
  }

  /** The mantissa `MantissaLength` measures is made of digits and a dot. */
  lemma MantissaChars(r: string)
    requires MantissaLength(r) >= 0
    ensures forall i :: 0 <= i < MantissaLength(r) ==> IsDigit(r[i]) || r[i] == '.'
  {
    var n1 := LeadingDigits(r);
    assert forall i :: 0 <= i < n1 ==> r[..n1][i] == r[i];
    if n1 < |r| && r[n1] == '.' {
      var q := r[n1 + 1..];
      var n2 := LeadingDigits(q);
      assert forall i :: n1 < i < n1 + 1 + n2 ==> r[i] == q[..n2][i - n1 - 1];
    }
  }

  /** JavaScript truthiness of numbers: every spelling of zero is falsy. */
  lemma ZeroIsFalsy()
    ensures !Truthy(NumV("0")) && !Truthy(NumV("-0.0")) && !Truthy(NumV(".0e7"))
    ensures Truthy(NumV("0.5")) && Truthy(NumV("-3")) && Truthy(NumV("1e-2"))
    ensures !Truthy(SymV("")) && Truthy(SymV("a")) && !Truthy(Undefined) && Truthy(ListV([]))
  {
    assert SignLength("-0.0") == 1 && "-0.0"[1..] == "0.0";
    assert SignLength("-3") == 1 && "-3"[1..] == "3";
    assert SignLength("0") == 0 && SignLength(".0e7") == 0 && SignLength("0.5") == 0 && SignLength("1e-2") == 0;
    assert ZeroMantissa("0.0") by { assert "0.0"[1..] == ".0"; assert ".0"[1..] == "0"; assert "0"[1..] == ""; }
    assert ZeroMantissa(".0e7") by { assert ".0e7"[1..] == "0e7"; assert "0e7"[1..] == "e7"; }
    assert !ZeroMantissa("0.5") by { assert "0.5"[1..] == ".5"; assert ".5"[1..] == "5"; }
    assert "0"[1..] == "";
  }
}
