/**
  The interpreter as the JavaScript runs it (examples/lisp.js:36-103): one
  mutable store of frames, `begin` and application as loops over the list,
  and a new frame appended for every closure call. Each method is proved to
  compute what the functions of `LispEval` define.
*/
module LispInterp {
  import opened Wrappers
  import opened LispSyntax
  import opened LispEnv
  import opened LispEval

  /** Values already computed, in front of the values still to come. */
  function Prepend(vs: seq<Value>, o: Out<seq<Value>>): Out<seq<Value>>
  {
    match o.result
    case Fail(e) => o
    case Ok(ws) => Out(Ok(vs + ws), o.st)
  }

  lemma PrependNone(o: Out<seq<Value>>)
    ensures Prepend([], o) == o
  {
    if o.result.Ok? {
      assert [] + o.result.value == o.result.value;
    }
  }

  /** One step of `EvalAll`: the first expression, then the rest. */
  lemma EvalAllStep(prims: Prims, fuel: nat, vs: seq<Value>, ys: seq<Expr>, env: nat, st: Store)
    requires ValidStore(st) && env < |st| && ys != []
    ensures var first := Eval(prims, fuel, ys[0], env, st);
      ValidStore(first.st) && env < |first.st| &&
      Prepend(vs, EvalAll(prims, fuel, ys, env, st)) ==
        match first.result
        case Fail(e) => Out(Fail(e), first.st)
        case Ok(v) => Prepend(vs + [v], EvalAll(prims, fuel, ys[1..], env, first.st))
  {
    var first := Eval(prims, fuel, ys[0], env, st);
    if first.result.Ok? {
      var rest := EvalAll(prims, fuel, ys[1..], env, first.st);
      if rest.result.Ok? {
        assert vs + ([first.result.value] + rest.result.value) == (vs + [first.result.value]) + rest.result.value;
      }
    }
  }

  /** The value `begin` returns when every element evaluated. */
  function LastOr(vs: seq<Value>): Value
  {
    if vs == [] then Undefined else vs[|vs| - 1]
  }

  class Interpreter {
    /** Every `Env` object created so far; frame 0 is `global_env`. */
    var store: Store
    /** The builtins `initCore` installed. */
    const prims: Prims

    /** `global_env` after `initCore(global_env)`. */
    constructor(prims: Prims, builtins: map<string, Value>)
      ensures this.prims == prims && store == RootStore(builtins)
    {
      this.prims := prims;
      store := RootStore(builtins);
    }

    /** `eval(x, env)`. */
    method Eval(fuel: nat, x: Expr, env: nat) returns (r: Result<Value>)
      requires ValidStore(store) && env < |store|
      modifies this
      ensures Out(r, store) == LispEval.Eval(prims, fuel, x, env, old(store))
      decreases fuel, 0
    {
      if fuel == 0 {
        return Fail(OutOfFuel);
      }
      match x {
        case Sym(n) =>
          match FindFrame(store, env, n) {
            case None => r := Fail(Unbound(n));
            case Some(k) => r := Ok(store[k].vars[n]);
          }
        case Num(t) =>
          r := Ok(NumV(t));
        case List(xs) =>
          if IsForm(xs, "quote") {
            r := Ok(Quoted(Element(xs, 1)));
          } else if IsForm(xs, "if") {
            r := If(fuel - 1, xs, env);
          } else if IsForm(xs, "set!") {
            r := Set(fuel - 1, xs, env);
          } else if IsForm(xs, "define") {
            r := Define(fuel - 1, xs, env);
          } else if IsForm(xs, "lambda") {
            r := Ok(Closure(Element(xs, 1), Element(xs, 2), env));
          } else if IsForm(xs, "begin") {
            r := Begin(fuel - 1, xs[1..], env);
          } else {
            r := Application(fuel - 1, xs, env);
          }
      }
    }

    /** `eval(x[i], env)` where `x[i]` may be missing. */
    method EvalOpt(fuel: nat, oe: Option<Expr>, env: nat) returns (r: Result<Value>)
      requires ValidStore(store) && env < |store|
      modifies this
      ensures Out(r, store) == LispEval.EvalOpt(prims, fuel, oe, env, old(store))
      decreases fuel, 1
    {
      match oe {
        case None => r := Ok(Undefined);
        case Some(e) => r := Eval(fuel, e, env);
      }
    }

    /** `eval(eval(test, env) ? conseq : alt, env)`. */
    method If(fuel: nat, xs: seq<Expr>, env: nat) returns (r: Result<Value>)
      requires ValidStore(store) && env < |store|
      modifies this
      ensures Out(r, store) == EvalIf(prims, fuel, xs, env, old(store))
      decreases fuel, 3
    {
      var test := EvalOpt(fuel, Element(xs, 1), env);
      match test {
        case Fail(e) => r := Fail(e);
        case Ok(v) => r := EvalOpt(fuel, if Truthy(v) then Element(xs, 2) else Element(xs, 3), env);
      }
    }

    /** `env.get(var_)[var_] = eval(exp, env)`. */
    method Set(fuel: nat, xs: seq<Expr>, env: nat) returns (r: Result<Value>)
      requires ValidStore(store) && env < |store|
      modifies this
      ensures Out(r, store) == EvalSet(prims, fuel, xs, env, old(store))
      decreases fuel, 3
    {
      match Element(xs, 1) {
        case Some(Sym(n)) =>
          match FindFrame(store, env, n) {
            case None =>
              r := Fail(Unbound(n));
            case Some(k) =>
              var val := EvalOpt(fuel, Element(xs, 2), env);
              if val.Ok? {
                store := Assign(store, k, n, val.value);
                r := Ok(Undefined);
              } else {
                r := Fail(val.error);
              }
          }
        case _ =>
          r := Fail(BadName);
      }
    }

    /** `env[var_] = eval(exp, env)`. */
    method Define(fuel: nat, xs: seq<Expr>, env: nat) returns (r: Result<Value>)
      requires ValidStore(store) && env < |store|
      modifies this
      ensures Out(r, store) == EvalDefine(prims, fuel, xs, env, old(store))
      decreases fuel, 3
    {
      match Element(xs, 1) {
        case Some(Sym(n)) =>
          var val := EvalOpt(fuel, Element(xs, 2), env);
          if val.Ok? {
            store := Assign(store, env, n, val.value);
            r := Ok(Undefined);
          } else {
            r := Fail(val.error);
          }
        case _ =>
          r := Fail(BadName);
      }
    }

    /** The `begin` loop: each element in turn, keeping the last value. */
    method Begin(fuel: nat, body: seq<Expr>, env: nat) returns (r: Result<Value>)
      requires ValidStore(store) && env < |store|
      modifies this
      ensures Out(r, store) == EvalBegin(prims, fuel, body, env, old(store))
      decreases fuel, 3
    {
      ghost var st0 := store;
      ghost var vals: seq<Value> := [];
      var val := Undefined;
      PrependNone(EvalAll(prims, fuel, body, env, st0));
      var i := 0;
      while i < |body|
        invariant 0 <= i <= |body|
        invariant ValidStore(store) && env < |store|
        invariant val == LastOr(vals)
        invariant EvalAll(prims, fuel, body, env, st0) == Prepend(vals, EvalAll(prims, fuel, body[i..], env, store))
        decreases |body| - i
      {
        EvalAllStep(prims, fuel, vals, body[i..], env, store);
        var v := Eval(fuel, body[i], env);
        if v.Fail? {
          return Fail(v.error);
        }
        assert body[i..][1..] == body[i + 1..];
        vals := vals + [v.value];
        val := v.value;
        i := i + 1;
      }
      r := Ok(val);
    }

    /** The application loop: `exprs[i] = eval(x[i], env)` for every
        element, then `proc(...exprs)` on the first value. */
    method Application(fuel: nat, xs: seq<Expr>, env: nat) returns (r: Result<Value>)
      requires ValidStore(store) && env < |store|
      modifies this
      ensures Out(r, store) == EvalApplication(prims, fuel, xs, env, old(store))
      decreases fuel, 3
    {
      ghost var st0 := store;
      var exprs: seq<Value> := [];
      PrependNone(EvalAll(prims, fuel, xs, env, st0));
      var i := 0;
      while i < |xs|
        invariant 0 <= i <= |xs|
        invariant ValidStore(store) && env < |store|
        invariant EvalAll(prims, fuel, xs, env, st0) == Prepend(exprs, EvalAll(prims, fuel, xs[i..], env, store))
        decreases |xs| - i
      {
        EvalAllStep(prims, fuel, exprs, xs[i..], env, store);
        var v := Eval(fuel, xs[i], env);
        if v.Fail? {
          return Fail(v.error);
        }
        assert xs[i..][1..] == xs[i + 1..];
        exprs := exprs + [v.value];
        i := i + 1;
      }
      assert exprs + [] == exprs;
      if exprs == [] {
        r := Fail(NotCallable);
      } else {
        r := Apply(fuel, exprs[0], exprs[1..]);
      }
    }

    /** `proc(...args)`: a closure runs `new Env(vars, args, env)` and
        evaluates its body there; a builtin is called directly. */
    method Apply(fuel: nat, f: Value, args: seq<Value>) returns (r: Result<Value>)
      requires ValidStore(store)
      modifies this
      ensures Out(r, store) == LispEval.Apply(prims, fuel, f, args, old(store))
      decreases fuel, 2
    {
      match f {
        case Closure(p, body, cenv) =>
          match ParamNames(p) {
            case Fail(e) =>
              r := Fail(e);
            case Ok(names) =>
              if cenv < |store| {
                var frame := NewEnv(names, args, Some(cenv));
                store := store + [frame];
                r := EvalOpt(fuel, body, |store| - 1);
              } else {
                r := Fail(DanglingFrame);
              }
          }
        case Builtin(id) =>
          match prims(id, args) {
            case None => r := Fail(BuiltinFailed);
            case Some(v) => r := Ok(v);
          }
        case _ =>
          r := Fail(NotCallable);
      }
    }
  }
}
