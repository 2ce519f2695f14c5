/**
  The meaning of `eval` (examples/lisp.js), as total functions over the
  store of frames. JavaScript's recursion has no bound; here every nested
  `eval` spends one unit of `fuel`, and running out is its own error, so
  that each function terminates.
*/
module LispEval {
  import opened Wrappers
  import opened LispSyntax
  import opened LispEnv

  /** The ways `eval` throws. */
  datatype EvalError =
    | Unbound(name: string)  // `env.get` reached the global frame
    | NotCallable            // `proc(...exprs)` on something that is not a function
    | BadParams              // `new Env(vars, ...)` with no parameter list
    | BadName                // `set!` or `define` whose name is not a symbol
    | BuiltinFailed          // a builtin threw
    | DanglingFrame          // a closure over a frame that does not exist
    | OutOfFuel              // the evaluation bound was reached

  /** The text the interpreter throws for a missing variable. */
  function Message(e: EvalError): (m: string)
    ensures e.Unbound? ==> m == "Variable '" + e.name + "' not found"
  {
    match e
    case Unbound(n) => "Variable '" + n + "' not found"
    case NotCallable => "not a function"
    case BadParams => "invalid parameter list"
    case BadName => "invalid variable name"
    case BuiltinFailed => "builtin failed"
    case DanglingFrame => "no such environment"
    case OutOfFuel => "evaluation bound reached"
  }

  datatype Result<+T> = Ok(value: T) | Fail(error: EvalError)

  /** A result together with the store after evaluation. */
  datatype Out<+T> = Out(result: Result<T>, st: Store)

  /** The builtins `initCore` installs, called by number; `None` when one throws. */
  type Prims = (nat, seq<Value>) -> Option<Value>

  /** Later stores keep every frame and every frame's `outer` link. */
  predicate Grows(st: Store, st': Store)
  {
    |st| <= |st'| && forall k :: 0 <= k < |st| ==> st'[k].outer == st[k].outer
  }

  /** `x[i]`, `undefined` past the end of the list. */
  function Element(xs: seq<Expr>, i: nat): (r: Option<Expr>)
    ensures r.Some? <==> i < |xs|
    ensures r.Some? ==> r.value == xs[i]
  {
    if i < |xs| then Some(xs[i]) else None
  }

  predicate IsForm(xs: seq<Expr>, keyword: string)
  {
    |xs| > 0 && xs[0] == Sym(keyword)
  }

  /** A read expression used as data, as `quote` returns it. */
  function Datum(e: Expr): Value
  {
    match e
    case Num(t) => NumV(t)
    case Sym(n) => SymV(n)
    case List(es) => ListV(seq(|es|, i requires 0 <= i < |es| => Datum(es[i])))
  }

  function Quoted(oe: Option<Expr>): Value
  {
    match oe
    case None => Undefined
    case Some(e) => Datum(e)
  }

  /** Every digit of the mantissa is zero, skipping a sign and stopping
      at the exponent: the number the text denotes is zero. */
  predicate ZeroMantissa(s: string)
  {
    s == [] || s[0] == 'e' || s[0] == 'E' ||
    ((s[0] == '0' || s[0] == '.') && ZeroMantissa(s[1..]))
  }

  /** JavaScript truthiness of the values: `0` and `""` and `undefined`
      and `false` are falsy, every object and function is truthy. */
  predicate Truthy(v: Value)
  {
    match v
    case BoolV(b) => b
    case NumV(t) => !ZeroMantissa(t[SignLength(t)..])
    case SymV(s) => s != []
    case Undefined => false
    case _ => true
  }

  /** The names `new Env(vars, ...)` binds: a list of symbols gives those
      names, a bare symbol string gives its characters (JavaScript indexes
      into it), a number has no `length` and binds nothing. */
  function ParamNames(p: Option<Expr>): (r: Result<seq<string>>)
    ensures p.None? ==> r == Fail(BadParams)
    ensures p.Some? && p.value.Num? ==> r == Ok([])
    ensures p.Some? && p.value.Sym? ==>
              r.Ok? && |r.value| == |p.value.name| &&
              forall i :: 0 <= i < |r.value| ==> r.value[i] == [p.value.name[i]]
    ensures p.Some? && p.value.List? ==>
              (r.Ok? <==> forall i :: 0 <= i < |p.value.items| ==> p.value.items[i].Sym?)
    ensures p.Some? && p.value.List? && r.Ok? ==>
              |r.value| == |p.value.items| &&
              forall i :: 0 <= i < |r.value| ==> p.value.items[i] == Sym(r.value[i])
  {
    match p
    case None => Fail(BadParams)
    case Some(Num(_)) => Ok([])
    case Some(Sym(s)) => Ok(seq(|s|, i requires 0 <= i < |s| => [s[i]]))
    case Some(List(xs)) =>
      if forall i :: 0 <= i < |xs| ==> xs[i].Sym? then Ok(seq(|xs|, i requires 0 <= i < |xs| => xs[i].name))
      else Fail(BadParams)
  }

  /** The store with `name` set to `v` in frame `k`. */
  function Assign(st: Store, k: nat, name: string, v: Value): (st': Store)
    requires ValidStore(st) && k < |st|
    ensures ValidStore(st') && Grows(st, st') && |st'| == |st|
  {
    st[k := Frame(st[k].vars[name := v], st[k].outer)]
  }

  /** `eval(x, env)` on the frames `st`: symbols are looked up, numbers
      evaluate to themselves, lists dispatch on their head. */
  function Eval(prims: Prims, fuel: nat, x: Expr, env: nat, st: Store): (o: Out<Value>)
    requires ValidStore(st) && env < |st|
    ensures ValidStore(o.st) && Grows(st, o.st)
    decreases fuel, 0, 0
  {
    if fuel == 0 then Out(Fail(OutOfFuel), st)
    else
      match x
      case Sym(n) =>
        (match FindFrame(st, env, n)
         case None => Out(Fail(Unbound(n)), st)
         case Some(k) => Out(Ok(st[k].vars[n]), st))
      case Num(t) => Out(Ok(NumV(t)), st)
      case List(xs) =>
        if IsForm(xs, "quote") then Out(Ok(Quoted(Element(xs, 1))), st)
        else if IsForm(xs, "if") then EvalIf(prims, fuel - 1, xs, env, st)
        else if IsForm(xs, "set!") then EvalSet(prims, fuel - 1, xs, env, st)
        else if IsForm(xs, "define") then EvalDefine(prims, fuel - 1, xs, env, st)
        else if IsForm(xs, "lambda") then Out(Ok(Closure(Element(xs, 1), Element(xs, 2), env)), st)
        else if IsForm(xs, "begin") then EvalBegin(prims, fuel - 1, xs[1..], env, st)
        else EvalApplication(prims, fuel - 1, xs, env, st)
  }

  /** `(if test conseq alt)`. */
  function EvalIf(prims: Prims, fuel: nat, xs: seq<Expr>, env: nat, st: Store): (o: Out<Value>)
    requires ValidStore(st) && env < |st|
    ensures ValidStore(o.st) && Grows(st, o.st)
    decreases fuel, 3, 0
  {
    var test := EvalOpt(prims, fuel, Element(xs, 1), env, st);
    match test.result
    case Fail(e) => Out(Fail(e), test.st)
    case Ok(v) => EvalOpt(prims, fuel, if Truthy(v) then Element(xs, 2) else Element(xs, 3), env, test.st)
  }

  /** `(set! name exp)`: the owning frame is found before `exp` is evaluated. */
  function EvalSet(prims: Prims, fuel: nat, xs: seq<Expr>, env: nat, st: Store): (o: Out<Value>)
    requires ValidStore(st) && env < |st|
    ensures ValidStore(o.st) && Grows(st, o.st)
    decreases fuel, 3, 0
  {
    match Element(xs, 1)
    case Some(Sym(n)) =>
      (match FindFrame(st, env, n)
       case None => Out(Fail(Unbound(n)), st)
       case Some(k) =>
         var val := EvalOpt(prims, fuel, Element(xs, 2), env, st);
         (match val.result
          case Fail(e) => Out(Fail(e), val.st)
          case Ok(v) => Out(Ok(Undefined), Assign(val.st, k, n, v))))
    case _ => Out(Fail(BadName), st)
  }

  /** `(define name exp)`: always the current frame. */
  function EvalDefine(prims: Prims, fuel: nat, xs: seq<Expr>, env: nat, st: Store): (o: Out<Value>)
    requires ValidStore(st) && env < |st|
    ensures ValidStore(o.st) && Grows(st, o.st)
    decreases fuel, 3, 0
  {
    match Element(xs, 1)
    case Some(Sym(n)) =>
      var val := EvalOpt(prims, fuel, Element(xs, 2), env, st);
      (match val.result
       case Fail(e) => Out(Fail(e), val.st)
       case Ok(v) => Out(Ok(Undefined), Assign(val.st, env, n, v)))
    case _ => Out(Fail(BadName), st)
  }

  /** `(begin e1 ... en)` given `[e1, ..., en]`: the last value. */
  function EvalBegin(prims: Prims, fuel: nat, body: seq<Expr>, env: nat, st: Store): (o: Out<Value>)
    requires ValidStore(st) && env < |st|
    ensures ValidStore(o.st) && Grows(st, o.st)
    decreases fuel, 3, 0
  {
    var vals := EvalAll(prims, fuel, body, env, st);
    match vals.result
    case Fail(e) => Out(Fail(e), vals.st)
    case Ok(vs) => Out(Ok(if vs == [] then Undefined else vs[|vs| - 1]), vals.st)
  }

  /** `(f a1 ... an)`: all elements first, then the call. */
  function EvalApplication(prims: Prims, fuel: nat, xs: seq<Expr>, env: nat, st: Store): (o: Out<Value>)
    requires ValidStore(st) && env < |st|
    ensures ValidStore(o.st) && Grows(st, o.st)
    decreases fuel, 3, 0
  {
    var vals := EvalAll(prims, fuel, xs, env, st);
    match vals.result
    case Fail(e) => Out(Fail(e), vals.st)
    case Ok(vs) =>
      if vs == [] then Out(Fail(NotCallable), vals.st)
      else Apply(prims, fuel, vs[0], vs[1..], vals.st)
  }

  /** `eval` of a list element that may be missing: `eval(undefined)` is `undefined`. */
  function EvalOpt(prims: Prims, fuel: nat, oe: Option<Expr>, env: nat, st: Store): (o: Out<Value>)
    requires ValidStore(st) && env < |st|
    ensures ValidStore(o.st) && Grows(st, o.st)
    decreases fuel, 1, 0
  {
    match oe
    case None => Out(Ok(Undefined), st)
    case Some(e) => Eval(prims, fuel, e, env, st)
  }

  /** The expressions evaluated left to right, each in the store the
      previous one left; the first failure stops the rest. */
  function EvalAll(prims: Prims, fuel: nat, xs: seq<Expr>, env: nat, st: Store): (o: Out<seq<Value>>)
    requires ValidStore(st) && env < |st|
    ensures ValidStore(o.st) && Grows(st, o.st)
    ensures o.result.Ok? ==> |o.result.value| == |xs|
    decreases fuel, 1, |xs|
  {
    if xs == [] then Out(Ok([]), st)
    else
      var first := Eval(prims, fuel, xs[0], env, st);
      match first.result
      case Fail(e) => Out(Fail(e), first.st)
      case Ok(v) =>
        var rest := EvalAll(prims, fuel, xs[1..], env, first.st);
        match rest.result
        case Fail(e) => Out(Fail(e), rest.st)
        case Ok(vs) => Out(Ok([v] + vs), rest.st)
  }

  /** `proc(...args)`: a closure evaluates its body in a new frame whose
      outer frame is the one the `lambda` was evaluated in. */
  function Apply(prims: Prims, fuel: nat, f: Value, args: seq<Value>, st: Store): (o: Out<Value>)
    requires ValidStore(st)
    ensures ValidStore(o.st) && Grows(st, o.st)
    decreases fuel, 2, 0
  {
    match f
    case Closure(p, body, cenv) =>
      (match ParamNames(p)
       case Fail(e) => Out(Fail(e), st)
       case Ok(names) =>
         if cenv < |st| then
           EvalOpt(prims, fuel, body, |st|, st + [Frame(Bind(names, args), Some(cenv))])
         else Out(Fail(DanglingFrame), st))
    case Builtin(id) =>
      (match prims(id, args)
       case None => Out(Fail(BuiltinFailed), st)
       case Some(v) => Out(Ok(v), st))
    case _ => Out(Fail(NotCallable), st)
  }
}
