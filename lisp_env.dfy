/**
  Values and the environment chain of the Tiny Lisp interpreter
  (`Env`, `Env.prototype.get`, `global_env`, examples/lisp.js).

  Every `Env` object lives in an explicit store: frame `i` is `st[i]`, and a
  frame's `outer` link always names an older (smaller) frame, because a
  frame is only created with an existing frame as its outer one.
*/
module LispEnv {
  import opened Wrappers
  import opened LispSyntax

  /** What evaluation yields: the JavaScript values the interpreter handles. */
  datatype Value =
    | NumV(text: string)          // a number, kept as the text it was read from
    | SymV(name: string)          // a string: quoted symbols
    | ListV(items: seq<Value>)    // an array: quoted lists
    | BoolV(b: bool)              // booleans, which only builtins produce
    | Closure(params: Option<Expr>, body: Option<Expr>, env: nat)
                                  // the arrow function `lambda` returns
    | Builtin(id: nat)            // a procedure installed by `initCore`
    | Undefined

  /** One `Env` object: its own bindings and its `outer` link. */
  datatype Frame = Frame(vars: map<string, Value>, outer: Option<nat>)

  type Store = seq<Frame>

  /** Outer links point to older frames, so every chain ends. */
  predicate ValidStore(st: Store)
  {
    forall i :: 0 <= i < |st| && st[i].outer.Some? ==> st[i].outer.value < i
  }

  /** `global_env = new Env([], [])` once `initCore` has defined the builtins. */
  function RootStore(builtins: map<string, Value>): (st: Store)
    ensures ValidStore(st) && |st| == 1 && st[0].outer == None
  {
    [Frame(builtins, None)]
  }

  /** `env.get(name)`: the frame that binds `name`, searching the frame
      itself first and then its outer frames; `None` where `get` throws. */
  function FindFrame(st: Store, id: nat, name: string): (r: Option<nat>)
    requires ValidStore(st) && id < |st|
    ensures r.Some? ==> r.value <= id && name in st[r.value].vars
    decreases id
  {
    if name in st[id].vars then Some(id)
    else
      match st[id].outer
      case None => None
      case Some(o) => FindFrame(st, o, name)
  }

  /** The frames `get` visits from `id`: the frame, then its outer ones. */
  function Chain(st: Store, id: nat): (c: seq<nat>)
    requires ValidStore(st) && id < |st|
    ensures |c| > 0 && c[0] == id
    ensures forall j :: 0 <= j < |c| ==> c[j] < |st|
    ensures forall j :: 0 <= j < |c| - 1 ==> st[c[j]].outer == Some(c[j + 1])
    ensures st[c[|c| - 1]].outer == None
    decreases id
  {
    match st[id].outer
    case None => [id]
    case Some(o) => [id] + Chain(st, o)
  }

  /** Lookup finds the nearest frame on the chain that binds the name, and
      fails exactly when no frame on the chain binds it. */
  lemma FindFrameNearest(st: Store, id: nat, name: string)
    requires ValidStore(st) && id < |st|
    ensures FindFrame(st, id, name) == None <==>
              forall j :: 0 <= j < |Chain(st, id)| ==> name !in st[Chain(st, id)[j]].vars
    ensures FindFrame(st, id, name).Some? ==>
              exists i :: 0 <= i < |Chain(st, id)| && Chain(st, id)[i] == FindFrame(st, id, name).value &&
                name in st[Chain(st, id)[i]].vars &&
                forall j :: 0 <= j < i ==> name !in st[Chain(st, id)[j]].vars
  {
    FindFrameNone(st, id, name);
    if FindFrame(st, id, name).Some? {
      FindFrameFirst(st, id, name);
    }
  }

  lemma ChainStep(st: Store, id: nat)
    requires ValidStore(st) && id < |st| && st[id].outer.Some?
    ensures Chain(st, id) == [id] + Chain(st, st[id].outer.value)
  {
  }

  lemma {:induction false} FindFrameNone(st: Store, id: nat, name: string)
    requires ValidStore(st) && id < |st|
    ensures FindFrame(st, id, name) == None <==>
              forall j :: 0 <= j < |Chain(st, id)| ==> name !in st[Chain(st, id)[j]].vars
    decreases id
  {
    if name !in st[id].vars && st[id].outer.Some? {
      var o := st[id].outer.value;
      FindFrameNone(st, o, name);
      ChainStep(st, id);
      var c := Chain(st, id);
      var c' := Chain(st, o);
      if FindFrame(st, o, name) == None {
        forall j | 0 <= j < |c| ensures name !in st[c[j]].vars {
          if j > 0 {
            assert c[j] == c'[j - 1];
          }
        }
      } else {
        var k :| 0 <= k < |c'| && name in st[c'[k]].vars;
        assert c[k + 1] == c'[k];
      }
    } else if name in st[id].vars {
      assert Chain(st, id)[0] == id;
    } else {
      assert Chain(st, id) == [id];
    }
  }

  lemma {:induction false} FindFrameFirst(st: Store, id: nat, name: string)
    requires ValidStore(st) && id < |st| && FindFrame(st, id, name).Some?
    ensures exists i :: 0 <= i < |Chain(st, id)| && Chain(st, id)[i] == FindFrame(st, id, name).value &&
              name in st[Chain(st, id)[i]].vars &&
              forall j :: 0 <= j < i ==> name !in st[Chain(st, id)[j]].vars
    decreases id
  {
    var c := Chain(st, id);
    if name in st[id].vars {
      assert c[0] == id;
    } else {
      var o := st[id].outer.value;
      FindFrameFirst(st, o, name);
      ChainStep(st, id);
      var c' := Chain(st, o);
      var i :| 0 <= i < |c'| && c'[i] == FindFrame(st, o, name).value &&
               name in st[c'[i]].vars && forall j :: 0 <= j < i ==> name !in st[c'[j]].vars;
      assert c[i + 1] == c'[i];
      forall j | 0 <= j < i + 1 ensures name !in st[c[j]].vars {
        if j > 0 {
          assert c[j] == c'[j - 1];
        }
      }
    }
  }

  /** Adding a frame leaves every lookup from an existing frame unchanged. */
  lemma {:induction false} FindFrameExtend(st: Store, f: Frame, id: nat, name: string)
    requires ValidStore(st) && ValidStore(st + [f]) && id < |st|
    ensures FindFrame(st + [f], id, name) == FindFrame(st, id, name)
    decreases id
  {
    assert (st + [f])[id] == st[id];
    if name !in st[id].vars && st[id].outer.Some? {
      FindFrameExtend(st, f, st[id].outer.value, name);
    }
  }

  /** `args[i]`, which is `undefined` past the end of the arguments. */
  function ArgAt(args: seq<Value>, i: nat): Value
  {
    if i < |args| then args[i] else Undefined
  }

  /** The bindings `new Env(params, args, outer)` writes: `this[params[i]] = args[i]`
      for each `i` in order, so a repeated parameter keeps its last argument. */
  function Bind(params: seq<string>, args: seq<Value>): map<string, Value>
  {
    if params == [] then map[]
    else Bind(params[..|params| - 1], args)[params[|params| - 1] := ArgAt(args, |params| - 1)]
  }

  /** Exactly the parameters are bound. */
  lemma {:induction false} BindKeys(params: seq<string>, args: seq<Value>)
    ensures Bind(params, args).Keys == set i | 0 <= i < |params| :: params[i]
  {
    if params != [] {
      var init := params[..|params| - 1];
      BindKeys(init, args);
      assert forall i :: 0 <= i < |init| ==> init[i] == params[i];
      assert (set i | 0 <= i < |params| :: params[i]) == (set i | 0 <= i < |init| :: init[i]) + {params[|params| - 1]};
    }
  }

  /** Each parameter is bound to the argument at its last position
      (`undefined` when the arguments run out). */
  lemma {:induction false} BindLastWins(params: seq<string>, args: seq<Value>, i: nat)
    requires i < |params|
    requires forall j :: i < j < |params| ==> params[j] != params[i]
    ensures params[i] in Bind(params, args) && Bind(params, args)[params[i]] == ArgAt(args, i)
  {
    var init := params[..|params| - 1];
    if i < |params| - 1 {
      assert init[i] == params[i];
      BindLastWins(init, args, i);
    }
  }

  /** The `for` loop of the `Env` constructor. */
  method NewEnv(params: seq<string>, args: seq<Value>, outer: Option<nat>) returns (f: Frame)
    ensures f == Frame(Bind(params, args), outer)
  {
    var vars: map<string, Value> := map[];
    for i := 0 to |params|
      invariant vars == Bind(params[..i], args)
    {
      assert params[..i + 1][..i] == params[..i];
      vars := vars[params[i] := ArgAt(args, i)];
    }
    assert params[..|params|] == params;
    f := Frame(vars, outer);
  }
}
