/**
  The bytecode emitter of crates/starlight/src/bytecompiler.rs: compile-time
  scopes, the interning of names and literals, instruction emission, and
  forward jumps that are emitted first and patched once the target is known.
*/
module ByteCompiler {
  import opened Wrappers
  import opened Bytes

  /** An interned name, modelled by its text. */
  type Symbol = string

  datatype VariableKind = Let | Const | Var | GlobalVar

  /** What a scope knows of one declared name. */
  datatype Variable = Variable(name: Symbol, index: u16, kind: VariableKind)

  /** How generated code reaches a name: slot `index` of the environment
      `hops` levels up, or the global object. */
  datatype Access =
    | Local(index: u16, hops: nat)
    | Global(name: Symbol)
    | ById(key: Symbol)
    | ByVal
    | This

  /** Literal pool keys: a float by its bits, or a string. */
  datatype Val = Float(bits: u64) | Str(text: string)

  /** The slot `emit` reserves for type feedback. */
  datatype TypeFeedback = NoFeedback

  /** The opcode bytes the jump helpers use. */
  datatype OpcodeTable = OpcodeTable(jmp: byte, jmpIfTrue: byte, jmpIfFalse: byte, pushCatch: byte)

  /** What the closures returned by `jmp`, `cjmp`, `jmp_custom` and `try_`
      capture: the placeholder's offset and the opcode to write there. */
  datatype Patch = Patch(at: nat, op: byte)


  /** Distinct names have distinct slots, all below the number of names. */
  predicate SlotsDense(vars: map<Symbol, Variable>)
  {
    (forall n :: n in vars ==> vars[n].index < |vars|) &&
    (forall a, b :: a in vars && b in vars && a != b ==> vars[a].index != vars[b].index)
  }

  /** A compile-time scope; `parent` and `depth` never change once made. */
  class Scope {
    const parent: Scope?
    const depth: nat
    var variables: map<Symbol, Variable>

    constructor(parent: Scope?, depth: nat)
      ensures this.parent == parent && this.depth == depth && variables == map[]
    {
      this.parent := parent;
      this.depth := depth;
      variables := map[];
    }

    /** Each scope is one deeper than its parent, as `push_scope` makes them. */
    predicate Valid()
      decreases depth
    {
      parent != null ==> parent.depth + 1 == depth && parent.Valid()
    }

    /** This scope and its parents, innermost first. */
    function Chain(): (c: seq<Scope>)
      requires Valid()
      ensures |c| > 0 && c[0] == this
      ensures forall j :: 0 <= j < |c| ==> c[j].Valid() && c[j].depth + j == depth
      ensures forall j :: 0 <= j < |c| - 1 ==> c[j].parent == c[j + 1]
      ensures c[|c| - 1].parent == null
      decreases depth
    {
      if parent == null then [this] else [this] + parent.Chain()
    }

    /** `lookup_scope`: the slot of `name` in the innermost scope declaring it. */
    function Lookup(name: Symbol): (r: Option<(u16, Scope)>)
      requires Valid()
      reads set s | s in Chain()
      decreases depth
    {
      if name in variables then Some((variables[name].index, this))
      else if parent == null then None
      else
        assert forall s :: s in parent.Chain() ==> s in Chain();
        parent.Lookup(name)
    }

    /** `lookup_scope` finds the first scope of the chain that declares the
        name, with that scope's slot for it, and finds nothing exactly when
        no scope of the chain declares it. */
    lemma {:induction false} LookupInnermost(name: Symbol)
      requires Valid()
      ensures Lookup(name).None? <==> forall j :: 0 <= j < |Chain()| ==> name !in Chain()[j].variables
      ensures Lookup(name).Some? ==>
        exists i :: 0 <= i < |Chain()| && Chain()[i] == Lookup(name).value.1 &&
          name in Chain()[i].variables && Lookup(name).value.0 == Chain()[i].variables[name].index &&
          forall j :: 0 <= j < i ==> name !in Chain()[j].variables
      decreases depth
    {
      var c := Chain();
      if name !in variables && parent != null {
        parent.LookupInnermost(name);
        var c' := parent.Chain();
        assert c == [this] + c';
        assert forall j :: 1 <= j < |c| ==> c[j] == c'[j - 1];
        if parent.Lookup(name).Some? {
          var i :| 0 <= i < |c'| && c'[i] == parent.Lookup(name).value.1 &&
                   name in c'[i].variables && parent.Lookup(name).value.0 == c'[i].variables[name].index &&
                   forall j :: 0 <= j < i ==> name !in c'[j].variables;
          assert c[i + 1] == c'[i];
          forall j | 0 <= j < i + 1 ensures name !in c[j].variables {
            if j > 0 { assert c[j] == c'[j - 1]; }
          }
        } else {
          assert forall k :: 0 <= k < |parent.Chain()| ==> name !in parent.Chain()[k].variables;
          forall j | 0 <= j < |c| ensures name !in c[j].variables {
            if j > 0 { assert c[j] == c'[j - 1]; assert name !in c'[j - 1].variables; }
          }
        }
      }
    }

    /** `Scope::add_var` as written: the name is stored with the current
        count as its slot, even when it is already declared. */
    method AddVar(name: Symbol) returns (ix: u16)
      modifies this
      ensures ix == TruncU16(|old(variables)|)
      ensures variables == old(variables)[name := Variable(name, ix, Var)]
    {
      var len := |variables|;
      variables := variables[name := Variable(name, TruncU16(len), Var)];
      ix := TruncU16(len);
    }

    /** `add_var` keeping slots distinct: a name already declared keeps its
        slot, a new name takes the next free one. */
    method AddVarDistinct(name: Symbol) returns (ix: u16)
      requires SlotsDense(variables)
      modifies this
      ensures name in variables && variables[name].index == ix
      ensures name in old(variables) ==> variables == old(variables)
      ensures name !in old(variables) ==>
                ix == TruncU16(|old(variables)|) && variables == old(variables)[name := Variable(name, ix, Var)]
      ensures name in old(variables) || |old(variables)| < TWO_16 ==> SlotsDense(variables)
    {
      if name in variables {
        ix := variables[name].index;
      } else {
        ix := AddVar(name);
        assert |variables| == |old(variables)| + 1;
      }
    }
  }

  /** `add_var` gives a redeclared name the slot the next new name also
      gets: after declaring `x`, `x` again, then `y`, both share slot 1. */
  method RedeclaredNamesShareSlot() returns (x: u16, y: u16)
    ensures x == y == 1
  {
    var s := new Scope(null, 0);
    var a := s.AddVar("x");
    var b := s.AddVar("x");
    assert |s.variables| == 1;
    var c := s.AddVar("y");
    assert "x" != "y";
    x := s.variables["x"].index;
    y := s.variables["y"].index;
  }

  /** With the corrected `add_var`, the same declarations keep distinct slots. */
  method RedeclaredNamesKeepSlots() returns (x: u16, y: u16)
    ensures x == 0 && y == 1
  {
    var s := new Scope(null, 0);
    var a := s.AddVarDistinct("x");
    var b := s.AddVarDistinct("x");
    var c := s.AddVarDistinct("y");
    assert "x" != "y";
    x := s.variables["x"].index;
    y := s.variables["y"].index;
  }

  /** The parts of `CodeBlock` the emitter writes. */
  class CodeBlock {
    var code: seq<byte>
    var feedback: seq<TypeFeedback>
    var names: seq<Symbol>
    var literals: seq<Val>

    constructor()
      ensures code == [] && feedback == [] && names == [] && literals == []
    {
      code := [];
      feedback := [];
      names := [];
      literals := [];
    }
  }

  /** Where the interpreter continues after a jump at `at`: past the opcode
      and its four-byte offset, plus the offset read as an `i32`. */
  function JumpTarget(code: seq<byte>, at: nat): int
    requires at + 5 <= |code|
  {
    at + 5 + AsI32(FromLE32(code[at + 1..at + 5]))
  }

  class Compiler {
    const code: CodeBlock
    const ops: OpcodeTable
    var scope: Scope
    var valMap: map<Val, u32>
    var nameMap: map<Symbol, u32>

    /** A compiler with an empty code block and intern maps, whose scope is
        a fresh root scope (for the script) or a fresh child of `parent`
        one level deeper (for a nested function). */
    constructor(ops: OpcodeTable, parent: Scope?)
      requires parent != null ==> parent.Valid()
      ensures this.ops == ops && fresh(code) && fresh(scope)
      ensures code.code == [] && code.feedback == [] && code.names == [] && code.literals == []
      ensures scope.parent == parent && scope.variables == map[]
      ensures scope.depth == if parent == null then 0 else parent.depth + 1
      ensures valMap == map[] && nameMap == map[]
      ensures Interned() && scope.Valid()
    {
      this.ops := ops;
      code := new CodeBlock();
      scope := new Scope(parent, if parent == null then 0 else parent.depth + 1);
      valMap := map[];
      nameMap := map[];
    }

    /** The name and literal maps point at the pool entries they stand for. */
    predicate Interned()
      reads this, code
    {
      (forall n :: n in nameMap ==> nameMap[n] < |code.names| && code.names[nameMap[n]] == n) &&
      (forall v :: v in valMap ==> valMap[v] < |code.literals| && code.literals[valMap[v]] == v)
    }

    /** `get_sym`: the index of `name` in the name pool, appending it the
        first time it is seen. */
    method GetSym(name: Symbol) returns (ix: u32)
      requires Interned()
      modifies this, code
      ensures name in old(nameMap) ==> ix == old(nameMap)[name] && code.names == old(code.names) && nameMap == old(nameMap)
      ensures name !in old(nameMap) ==>
                ix == WrapU32(|old(code.names)|) && code.names == old(code.names) + [name] &&
                nameMap == old(nameMap)[name := ix]
      ensures valMap == old(valMap) && scope == old(scope)
      ensures code.code == old(code.code) && code.feedback == old(code.feedback) && code.literals == old(code.literals)
      ensures |old(code.names)| < TWO_32 ==> Interned() && name in nameMap && nameMap[name] == ix && code.names[ix] == name
    {
      if name in nameMap {
        return nameMap[name];
      }
      ix := WrapU32(|code.names|);
      code.names := code.names + [name];
      nameMap := nameMap[name := ix];
    }

    /** `get_val`: the index of `val` in the literal pool, appending it the
        first time it is seen. */
    method GetVal(val: Val) returns (ix: u32)
      requires Interned()
      modifies this, code
      ensures val in old(valMap) ==> ix == old(valMap)[val] && code.literals == old(code.literals) && valMap == old(valMap)
      ensures val !in old(valMap) ==>
                ix == WrapU32(|old(code.literals)|) && code.literals == old(code.literals) + [val] &&
                valMap == old(valMap)[val := ix]
      ensures nameMap == old(nameMap) && scope == old(scope)
      ensures code.code == old(code.code) && code.feedback == old(code.feedback) && code.names == old(code.names)
      ensures |old(code.literals)| < TWO_32 ==> Interned() && val in valMap && valMap[val] == ix && code.literals[ix] == val
    {
      if val in valMap {
        return valMap[val];
      }
      ix := WrapU32(|code.literals|);
      code.literals := code.literals + [val];
      valMap := valMap[val := ix];
    }

    /** `lookup_scope`: the current scope, then its parents in turn. */
    method LookupScope(name: Symbol) returns (r: Option<(u16, Scope)>)
      requires scope.Valid()
      ensures r == scope.Lookup(name)
    {
      if name in scope.variables {
        return Some((scope.variables[name].index, scope));
      }
      var s := scope.parent;
      while s != null
        invariant s != null ==> s.Valid() && s in scope.Chain()
        invariant scope.Lookup(name) == if s == null then None else s.Lookup(name)
        decreases if s == null then 0 else s.depth + 1
      {
        if name in s.variables {
          return Some((s.variables[name].index, s));
        }
        ghost var c := scope.Chain();
        ghost var i :| 0 <= i < |c| && c[i] == s;
        if s.parent != null {
          assert i + 1 < |c| && c[i + 1] == s.parent;
        }
        s := s.parent;
      }
      return None;
    }

    /** `access_var`: a slot in an enclosing environment, `hops` parents up
        (the difference of the two depths), or a global. */
    method AccessVar(name: Symbol) returns (a: Access)
      requires scope.Valid()
      ensures scope.Lookup(name).None? <==> a == Global(name)
      ensures a.Local? ==> a.hops < |scope.Chain()| && scope.Chain()[a.hops] == scope.Lookup(name).value.1 &&
                           a.index == scope.Lookup(name).value.0
      ensures a.Global? || a.Local?
    {
      var found := LookupScope(name);
      match found {
        case None =>
          a := Global(name);
        case Some((ix, owner)) =>
          scope.LookupInnermost(name);
          var c := scope.Chain();
          ghost var i :| 0 <= i < |c| && c[i] == owner &&
                         name in c[i].variables && ix == c[i].variables[name].index &&
                         forall j :: 0 <= j < i ==> name !in c[j].variables;
          a := Local(ix, scope.depth - owner.depth);
      }
    }

    /** `push_scope`: a fresh empty child of the current scope becomes
        current; the depth before is returned. */
    method PushScope() returns (d: nat)
      requires scope.Valid()
      modifies this
      ensures d == old(scope).depth
      ensures fresh(scope) && scope.parent == old(scope) && scope.depth == d + 1 && scope.variables == map[]
      ensures scope.Valid()
      ensures valMap == old(valMap) && nameMap == old(nameMap)
    {
      d := scope.depth;
      scope := new Scope(scope, scope.depth + 1);
    }

    /** `pop_scope`: the parent becomes current; at the root it panics. */
    method PopScope() returns (s: Status)
      requires scope.Valid()
      modifies this
      ensures old(scope).parent == null ==> s == Panicked("No scopes left") && scope == old(scope)
      ensures old(scope).parent != null ==> s == Done && scope == old(scope).parent
      ensures scope.Valid()
      ensures valMap == old(valMap) && nameMap == old(nameMap)
    {
      if scope.parent == null {
        return Panicked("No scopes left");
      }
      scope := scope.parent;
      s := Done;
    }

    /** Pushing then popping a scope leaves the compiler where it was. */
    method PushThenPop() returns (s: Status)
      requires scope.Valid()
      modifies this
      ensures s == Done && scope == old(scope)
    {
      var d := PushScope();
      s := PopScope();
    }

    /** `emit`: the opcode, each operand as four little-endian bytes, and
        when asked the index of a fresh feedback slot. */
    method Emit(op: byte, operands: seq<u32>, addFeedback: bool)
      modifies code
      ensures code.code == old(code.code) + [op] + EncodeOperands(operands) +
                (if addFeedback then LE32(WrapU32(|old(code.feedback)|)) else [])
      ensures code.feedback == old(code.feedback) + (if addFeedback then [NoFeedback] else [])
      ensures code.names == old(code.names) && code.literals == old(code.literals)
      ensures code.code[|old(code.code)|] == op &&
              DecodeOperands(code.code[|old(code.code)| + 1..], |operands|) == operands
    {
      ghost var start := code.code;
      code.code := code.code + [op];
      for i := 0 to |operands|
        invariant code.code == start + [op] + EncodeOperands(operands[..i])
        invariant code.feedback == old(code.feedback) && code.names == old(code.names) && code.literals == old(code.literals)
      {
        var bytes := LE32(operands[i]);
        for j := 0 to 4
          invariant code.code == start + [op] + EncodeOperands(operands[..i]) + bytes[..j]
          invariant code.feedback == old(code.feedback) && code.names == old(code.names) && code.literals == old(code.literals)
        {
          code.code := code.code + [bytes[j]];
        }
        EncodeOperandsSnoc(operands, i);
      }
      assert operands[..|operands|] == operands;
      if addFeedback {
        var fIx := WrapU32(|code.feedback|);
        code.feedback := code.feedback + [NoFeedback];
        code.code := code.code + LE32(fIx);
      }
      assert code.code[|start| + 1..] == EncodeOperands(operands) +
               (if addFeedback then LE32(WrapU32(|old(code.feedback)|)) else []);
      DecodeEncodeOperands(operands, if addFeedback then LE32(WrapU32(|old(code.feedback)|)) else []);
    }

    /** `emit_u8`. */
    method EmitU8(x: byte)
      modifies code
      ensures code.code == old(code.code) + [x]
      ensures code.feedback == old(code.feedback) && code.names == old(code.names) && code.literals == old(code.literals)
    {
      code.code := code.code + [x];
    }

    /** `emit_u16`: two little-endian bytes that read back as `x`. */
    method EmitU16(x: u16)
      modifies code
      ensures code.code == old(code.code) + LE16(x)
      ensures FromLE16(code.code[|old(code.code)|..]) == x
      ensures code.feedback == old(code.feedback) && code.names == old(code.names) && code.literals == old(code.literals)
    {
      code.code := code.code + LE16(x);
      assert code.code[|old(code.code)|..] == LE16(x);
      LE16RoundTrip(x);
    }

    /** `emit_u32`: four little-endian bytes that read back as `x`. */
    method EmitU32(x: u32)
      modifies code
      ensures code.code == old(code.code) + LE32(x)
      ensures FromLE32(code.code[|old(code.code)|..]) == x
      ensures code.feedback == old(code.feedback) && code.names == old(code.names) && code.literals == old(code.literals)
    {
      code.code := code.code + LE32(x);
      assert code.code[|old(code.code)|..] == LE32(x);
      LE32RoundTrip(x);
    }

    /** The placeholder every forward jump starts as: `op` and a zero offset. */
    method EmitPlaceholder(op: byte, patchOp: byte) returns (p: Patch)
      modifies code
      ensures p == Patch(|old(code.code)|, patchOp)
      ensures code.code == old(code.code) + [op, 0, 0, 0, 0]
      ensures code.feedback == old(code.feedback) && code.names == old(code.names) && code.literals == old(code.literals)
    {
      p := Patch(|code.code|, patchOp);
      Emit(op, [0], false);
      assert EncodeOperands([0]) == [0, 0, 0, 0];
    }

    /** `jmp`: an unconditional forward jump. */
    method Jmp() returns (p: Patch)
      modifies code
      ensures p == Patch(|old(code.code)|, ops.jmp)
      ensures code.code == old(code.code) + [ops.jmp, 0, 0, 0, 0]
      ensures code.feedback == old(code.feedback) && code.names == old(code.names) && code.literals == old(code.literals)
    {
      p := EmitPlaceholder(ops.jmp, ops.jmp);
    }

    /** `cjmp(cond)`: emitted as `OP_JMP`, patched into a jump taken when
        the popped value's truth is `cond`. */
    method Cjmp(cond: bool) returns (p: Patch)
      modifies code
      ensures p == Patch(|old(code.code)|, if cond then ops.jmpIfTrue else ops.jmpIfFalse)
      ensures code.code == old(code.code) + [ops.jmp, 0, 0, 0, 0]
      ensures code.feedback == old(code.feedback) && code.names == old(code.names) && code.literals == old(code.literals)
    {
      p := EmitPlaceholder(ops.jmp, if cond then ops.jmpIfTrue else ops.jmpIfFalse);
    }

    /** `jmp_custom(op)`: a forward jump with a caller-chosen opcode. */
    method JmpCustom(op: byte) returns (p: Patch)
      modifies code
      ensures p == Patch(|old(code.code)|, op)
      ensures code.code == old(code.code) + [op, 0, 0, 0, 0]
      ensures code.feedback == old(code.feedback) && code.names == old(code.names) && code.literals == old(code.literals)
    {
      p := EmitPlaceholder(op, op);
    }

    /** `try_`: `OP_PUSH_CATCH` whose offset is the handler, patched later. */
    method Try() returns (p: Patch)
      modifies code
      ensures p == Patch(|old(code.code)|, ops.pushCatch)
      ensures code.code == old(code.code) + [ops.pushCatch, 0, 0, 0, 0]
      ensures code.feedback == old(code.feedback) && code.names == old(code.names) && code.literals == old(code.literals)
    {
      p := EmitPlaceholder(ops.pushCatch, ops.pushCatch);
    }

    /** Calling the closure a jump helper returned: the placeholder becomes
        the patch's opcode and the distance from the end of the instruction
        to the current end of the code, so the jump lands at the code
        emitted next. */
    method ApplyPatch(p: Patch)
      requires p.at + 5 <= |code.code|
      modifies code
      ensures code.code == old(code.code)[..p.at] + [p.op] + LE32(WrapU32(|old(code.code)| - (p.at + 5))) +
                           old(code.code)[p.at + 5..]
      ensures |old(code.code)| - (p.at + 5) < TWO_31 ==> JumpTarget(code.code, p.at) == |code.code|
      ensures code.feedback == old(code.feedback) && code.names == old(code.names) && code.literals == old(code.literals)
    {
      var to := |code.code| - (p.at + 5);
      var bytes := LE32(WrapU32(to));
      code.code := code.code[p.at := p.op][p.at + 1 := bytes[0]][p.at + 2 := bytes[1]]
                            [p.at + 3 := bytes[2]][p.at + 4 := bytes[3]];
      assert code.code == old(code.code)[..p.at] + [p.op] + bytes + old(code.code)[p.at + 5..];
      assert code.code[p.at + 1..p.at + 5] == bytes;
      LE32RoundTrip(WrapU32(to));
      if to < TWO_31 {
        AsI32Wrap(to);
      }
    }

    /** `goto(to)`: an unconditional backward (or forward) jump to a known
        offset, with the offset computed in wrapping 32-bit arithmetic. */
    method Goto(to: nat)
      modifies code
      ensures code.code == old(code.code) + [ops.jmp] + LE32(WrapU32(to - (|old(code.code)| + 5)))
      ensures -TWO_31 <= to - (|old(code.code)| + 5) < TWO_31 ==> JumpTarget(code.code, |old(code.code)|) == to
      ensures code.feedback == old(code.feedback) && code.names == old(code.names) && code.literals == old(code.literals)
    {
      ghost var at := |code.code|;
      var offset := WrapU32(to - (|code.code| + 5));
      Emit(ops.jmp, [offset], false);
      assert EncodeOperands([offset]) == LE32(offset);
      assert code.code[at + 1..at + 5] == LE32(offset);
      LE32RoundTrip(offset);
      if -TWO_31 <= to - (at + 5) < TWO_31 {
        AsI32Wrap(to - (at + 5));
      }
    }
  }

  lemma EncodeOperandsSnoc(xs: seq<u32>, i: nat)
    requires i < |xs|
    ensures EncodeOperands(xs[..i + 1]) == EncodeOperands(xs[..i]) + LE32(xs[i])
  {
    EncodeOperandsAppend(xs[..i], [xs[i]]);
    assert xs[..i] + [xs[i]] == xs[..i + 1];
    assert EncodeOperands([xs[i]]) == LE32(xs[i]) + EncodeOperands([]);
  }

  lemma {:induction false} EncodeOperandsAppend(xs: seq<u32>, ys: seq<u32>)
    ensures EncodeOperands(xs + ys) == EncodeOperands(xs) + EncodeOperands(ys)
  {
    if xs == [] {
      assert xs + ys == ys;
    } else {
      assert (xs + ys)[0] == xs[0] && (xs + ys)[1..] == xs[1..] + ys;
      EncodeOperandsAppend(xs[1..], ys);
    }
  }
}
