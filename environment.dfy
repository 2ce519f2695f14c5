/**
  The runtime environment record of crates/starlight/src/vm/environment.rs:
  a parent link and a fixed block of variable slots, and how a heap
  snapshot writes it out and reads it back.
*/
module Environments {
  import opened Wrappers
  import opened Bytes
  import opened JsValues

  /** One slot: its value and whether it may be assigned. */
  datatype Variable = Variable(value: JsValue, mutable: bool)

  /** The items a snapshot holds, in the order they are written. The
      parent is written as a reference: the snapshot's id for that object. */
  datatype SnapItem =
    | ParentRef(id: Option<nat>)
    | Count(n: u32)
    | Value(v: JsValue)
    | Flag(b: bool)

  /** What `serialize` writes for an environment. */
  function EnvItems(parent: Option<nat>, vars: seq<Variable>): (items: seq<SnapItem>)
    requires |vars| < TWO_32
    ensures |items| == 2 + 2 * |vars|
  {
    [ParentRef(parent), Count(|vars|)] + VarItems(vars)
  }

  function VarItems(vars: seq<Variable>): (items: seq<SnapItem>)
    ensures |items| == 2 * |vars|
  {
    if vars == [] then [] else [Value(vars[0].value), Flag(vars[0].mutable)] + VarItems(vars[1..])
  }

  /** The `n` slots at the front of `items`, or `None` if the items there
      are not value/flag pairs. */
  function DecodeVars(items: seq<SnapItem>, n: nat): (r: Option<seq<Variable>>)
    ensures r.Some? ==> |r.value| == n && 2 * n <= |items|
    decreases n
  {
    if n == 0 then Some([])
    else if |items| < 2 || !items[0].Value? || !items[1].Flag? then None
    else
      match DecodeVars(items[2..], n - 1)
      case None => None
      case Some(rest) => Some([Variable(items[0].v, items[1].b)] + rest)
  }

  /** What `deserialize_inplace` reads: the parent reference, the slot count,
      then that many slots; with the number of items consumed. */
  function DecodeEnv(items: seq<SnapItem>): (r: Option<(Option<nat>, seq<Variable>, nat)>)
    ensures r.Some? ==> r.value.2 == 2 + 2 * |r.value.1| <= |items|
  {
    if |items| < 2 || !items[0].ParentRef? || !items[1].Count? then None
    else
      match DecodeVars(items[2..], items[1].n)
      case None => None
      case Some(vars) => Some((items[0].id, vars, 2 + 2 * |vars|))
  }

  lemma {:induction false} DecodeVarItems(vars: seq<Variable>, rest: seq<SnapItem>)
    ensures DecodeVars(VarItems(vars) + rest, |vars|) == Some(vars)
  {
    if vars != [] {
      var head := [Value(vars[0].value), Flag(vars[0].mutable)];
      var tail := VarItems(vars[1..]) + rest;
      var items := VarItems(vars) + rest;
      assert items == head + tail;
      assert items[0] == Value(vars[0].value) && items[1] == Flag(vars[0].mutable);
      assert items[2..] == tail;
      DecodeVarItems(vars[1..], rest);
      assert DecodeVars(items, |vars|) == Some([Variable(vars[0].value, vars[0].mutable)] + vars[1..]);
      assert [Variable(vars[0].value, vars[0].mutable)] + vars[1..] == vars;
    }
  }

  /** A snapshot reads back as the environment that was written, leaving
      whatever follows it for the next object. */
  lemma SnapshotRoundTrip(parent: Option<nat>, vars: seq<Variable>, rest: seq<SnapItem>)
    requires |vars| < TWO_32
    ensures DecodeEnv(EnvItems(parent, vars) + rest) == Some((parent, vars, 2 + 2 * |vars|))
  {
    var items := EnvItems(parent, vars) + rest;
    assert items[2..] == VarItems(vars) + rest;
    DecodeVarItems(vars, rest);
  }

  /** The output buffer of a snapshot. */
  class SnapshotSerializer {
    var output: seq<SnapItem>

    constructor()
      ensures output == []
    {
      output := [];
    }
  }

  /** The input of a snapshot and the objects whose references it
      already resolved. */
  class Deserializer {
    var input: seq<SnapItem>
    var pos: nat
    const objects: map<nat, Environment>

    constructor(input: seq<SnapItem>, objects: map<nat, Environment>)
      ensures this.input == input && pos == 0 && this.objects == objects
    {
      this.input := input;
      pos := 0;
      this.objects := objects;
    }
  }

  class Environment {
    var parent: Environment?
    var values: array<Variable>
    var valuesCount: u32

    /** `values_count` is the length of the block `values_ptr` points to. */
    predicate Valid()
      reads this
    {
      values.Length == valuesCount
    }

    /** `Environment::new(cap)`: no parent and `cap` mutable slots, each
        holding `undefined`. */
    constructor(cap: u32)
      ensures Valid() && parent == null && valuesCount == cap && fresh(values)
      ensures forall i :: 0 <= i < values.Length ==> values[i] == Variable(EncodeUndefined(), true)
    {
      var ptr := new Variable[cap](_ => Variable(ZERO, false));
      for i := 0 to cap
        invariant forall j :: 0 <= j < i ==> ptr[j] == Variable(EncodeUndefined(), true)
        modifies ptr
      {
        ptr[i] := Variable(EncodeUndefined(), true);
      }
      parent := null;
      values := ptr;
      valuesCount := cap;
    }

    /** `as_slice`: the slots in order. */
    function AsSlice(): (s: seq<Variable>)
      requires Valid()
      reads this, values
      ensures |s| == valuesCount
    {
      values[..]
    }

    /** `as_slice_mut`: the slots themselves, to be written in place. */
    method AsSliceMut() returns (s: array<Variable>)
      requires Valid()
      ensures s == values && s.Length == valuesCount
    {
      s := values;
    }

    /** `serialize`: the parent reference, the count, then every slot's
        value and flag. */
    method Serialize(parentId: Option<nat>, ser: SnapshotSerializer)
      requires Valid()
      modifies ser
      ensures ser.output == old(ser.output) + EnvItems(parentId, AsSlice())
    {
      ser.output := ser.output + [ParentRef(parentId), Count(valuesCount)];
      for i := 0 to valuesCount
        invariant ser.output == old(ser.output) + [ParentRef(parentId), Count(valuesCount)] + VarItems(values[..i])
      {
        VarItemsSnoc(values[..i + 1]);
        assert values[..i + 1][..i] == values[..i];
        ser.output := ser.output + [Value(values[i].value), Flag(values[i].mutable)];
      }
      assert values[..valuesCount] == values[..];
    }
  }

  lemma {:induction false} VarItemsSnoc(vars: seq<Variable>)
    requires vars != []
    ensures VarItems(vars) == VarItems(vars[..|vars| - 1]) +
                              [Value(vars[|vars| - 1].value), Flag(vars[|vars| - 1].mutable)]
  {
    if |vars| > 1 {
      VarItemsSnoc(vars[1..]);
      assert vars[1..][..|vars[1..]| - 1] == vars[..|vars| - 1][1..];
    }
  }

  /** `deserialize_inplace`: reads what `serialize` wrote and builds a fresh
      environment with those slots; `None` when the items there are not an
      environment or name a parent the snapshot has not resolved. */
  method DeserializeInPlace(deser: Deserializer) returns (r: Option<Environment>)
    requires deser.pos <= |deser.input|
    modifies deser
    ensures var d := DecodeEnv(old(deser.input[deser.pos..]));
      match r
      case None =>
        d.None? || (d.value.0.Some? && d.value.0.value !in deser.objects)
      case Some(env) =>
        d.Some? && fresh(env) && fresh(env.values) && env.Valid() && env.AsSlice() == d.value.1 &&
        (d.value.0.Some? ==> d.value.0.value in deser.objects) &&
        env.parent == (if d.value.0.None? then null else deser.objects[d.value.0.value]) &&
        deser.pos == old(deser.pos) + d.value.2
    ensures deser.input == old(deser.input) && deser.pos <= |deser.input|
  {
    ghost var items := deser.input[deser.pos..];
    var at := deser.pos;
    if |deser.input| - at < 2 || !deser.input[at].ParentRef? || !deser.input[at + 1].Count? {
      return None;
    }
    var parentId := deser.input[at].id;
    var parent: Environment? := null;
    if parentId.Some? {
      if parentId.value !in deser.objects {
        return None;
      }
      parent := deser.objects[parentId.value];
    }
    var cap := deser.input[at + 1].n;
    assert items[2..] == deser.input[at + 2..];
    var ptr, ok, end := ReadSlots(deser.input, at + 2, cap);
    if !ok {
      return None;
    }
    var env := new Environment(0);
    env.parent := parent;
    env.values := ptr;
    env.valuesCount := cap;
    deser.pos := end;
    r := Some(env);
  }

  /** The slot loop of `deserialize_inplace`: `cap` value/flag pairs read
      from `start` into a fresh block; `ok` is false at the first item that
      is not part of such a pair. */
  method ReadSlots(input: seq<SnapItem>, start: nat, cap: u32) returns (ptr: array<Variable>, ok: bool, end: nat)
    requires start <= |input|
    ensures fresh(ptr) && ptr.Length == cap
    ensures ok <==> DecodeVars(input[start..], cap).Some?
    ensures ok ==> ptr[..] == DecodeVars(input[start..], cap).value && end == start + 2 * cap <= |input|
  {
    ptr := new Variable[cap](_ => Variable(ZERO, false));
    var p := start;
    PrefixThenEmpty(DecodeVars(input[p..], cap));
    for i := 0 to cap
      invariant p == start + 2 * i <= |input|
      invariant DecodeVars(input[start..], cap) == PrefixThen(ptr[..i], DecodeVars(input[p..], cap - i))
      modifies ptr
    {
      if |input| - p < 2 || !input[p].Value? || !input[p + 1].Flag? {
        BadPairFails(input[p..], cap - i);
        return ptr, false, p;
      }
      ghost var tail := input[p..];
      assert tail[2..] == input[p + 2..];
      ptr[i] := Variable(input[p].v, input[p + 1].b);
      PrefixThenStep(ptr[..i], ptr[i], DecodeVars(input[p + 2..], cap - i - 1));
      assert ptr[..i + 1] == ptr[..i] + [ptr[i]];
      p := p + 2;
    }
    assert input[p..][..0] == [];
    assert ptr[..cap] == ptr[..];
    ok, end := true, p;
  }

  /** Slots already read, in front of the decoding of the rest. */
  function PrefixThen(done: seq<Variable>, rest: Option<seq<Variable>>): Option<seq<Variable>>
  {
    match rest
    case None => None
    case Some(vs) => Some(done + vs)
  }

  lemma PrefixThenEmpty(rest: Option<seq<Variable>>)
    ensures PrefixThen([], rest) == rest
  {
    if rest.Some? {
      assert [] + rest.value == rest.value;
    }
  }

  lemma PrefixThenStep(done: seq<Variable>, v: Variable, rest: Option<seq<Variable>>)
    ensures PrefixThen(done, PrefixThen([v], rest)) == PrefixThen(done + [v], rest)
  {
    if rest.Some? {
      assert done + ([v] + rest.value) == (done + [v]) + rest.value;
    }
  }

  lemma BadPairFails(items: seq<SnapItem>, n: nat)
    requires n > 0 && (|items| < 2 || !items[0].Value? || !items[1].Flag?)
    ensures DecodeVars(items, n) == None
  {
  }

  /** Writing an environment and reading it back gives an environment with
      the same parent and the same slots. */
  method SerializeThenDeserialize(env: Environment, parentId: Option<nat>, objects: map<nat, Environment>)
    returns (copy: Option<Environment>)
    requires env.Valid()
    requires parentId.None? <==> env.parent == null
    requires parentId.Some? ==> parentId.value in objects && objects[parentId.value] == env.parent
    ensures copy.Some? && copy.value.Valid() && copy.value.parent == env.parent && copy.value.AsSlice() == env.AsSlice()
  {
    var ser := new SnapshotSerializer();
    env.Serialize(parentId, ser);
    assert ser.output == EnvItems(parentId, env.AsSlice());
    var deser := new Deserializer(ser.output, objects);
    SnapshotRoundTrip(parentId, env.AsSlice(), []);
    assert deser.input[deser.pos..] == EnvItems(parentId, env.AsSlice()) + [];
    copy := DeserializeInPlace(deser);
  }
}
