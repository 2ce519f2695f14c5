/**
  The parts of `VirtualMachine` in crates/starlight/src/vm.rs that the
  interpreter leans on: the fixed value stack with its cursor, the
  prototype-chain search for a cached structure, and symbol descriptions.
*/
module Vm {
  import opened Wrappers
  import opened Bytes
  import opened JsValues

  /** `16 * 1024` slots, reserved once by `VirtualMachine::new`. */
  const STACK_SIZE: nat := 16 * 1024

  /** A property key: an interned string, or an array index. */
  datatype Symbol = Key(text: string) | Indexed(index: u32)

  predicate IsDigit(c: char)
  {
    48 <= c as int <= 57
  }

  function DigitChar(d: nat): (c: char)
    requires d < 10
    ensures IsDigit(c)
  {
    (48 + d) as char
  }

  /** The decimal text Rust's `to_string` gives an unsigned integer. */
  function Decimal(n: nat): (s: string)
    ensures |s| >= 1
    ensures forall i :: 0 <= i < |s| ==> IsDigit(s[i])
    ensures |s| > 1 ==> s[0] != '0'
  {
    if n < 10 then [DigitChar(n)] else Decimal(n / 10) + [DigitChar(n % 10)]
  }

  /** The number a string of digits denotes. */
  function ParseDecimal(s: string): nat
    requires forall i :: 0 <= i < |s| ==> IsDigit(s[i])
  {
    if s == [] then 0
    else 10 * ParseDecimal(s[..|s| - 1]) + DigitValue(s[|s| - 1])
  }

  function DigitValue(c: char): (d: nat)
    requires IsDigit(c)
    ensures d < 10 && DigitChar(d) == c
  {
    c as int - 48
  }

  /** The decimal text reads back as the number it was made from. */
  lemma {:induction false} ParseDecimalInverse(n: nat)
    ensures ParseDecimal(Decimal(n)) == n
  {
    var s := Decimal(n);
    if n >= 10 {
      assert s[..|s| - 1] == Decimal(n / 10);
      ParseDecimalInverse(n / 10);
    }
  }

  /** Different indexes have different descriptions. */
  lemma DecimalInjective(a: nat, b: nat)
    requires Decimal(a) == Decimal(b)
    ensures a == b
  {
    ParseDecimalInverse(a);
    ParseDecimalInverse(b);
  }

  /** `description`: a key's own text, or an index written in decimal. */
  function Description(sym: Symbol): (s: string)
    ensures sym.Key? ==> s == sym.text
    ensures sym.Indexed? ==>
      (forall i :: 0 <= i < |s| ==> IsDigit(s[i])) && ParseDecimal(s) == sym.index &&
      |s| >= 1 && (|s| > 1 ==> s[0] != '0')
  {
    match sym
    case Key(text) => text
    case Indexed(x) =>
      ParseDecimalInverse(x);
      Decimal(x)
  }

  /** A hidden class; objects sharing one are compared by identity. */
  class Structure {
    constructor()
    {
    }
  }

  class JsObject {
    var structure: Structure
    var prototype: JsObject?

    constructor(structure: Structure, prototype: JsObject?)
      ensures this.structure == structure && this.prototype == prototype
    {
      this.structure := structure;
      this.prototype := prototype;
    }
  }

  /** `chain` is `obj` followed by its prototypes, up to the one whose
      prototype is `None`. */
  predicate ProtoChain(obj: JsObject, chain: seq<JsObject>)
    reads set o | o in chain
  {
    |chain| > 0 && chain[0] == obj &&
    (forall i :: 0 <= i < |chain| - 1 ==> chain[i].prototype == chain[i + 1]) &&
    chain[|chain| - 1].prototype == null
  }

  /** `try_cache(s, obj)`: the first object of the prototype chain, `obj`
      itself included, whose structure is `s`; `None` when there is none. */
  method TryCache(s: Structure, obj: JsObject, ghost chain: seq<JsObject>) returns (r: Option<JsObject>)
    requires ProtoChain(obj, chain)
    ensures r.None? <==> forall i :: 0 <= i < |chain| ==> chain[i].structure != s
    ensures r.Some? ==>
      exists i :: 0 <= i < |chain| && chain[i] == r.value && r.value.structure == s &&
        forall j :: 0 <= j < i ==> chain[j].structure != s
  {
    if obj.structure == s {
      return Some(obj);
    }
    var current := obj.prototype;
    ghost var i := 1;
    while current != null
      invariant 1 <= i <= |chain|
      invariant if i < |chain| then current == chain[i] else current == null
      invariant forall j :: 0 <= j < i ==> chain[j].structure != s
      decreases |chain| - i
    {
      if current.structure == s {
        return Some(current);
      }
      current := current.prototype;
      i := i + 1;
    }
    r := None;
  }

  class VirtualMachine {
    /** The block from `stack_start` to `stack_end`. */
    const stack: array<JsValue>
    /** `stack - stack_start`: the number of values pushed. */
    var cursor: nat

    predicate Valid()
      reads this
    {
      stack.Length == STACK_SIZE && cursor <= stack.Length
    }

    /** The values on the stack, bottom first. */
    function Contents(): (vs: seq<JsValue>)
      requires Valid()
      reads this, stack
      ensures |vs| == cursor
    {
      stack[..cursor]
    }

    /** The stack setup of `VirtualMachine::new`: every slot zeroed and
        the cursor at the start. */
    constructor()
      ensures Valid() && fresh(stack) && cursor == 0 && Contents() == []
      ensures forall i :: 0 <= i < stack.Length ==> stack[i] == ZERO
    {
      var block := new JsValue[STACK_SIZE](_ => JsValue(1));
      for i := 0 to STACK_SIZE
        invariant forall j :: 0 <= j < i ==> block[j] == ZERO
        modifies block
      {
        block[i] := ZERO;
      }
      stack := block;
      cursor := 0;
    }

    /** `push`: panics with "Stack overflow" when the stack is full;
        otherwise writes `v` at the cursor and advances it. */
    method Push(v: JsValue) returns (s: Status)
      requires Valid()
      modifies this, stack
      ensures Valid()
      ensures old(cursor) == STACK_SIZE ==>
        s == Panicked("Stack overflow") && cursor == old(cursor) && stack[..] == old(stack[..])
      ensures old(cursor) < STACK_SIZE ==>
        s == Done && cursor == old(cursor) + 1 && stack[..] == old(stack[..])[old(cursor) := v] &&
        Contents() == old(Contents()) + [v]
    {
      if cursor == stack.Length {
        return Panicked("Stack overflow");
      }
      stack[cursor] := v;
      cursor := cursor + 1;
      s := Done;
    }

    /** `upush`: `push` without the check; the caller guarantees room. */
    method UPush(v: JsValue)
      requires Valid() && cursor < stack.Length
      modifies this, stack
      ensures Valid() && cursor == old(cursor) + 1
      ensures stack[..] == old(stack[..])[old(cursor) := v]
      ensures Contents() == old(Contents()) + [v]
    {
      stack[cursor] := v;
      cursor := cursor + 1;
    }

    /** `upop`: `pop` without the check; the caller guarantees a value. */
    method UPop() returns (v: JsValue)
      requires Valid() && cursor > 0
      modifies this
      ensures Valid() && cursor == old(cursor) - 1
      ensures old(Contents()) == Contents() + [v]
    {
      cursor := cursor - 1;
      v := stack[cursor];
      assert stack[..cursor + 1] == stack[..cursor] + [v];
    }

    /** `pop`: `None` on an empty stack, otherwise the top value, with the
        cursor moved back over it. */
    method Pop() returns (r: Option<JsValue>)
      requires Valid()
      modifies this
      ensures Valid()
      ensures old(cursor) == 0 ==> r == None && cursor == 0
      ensures old(cursor) > 0 ==>
        r.Some? && cursor == old(cursor) - 1 && old(Contents()) == Contents() + [r.value]
    {
      if cursor == 0 {
        return None;
      }
      cursor := cursor - 1;
      r := Some(stack[cursor]);
      assert stack[..cursor + 1] == stack[..cursor] + [r.value];
    }

    /** A push followed by a pop returns the pushed value and leaves the
        stack as it was. */
    method PushThenPop(v: JsValue) returns (r: Option<JsValue>)
      requires Valid() && cursor < STACK_SIZE
      modifies this, stack
      ensures Valid() && r == Some(v) && cursor == old(cursor) && Contents() == old(Contents())
    {
      var s := Push(v);
      r := Pop();
    }
  }
}
