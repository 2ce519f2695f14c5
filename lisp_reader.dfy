/**
  The reader of the Tiny Lisp interpreter (`readFrom`, examples/lisp.js):
  it consumes tokens from the front of a shared token array and builds one
  expression, failing on a premature end of input or a stray `)`.
*/
module LispReader {
  import opened LispSyntax

  /** The two strings `readFrom` throws. */
  datatype ReadError = UnexpectedEOF | UnexpectedParen

  function Message(e: ReadError): string
  {
    match e
    case UnexpectedEOF => "Unexpected EOF"
    case UnexpectedParen => "unexpected"
  }

  datatype Result<+T> = Ok(value: T) | Fail(error: ReadError)

  /** What a read produces, together with the tokens it leaves behind
      (on failure too: `readFrom` has already shifted what it consumed). */
  datatype Parsed<+T> = Parsed(result: Result<T>, rest: seq<string>)

  /** `rest` is what remains of `ts` after dropping a prefix. */
  predicate IsSuffix(rest: seq<string>, ts: seq<string>)
  {
    |rest| <= |ts| && rest == ts[|ts| - |rest|..]
  }

  /** `readFrom(tokens)` on a token array holding `ts`. */
  function Read(ts: seq<string>): (p: Parsed<Expr>)
    ensures |p.rest| <= |ts|
    ensures p.result.Ok? ==> |p.rest| < |ts|
    decreases |ts|, 0
  {
    if ts == [] then Parsed(Fail(UnexpectedEOF), ts)
    else if ts[0] == "(" then
      var items := ReadList(ts[1..]);
      match items.result
      case Fail(e) => Parsed(Fail(e), items.rest)
      case Ok(xs) => Parsed(Ok(List(xs)), items.rest)
    else if ts[0] == ")" then Parsed(Fail(UnexpectedParen), ts[1..])
    else Parsed(Ok(Atom(ts[0])), ts[1..])
  }

  /** The `while (tokens[0] !== ')')` loop of `readFrom` and the `shift` of the
      closing parenthesis after it: the elements of a list up to its `)`. */
  function ReadList(ts: seq<string>): (p: Parsed<seq<Expr>>)
    ensures |p.rest| <= |ts|
    ensures p.result.Ok? ==> |p.rest| < |ts|
    decreases |ts|, 1
  {
    if ts != [] && ts[0] == ")" then Parsed(Ok([]), ts[1..])
    else
      var first := Read(ts);
      match first.result
      case Fail(e) => Parsed(Fail(e), first.rest)
      case Ok(x) =>
        var more := ReadList(first.rest);
        match more.result
        case Fail(e) => Parsed(Fail(e), more.rest)
        case Ok(xs) => Parsed(Ok([x] + xs), more.rest)
  }

  lemma SuffixTrans(a: seq<string>, b: seq<string>, c: seq<string>)
    requires IsSuffix(a, b) && IsSuffix(b, c)
    ensures IsSuffix(a, c)
  {
    assert c[|c| - |b|..][|b| - |a|..] == c[|c| - |a|..];
  }

  /** Reading only ever removes tokens from the front: what is left is a
      suffix of the input, whether the read succeeds or fails. */
  lemma {:induction false} ReadLeavesSuffix(ts: seq<string>)
    ensures IsSuffix(Read(ts).rest, ts)
    decreases |ts|, 0
  {
    if ts != [] {
      if ts[0] == "(" {
        ReadListLeavesSuffix(ts[1..]);
        SuffixTrans(Read(ts).rest, ts[1..], ts);
      }
    }
  }

  lemma {:induction false} ReadListLeavesSuffix(ts: seq<string>)
    ensures IsSuffix(ReadList(ts).rest, ts)
    decreases |ts|, 1
  {
    if !(ts != [] && ts[0] == ")") {
      var first := Read(ts);
      ReadLeavesSuffix(ts);
      if first.result.Ok? {
        ReadListLeavesSuffix(first.rest);
        SuffixTrans(ReadList(ts).rest, first.rest, ts);
      }
    }
  }

  lemma SuffixMembers(rest: seq<string>, ts: seq<string>)
    requires IsSuffix(rest, ts)
    ensures forall t :: t in rest ==> t in ts
  {
    forall t | t in rest ensures t in ts {
      var i :| 0 <= i < |rest| && rest[i] == t;
      assert ts[|ts| - |rest| + i] == t;
    }
  }

  // ---------------------------------------------------------------------
  // The inverse of reading: the tokens an expression is read from.
  // ---------------------------------------------------------------------

  function Unread(e: Expr): seq<string>
  {
    match e
    case Num(t) => [t]
    case Sym(t) => [t]
    case List(xs) => ["("] + UnreadList(xs) + [")"]
  }

  function UnreadList(xs: seq<Expr>): seq<string>
  {
    if xs == [] then [] else Unread(xs[0]) + UnreadList(xs[1..])
  }

  /** An expression the reader can produce: numbers carry numeric text and
      symbols carry text that is neither numeric nor a parenthesis. */
  predicate Readable(e: Expr)
  {
    match e
    case Num(t) => IsNumber(t)
    case Sym(t) => !IsNumber(t) && t != "(" && t != ")"
    case List(xs) => forall i :: 0 <= i < |xs| ==> Readable(xs[i])
  }

  /** Reading the tokens of a readable expression, followed by anything,
      yields that expression and leaves exactly the following tokens. */
  lemma {:induction false} ReadUnread(e: Expr, rest: seq<string>)
    requires Readable(e)
    ensures Read(Unread(e) + rest) == Parsed(Ok(e), rest)
    decreases e, 1
  {
    match e
    case Num(t) =>
      assert (Unread(e) + rest)[1..] == rest;
    case Sym(t) =>
      assert (Unread(e) + rest)[1..] == rest;
    case List(xs) =>
      var ts := Unread(e) + rest;
      assert ts[1..] == UnreadList(xs) + [")"] + rest;
      ReadListUnread(e, xs, rest);
  }

  lemma {:induction false} ReadListUnread(e: Expr, xs: seq<Expr>, rest: seq<string>)
    requires forall x :: x in xs ==> x < e && Readable(x)
    ensures ReadList(UnreadList(xs) + [")"] + rest) == Parsed(Ok(xs), rest)
    decreases e, 0, |xs|
  {
    var ts := UnreadList(xs) + [")"] + rest;
    if xs == [] {
      assert ts == [")"] + rest;
    } else {
      var tail := UnreadList(xs[1..]) + [")"] + rest;
      assert ts == Unread(xs[0]) + tail;
      assert xs[0] in xs;
      assert Unread(xs[0]) != [] && Unread(xs[0])[0] != ")" by {
        match xs[0]
        case Num(t) =>
          assert IsNumber(t) && !IsNumber(")");
        case Sym(t) =>
        case List(ys) =>
      }
      ReadUnread(xs[0], tail);
      assert forall x :: x in xs[1..] ==> x in xs;
      ReadListUnread(e, xs[1..], rest);
      ReadListUnfold(ts);
      assert [xs[0]] + xs[1..] == xs;
    }
  }

  /** A list not at its `)` is one expression followed by the rest of the list. */
  lemma ReadListUnfold(ts: seq<string>)
    requires (ts == [] || ts[0] != ")") && Read(ts).result.Ok?
    ensures ReadList(ts) == PrependItems([Read(ts).result.value], ReadList(Read(ts).rest))
  {
  }

  /** Conversely, whatever reads successfully is a readable expression and
      the consumed tokens are exactly its tokens. */
  lemma {:induction false} ReadInverse(ts: seq<string>)
    requires Read(ts).result.Ok?
    ensures Readable(Read(ts).result.value)
    ensures ts == Unread(Read(ts).result.value) + Read(ts).rest
    decreases |ts|, 0
  {
    var p := Read(ts);
    if ts[0] == "(" {
      ReadListInverse(ts[1..]);
      assert ts == ["("] + ts[1..];
    } else {
      IsNumberDecidesAtom(ts[0]);
      assert ts == [ts[0]] + ts[1..];
    }
  }

  lemma {:induction false} ReadListInverse(ts: seq<string>)
    requires ReadList(ts).result.Ok?
    ensures forall i :: 0 <= i < |ReadList(ts).result.value| ==> Readable(ReadList(ts).result.value[i])
    ensures ts == UnreadList(ReadList(ts).result.value) + [")"] + ReadList(ts).rest
    decreases |ts|, 1
  {
    if ts != [] && ts[0] == ")" {
      assert ts == [")"] + ts[1..];
    } else {
      ReadListStep(ts);
      var first := Read(ts);
      var x := first.result.value;
      ReadInverse(ts);
      var more := ReadList(first.rest);
      var xs := more.result.value;
      ReadListInverse(first.rest);
      UnreadListCons(x, xs);
      Regroup(ts, Unread(x), first.rest, UnreadList(xs), more.rest);
      forall i | 0 <= i < |[x] + xs|
        ensures Readable(([x] + xs)[i])
      {
        if i > 0 {
          assert ([x] + xs)[i] == xs[i - 1];
        }
      }
    }
  }

  /** One element of a list that reads successfully. */
  lemma ReadListStep(ts: seq<string>)
    requires ReadList(ts).result.Ok? && (ts == [] || ts[0] != ")")
    ensures var first := Read(ts);
      first.result.Ok? && ReadList(first.rest).result.Ok? &&
      ReadList(ts) == Parsed(Ok([first.result.value] + ReadList(first.rest).result.value), ReadList(first.rest).rest)
  {
  }

  lemma Regroup(ts: seq<string>, a: seq<string>, mid: seq<string>, b: seq<string>, r: seq<string>)
    requires ts == a + mid && mid == b + [")"] + r
    ensures ts == (a + b) + [")"] + r
  {
  }

  lemma UnreadListCons(x: Expr, xs: seq<Expr>)
    ensures UnreadList([x] + xs) == Unread(x) + UnreadList(xs)
  {
    assert ([x] + xs)[1..] == xs;
  }

  lemma IsNumberDecidesAtom(t: string)
    requires t != "(" && t != ")"
    ensures Readable(Atom(t)) && Unread(Atom(t)) == [t]
  {
  }

  /** An opening parenthesis that is never closed fails with
      "Unexpected EOF", because the element loop runs into the end. */
  lemma {:induction false} UnclosedListFails(ts: seq<string>)
    requires ")" !in ts
    ensures ReadList(ts).result == Fail(UnexpectedEOF)
    decreases |ts|, 1
  {
    if ts != [] {
      var first := Read(ts);
      ReadWithoutClose(ts);
      if first.result.Ok? {
        ReadLeavesSuffix(ts);
        SuffixMembers(first.rest, ts);
        UnclosedListFails(first.rest);
      }
    }
  }

  lemma {:induction false} ReadWithoutClose(ts: seq<string>)
    requires ")" !in ts
    ensures Read(ts).result.Fail? ==> Read(ts).result == Fail(UnexpectedEOF)
    decreases |ts|, 0
  {
    if ts != [] && ts[0] == "(" {
      assert forall t :: t in ts[1..] ==> t in ts;
      UnclosedListFails(ts[1..]);
    } else if ts != [] {
      assert ts[0] in ts;
    }
  }

  /** The three failure cases of `readFrom`. */
  lemma ReadFailures(ts: seq<string>)
    ensures Read([]).result == Fail(UnexpectedEOF)
    ensures Read([")"] + ts) == Parsed(Fail(UnexpectedParen), ts)
    ensures ")" !in ts ==> Read(["("] + ts).result == Fail(UnexpectedEOF)
  {
    assert ([")"] + ts)[1..] == ts;
    assert (["("] + ts)[1..] == ts;
    if ")" !in ts {
      UnclosedListFails(ts);
    }
  }

  // ---------------------------------------------------------------------
  // The imperative reader: the token array is shifted in place.
  // ---------------------------------------------------------------------

  function PrependItems(items: seq<Expr>, p: Parsed<seq<Expr>>): Parsed<seq<Expr>>
  {
    match p.result
    case Ok(xs) => Parsed(Ok(items + xs), p.rest)
    case Fail(e) => p
  }

  lemma PrependNothing(p: Parsed<seq<Expr>>)
    ensures PrependItems([], p) == p
  {
    if p.result.Ok? {
      assert [] + p.result.value == p.result.value;
    }
  }

  lemma PrependTwice(items: seq<Expr>, x: Expr, p: Parsed<seq<Expr>>)
    ensures PrependItems(items, PrependItems([x], p)) == PrependItems(items + [x], p)
  {
    if p.result.Ok? {
      assert items + ([x] + p.result.value) == (items + [x]) + p.result.value;
    }
  }

  class Reader {
    /** The shared `tokens` array; `shift` drops its first element. */
    var tokens: seq<string>

    constructor (ts: seq<string>)
      ensures tokens == ts
    {
      tokens := ts;
    }

    method ReadFrom() returns (r: Result<Expr>)
      modifies this
      ensures Parsed(r, tokens) == Read(old(tokens))
      decreases |tokens|
    {
      if |tokens| == 0 {
        return Fail(UnexpectedEOF);
      }
      var token := tokens[0];
      tokens := tokens[1..];
      if token == "(" {
        ghost var start := tokens;
        var items: seq<Expr> := [];
        PrependNothing(ReadList(start));
        while !(|tokens| > 0 && tokens[0] == ")")
          invariant ReadList(start) == PrependItems(items, ReadList(tokens))
          decreases |tokens|
        {
          ghost var before := tokens;
          var x := ReadFrom();
          if x.Fail? {
            return Fail(x.error);
          }
          assert ReadList(before) == PrependItems([x.value], ReadList(tokens));
          PrependTwice(items, x.value, ReadList(tokens));
          items := items + [x.value];
        }
        assert items + [] == items;
        tokens := tokens[1..];
        return Ok(List(items));
      } else if token == ")" {
        return Fail(UnexpectedParen);
      } else {
        return Ok(Atom(token));
      }
    }
  }
}
