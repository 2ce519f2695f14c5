/**
  The lexical layer of the Tiny Lisp interpreter (examples/lisp.js):
  the expression trees, the tokenizer and the classification of leaf
  tokens into numbers and symbols.
*/
module LispSyntax {

  /** A read expression: a number (kept as its token text), a symbol, or a list. */
  datatype Expr = Num(text: string) | Sym(name: string) | List(items: seq<Expr>)

  // ---------------------------------------------------------------------
  // Tokenizer: pad every parenthesis with spaces, split on ' ', drop "".
  // ---------------------------------------------------------------------

  function PadChar(c: char): string
  {
    if c == '(' then " ( " else if c == ')' then " ) " else [c]
  }

  /** Both `replace` passes of `tokenize`: every paren becomes " ( " or " ) ". */
  function Pad(s: string): string
  {
    if s == [] then [] else PadChar(s[0]) + Pad(s[1..])
  }

  /** `String.prototype.split(' ')`: the fragments between single spaces. */
  function Split(s: string): (r: seq<string>)
    ensures |r| >= 1
  {
    if s == [] then [[]]
    else
      var rest := Split(s[1..]);
      if s[0] == ' ' then [[]] + rest else [[s[0]] + rest[0]] + rest[1..]
  }

  /** `filter((val) => val.length)`: keep the non-empty fragments. */
  function NonEmpty(ts: seq<string>): (r: seq<string>)
    ensures forall t :: t in r ==> t in ts && t != []
  {
    if ts == [] then []
    else if ts[0] == [] then NonEmpty(ts[1..])
    else [ts[0]] + NonEmpty(ts[1..])
  }

  function Tokenize(s: string): seq<string>
  {
    NonEmpty(Split(Pad(s)))
  }

  // ---- reference notions used to state what the tokenizer does ----

  /** Joins fragments with a single space; the inverse of `Split`. */
  function Join(ts: seq<string>): string
    requires |ts| >= 1
  {
    if |ts| == 1 then ts[0] else ts[0] + " " + Join(ts[1..])
  }

  function Concat(ts: seq<string>): string
  {
    if ts == [] then [] else ts[0] + Concat(ts[1..])
  }

  /** The text with every space character deleted. */
  function RemoveSpaces(s: string): string
  {
    if s == [] then [] else (if s[0] == ' ' then [] else [s[0]]) + RemoveSpaces(s[1..])
  }

  /** A token that holds a parenthesis is that parenthesis alone. */
  predicate ParenAlone(t: string)
  {
    ('(' in t ==> t == "(") && (')' in t ==> t == ")")
  }

  lemma {:induction false} SplitJoin(s: string)
    ensures Join(Split(s)) == s
    ensures forall t :: t in Split(s) ==> ' ' !in t
  {
    if s != [] {
      SplitJoin(s[1..]);
      var rest := Split(s[1..]);
      if s[0] == ' ' {
        assert s == " " + s[1..];
      } else {
        if |rest| == 1 {
          assert s == [s[0]] + rest[0];
        } else {
          assert Join(rest) == rest[0] + " " + Join(rest[1..]);
          assert s == [s[0]] + s[1..];
        }
        assert forall t :: t in Split(s) ==> t == [s[0]] + rest[0] || t in rest;
      }
    }
  }

  lemma {:induction false} ConcatAppend(a: seq<string>, b: seq<string>)
    ensures Concat(a + b) == Concat(a) + Concat(b)
  {
    if a != [] {
      assert (a + b)[1..] == a[1..] + b;
      ConcatAppend(a[1..], b);
    } else {
      assert a + b == b;
    }
  }

  lemma {:induction false} RemoveSpacesAppend(a: string, b: string)
    ensures RemoveSpaces(a + b) == RemoveSpaces(a) + RemoveSpaces(b)
  {
    if a != [] {
      assert (a + b)[1..] == a[1..] + b;
      RemoveSpacesAppend(a[1..], b);
    } else {
      assert a + b == b;
    }
  }

  lemma {:induction false} ConcatNonEmpty(ts: seq<string>)
    ensures Concat(NonEmpty(ts)) == Concat(ts)
  {
    if ts != [] {
      ConcatNonEmpty(ts[1..]);
    }
  }

  /** The fragments of `Split(s)` concatenate to `s` without its spaces. */
  lemma {:induction false} ConcatSplit(s: string)
    ensures Concat(Split(s)) == RemoveSpaces(s)
  {
    if s != [] {
      ConcatSplit(s[1..]);
      var rest := Split(s[1..]);
      if s[0] != ' ' {
        assert Concat(rest) == rest[0] + Concat(rest[1..]);
      }
    }
  }

  lemma {:induction false} RemoveSpacesPad(s: string)
    ensures RemoveSpaces(Pad(s)) == RemoveSpaces(s)
  {
    if s != [] {
      RemoveSpacesPad(s[1..]);
      RemoveSpacesAppend(PadChar(s[0]), Pad(s[1..]));
      var c := s[0];
      if c == '(' || c == ')' {
        assert PadChar(c) == [' '] + ([c] + [' ']);
        assert RemoveSpaces([' ']) == [];
        assert RemoveSpaces([c] + [' ']) == [c];
        assert RemoveSpaces(PadChar(c)) == [c];
      } else {
        assert RemoveSpaces(PadChar(c)) == if c == ' ' then [] else [c];
      }
    }
  }

  /** Splitting a padded text: the first fragment holds no parenthesis and
      every fragment that holds one is that parenthesis alone. */
  lemma {:induction false} SplitPadShape(s: string)
    ensures '(' !in Split(Pad(s))[0] && ')' !in Split(Pad(s))[0]
    ensures forall t :: t in Split(Pad(s)) ==> ParenAlone(t)
  {
    if s != [] {
      SplitPadShape(s[1..]);
      var p := Pad(s[1..]);
      var rest := Split(p);
      var c := s[0];
      assert Pad(s) == PadChar(c) + p;
      if c == '(' || c == ')' {
        assert PadChar(c) + p == " " + [c] + " " + p;
        SplitParen(c, p);
        assert ParenAlone([c]) && ParenAlone([]);
        assert forall t :: t in Split(Pad(s)) ==> t == [] || t == [c] || t in rest;
      } else {
        SplitCons(c, p);
        if c != ' ' {
          var head := [c] + rest[0];
          assert '(' !in head && ')' !in head;
          assert forall t :: t in rest[1..] ==> t in rest;
        }
      }
    }
  }

  /** One more character in front of the text to split. */
  lemma SplitCons(c: char, q: string)
    ensures Split([c] + q) ==
      if c == ' ' then [[]] + Split(q) else [[c] + Split(q)[0]] + Split(q)[1..]
  {
    assert ([c] + q)[1..] == q;
  }

  /** A padded parenthesis splits into an empty fragment and itself. */
  lemma SplitParen(c: char, q: string)
    requires c != ' '
    ensures Split(" " + [c] + " " + q) == [[], [c]] + Split(q)
  {
    SplitCons(' ', q);
    SplitCons(c, " " + q);
    assert [c] + [] == [c];
    assert " " + [c] + " " + q == [' '] + ([c] + (" " + q));
    SplitCons(' ', [c] + (" " + q));
  }

  /** Every token is non-empty, holds no space, and a parenthesis always
      stands alone as its own token. */
  lemma TokensAreWellFormed(s: string)
    ensures forall t :: t in Tokenize(s) ==> t != [] && ' ' !in t && ParenAlone(t)
  {
    SplitJoin(Pad(s));
    SplitPadShape(s);
  }

  /** The tokens, concatenated, are the input text with its spaces removed. */
  lemma TokensConcat(s: string)
    ensures Concat(Tokenize(s)) == RemoveSpaces(s)
  {
    ConcatNonEmpty(Split(Pad(s)));
    ConcatSplit(Pad(s));
    RemoveSpacesPad(s);
  }

  // ---------------------------------------------------------------------
  // Leaf tokens: float_re = ^[-+]?[0-9]*\.?[0-9]+([eE][-+]?[0-9]+)?$
  // ---------------------------------------------------------------------

  predicate IsDigit(c: char) { '0' <= c <= '9' }

  predicate IsSign(c: char) { c == '-' || c == '+' }

  predicate Digits(s: string) { forall i :: 0 <= i < |s| ==> IsDigit(s[i]) }

  /** `[-+]?` */
  predicate OptSignRe(s: string) { s == [] || (|s| == 1 && IsSign(s[0])) }

  /** `[0-9]*\.?[0-9]+` */
  ghost predicate MantissaRe(m: string)
  {
    (|m| > 0 && Digits(m)) ||
    exists p :: 0 <= p < |m| - 1 && m[p] == '.' && Digits(m[..p]) && Digits(m[p + 1..])
  }

  /** `[-+]?[0-9]+` */
  ghost predicate SignedDigitsRe(x: string)
  {
    exists a :: 0 <= a < |x| && OptSignRe(x[..a]) && Digits(x[a..])
  }

  /** `([eE][-+]?[0-9]+)?` */
  ghost predicate ExponentRe(e: string)
  {
    e == [] || (|e| > 0 && (e[0] == 'e' || e[0] == 'E') && SignedDigitsRe(e[1..]))
  }

  /** The whole-token match of `float_re`, as the regular expression reads. */
  ghost predicate FloatRe(t: string)
  {
    exists a, b :: 0 <= a <= b <= |t| && OptSignRe(t[..a]) && MantissaRe(t[a..b]) && ExponentRe(t[b..])
  }

  /** The length of the longest prefix of `s` made of digits. */
  function LeadingDigits(s: string): (n: nat)
    ensures n <= |s| && Digits(s[..n]) && (n < |s| ==> !IsDigit(s[n]))
  {
    if s == [] || !IsDigit(s[0]) then 0
    else
      var k := LeadingDigits(s[1..]);
      assert s[..k + 1] == [s[0]] + s[1..][..k];
      k + 1
  }

  function IsExponent(e: string): bool
  {
    e == [] ||
    (|e| > 1 && (e[0] == 'e' || e[0] == 'E') &&
     var c := if IsSign(e[1]) then 2 else 1;
     c < |e| && Digits(e[c..]))
  }

  /** The length of an optional leading sign. */
  function SignLength(t: string): (a: nat)
    ensures a <= |t|
  {
    if |t| > 0 && IsSign(t[0]) then 1 else 0
  }

  /** The length of the `[0-9]*\.?[0-9]+` part at the front of `r`
      (digits, then a dot and digits when a dot follows), or -1 when none. */
  function MantissaLength(r: string): (n: int)
    ensures n <= |r|
  {
    var n1 := LeadingDigits(r);
    if n1 < |r| && r[n1] == '.' then
      var n2 := LeadingDigits(r[n1 + 1..]);
      if n2 > 0 then n1 + 1 + n2 else -1
    else if n1 > 0 then n1 else -1
  }

  /** A left-to-right matcher for `float_re`. */
  function IsNumber(t: string): bool
  {
    var a := SignLength(t);
    var n := MantissaLength(t[a..]);
    n >= 0 && IsExponent(t[a + n..])
  }

  /** `atom`: a token matching `float_re` is a number, any other a symbol. */
  function Atom(token: string): Expr
  {
    if IsNumber(token) then Num(token) else Sym(token)
  }

  /** A run of digits followed by end-of-text or a non-digit is exactly the
      longest digit prefix. */
  lemma {:induction false} LeadingDigitsOf(s: string, n: nat)
    requires n <= |s| && Digits(s[..n]) && (n < |s| ==> !IsDigit(s[n]))
    ensures LeadingDigits(s) == n
  {
    if n > 0 {
      assert IsDigit(s[..n][0]);
      assert s[1..][..n - 1] == s[..n][1..];
      assert n - 1 < |s[1..]| ==> s[1..][n - 1] == s[n];
      LeadingDigitsOf(s[1..], n - 1);
    }
  }

  lemma ExponentMatches(e: string)
    ensures IsExponent(e) <==> ExponentRe(e)
  {
    if e != [] && (e[0] == 'e' || e[0] == 'E') {
      var x := e[1..];
      if IsExponent(e) {
        var c := if IsSign(e[1]) then 2 else 1;
        assert x[..c - 1] == e[1..c];
        assert x[c - 1..] == e[c..];
        assert OptSignRe(x[..c - 1]);
      }
      if SignedDigitsRe(x) {
        var a :| 0 <= a < |x| && OptSignRe(x[..a]) && Digits(x[a..]);
        assert x[a..][0] == x[a];
        assert a == 1 <==> IsSign(e[1]);
        assert e[a + 1..] == x[a..];
      }
    }
  }

  lemma MantissaLengthSound(r: string)
    requires MantissaLength(r) >= 0
    ensures MantissaRe(r[..MantissaLength(r)])
  {
    var n1 := LeadingDigits(r);
    var n := MantissaLength(r);
    var m := r[..n];
    if n1 < |r| && r[n1] == '.' {
      var n2 := LeadingDigits(r[n1 + 1..]);
      assert m[n1] == '.';
      assert m[..n1] == r[..n1];
      assert m[n1 + 1..] == r[n1 + 1..][..n2];
    }
  }

  /** A mantissa ending at end-of-text or at an exponent marker is the one
      `MantissaLength` finds. */
  lemma MantissaLengthComplete(r: string, len: nat)
    requires len <= |r| && MantissaRe(r[..len])
    requires len < |r| ==> r[len] == 'e' || r[len] == 'E'
    ensures MantissaLength(r) == len
  {
    var m := r[..len];
    if |m| > 0 && Digits(m) {
      LeadingDigitsOf(r, len);
    } else {
      var p :| 0 <= p < |m| - 1 && m[p] == '.' && Digits(m[..p]) && Digits(m[p + 1..]);
      assert r[..p] == m[..p];
      assert r[p] == m[p];
      LeadingDigitsOf(r, p);
      var r2 := r[p + 1..];
      var k := len - (p + 1);
      assert r2[..k] == m[p + 1..];
      assert k < |r2| ==> r2[k] == r[len];
      LeadingDigitsOf(r2, k);
    }
  }

  lemma MantissaStart(m: string)
    requires MantissaRe(m)
    ensures |m| > 0 && (IsDigit(m[0]) || m[0] == '.')
  {
    if !(|m| > 0 && Digits(m)) {
      var p :| 0 <= p < |m| - 1 && m[p] == '.' && Digits(m[..p]) && Digits(m[p + 1..]);
      if p > 0 {
        assert m[..p][0] == m[0];
      }
    }
  }

  lemma IsNumberSound(t: string)
    requires IsNumber(t)
    ensures FloatRe(t)
  {
    var a := SignLength(t);
    var n := MantissaLength(t[a..]);
    MantissaLengthSound(t[a..]);
    assert t[a..][..n] == t[a..a + n];
    assert OptSignRe(t[..a]);
    ExponentMatches(t[a + n..]);
  }

  lemma IsNumberComplete(t: string)
    requires FloatRe(t)
    ensures IsNumber(t)
  {
    var a, b :| 0 <= a <= b <= |t| && OptSignRe(t[..a]) && MantissaRe(t[a..b]) && ExponentRe(t[b..]);
    SignLengthOf(t, a, b);
    var r := t[a..];
    ExponentStart(t, b);
    assert r[..b - a] == t[a..b];
    assert b - a < |r| ==> r[b - a] == t[b];
    MantissaLengthComplete(r, b - a);
    ExponentMatches(t[b..]);
    assert t[a + (b - a)..] == t[b..];
  }

  /** The sign ends where a mantissa starts. */
  lemma SignLengthOf(t: string, a: nat, b: nat)
    requires a <= b <= |t| && OptSignRe(t[..a]) && MantissaRe(t[a..b])
    ensures SignLength(t) == a
  {
    MantissaStart(t[a..b]);
    assert t[a..b][0] == t[a];
    if a == 1 {
      assert t[..a][0] == t[0];
    }
  }

  /** A non-empty exponent starts with its marker. */
  lemma ExponentStart(t: string, b: nat)
    requires b <= |t| && ExponentRe(t[b..])
    ensures b < |t| ==> t[b] == 'e' || t[b] == 'E'
  {
    if b < |t| {
      assert t[b..][0] == t[b];
    }
  }

  /** `IsNumber` decides exactly the language of `float_re`. */
  lemma IsNumberMatchesFloatRe(t: string)
    ensures IsNumber(t) <==> FloatRe(t)
  {
    if IsNumber(t) {
      IsNumberSound(t);
    }
    if FloatRe(t) {
      IsNumberComplete(t);
    }
  }

  /** `atom` yields a number exactly for the tokens `float_re` matches, and
      otherwise the token text itself as a symbol. */
  lemma AtomClassifies(token: string)
    ensures Atom(token).Num? <==> FloatRe(token)
    ensures Atom(token) == Num(token) || Atom(token) == Sym(token)
  {
    IsNumberMatchesFloatRe(token);
  }

  /** `1.` is not a number: `\.?[0-9]+` needs a digit after the dot. */
  lemma TrailingDotIsSymbol()
    ensures Atom("1.") == Sym("1.") && !FloatRe("1.")
  {
    IsNumberMatchesFloatRe("1.");
  }
}
