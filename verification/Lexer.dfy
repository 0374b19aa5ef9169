/** The lexer's cursor flattens token trees with a stack of frames, one tree at a time. */
module Lexer {
  import opened Logic

  datatype Delim = Paren | Bracket | Brace | NoDelim

  datatype Lit = Lit(symbol: string, isBool: bool, suffix: Option<string>)

  /** The kinds of the compiler's tokens that the lexer tells apart. */
  datatype Kind =
    | KLt | KLe | KEqEq | KAndAnd | KOrOr | KFatArrow | KGt | KGe | KAt | KComma | KColon | KSemi | KRArrow
    | KOpenDelim(delim: Delim) | KCloseDelim(delim: Delim)
    | KLiteral(lit: Lit) | KIdent(symbol: string) | KOr | KPlus | KMinus | KOther

  datatype Span = Span(lo: int, hi: int)

  datatype TokenTree =
    | Leaf(kind: Kind, span: Span)
    | Delimited(open: Span, close: Span, delim: Delim, trees: seq<TokenTree>)

  datatype Token =
    | Caret | EqEq | AndAnd | OrOr | Plus | Minus | Colon | Comma | Semi | RArrow | Lt | Le | Gt | Ge
    | At | Fn | Iff | FatArrow | Literal(lit: Lit) | Ident(symbol: string)
    | OpenDelim(delim: Delim) | CloseDelim(delim: Delim) | Invalid | Ref

  datatype Spanned = Spanned(lo: int, token: Token, hi: int)

  function MapKind(kind: Kind): Token {
    match kind
    case KLt => Token.Lt
    case KLe => Token.Le
    case KEqEq => EqEq
    case KAndAnd => AndAnd
    case KOrOr => OrOr
    case KFatArrow => FatArrow
    case KGt => Token.Gt
    case KGe => Token.Ge
    case KAt => At
    case KComma => Comma
    case KColon => Colon
    case KSemi => Semi
    case KRArrow => RArrow
    case KOpenDelim(d) => OpenDelim(d)
    case KCloseDelim(d) => CloseDelim(d)
    case KLiteral(lit) => if lit.suffix.None? then Literal(lit) else Invalid
    case KIdent(s) =>
      if s == "true" || s == "false" then Literal(Lit(s, true, None))
      else if s == "ref" then Ref
      else if s == "fn" then Fn
      else Ident(s)
    case KOr => Caret
    case KPlus => Plus
    case KMinus => Minus
    case KOther => Invalid
  }

  function MapToken(kind: Kind, span: Span, offset: int): Spanned {
    Spanned(span.lo - offset, MapKind(kind), span.hi - offset)
  }

  // ----- what the cursor yields -----

  /** `<=` directly followed by `>`. */
  predicate Fuses(a: TokenTree, b: TokenTree) {
    a.Leaf? && b.Leaf? && a.kind == KLe && b.kind == KGt && a.span.hi == b.span.lo
  }

  function CloseOf(t: TokenTree, offset: int): Spanned
    requires t.Delimited?
  {
    MapToken(KCloseDelim(t.delim), t.close, offset)
  }

  function Flatten(trees: seq<TokenTree>, offset: int): seq<Spanned> {
    if trees == [] then []
    else
      match trees[0]
      case Leaf(kind, span) =>
        if |trees| > 1 && Fuses(trees[0], trees[1]) then
          [Spanned(span.lo - offset, Token.Iff, trees[1].span.hi - offset)] + Flatten(trees[2..], offset)
        else
          [MapToken(kind, span, offset)] + Flatten(trees[1..], offset)
      case Delimited(open, _, delim, inner) =>
        [MapToken(KOpenDelim(delim), open, offset)] + Flatten(inner, offset) + [CloseOf(trees[0], offset)] +
          Flatten(trees[1..], offset)
  }

  /** The trees that make up the first piece of the stream: two for an arrow. */
  function FirstCount(trees: seq<TokenTree>): (n: nat)
    requires trees != []
    ensures 1 <= n <= |trees|
  {
    if |trees| > 1 && Fuses(trees[0], trees[1]) then 2 else 1
  }

  function FirstPiece(trees: seq<TokenTree>, offset: int): seq<Spanned>
    requires trees != []
  {
    match trees[0]
    case Leaf(kind, span) =>
      if FirstCount(trees) == 2 then [Spanned(span.lo - offset, Token.Iff, trees[1].span.hi - offset)]
      else [MapToken(kind, span, offset)]
    case Delimited(open, _, delim, inner) =>
      [MapToken(KOpenDelim(delim), open, offset)] + Flatten(inner, offset) + [CloseOf(trees[0], offset)]
  }

  lemma FlattenFirst(trees: seq<TokenTree>, offset: int)
    requires trees != []
    ensures Flatten(trees, offset) == FirstPiece(trees, offset) + Flatten(trees[FirstCount(trees)..], offset)
  {
  }

  /** Flattening is local: only an arrow can span the two halves of a stream. */
  lemma {:induction false} FlattenSplit(a: seq<TokenTree>, b: seq<TokenTree>, offset: int)
    requires a != [] && b != [] ==> !Fuses(a[|a| - 1], b[0])
    ensures Flatten(a + b, offset) == Flatten(a, offset) + Flatten(b, offset)
    decreases |a|
  {
    if a == [] {
      assert a + b == b;
    } else {
      var n := FirstCount(a);
      FirstSame(a, b, offset);
      FlattenSplit(a[n..], b, offset);
      FlattenFirst(a, offset);
      FlattenFirst(a + b, offset);
      Concat(FirstPiece(a, offset), Flatten(a[n..], offset), Flatten(b, offset));
    }
  }

  lemma FirstSame(a: seq<TokenTree>, b: seq<TokenTree>, offset: int)
    requires a != [] && (b != [] ==> !Fuses(a[|a| - 1], b[0]))
    ensures FirstCount(a + b) == FirstCount(a) && FirstPiece(a + b, offset) == FirstPiece(a, offset)
    ensures (a + b)[FirstCount(a)..] == a[FirstCount(a)..] + b
  {
    var ab := a + b;
    assert ab[0] == a[0];
    if |a| > 1 {
      assert ab[1] == a[1];
    } else if b != [] {
      assert ab[1] == b[0];
    }
    DropAppend(a, b, FirstCount(a));
  }

  lemma DropAppend(a: seq<TokenTree>, b: seq<TokenTree>, n: nat)
    requires n <= |a|
    ensures (a + b)[n..] == a[n..] + b
  {
  }

  // ----- balanced delimiters -----

  /** The delimiters left open after reading the tokens, if every closing one meets its own. */
  function Matched(ts: seq<Spanned>, open: seq<Delim>): Option<seq<Delim>> {
    if ts == [] then Some(open)
    else
      match ts[0].token
      case OpenDelim(d) => Matched(ts[1..], open + [d])
      case CloseDelim(d) => if open != [] && open[|open| - 1] == d then Matched(ts[1..], open[..|open| - 1]) else None
      case _ => Matched(ts[1..], open)
  }

  lemma {:induction false} MatchedAppend(a: seq<Spanned>, b: seq<Spanned>, open: seq<Delim>, open': seq<Delim>)
    requires Matched(a, open) == Some(open')
    ensures Matched(a + b, open) == Matched(b, open')
    decreases |a|
  {
    if a == [] {
      assert a + b == b;
    } else {
      assert (a + b)[1..] == a[1..] + b;
      match a[0].token
      case OpenDelim(d) => MatchedAppend(a[1..], b, open + [d], open');
      case CloseDelim(d) => MatchedAppend(a[1..], b, open[..|open| - 1], open');
      case _ => MatchedAppend(a[1..], b, open, open');
    }
  }

  /** Delimiters appear only as those of a tree. */
  predicate NoStray(trees: seq<TokenTree>) {
    if trees == [] then true
    else
      && NoStray(trees[1..])
      && match trees[0]
         case Leaf(kind, _) => !kind.KOpenDelim? && !kind.KCloseDelim?
         case Delimited(_, _, _, inner) => NoStray(inner)
  }

  lemma {:induction false} Balanced(trees: seq<TokenTree>, offset: int, open: seq<Delim>)
    requires NoStray(trees)
    ensures Matched(Flatten(trees, offset), open) == Some(open)
  {
    if trees != [] {
      match trees[0]
      case Leaf(_, _) =>
        var n := if |trees| > 1 && Fuses(trees[0], trees[1]) then 2 else 1;
        assert n == 2 ==> trees[1..][1..] == trees[2..];
        Balanced(trees[n..], offset, open);
        SkipToken(Flatten(trees, offset)[0], Flatten(trees[n..], offset), open);
      case Delimited(_, _, delim, inner) =>
        Balanced(inner, offset, open + [delim]);
        Balanced(trees[1..], offset, open);
        DelimitedBalanced(trees, offset, open);
    }
  }

  lemma SkipToken(t: Spanned, ts: seq<Spanned>, open: seq<Delim>)
    requires !t.token.OpenDelim? && !t.token.CloseDelim?
    ensures Matched([t] + ts, open) == Matched(ts, open)
  {
    assert ([t] + ts)[1..] == ts;
  }

  lemma DelimitedBalanced(trees: seq<TokenTree>, offset: int, open: seq<Delim>)
    requires trees != [] && trees[0].Delimited?
    requires Matched(Flatten(trees[0].trees, offset), open + [trees[0].delim]) == Some(open + [trees[0].delim])
    requires Matched(Flatten(trees[1..], offset), open) == Some(open)
    ensures Matched(Flatten(trees, offset), open) == Some(open)
  {
    var inner, close, later := Flatten(trees[0].trees, offset), CloseOf(trees[0], offset), Flatten(trees[1..], offset);
    var inside := open + [trees[0].delim];
    var open1 := MapToken(KOpenDelim(trees[0].delim), trees[0].open, offset);
    assert Flatten(trees, offset) == [open1] + inner + [close] + later;
    Regroup(open1, inner, close, later);
    assert ([open1] + (inner + ([close] + later)))[1..] == inner + ([close] + later);
    MatchedAppend(inner, [close] + later, inside, inside);
    assert ([close] + later)[1..] == later && inside[..|inside| - 1] == open;
  }

  // ----- the cursor -----

  datatype Frame = Frame(rest: seq<TokenTree>, close: Option<Spanned>)

  /** What the frames still hold, the last one first. */
  function Remaining(stack: seq<Frame>, offset: int): seq<Spanned> {
    if stack == [] then []
    else
      var top, below := stack[|stack| - 1], stack[..|stack| - 1];
      Flatten(top.rest, offset) + match top.close
                                  case Some(c) => [c] + Remaining(below, offset)
                                  case None => []
  }

  /** Nodes left to visit, and frames left to leave. */
  function TreesSize(trees: seq<TokenTree>): nat {
    if trees == [] then 0
    else TreesSize(trees[1..]) + match trees[0]
                            case Leaf(_, _) => 1
                            case Delimited(_, _, _, inner) => 2 + TreesSize(inner)
  }

  function StackSize(stack: seq<Frame>): nat {
    if stack == [] then 0 else StackSize(stack[..|stack| - 1]) + 1 + TreesSize(stack[|stack| - 1].rest)
  }

  /** Only the bottom frame has no closing delimiter. */
  predicate Nested(stack: seq<Frame>) {
    forall i :: 0 <= i < |stack| ==> (stack[i].close == None <==> i == 0)
  }

  /** The stack after taking `n` trees from the top frame. */
  function Advanced(stack: seq<Frame>, n: nat): seq<Frame>
    requires stack != [] && n <= |stack[|stack| - 1].rest|
  {
    var top := stack[|stack| - 1];
    stack[..|stack| - 1] + [top.(rest := top.rest[n..])]
  }

  /** The tokens above the top frame's closing delimiter, and those from there on. */
  function Below(stack: seq<Frame>, offset: int): seq<Spanned>
    requires stack != []
  {
    match stack[|stack| - 1].close
    case Some(c) => [c] + Remaining(stack[..|stack| - 1], offset)
    case None => []
  }

  lemma AdvancedIs(stack: seq<Frame>, n: nat, ts: seq<Spanned>, offset: int)
    requires stack != [] && Nested(stack) && n <= |stack[|stack| - 1].rest|
    requires Flatten(stack[|stack| - 1].rest, offset) == ts + Flatten(stack[|stack| - 1].rest[n..], offset)
    ensures Nested(Advanced(stack, n)) && Remaining(stack, offset) == ts + Remaining(Advanced(stack, n), offset)
    ensures StackSize(Advanced(stack, n)) + TreesSize(stack[|stack| - 1].rest) ==
            StackSize(stack) + TreesSize(stack[|stack| - 1].rest[n..])
  {
    var top, stack' := stack[|stack| - 1], Advanced(stack, n);
    assert stack'[..|stack'| - 1] == stack[..|stack| - 1];
    RemainingIs(stack, offset);
    RemainingIs(stack', offset);
    Concat(ts, Flatten(top.rest[n..], offset), Below(stack, offset));
  }

  lemma RemainingIs(stack: seq<Frame>, offset: int)
    requires stack != []
    ensures Remaining(stack, offset) == Flatten(stack[|stack| - 1].rest, offset) + Below(stack, offset)
  {
  }

  lemma Concat(a: seq<Spanned>, b: seq<Spanned>, c: seq<Spanned>)
    ensures (a + b) + c == a + (b + c)
  {
  }

  lemma LeavesSize(trees: seq<TokenTree>, n: nat)
    requires 1 <= n <= 2 && n <= |trees| && trees[0].Leaf? && (n == 2 ==> trees[1].Leaf?)
    ensures TreesSize(trees[n..]) + n == TreesSize(trees)
  {
    assert n == 2 ==> trees[1..][1..] == trees[2..];
  }

  /** The stack inside a delimited tree. */
  function Entered(stack: seq<Frame>, offset: int): seq<Frame>
    requires stack != [] && stack[|stack| - 1].rest != [] && stack[|stack| - 1].rest[0].Delimited?
  {
    var tree := stack[|stack| - 1].rest[0];
    Advanced(stack, 1) + [Frame(tree.trees, Some(CloseOf(tree, offset)))]
  }

  lemma TreeEntered(stack: seq<Frame>, offset: int)
    requires stack != [] && Nested(stack) && stack[|stack| - 1].rest != [] && stack[|stack| - 1].rest[0].Delimited?
    ensures var tree := stack[|stack| - 1].rest[0];
            Remaining(stack, offset) == [MapToken(KOpenDelim(tree.delim), tree.open, offset)] +
              Remaining(Entered(stack, offset), offset)
    ensures Nested(Entered(stack, offset)) && StackSize(Entered(stack, offset)) < StackSize(stack)
  {
    var tree, stack' := stack[|stack| - 1].rest[0], Entered(stack, offset);
    var open, inner, close := MapToken(KOpenDelim(tree.delim), tree.open, offset), Flatten(tree.trees, offset),
      CloseOf(tree, offset);
    AdvancedIs(stack, 1, [open] + inner + [close], offset);
    assert stack'[..|stack'| - 1] == Advanced(stack, 1);
    Regroup(open, inner, close, Remaining(Advanced(stack, 1), offset));
  }

  lemma Regroup(a: Spanned, b: seq<Spanned>, c: Spanned, d: seq<Spanned>)
    ensures ([a] + b + [c]) + d == [a] + (b + ([c] + d))
  {
  }

  class Cursor {
    var stack: seq<Frame>
    const offset: int

    constructor (stream: seq<TokenTree>, offset: int)
      ensures Valid() && this.offset == offset && Yields() == Flatten(stream, offset)
    {
      stack := [Frame(stream, None)];
      this.offset := offset;
      new;
      assert stack[..0] == [];
    }

    predicate Valid()
      reads this
    {
      Nested(stack)
    }

    /** The tokens still to come. */
    function Yields(): seq<Spanned>
      reads this
    {
      Remaining(stack, offset)
    }

    function Measure(): nat
      reads this
    {
      StackSize(stack)
    }

    /** The next token; at the end nothing, for ever. */
    method Next() returns (r: Option<Spanned>)
      requires Valid()
      modifies this
      ensures Valid()
      ensures if old(Yields()) == [] then r == None && Yields() == []
              else r == Some(old(Yields())[0]) && Yields() == old(Yields())[1..]
      ensures old(stack) != [] ==> Measure() < old(Measure())
      ensures old(stack) == [] ==> stack == []
    {
      if stack == [] {
        return None;
      }
      var top := stack[|stack| - 1];
      if top.rest == [] {
        stack := stack[..|stack| - 1];
        return top.close;
      }
      match top.rest[0]
      case Leaf(_, _) =>
        r := NextLeaf();
      case Delimited(open, _, delim, _) =>
        TreeEntered(stack, offset);
        stack := Entered(stack, offset);
        r := Some(MapToken(KOpenDelim(delim), open, offset));
    }

    /** A single token, or an arrow of two. */
    method NextLeaf() returns (r: Option<Spanned>)
      requires Valid() && stack != [] && stack[|stack| - 1].rest != [] && stack[|stack| - 1].rest[0].Leaf?
      modifies this
      ensures Valid() && r.Some? && old(Yields()) == [r.value] + Yields() && Measure() < old(Measure())
    {
      var rest := stack[|stack| - 1].rest;
      var token := rest[0];
      if |rest| > 1 && Fuses(token, rest[1]) {
        r := Some(Spanned(token.span.lo - offset, Token.Iff, rest[1].span.hi - offset));
        AdvancedIs(stack, 2, [r.value], offset);
        LeavesSize(rest, 2);
        stack := Advanced(stack, 2);
      } else {
        r := Some(MapToken(token.kind, token.span, offset));
        AdvancedIs(stack, 1, [r.value], offset);
        LeavesSize(rest, 1);
        stack := Advanced(stack, 1);
      }
    }
  }
}
