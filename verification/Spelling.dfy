/** The text of a token stream: flattening keeps it, and fuses exactly the arrows. */
module Spelling {
  import opened Logic
  import opened Lexer

  // ----- how things are written -----

  function OpenText(d: Delim): string {
    match d
    case Paren => "("
    case Bracket => "["
    case Brace => "{"
    case NoDelim => ""
  }

  function CloseText(d: Delim): string {
    match d
    case Paren => ")"
    case Bracket => "]"
    case Brace => "}"
    case NoDelim => ""
  }

  /** The compiler's tokens, where the lexer knows them. */
  function KindText(kind: Kind): Option<string> {
    match kind
    case KLt => Some("<")
    case KLe => Some("<=")
    case KEqEq => Some("==")
    case KAndAnd => Some("&&")
    case KOrOr => Some("||")
    case KFatArrow => Some("=>")
    case KGt => Some(">")
    case KGe => Some(">=")
    case KAt => Some("@")
    case KComma => Some(",")
    case KColon => Some(":")
    case KSemi => Some(";")
    case KRArrow => Some("->")
    case KOpenDelim(d) => Some(OpenText(d))
    case KCloseDelim(d) => Some(CloseText(d))
    case KLiteral(lit) => if lit.suffix.None? then Some(lit.symbol) else None
    case KIdent(s) => Some(s)
    case KOr => Some("|")
    case KPlus => Some("+")
    case KMinus => Some("-")
    case KOther => None
  }

  /** The terminals of the grammar. */
  function TokenText(token: Token): Option<string> {
    match token
    case Caret => Some("|")
    case EqEq => Some("==")
    case AndAnd => Some("&&")
    case OrOr => Some("||")
    case Plus => Some("+")
    case Minus => Some("-")
    case Colon => Some(":")
    case Comma => Some(",")
    case Semi => Some(";")
    case RArrow => Some("->")
    case Lt => Some("<")
    case Le => Some("<=")
    case Gt => Some(">")
    case Ge => Some(">=")
    case At => Some("@")
    case Fn => Some("fn")
    case Iff => Some("<=>")
    case FatArrow => Some("=>")
    case Literal(lit) => Some(lit.symbol)
    case Ident(s) => Some(s)
    case OpenDelim(d) => Some(OpenText(d))
    case CloseDelim(d) => Some(CloseText(d))
    case Invalid => None
    case Ref => Some("ref")
  }

  /** A token is written as its kind, and is invalid exactly where the lexer does not know the kind. */
  lemma MapKindText(kind: Kind)
    ensures TokenText(MapKind(kind)) == KindText(kind)
  {
  }

  /** Words of the language are not identifiers, and booleans are literals. */
  lemma WordsApart(s: string)
    ensures MapKind(KIdent(s)).Ident? <==> s !in {"true", "false", "ref", "fn"}
    ensures MapKind(KIdent(s)).Literal? <==> s in {"true", "false"}
  {
  }

  // ----- the text of a stream -----

  function StreamText(ts: seq<Spanned>): Option<string> {
    if ts == [] then Some("")
    else
      match (TokenText(ts[0].token), StreamText(ts[1..]))
      case (Some(s), Some(rest)) => Some(s + rest)
      case _ => None
  }

  function TreesText(trees: seq<TokenTree>): Option<string> {
    if trees == [] then Some("") else Append(TreeText(trees[0]), TreesText(trees[1..]))
  }

  function TreeText(tree: TokenTree): Option<string> {
    match tree
    case Leaf(kind, _) => KindText(kind)
    case Delimited(_, _, d, inner) => Append(Some(OpenText(d)), Append(TreesText(inner), Some(CloseText(d))))
  }

  function Append(a: Option<string>, b: Option<string>): Option<string> {
    if a.Some? && b.Some? then Some(a.value + b.value) else None
  }

  lemma AppendAssoc(a: Option<string>, b: Option<string>, c: Option<string>)
    ensures Append(Append(a, b), c) == Append(a, Append(b, c))
  {
    if a.Some? && b.Some? && c.Some? {
      assert (a.value + b.value) + c.value == a.value + (b.value + c.value);
    }
  }

  lemma StreamOne(t: Spanned)
    ensures StreamText([t]) == TokenText(t.token)
  {
    if TokenText(t.token).Some? { assert TokenText(t.token).value + "" == TokenText(t.token).value; }
  }

  lemma {:induction false} StreamConcat(a: seq<Spanned>, b: seq<Spanned>)
    ensures StreamText(a + b) == Append(StreamText(a), StreamText(b))
  {
    if a == [] {
      assert a + b == b;
      if StreamText(b).Some? { assert "" + StreamText(b).value == StreamText(b).value; }
    } else {
      assert (a + b)[1..] == a[1..] + b;
      StreamConcat(a[1..], b);
      AppendAssoc(TokenText(a[0].token), StreamText(a[1..]), StreamText(b));
    }
  }

  /** Flattening keeps the text. */
  lemma {:induction false} FlattenText(trees: seq<TokenTree>, offset: int)
    ensures StreamText(Flatten(trees, offset)) == TreesText(trees)
    decreases trees
  {
    if trees != [] {
      var n := FirstCount(trees);
      FlattenFirst(trees, offset);
      FlattenText(trees[n..], offset);
      StreamConcat(FirstPiece(trees, offset), Flatten(trees[n..], offset));
      FirstText(trees, offset);
    }
  }

  lemma {:induction false} FirstText(trees: seq<TokenTree>, offset: int)
    requires trees != []
    ensures Append(StreamText(FirstPiece(trees, offset)), TreesText(trees[FirstCount(trees)..])) == TreesText(trees)
    decreases trees, 0
  {
    if trees[0].Leaf? {
      LeafText(trees, offset);
    } else {
      FlattenText(trees[0].trees, offset);
      DelimitedText(trees[0], offset);
      assert FirstPiece(trees, offset) == Enclosed(trees[0], offset);
    }
  }

  function Enclosed(tree: TokenTree, offset: int): seq<Spanned>
    requires tree.Delimited?
  {
    [MapToken(KOpenDelim(tree.delim), tree.open, offset)] + Flatten(tree.trees, offset) + [CloseOf(tree, offset)]
  }

  lemma DelimitedText(tree: TokenTree, offset: int)
    requires tree.Delimited? && StreamText(Flatten(tree.trees, offset)) == TreesText(tree.trees)
    ensures StreamText(Enclosed(tree, offset)) == TreeText(tree)
  {
    var o, c := MapToken(KOpenDelim(tree.delim), tree.open, offset), CloseOf(tree, offset);
    var inner := Flatten(tree.trees, offset);
    StreamOne(o);
    StreamOne(c);
    StreamConcat([o] + inner, [c]);
    StreamConcat([o], inner);
    AppendAssoc(Some(OpenText(tree.delim)), TreesText(tree.trees), Some(CloseText(tree.delim)));
  }

  lemma LeafText(trees: seq<TokenTree>, offset: int)
    requires trees != [] && trees[0].Leaf?
    ensures Append(StreamText(FirstPiece(trees, offset)), TreesText(trees[FirstCount(trees)..])) == TreesText(trees)
  {
    StreamOne(FirstPiece(trees, offset)[0]);
    if FirstCount(trees) == 2 {
      assert trees[1..][1..] == trees[2..];
      AppendAssoc(KindText(trees[0].kind), TreeText(trees[1]), TreesText(trees[2..]));
      assert "<=" + ">" == "<=>";
    } else {
      MapKindText(trees[0].kind);
    }
  }

  // ----- arrows -----

  /** `<=` directly followed by `>`, left as two tokens. */
  predicate ArrowAt(ts: seq<Spanned>, i: nat)
    requires i + 1 < |ts|
  {
    ts[i].token.Le? && ts[i + 1].token.Gt? && ts[i].hi == ts[i + 1].lo
  }

  predicate NoArrows(ts: seq<Spanned>) {
    forall i :: 0 <= i && i + 1 < |ts| ==> !ArrowAt(ts, i)
  }

  lemma NoArrowsConcat(a: seq<Spanned>, b: seq<Spanned>)
    requires NoArrows(a) && NoArrows(b)
    requires a != [] && b != [] ==> !(a[|a| - 1].token.Le? && b[0].token.Gt? && a[|a| - 1].hi == b[0].lo)
    ensures NoArrows(a + b)
  {
    var c := a + b;
    forall i | 0 <= i && i + 1 < |c| ensures !ArrowAt(c, i) {
      if i + 1 < |a| {
        assert !ArrowAt(a, i);
      } else if i >= |a| {
        assert !ArrowAt(b, i - |a|);
      }
    }
  }

  /** No arrow is left in two pieces ... */
  lemma {:induction false} ArrowsFused(trees: seq<TokenTree>, offset: int)
    ensures NoArrows(Flatten(trees, offset))
    decreases trees
  {
    if trees != [] {
      var n := FirstCount(trees);
      FlattenFirst(trees, offset);
      ArrowsFused(trees[n..], offset);
      PieceFused(trees, offset);
      NoArrowsConcat(FirstPiece(trees, offset), Flatten(trees[n..], offset));
    }
  }

  /** The first piece has none, and does not start one with what follows. */
  lemma {:induction false} PieceFused(trees: seq<TokenTree>, offset: int)
    requires trees != []
    ensures var a, b := FirstPiece(trees, offset), Flatten(trees[FirstCount(trees)..], offset);
            && NoArrows(a) && a != []
            && (b != [] ==> !(a[|a| - 1].token.Le? && b[0].token.Gt? && a[|a| - 1].hi == b[0].lo))
    decreases trees, 0
  {
    var rest := trees[FirstCount(trees)..];
    match trees[0]
    case Leaf(kind, _) => if rest != [] { FlattenFirst(rest, offset); }
    case Delimited(open, _, d, inner) =>
      var o, c := MapToken(KOpenDelim(d), open, offset), CloseOf(trees[0], offset);
      ArrowsFused(inner, offset);
      NoArrowsConcat([o], Flatten(inner, offset));
      NoArrowsConcat([o] + Flatten(inner, offset), [c]);
  }

  /** Trees whose spans are as long as their text. */
  predicate SpansFit(trees: seq<TokenTree>) {
    trees != [] ==> SpanFits(trees[0]) && SpansFit(trees[1..])
  }

  predicate SpanFits(tree: TokenTree) {
    match tree
    case Leaf(kind, span) => KindText(kind).Some? ==> span.hi - span.lo == |KindText(kind).value|
    case Delimited(open, close, d, inner) =>
      open.hi - open.lo == |OpenText(d)| && close.hi - close.lo == |CloseText(d)| && SpansFit(inner)
  }

  predicate TokensFit(ts: seq<Spanned>) {
    forall i :: 0 <= i < |ts| && TokenText(ts[i].token).Some? ==> ts[i].hi - ts[i].lo == |TokenText(ts[i].token).value|
  }

  lemma FitsConcat(a: seq<Spanned>, b: seq<Spanned>)
    requires TokensFit(a) && TokensFit(b)
    ensures TokensFit(a + b)
  {
  }

  /** ... and none is made of tokens that are not next to each other: every token's span is as long as its text. */
  lemma {:induction false} FlattenFits(trees: seq<TokenTree>, offset: int)
    requires SpansFit(trees)
    ensures TokensFit(Flatten(trees, offset))
    decreases trees
  {
    if trees != [] {
      var n := FirstCount(trees);
      FlattenFirst(trees, offset);
      if n == 2 { assert trees[1..][1..] == trees[2..]; }
      FlattenFits(trees[n..], offset);
      PieceFits(trees, offset);
      FitsConcat(FirstPiece(trees, offset), Flatten(trees[n..], offset));
    }
  }

  lemma {:induction false} PieceFits(trees: seq<TokenTree>, offset: int)
    requires trees != [] && SpansFit(trees)
    ensures TokensFit(FirstPiece(trees, offset))
    decreases trees, 0
  {
    match trees[0]
    case Leaf(kind, _) =>
      MapKindText(kind);
      if FirstCount(trees) == 2 { assert SpanFits(trees[1..][0]); }
    case Delimited(open, _, d, inner) =>
      var o, c := MapToken(KOpenDelim(d), open, offset), CloseOf(trees[0], offset);
      FlattenFits(inner, offset);
      FitsConcat([o], Flatten(inner, offset));
      FitsConcat([o] + Flatten(inner, offset), [c]);
  }

  // ----- places -----

  /** Where the pieces of the trees begin and end in the file. */
  function Edges(trees: seq<TokenTree>): set<(int, int)> {
    if trees == [] then {} else EdgesOf(trees[0]) + Edges(trees[1..])
  }

  function EdgesOf(tree: TokenTree): set<(int, int)> {
    match tree
    case Leaf(_, span) => {(span.lo, span.hi)}
    case Delimited(open, close, _, inner) => {(open.lo, open.hi), (close.lo, close.hi)} + Edges(inner)
  }

  /** The token begins where some piece begins and ends where some piece ends, counted from the offset. */
  predicate Placed(t: Spanned, edges: set<(int, int)>, offset: int) {
    (exists e :: e in edges && e.0 == t.lo + offset) && exists e :: e in edges && e.1 == t.hi + offset
  }

  predicate AllPlaced(ts: seq<Spanned>, edges: set<(int, int)>, offset: int) {
    forall i :: 0 <= i < |ts| ==> Placed(ts[i], edges, offset)
  }

  lemma PlacedMore(ts: seq<Spanned>, edges: set<(int, int)>, more: set<(int, int)>, offset: int)
    requires AllPlaced(ts, edges, offset) && edges <= more
    ensures AllPlaced(ts, more, offset)
  {
    forall i | 0 <= i < |ts| ensures Placed(ts[i], more, offset) {
      assert Placed(ts[i], edges, offset);
      var e0 :| e0 in edges && e0.0 == ts[i].lo + offset;
      var e1 :| e1 in edges && e1.1 == ts[i].hi + offset;
      assert e0 in more && e1 in more;
    }
  }

  lemma PlacedConcat(a: seq<Spanned>, b: seq<Spanned>, edges: set<(int, int)>, offset: int)
    requires AllPlaced(a, edges, offset) && AllPlaced(b, edges, offset)
    ensures AllPlaced(a + b, edges, offset)
  {
  }

  lemma PlacedOne(t: Spanned, span: Span, edges: set<(int, int)>, offset: int)
    requires (span.lo, span.hi) in edges && t.lo == span.lo - offset && t.hi == span.hi - offset
    ensures AllPlaced([t], edges, offset)
  {
    var e := (span.lo, span.hi);
    assert e in edges && e.0 == t.lo + offset && e.1 == t.hi + offset;
    assert Placed(t, edges, offset);
  }

  lemma {:induction false} EdgesWithin(trees: seq<TokenTree>, i: nat)
    requires i <= |trees|
    ensures Edges(trees[i..]) <= Edges(trees) && (i < |trees| ==> EdgesOf(trees[i]) <= Edges(trees))
  {
    if i == 0 {
      assert trees[0..] == trees;
    } else {
      EdgesWithin(trees[1..], i - 1);
      assert trees[1..][i - 1..] == trees[i..];
    }
  }

  /** Every token of the stream is placed. */
  lemma {:induction false} FlattenPlaced(trees: seq<TokenTree>, offset: int)
    ensures AllPlaced(Flatten(trees, offset), Edges(trees), offset)
    decreases trees
  {
    if trees != [] {
      var n, edges := FirstCount(trees), Edges(trees);
      FlattenFirst(trees, offset);
      EdgesWithin(trees, n);
      FlattenPlaced(trees[n..], offset);
      PlacedMore(Flatten(trees[n..], offset), Edges(trees[n..]), edges, offset);
      if trees[0].Leaf? {
        LeafPlaced(trees, offset);
      } else {
        FlattenPlaced(trees[0].trees, offset);
        DelimitedPlaced(trees[0], edges, offset);
        assert FirstPiece(trees, offset) == Enclosed(trees[0], offset);
      }
      PlacedConcat(FirstPiece(trees, offset), Flatten(trees[n..], offset), edges, offset);
    }
  }

  lemma LeafPlaced(trees: seq<TokenTree>, offset: int)
    requires trees != [] && trees[0].Leaf?
    ensures AllPlaced(FirstPiece(trees, offset), Edges(trees), offset)
  {
    var t, edges := FirstPiece(trees, offset)[0], Edges(trees);
    EdgesWithin(trees, 0);
    var e0 := (trees[0].span.lo, trees[0].span.hi);
    assert e0 in EdgesOf(trees[0]) && e0.0 == t.lo + offset;
    if FirstCount(trees) == 2 {
      EdgesWithin(trees, 1);
      var e1 := (trees[1].span.lo, trees[1].span.hi);
      assert e1 in EdgesOf(trees[1]) && e1.1 == t.hi + offset;
    } else {
      assert e0.1 == t.hi + offset;
    }
    assert Placed(t, edges, offset);
  }

  lemma DelimitedPlaced(tree: TokenTree, edges: set<(int, int)>, offset: int)
    requires tree.Delimited? && EdgesOf(tree) <= edges
    requires AllPlaced(Flatten(tree.trees, offset), Edges(tree.trees), offset)
    ensures AllPlaced(Enclosed(tree, offset), edges, offset)
  {
    var o, c := MapToken(KOpenDelim(tree.delim), tree.open, offset), CloseOf(tree, offset);
    var inner := Flatten(tree.trees, offset);
    PlacedOne(o, tree.open, edges, offset);
    PlacedOne(c, tree.close, edges, offset);
    PlacedMore(inner, Edges(tree.trees), edges, offset);
    PlacedConcat([o], inner, edges, offset);
    PlacedConcat([o] + inner, [c], edges, offset);
  }
}
