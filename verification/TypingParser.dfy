/** Reading annotations back, so that the rewrite can be judged by the text it writes. */
module TypingParser {
  import opened Options
  import opened ModernTyping
  import opened TypingText

  datatype Parsed = Fail | Got(e: Expr, rest: Text)

  datatype ParsedItems = NoItems | Items(es: seq<Expr>, rest: Text)

  // ---------------------------------------------------------------- the grammar

  function ParseOr(t: Text): (r: Parsed)
    ensures r.Got? ==> |r.rest| < |t|
    decreases |t|, 3
  {
    var p := ParsePostfix(t);
    if p.Fail? then Fail else OrTail(p.e, p.rest)
  }

  /** The rest of `acc | x | y`, associating to the left. */
  function OrTail(acc: Expr, t: Text): (r: Parsed)
    ensures r.Got? ==> |r.rest| <= |t|
    decreases |t|, 0
  {
    if t == [] || t[0] != Bar then Got(acc, t)
    else
      var p := ParsePostfix(t[1..]);
      if p.Fail? then Fail else OrTail(Or(acc, p.e), p.rest)
  }

  function ParsePostfix(t: Text): (r: Parsed)
    ensures r.Got? ==> |r.rest| < |t|
    decreases |t|, 2
  {
    var p := ParsePrimary(t);
    if p.Fail? then Fail else PostfixTail(p.e, p.rest)
  }

  /** The rest of `acc[...][...]`. */
  function PostfixTail(acc: Expr, t: Text): (r: Parsed)
    ensures r.Got? ==> |r.rest| <= |t|
    decreases |t|, 0
  {
    if t == [] || t[0] != LBracket then Got(acc, t)
    else
      var p := ParseSlice(t[1..]);
      if p.Fail? || !StartsWith(p.rest, RBracket) then Fail else PostfixTail(Subscript(acc, p.e), p.rest[1..])
  }

  /** Parentheses hold nothing, an expression, or a tuple. */
  function ParsePrimary(t: Text): (r: Parsed)
    ensures r.Got? ==> |r.rest| < |t|
    decreases |t|, 1
  {
    if t == [] then Fail
    else
      match t[0]
      case Ident(id) => Got(Name(id), t[1..])
      case Lit(text) => Got(Atom(text), t[1..])
      case LParen =>
        if StartsWith(t[1..], RParen) then Got(Tuple([]), t[2..])
        else
          var p := ParseSlice(t[1..]);
          if p.Fail? || !StartsWith(p.rest, RParen) then Fail else Got(p.e, p.rest[1..])
      case _ => Fail
  }

  /** What stands between brackets or parentheses: with a comma, a tuple. */
  function ParseSlice(t: Text): (r: Parsed)
    ensures r.Got? ==> |r.rest| < |t|
    decreases |t|, 4
  {
    var p := ParseOr(t);
    if p.Fail? || !StartsWith(p.rest, Comma) then p
    else
      var more := ParseItems(p.rest[1..]);
      if more.NoItems? then Fail else Got(Tuple([p.e] + more.es), more.rest)
  }

  /** The items after a comma, which may have been the last token before the closing one. */
  function ParseItems(t: Text): (r: ParsedItems)
    ensures r.Items? ==> |r.rest| <= |t|
    decreases |t|, 5
  {
    if t == [] || Closes(t[0]) then Items([], t)
    else
      var p := ParseOr(t);
      if p.Fail? then NoItems
      else if !StartsWith(p.rest, Comma) then Items([p.e], p.rest)
      else
        var more := ParseItems(p.rest[1..]);
        if more.NoItems? then NoItems else Items([p.e] + more.es, more.rest)
  }

  predicate StartsWith(t: Text, tok: Token) {
    t != [] && t[0] == tok
  }

  predicate Closes(t: Token) {
    t == RBracket || t == RParen
  }

  // ---------------------------------------------------------------- printing, then parsing

  ghost predicate Ended(t: Text) {
    t != [] && Closes(t[0])
  }

  lemma {:induction false} PostfixPrint(e: Expr, rest: Text)
    ensures ParsePostfix(Operand(e) + rest) == PostfixTail(e, rest)
    decreases e, if e.Or? then 3 else 1
  {
    match e
    case Name(id) =>
      assert ([Ident(id)] + rest)[1..] == rest;
    case Atom(text) =>
      assert ([Lit(text)] + rest)[1..] == rest;
    case Or(_, _) =>
      OrPrint(e, [RParen] + rest);
      PrintedFirst(e);
      ParenthesesPrint(e, Unparse(e), rest);
    case Tuple(elts) =>
      TuplePrint(elts, rest);
    case Subscript(v, s) =>
      SubscriptText(v, s, rest);
      PostfixPrint(v, [LBracket] + (UnparseSlice(s) + ([RBracket] + rest)));
      BracketsPrint(v, s, rest);
  }

  lemma SubscriptText(v: Expr, s: Expr, rest: Text)
    ensures Operand(Subscript(v, s)) + rest == Operand(v) + ([LBracket] + (UnparseSlice(s) + ([RBracket] + rest)))
  {
    hide Operand, UnparseSlice;
    UnfoldBrackets(v, s);
  }

  /** A parenthesised inside that is read to its end. */
  lemma ParenthesesPrint(e: Expr, inside: Text, rest: Text)
    requires inside != [] && inside[0] != RParen
    requires ParseSlice(inside + ([RParen] + rest)) == Got(e, [RParen] + rest)
    ensures ParsePostfix([LParen] + inside + [RParen] + rest) == PostfixTail(e, rest)
  {
    hide ParseSlice, PostfixTail, ParsePostfix;
    Parenthesised(inside, rest);
    ParenthesesRead([LParen] + inside + [RParen] + rest, e, rest);
  }

  lemma Parenthesised(inside: Text, rest: Text)
    requires inside != []
    ensures var t := [LParen] + inside + [RParen] + rest;
            t[0] == LParen && t[1..] == inside + ([RParen] + rest) && t[1..][0] == inside[0]
  {
  }

  lemma ParenthesesRead(t: Text, e: Expr, rest: Text)
    requires |t| > 1 && t[0] == LParen && t[1..][0] != RParen && ParseSlice(t[1..]) == Got(e, [RParen] + rest)
    ensures ParsePostfix(t) == PostfixTail(e, rest)
  {
    hide ParseSlice, PostfixTail;
    assert ([RParen] + rest)[1..] == rest;
  }

  lemma EmptyTuplePrint(rest: Text)
    ensures ParsePostfix(Unparse(Tuple([])) + rest) == PostfixTail(Tuple([]), rest)
  {
    assert UnparseItems([]) == [];
    assert Unparse(Tuple([])) == [LParen] + [] + [RParen] == [LParen, RParen];
    hide Unparse, PostfixTail;
    var t := [LParen, RParen] + rest;
    assert t[0] == LParen && t[1..][0] == RParen && t[2..] == rest;
    assert ParsePrimary(t) == Got(Tuple([]), rest);
  }

  lemma {:induction false} TuplePrint(elts: seq<Expr>, rest: Text)
    ensures ParsePostfix(Unparse(Tuple(elts)) + rest) == PostfixTail(Tuple(elts), rest)
    decreases elts, 2
  {
    if elts == [] {
      EmptyTuplePrint(rest);
    } else {
      hide Operand, ParsePostfix, ParseSlice, PostfixTail, UnparseItems;
      ArgumentsPrint(elts, [RParen] + rest);
      PrintedFirst(elts[0]);
      ItemsFirst(elts);
      ParenthesesPrint(Tuple(elts), UnparseItems(elts), rest);
    }
  }

  lemma {:induction false} BracketsPrint(v: Expr, s: Expr, rest: Text)
    ensures PostfixTail(v, [LBracket] + (UnparseSlice(s) + ([RBracket] + rest))) == PostfixTail(Subscript(v, s), rest)
    decreases s, 5
  {
    var inner := UnparseSlice(s) + ([RBracket] + rest);
    assert ([LBracket] + inner)[1..] == inner && ([RBracket] + rest)[1..] == rest;
    SlicePrint(s, [RBracket] + rest);
  }

  lemma {:induction false} OrPrint(e: Expr, rest: Text)
    requires !StartsWith(rest, LBracket)
    ensures ParseOr(Unparse(e) + rest) == OrTail(e, rest)
    decreases e, 2
  {
    if e.Or? {
      var tail := [Bar] + Operand(e.right) + rest;
      assert Unparse(e) + rest == Unparse(e.left) + tail;
      OrPrint(e.left, tail);
      assert tail[1..] == Operand(e.right) + rest;
      PostfixPrint(e.right, rest);
    } else {
      PostfixPrint(e, rest);
    }
  }

  lemma {:induction false} SlicePrint(s: Expr, end: Text)
    requires Ended(end)
    ensures ParseSlice(UnparseSlice(s) + end) == Got(s, end)
    decreases s, 4
  {
    if s.Tuple? && s.elts != [] {
      ArgumentsPrint(s.elts, end);
    } else {
      OrPrint(s, end);
    }
  }

  lemma {:induction false} ArgumentsPrint(elts: seq<Expr>, end: Text)
    requires elts != [] && Ended(end)
    ensures ParseSlice(UnparseItems(elts) + end) == Got(Tuple(elts), end)
    decreases elts, 1
  {
    hide Unparse, UnparseItems, Joined, ParseOr;
    var more := if |elts| == 1 then end else Joined(elts[1..]) + end;
    var tail := [Comma] + more;
    ArgumentsText(elts, end);
    OrPrint(elts[0], tail);
    assert tail[1..] == more;
    if |elts| > 1 {
      ItemsPrint(elts[1..], end);
    }
    ArgumentsRead(elts, UnparseItems(elts) + end, more, end);
  }

  /** The first argument, the comma and the rest make up the list. */
  lemma ArgumentsRead(elts: seq<Expr>, t: Text, more: Text, end: Text)
    requires elts != [] && ParseOr(t) == Got(elts[0], [Comma] + more) && ParseItems(more) == Items(elts[1..], end)
    ensures ParseSlice(t) == Got(Tuple(elts), end)
  {
    hide ParseOr, ParseItems;
    assert ([Comma] + more)[1..] == more && elts == [elts[0]] + elts[1..];
  }

  lemma CommaGroups(a: Text, b: Text, end: Text)
    ensures a + [Comma] + b + end == a + ([Comma] + (b + end))
    ensures a + [Comma] + end == a + ([Comma] + end)
  {
  }

  lemma ArgumentsText(elts: seq<Expr>, end: Text)
    requires elts != []
    ensures UnparseItems(elts) + end ==
            Unparse(elts[0]) + ([Comma] + (if |elts| == 1 then end else Joined(elts[1..]) + end))
  {
    hide Unparse;
    CommaGroups(Unparse(elts[0]), Joined(elts[1..]), end);
  }

  lemma {:induction false} ItemsPrint(elts: seq<Expr>, end: Text)
    requires elts != [] && Ended(end)
    ensures ParseItems(Joined(elts) + end) == Items(elts, end)
    decreases elts, 0
  {
    hide Unparse, Joined, ParseOr, ParseItems;
    var more := Joined(elts[1..]) + end;
    var tail := if |elts| == 1 then end else [Comma] + more;
    JoinedText(elts, end);
    OrPrint(elts[0], tail);
    PrintedFirst(elts[0]);
    if |elts| > 1 {
      ItemsPrint(elts[1..], end);
      ItemsRead(elts, Joined(elts) + end, more, end);
    } else {
      LastItemRead(elts, Joined(elts) + end, end);
    }
  }

  lemma ItemsRead(elts: seq<Expr>, t: Text, more: Text, end: Text)
    requires |elts| > 1 && t != [] && !Closes(t[0])
    requires ParseOr(t) == Got(elts[0], [Comma] + more) && ParseItems(more) == Items(elts[1..], end)
    ensures ParseItems(t) == Items(elts, end)
  {
    hide ParseOr;
    assert ([Comma] + more)[1..] == more && elts == [elts[0]] + elts[1..];
  }

  lemma LastItemRead(elts: seq<Expr>, t: Text, end: Text)
    requires |elts| == 1 && t != [] && !Closes(t[0]) && Ended(end) && ParseOr(t) == Got(elts[0], end)
    ensures ParseItems(t) == Items(elts, end)
  {
    hide ParseOr;
    assert elts == [elts[0]];
  }

  lemma JoinedText(elts: seq<Expr>, end: Text)
    requires elts != []
    ensures Joined(elts) + end ==
            Unparse(elts[0]) + (if |elts| == 1 then end else [Comma] + (Joined(elts[1..]) + end))
  {
    hide Unparse;
    CommaGroups(Unparse(elts[0]), Joined(elts[1..]), end);
  }

  lemma {:induction false} PrintedFirst(e: Expr)
    ensures Unparse(e) != [] && !Closes(Unparse(e)[0])
  {
    match e
    case Subscript(v, _) => PrintedFirst(v);
    case Or(l, _) => PrintedFirst(l);
    case _ =>
  }

  lemma ItemsFirst(elts: seq<Expr>)
    requires elts != [] && Unparse(elts[0]) != []
    ensures UnparseItems(elts) != [] && UnparseItems(elts)[0] == Unparse(elts[0])[0]
  {
    hide Unparse;
  }

  /** The printed form of every expression parses back to it. */
  lemma PrintThenParse(e: Expr)
    ensures ParseOr(Unparse(e)) == Got(e, [])
  {
    OrPrint(e, []);
    assert Unparse(e) + [] == Unparse(e);
  }

  // ---------------------------------------------------------------- what parses to a tree has its delimiters

  lemma MarksAfter(t: Text)
    requires t != []
    ensures Marks(t) == (if IsMark(t[0]) then 1 else 0) + Marks(t[1..])
  {
  }

  lemma {:induction false} OrNeeds(t: Text)
    requires ParseOr(t).Got?
    ensures Cost(ParseOr(t).e) + Marks(ParseOr(t).rest) <= Marks(t)
    decreases |t|, 3
  {
    PostfixNeeds(t);
    OrTailNeeds(ParsePostfix(t).e, ParsePostfix(t).rest);
  }

  lemma {:induction false} OrTailNeeds(acc: Expr, t: Text)
    requires OrTail(acc, t).Got?
    ensures Cost(OrTail(acc, t).e) + Marks(OrTail(acc, t).rest) <= Cost(acc) + Marks(t)
    decreases |t|, 0
  {
    if StartsWith(t, Bar) {
      var p := ParsePostfix(t[1..]);
      PostfixNeeds(t[1..]);
      OrTailNeeds(Or(acc, p.e), p.rest);
      MarksAfter(t);
    }
  }

  lemma {:induction false} PostfixNeeds(t: Text)
    requires ParsePostfix(t).Got?
    ensures CostOperand(ParsePostfix(t).e) + Marks(ParsePostfix(t).rest) <= Marks(t)
    decreases |t|, 2
  {
    PrimaryNeeds(t);
    PostfixTailNeeds(ParsePrimary(t).e, ParsePrimary(t).rest);
  }

  lemma {:induction false} PostfixTailNeeds(acc: Expr, t: Text)
    requires PostfixTail(acc, t).Got?
    ensures CostOperand(PostfixTail(acc, t).e) + Marks(PostfixTail(acc, t).rest) <= CostOperand(acc) + Marks(t)
    decreases |t|, 0
  {
    if StartsWith(t, LBracket) {
      var p := ParseSlice(t[1..]);
      SliceNeeds(t[1..]);
      PostfixTailNeeds(Subscript(acc, p.e), p.rest[1..]);
      MarksAfter(t);
      MarksAfter(p.rest);
    }
  }

  lemma {:induction false} PrimaryNeeds(t: Text)
    requires ParsePrimary(t).Got?
    ensures CostOperand(ParsePrimary(t).e) + Marks(ParsePrimary(t).rest) <= Marks(t)
    decreases |t|, 1
  {
    MarksAfter(t);
    if t[0] == LParen {
      if StartsWith(t[1..], RParen) {
        MarksAfter(t[1..]);
        assert t[1..][1..] == t[2..];
      } else {
        SliceNeeds(t[1..]);
        MarksAfter(ParseSlice(t[1..]).rest);
      }
    }
  }

  lemma {:induction false} SliceNeeds(t: Text)
    requires ParseSlice(t).Got?
    ensures CostSlice(ParseSlice(t).e) + Marks(ParseSlice(t).rest) <= Marks(t)
    decreases |t|, 4
  {
    var p := ParseOr(t);
    OrNeeds(t);
    if StartsWith(p.rest, Comma) {
      ItemsNeed(p.rest[1..]);
      MarksAfter(p.rest);
      CostPrepend(p.e, ParseItems(p.rest[1..]).es);
    }
  }

  lemma CostPrepend(e: Expr, es: seq<Expr>)
    ensures CostItems([e] + es) == Cost(e) + 1 + CostJoined(es)
    ensures CostJoined([e] + es) == Cost(e) + (if es == [] then 0 else 1) + CostJoined(es)
  {
    assert ([e] + es)[1..] == es;
  }

  lemma {:induction false} ItemsNeed(t: Text)
    requires ParseItems(t).Items?
    ensures CostJoined(ParseItems(t).es) + Marks(ParseItems(t).rest) <= Marks(t)
    decreases |t|, 5
  {
    if t != [] && !Closes(t[0]) {
      var p := ParseOr(t);
      OrNeeds(t);
      if StartsWith(p.rest, Comma) {
        ItemsNeed(p.rest[1..]);
        MarksAfter(p.rest);
        CostPrepend(p.e, ParseItems(p.rest[1..]).es);
      } else {
        CostPrepend(p.e, []);
        assert [p.e] + [] == [p.e];
      }
    }
  }

  // ---------------------------------------------------------------- the rewrite

  /**
    The rewrite as its users see it.  It leaves an annotation alone exactly when no old name is reachable.  The tree it
    is after stands for the same type and is not rewritten again; and the text it writes parses, completely, to that
    tree if and only if the rewrite drops no delimiter on the way.
   */
  lemma RewriteExactly(e: Expr)
    requires WellFormed(e)
    ensures Transform(e).None? <==> !HasOld(e)
    ensures Denote(Modern(e)) == Denote(e) && Transform(Modern(e)).None?
    ensures ParseOr(NewText(e)) == Got(Modern(e), []) <==> Safe(e)
  {
    TransformRemovesOld(e);
    MeaningPreserved(e);
    ModernWellFormed(e);
    TransformRemovesOld(Modern(e));
    TextIsTree(e);
    PrintThenParse(Modern(e));
    if ParseOr(NewText(e)) == Got(Modern(e), []) {
      OrNeeds(NewText(e));
    }
  }

  /** What a user can rely on: a safe rewrite gives text of the same meaning that stays as it is. */
  lemma RewriteCorrect(e: Expr)
    requires WellFormed(e) && Safe(e)
    ensures var back := ParseOr(NewText(e));
            back.Got? && back.rest == [] && Denote(back.e) == Denote(e) && Transform(back.e).None?
  {
    RewriteExactly(e);
  }

  // ---------------------------------------------------------------- what goes wrong otherwise

  /** What is left of `(l | r)[s]` once the parentheses are lost: the brackets apply to the last member only. */
  function Reread(l: Expr, r: Expr, s: Expr): Expr
    requires AllWellFormed(Args(s))
  {
    Or(l, Subscript(r, AsSlice(ModernArgs(s))))
  }

  lemma UnfoldOr(l: Expr, r: Expr)
    ensures Unparse(Or(l, r)) == Unparse(l) + [Bar] + Operand(r)
  {
  }

  lemma UnfoldBrackets(v: Expr, s: Expr)
    ensures Operand(Subscript(v, s)) == Operand(v) + [LBracket] + UnparseSlice(s) + [RBracket]
  {
  }

  lemma Regroup(a: Text, b: Text, c: Text)
    ensures a + [Bar] + (b + [LBracket] + c + [RBracket]) == a + [Bar] + b + [LBracket] + c + [RBracket]
  {
  }

  lemma RereadText(l: Expr, r: Expr, s: Expr)
    requires AllWellFormed(Args(s)) && AllSafe(Args(s)) && AnyOld(Args(s))
    requires !(|Args(s)| == 1 && GroupLike(Args(s)[0]))
    ensures NewText(Subscript(Or(l, r), s)) == Unparse(Reread(l, r, s))
  {
    hide NewText, Unparse, UnparseSlice, Operand, Safe, HasOld, GroupLike, TransformSlice, Joined;
    var args := ModernArgs(s);
    OldSubscript(Subscript(Or(l, r), s));
    GenericText(Subscript(Or(l, r), s));
    SliceTextIsTree(s);
    if |args| == 1 {
      GroupLikeMeans(Args(s)[0]);
    }
    AsSliceText(args);
    UnfoldOr(l, r);
    UnfoldBrackets(r, AsSlice(args));
    UnfoldOr(l, Subscript(r, AsSlice(args)));
    Regroup(Unparse(l), Operand(r), TransformSlice(s));
  }

  /** How deep a tree is nested. */
  function Depth(e: Expr): nat
    decreases e, 1
  {
    match e
    case Name(_) => 0
    case Atom(_) => 0
    case Subscript(v, s) => 1 + Depth(v) + Depth(s)
    case Tuple(elts) => 1 + DepthAll(elts)
    case Or(l, r) => 1 + Depth(l) + Depth(r)
  }

  function DepthAll(es: seq<Expr>): nat
    decreases es, 0
  {
    if es == [] then 0 else Depth(es[0]) + DepthAll(es[1..])
  }

  function SymbolDepth(h: Symbol): nat {
    if h.Known? then 0 else Depth(h.e)
  }

  ghost predicate Shallow(ts: set<Ty>, d: nat) {
    forall t :: t in ts && t.App? ==> SymbolDepth(t.head) < d
  }

  /** A type stands for something, and the generics it mentions at the top have smaller heads. */
  lemma {:induction false} HeadsAreSmaller(e: Expr)
    requires WellFormed(e)
    ensures Denote(e) != {} && Shallow(Denote(e), Depth(e) + if e.Subscript? || e.Or? then 0 else 1)
    decreases e, 1
  {
    match e
    case Or(l, r) =>
      HeadsAreSmaller(l);
      HeadsAreSmaller(r);
    case Subscript(v, s) =>
      if OldHead(e) == Some("Optional") || OldHead(e) == Some("Union") {
        if s.Tuple? {
          UnionHeadsAreSmaller(s.elts);
        } else {
          HeadsAreSmaller(s);
        }
      }
    case _ =>
  }

  lemma {:induction false} UnionHeadsAreSmaller(es: seq<Expr>)
    requires AllWellFormed(es)
    ensures es != [] ==> DenoteUnion(es) != {}
    ensures Shallow(DenoteUnion(es), DepthAll(es) + 1)
    decreases es, 0
  {
    if es != [] {
      HeadsAreSmaller(es[0]);
      UnionHeadsAreSmaller(es[1..]);
    }
  }

  lemma RereadDiffers(l: Expr, r: Expr, s: Expr)
    requires WellFormed(l) && AllWellFormed(Args(s))
    ensures Denote(Reread(l, r, s)) != Denote(Subscript(Or(l, r), s))
  {
    HeadsAreSmaller(l);
    GenericDenotes(Or(l, r), s);
    var t :| t in Denote(l);
    assert t in Denote(Reread(l, r, s));
  }

  /**
    A subscripted union is left alone when its arguments hold no old name; otherwise its parentheses are lost, and the
    text that replaces it stands for another type.
   */
  lemma SubscriptedUnionBreaks(l: Expr, r: Expr, s: Expr)
    requires WellFormed(l) && AllWellFormed(Args(s)) && AllSafe(Args(s))
    requires !(|Args(s)| == 1 && GroupLike(Args(s)[0]))
    ensures var e := Subscript(Or(l, r), s);
            && (Transform(e).Some? <==> AnyOld(Args(s)))
            && (Transform(e).Some? ==>
                  && ParseOr(Transform(e).value) == Got(Reread(l, r, s), [])
                  && Denote(Reread(l, r, s)) != Denote(e))
  {
    hide ParseOr, Denote, Unparse;
    var e := Subscript(Or(l, r), s);
    OldSubscript(e);
    TransformRemovesOld(e);
    if AnyOld(Args(s)) {
      RereadText(l, r, s);
      PrintThenParse(Reread(l, r, s));
      RereadDiffers(l, r, s);
    }
  }

  /** A tuple of several types loses its parentheses, and what is left does not parse as one expression. */
  lemma TupleBreaks(elts: seq<Expr>)
    requires |elts| >= 2 && AllWellFormed(elts) && Safe(elts[0]) && AnyOld(elts)
    ensures Transform(Tuple(elts)).Some?
    ensures ParseOr(Transform(Tuple(elts)).value) == Got(Modern(elts[0]), [Comma] + TransformAll(elts[1..], Comma))
  {
    hide Unparse, Safe;
    ItemsRemoveOld(elts);
    TextIsTree(elts[0]);
    var tail := [Comma] + TransformAll(elts[1..], Comma);
    assert TransformAll(elts, Comma) == Unparse(Modern(elts[0])) + tail;
    OrPrint(Modern(elts[0]), tail);
  }

  lemma {:induction false} TransformAllConcat(a: seq<Expr>, b: seq<Expr>)
    requires a != [] && b != []
    ensures TransformAll(a + b, Comma) == TransformAll(a, Comma) + [Comma] + TransformAll(b, Comma)
  {
    hide NewText;
    assert (a + b)[1..] == a[1..] + b && (a + b)[0] == a[0];
    if |a| > 1 {
      TransformAllConcat(a[1..], b);
    } else {
      assert a[1..] + b == b;
    }
  }

  /**
    Within an argument list the lost parentheses merge a tuple into its neighbours: `f[(A, List), B]` is rewritten to
    the same text as `f[A, List, B]`, which is another type.
   */
  lemma NestedTupleBreaks(f: Expr, group: seq<Expr>, others: seq<Expr>)
    requires !(f.Name? && IsOldName(f.id)) && |group| >= 2 && others != [] && AnyOld(group)
    requires AllWellFormed(group) && AllWellFormed(others)
    ensures var nested, flat := Subscript(f, Tuple([Tuple(group)] + others)), Subscript(f, Tuple(group + others));
            NewText(nested) == NewText(flat) && Denote(nested) != Denote(flat)
  {
    hide NewText, Denote, WellFormed, HasOld, AnyOld;
    NestedAndFlat(f, group, others);
    ArgumentsMerge(group, others);
    SameArgumentText(f, [Tuple(group)] + others, group + others);
    MoreArguments(f, [Tuple(group)] + others, group + others);
  }

  lemma SameArgumentText(f: Expr, a: seq<Expr>, b: seq<Expr>)
    requires WellFormed(Subscript(f, Tuple(a))) && HasOld(Subscript(f, Tuple(a))) && !(f.Name? && IsOldName(f.id))
    requires WellFormed(Subscript(f, Tuple(b))) && HasOld(Subscript(f, Tuple(b)))
    requires TransformAll(a, Comma) == TransformAll(b, Comma)
    ensures NewText(Subscript(f, Tuple(a))) == NewText(Subscript(f, Tuple(b)))
  {
    hide NewText, HasOld, WellFormed, Unparse, TransformAll;
    GenericText(Subscript(f, Tuple(a)));
    GenericText(Subscript(f, Tuple(b)));
  }

  lemma MoreArguments(f: Expr, a: seq<Expr>, b: seq<Expr>)
    requires !(f.Name? && IsOldName(f.id)) && |a| < |b|
    ensures Denote(Subscript(f, Tuple(a))) != Denote(Subscript(f, Tuple(b)))
  {
    hide Denote;
    GenericDenotes(f, Tuple(a));
    GenericDenotes(f, Tuple(b));
    assert |DenoteAll(a)| != |DenoteAll(b)|;
  }

  lemma ArgumentsMerge(group: seq<Expr>, others: seq<Expr>)
    requires group != [] && others != [] && AnyOld(group) && AllWellFormed(group)
    ensures TransformAll([Tuple(group)] + others, Comma) == TransformAll(group + others, Comma)
  {
    hide TransformAll;
    TransformAllConcat([Tuple(group)], others);
    TransformAllConcat(group, others);
    GroupText(group);
  }

  lemma NestedAndFlat(f: Expr, group: seq<Expr>, others: seq<Expr>)
    requires AnyOld(group) && AllWellFormed(group) && AllWellFormed(others) && !(f.Name? && IsOldName(f.id))
    ensures var nested, flat := Subscript(f, Tuple([Tuple(group)] + others)), Subscript(f, Tuple(group + others));
            WellFormed(nested) && WellFormed(flat) && HasOld(nested) && HasOld(flat)
  {
    var outer, all := [Tuple(group)] + others, group + others;
    var i :| 0 <= i < |group| && HasOld(group[i]);
    assert HasOld(outer[0]) && HasOld(all[i]) && WellFormed(outer[0]);
    OldSubscript(Subscript(f, Tuple(outer)));
    OldSubscript(Subscript(f, Tuple(all)));
  }

  lemma GroupText(group: seq<Expr>)
    requires AnyOld(group) && AllWellFormed(group)
    ensures TransformAll([Tuple(group)], Comma) == TransformAll(group, Comma)
  {
    var one := [Tuple(group)];
    ItemsRemoveOld(group);
    assert Transform(one[0]) == Some(TransformAll(group, Comma));
  }

  /** An empty argument list loses its parentheses and does not parse: `Tuple[()]` becomes `tuple[]`. */
  lemma EmptyArgumentsBreak(id: string)
    requires id in SIMPLE_RENAMES
    ensures var e := Subscript(Name(id), Tuple([]));
            Transform(e).Some? && ParseOr(Transform(e).value).Fail?
  {
    var head, end := Ident(SIMPLE_RENAMES[id]), [RBracket];
    assert TransformSlice(Tuple([])) == [];
    var t := [head, LBracket] + [] + end;
    assert OldHead(Subscript(Name(id), Tuple([]))) == Some(id) && Transform(Subscript(Name(id), Tuple([]))) == Some(t);
    assert t[1..][1..] == end && t[1..][0] == LBracket && t[0] == head;
    assert ParsePrimary(end).Fail?;
    assert ParsePostfix(end).Fail?;
    assert ParseOr(end).Fail?;
    assert ParseSlice(end).Fail?;
    assert PostfixTail(Name(SIMPLE_RENAMES[id]), t[1..]).Fail?;
    assert ParsePostfix(t).Fail?;
  }

  /** The text of a union with an unsafe last member. */
  lemma UnsafeText(others: Expr, l: Expr, r: Expr, s: Expr)
    requires !HasOld(others) && WellFormed(others) && AllWellFormed(Args(s)) && AllSafe(Args(s)) && AnyOld(Args(s))
    requires !(|Args(s)| == 1 && GroupLike(Args(s)[0]))
    ensures ParseOr(NewText(Or(others, Subscript(Or(l, r), s)))) == Got(JoinOr(others, Reread(l, r, s)), [])
    ensures !Safe(Or(others, Subscript(Or(l, r), s)))
  {
    var broken, reread := Subscript(Or(l, r), s), Reread(l, r, s);
    OldSubscript(broken);
    SafeSubscript(broken);
    assert !Safe(Or(others, broken)) && WellFormed(broken);
    hide ParseOr, Unparse, JoinOr, NewText, Safe, HasOld, WellFormed, Cost;
    UnionText(others, broken);
    RereadText(l, r, s);
    UnparseJoinOr(others, reread);
    PrintThenParse(JoinOr(others, reread));
  }

  /** A union of which only the right member is rewritten. */
  lemma UnionText(l: Expr, r: Expr)
    requires WellFormed(l) && WellFormed(r) && !HasOld(l) && HasOld(r)
    ensures NewText(Or(l, r)) == Unparse(l) + [Bar] + NewText(r)
  {
    TransformRemovesOld(l);
    TransformRemovesOld(r);
    NewTextNotEmpty(l);
    NewTextNotEmpty(r);
  }

  /** `(l | r)[list] | l | r[list]`: the members that make up for a lost `(l | r)[List]`. */
  function Spares(l: Expr, r: Expr): Expr {
    Or(Or(Subscript(Or(l, r), Name("list")), l), Subscript(r, Name("list")))
  }

  lemma SparesAreModern(a: string, b: string)
    requires !IsOldName(a) && !IsOldName(b)
    ensures !HasOld(Spares(Name(a), Name(b))) && WellFormed(Spares(Name(a), Name(b)))
  {
    var l, r, arg := Name(a), Name(b), Name("list");
    assert !HasOld(l) && !HasOld(arg) && !HasOld(Subscript(Or(l, r), arg)) && !HasOld(Subscript(r, arg));
    assert WellFormed(arg) && WellFormed(Subscript(Or(l, r), arg)) && WellFormed(Subscript(r, arg));
    assert WellFormed(Or(Subscript(Or(l, r), arg), l));
  }

  lemma SparesMeaning(a: string, b: string)
    requires !IsOldName(a) && !IsOldName(b)
    ensures var l, r, arg := Name(a), Name(b), Name("List");
            && AllWellFormed(Args(arg)) && ModernArgs(arg) == [Name("list")]
            && Denote(Reread(l, r, arg)) <= Denote(Spares(l, r))
            && Denote(Subscript(Or(l, r), arg)) <= Denote(Spares(l, r))
            && WellFormed(Reread(l, r, arg)) && WellFormed(Subscript(Or(l, r), arg))
  {
    var l, r, arg, list := Name(a), Name(b), Name("List"), Name("list");
    assert Args(arg)[0] == arg && HasOld(arg) && Modern(arg) == list && ModernArgs(arg) == [list];
    assert DenoteSlice(arg) == [Denote(arg)] && DenoteSlice(list) == [Denote(list)] && Denote(arg) == Denote(list);
    GenericDenotes(Or(l, r), arg);
    GenericDenotes(Or(l, r), list);
    GenericDenotes(r, list);
    assert WellFormed(list) && WellFormed(Subscript(r, list));
  }

  /**
    Why the exact condition is about the tree: an unsafe rewrite can still mean the same by accident, when the type
    that was lost and the types that appeared are members of the annotation anyway.
   */
  lemma UnsafeCanMeanTheSame(a: string, b: string)
    requires !IsOldName(a) && !IsOldName(b)
    ensures var e := Or(Spares(Name(a), Name(b)), Subscript(Or(Name(a), Name(b)), Name("List")));
            && WellFormed(e) && !Safe(e)
            && ParseOr(NewText(e)).Got? && ParseOr(NewText(e)).rest == []
            && Denote(ParseOr(NewText(e)).e) == Denote(e)
  {
    var l, r, arg := Name(a), Name(b), Name("List");
    SparesMeaning(a, b);
    assert Args(arg)[0] == arg && HasOld(arg) && Safe(arg) && !GroupLike(arg);
    hide Unparse, NewText, Safe, ParseOr, HasOld;
    SparesAreModern(a, b);
    UnsafeText(Spares(l, r), l, r, arg);
    JoinOrKeeps(Spares(l, r), Reread(l, r, arg));
    hide Spares, Reread;
  }
}
