/** The text the rewrite writes, against the tree it is after: which tokens disappear on the way? */
module TypingText {
  import opened Options
  import opened ModernTyping

  // ---------------------------------------------------------------- counting tokens

  function Count(t: Text, which: Token -> bool): nat {
    if t == [] then 0 else (if which(t[0]) then 1 else 0) + Count(t[1..], which)
  }

  lemma {:induction false} CountConcat(s: Text, t: Text, which: Token -> bool)
    ensures Count(s + t, which) == Count(s, which) + Count(t, which)
  {
    if s == [] {
      assert s + t == t;
    } else {
      assert (s + t)[1..] == s[1..] + t;
      CountConcat(s[1..], t, which);
    }
  }

  lemma CountOne(t: Token, which: Token -> bool)
    ensures Count([t], which) == if which(t) then 1 else 0
  {
    assert [t][1..] == [];
  }

  lemma CountAround(s: Text, sep: Token, t: Text, which: Token -> bool)
    ensures Count(s + [sep] + t, which) == Count(s, which) + (if which(sep) then 1 else 0) + Count(t, which)
  {
    CountConcat(s + [sep], t, which);
    CountConcat(s, [sep], which);
    CountOne(sep, which);
  }

  lemma CountEnclosed(open: Token, t: Text, close: Token, which: Token -> bool)
    ensures Count([open] + t + [close], which) ==
            (if which(open) then 1 else 0) + Count(t, which) + (if which(close) then 1 else 0)
  {
    CountConcat([open] + t, [close], which);
    CountConcat([open], t, which);
    CountOne(open, which);
    CountOne(close, which);
  }

  lemma CountBracketed(s: Text, t: Text, which: Token -> bool)
    requires !which(LBracket) && !which(RBracket)
    ensures Count(s + [LBracket] + t + [RBracket], which) == Count(s, which) + Count(t, which)
  {
    CountAround(s, LBracket, t, which);
    CountConcat(s + [LBracket] + t, [RBracket], which);
    CountOne(RBracket, which);
  }

  // ---------------------------------------------------------------- old names disappear

  predicate IsOldToken(t: Token) {
    t.Ident? && IsOldName(t.id)
  }

  /** How many tokens name an old-style type. */
  function OldTokens(t: Text): nat {
    Count(t, IsOldToken)
  }

  lemma UnparseNotEmpty(e: Expr)
    ensures Unparse(e) != []
  {
    match e
    case Or(l, r) => assert Unparse(e)[|Unparse(l)|] == Bar;
    case Subscript(v, s) => assert Unparse(e)[|Operand(v)|] == LBracket;
    case _ =>
  }

  lemma TransformAllNotEmpty(elts: seq<Expr>, sep: Token)
    requires elts != [] && NewText(elts[0]) != []
    ensures TransformAll(elts, sep) != []
  {
  }

  /** An annotation is never rewritten to nothing, so no member of a union falls back to its original. */
  lemma {:induction false} NewTextNotEmpty(e: Expr)
    requires WellFormed(e)
    ensures NewText(e) != [] && MemberText(e) == NewText(e)
  {
    UnparseNotEmpty(e);
    if e.Tuple? && AnyChanges(e.elts) {
      NewTextNotEmpty(e.elts[0]);
      TransformAllNotEmpty(e.elts, Comma);
    } else if OldHead(e) == Some("Union") {
      var s := e.slice;
      if s.Tuple? {
        NewTextNotEmpty(s.elts[0]);
        TransformAllNotEmpty(s.elts, Bar);
      } else {
        NewTextNotEmpty(s);
      }
    }
  }

  /** `Union[()]`, which typing refuses, does: within a union it is reported as rewritten and stays as it was. */
  lemma EmptyUnionStays(x: Expr)
    requires Transform(x).None? && !x.Or?
    ensures var e := Or(Subscript(Name("Union"), Tuple([])), x);
            !WellFormed(e) && HasOld(e) && Transform(e) == Some(Unparse(e))
  {
    var none: seq<Expr> := [];
    var l := Subscript(Name("Union"), Tuple(none));
    assert OldHead(l) == Some("Union") != Some("Optional");
    assert TransformAll(none, Bar) == [] && l.slice.Tuple? && l.slice.elts == none;
    assert Transform(l) == Some(TransformAll(l.slice.elts, Bar));
    assert MemberText(l) == Unparse(l);
    assert MemberText(x) == Unparse(x) == Operand(x);
  }

  /** Every rewrite removes old names, so a rewritten text is never the text it came from. */
  lemma {:induction false} TransformRemovesOld(e: Expr)
    requires WellFormed(e)
    ensures Transform(e).Some? <==> HasOld(e)
    ensures Transform(e).Some? ==> OldTokens(Transform(e).value) < OldTokens(Unparse(e))
    decreases e, 1
  {
    match e
    case Name(id) =>
      CountOne(Ident(id), IsOldToken);
      if id in SIMPLE_RENAMES {
        CountOne(Ident(SIMPLE_RENAMES[id]), IsOldToken);
      }
    case Atom(_) =>
    case Tuple(elts) =>
      ItemsRemoveOld(elts);
      CountEnclosed(LParen, UnparseItems(elts), RParen, IsOldToken);
      ItemsTokens(elts);
    case Or(l, r) =>
      TransformRemovesOld(l);
      TransformRemovesOld(r);
      NewTextNotEmpty(l);
      NewTextNotEmpty(r);
      CountAround(NewText(l), Bar, NewText(r), IsOldToken);
      CountAround(Unparse(l), Bar, Operand(r), IsOldToken);
      CountEnclosed(LParen, Unparse(r), RParen, IsOldToken);
    case Subscript(v, s) =>
      SubscriptRemovesOld(e);
  }

  lemma ItemsTokens(elts: seq<Expr>)
    ensures OldTokens(UnparseItems(elts)) == OldTokens(Joined(elts))
  {
    if |elts| == 1 {
      CountConcat(Unparse(elts[0]), [Comma], IsOldToken);
      CountOne(Comma, IsOldToken);
    }
  }

  lemma {:induction false} SubscriptRemovesOld(e: Expr)
    requires WellFormed(e) && e.Subscript?
    ensures Transform(e).Some? <==> HasOld(e)
    ensures Transform(e).Some? ==> OldTokens(Transform(e).value) < OldTokens(Unparse(e))
    decreases e, 0
  {
    hide TransformAll, NewText, TransformSlice, UnparseItems, Joined, Count, UnparseSlice;
    var v, s := e.value, e.slice;
    SliceRemovesOld(s);
    CountBracketed(Operand(v), UnparseSlice(s), IsOldToken);
    CountBracketed(Unparse(v), TransformSlice(s), IsOldToken);
    CountEnclosed(LParen, Unparse(v), RParen, IsOldToken);
    OldSubscript(e);
    if OldHead(e).Some? {
      HeadReplaced(e);
    }
  }

  /** The part of the count that the head of a subscript is responsible for. */
  lemma HeadReplaced(e: Expr)
    requires OldHead(e).Some?
    ensures OldTokens(Operand(e.value)) == 1
    ensures OldTokens(Transform(e).value) == OldTokens(TransformSlice(e.slice))
  {
    hide TransformAll, NewText, TransformSlice, Count;
    var v, s := e.value, e.slice;
    CountOne(Ident(v.id), IsOldToken);
    if OldHead(e) == Some("Optional") {
      OptionalTokens(TransformSlice(s));
    } else if OldHead(e) == Some("Union") {
      UnionTokens(s);
    } else {
      var head := [Ident(SIMPLE_RENAMES[v.id])];
      CountBracketed(head, TransformSlice(s), IsOldToken);
      CountOne(Ident(SIMPLE_RENAMES[v.id]), IsOldToken);
      assert [Ident(SIMPLE_RENAMES[v.id]), LBracket] == head + [LBracket];
    }
  }

  lemma OptionalTokens(t: Text)
    ensures OldTokens(t + [Bar, Lit("None")]) == OldTokens(t)
    ensures t + [Bar, Lit("None")] == t + [Bar] + [Lit("None")]
  {
    CountAround(t, Bar, [Lit("None")], IsOldToken);
    CountOne(Lit("None"), IsOldToken);
    assert t + [Bar, Lit("None")] == t + [Bar] + [Lit("None")];
  }

  lemma UnionTokens(s: Expr)
    ensures OldTokens(if s.Tuple? then TransformAll(s.elts, Bar) else NewText(s)) == OldTokens(TransformSlice(s))
  {
    if s.Tuple? {
      SeparatorsDoNotCount(s.elts);
    }
  }

  lemma {:induction false} SeparatorsDoNotCount(elts: seq<Expr>)
    ensures OldTokens(TransformAll(elts, Bar)) == OldTokens(TransformAll(elts, Comma))
  {
    if |elts| > 1 {
      SeparatorsDoNotCount(elts[1..]);
      CountAround(NewText(elts[0]), Bar, TransformAll(elts[1..], Bar), IsOldToken);
      CountAround(NewText(elts[0]), Comma, TransformAll(elts[1..], Comma), IsOldToken);
    }
  }

  lemma {:induction false} SliceRemovesOld(s: Expr)
    requires AllWellFormed(Args(s))
    ensures OldTokens(UnparseSlice(s)) == OldTokens(SliceText(s))
    ensures if AnyOld(Args(s)) then OldTokens(TransformSlice(s)) < OldTokens(SliceText(s))
            else TransformSlice(s) == SliceText(s)
    decreases s, 2
  {
    if s.Tuple? {
      ItemsRemoveOld(s.elts);
      ItemsTokens(s.elts);
      CountEnclosed(LParen, [], RParen, IsOldToken);
    } else {
      assert [s][0] == s == Args(s)[0];
      TransformRemovesOld(s);
    }
  }

  lemma {:induction false} ItemsRemoveOld(elts: seq<Expr>)
    requires AllWellFormed(elts)
    ensures AnyChanges(elts) <==> AnyOld(elts)
    ensures if AnyOld(elts) then OldTokens(TransformAll(elts, Comma)) < OldTokens(Joined(elts))
            else TransformAll(elts, Comma) == Joined(elts)
    decreases elts, 0
  {
    if elts != [] {
      TransformRemovesOld(elts[0]);
      ItemsRemoveOld(elts[1..]);
      CountAround(NewText(elts[0]), Comma, TransformAll(elts[1..], Comma), IsOldToken);
      CountAround(Unparse(elts[0]), Comma, Joined(elts[1..]), IsOldToken);
      AnyOldSplit(elts);
    }
  }

  lemma AnyOldSplit(es: seq<Expr>)
    requires es != []
    ensures AnyOld(es) <==> HasOld(es[0]) || AnyOld(es[1..])
  {
    assert forall i :: 1 <= i < |es| ==> es[i] == es[1..][i - 1];
  }

  /** The old names the rewrite does not reach: bare Optional and Union, and those in subscripted expressions. */
  function OutOfReach(e: Expr): nat
    decreases e, 1
  {
    match e
    case Name(id) => if id == "Optional" || id == "Union" then 1 else 0
    case Atom(_) => 0
    case Subscript(v, s) =>
      (if OldHead(e).Some? then 0 else OldTokens(Unparse(v)))
      + (if s.Tuple? then AllOutOfReach(s.elts) else OutOfReach(s))
    case Tuple(elts) => AllOutOfReach(elts)
    case Or(l, r) => OutOfReach(l) + OutOfReach(r)
  }

  function AllOutOfReach(es: seq<Expr>): nat
    decreases es, 0
  {
    if es == [] then 0 else OutOfReach(es[0]) + AllOutOfReach(es[1..])
  }

  /** Every old name within reach is rewritten: afterwards the text has those out of reach and no others. */
  lemma {:induction false} OnlyOutOfReachLeft(e: Expr)
    requires WellFormed(e)
    ensures OldTokens(NewText(e)) == OutOfReach(e)
    decreases e, 1
  {
    match e
    case Name(id) =>
      CountOne(Ident(id), IsOldToken);
      if id in SIMPLE_RENAMES {
        CountOne(Ident(SIMPLE_RENAMES[id]), IsOldToken);
      }
    case Atom(text) =>
      CountOne(Lit(text), IsOldToken);
    case Tuple(elts) =>
      ItemsLeft(elts);
      ItemsRemoveOld(elts);
      ItemsTokens(elts);
      CountEnclosed(LParen, UnparseItems(elts), RParen, IsOldToken);
    case Or(l, r) =>
      OnlyOutOfReachLeft(l);
      OnlyOutOfReachLeft(r);
      UnionLeft(l, r);
    case Subscript(v, s) =>
      if s.Tuple? {
        ItemsLeft(s.elts);
      } else {
        OnlyOutOfReachLeft(s);
      }
      SubscriptLeft(e);
  }

  lemma UnionLeft(l: Expr, r: Expr)
    requires WellFormed(l) && WellFormed(r)
    ensures OldTokens(NewText(Or(l, r))) == OldTokens(NewText(l)) + OldTokens(NewText(r))
  {
    NewTextNotEmpty(l);
    NewTextNotEmpty(r);
    CountAround(NewText(l), Bar, NewText(r), IsOldToken);
    CountAround(Unparse(l), Bar, Operand(r), IsOldToken);
    CountEnclosed(LParen, Unparse(r), RParen, IsOldToken);
  }

  lemma SubscriptLeft(e: Expr)
    requires WellFormed(e) && e.Subscript?
    ensures OldTokens(NewText(e)) ==
            (if OldHead(e).Some? then 0 else OldTokens(Unparse(e.value))) + OldTokens(TransformSlice(e.slice))
  {
    hide TransformAll, TransformSlice, UnparseItems, Joined, Count, UnparseSlice;
    var v, s := e.value, e.slice;
    SliceRemovesOld(s);
    if OldHead(e).Some? {
      HeadReplaced(e);
    } else {
      CountBracketed(Operand(v), UnparseSlice(s), IsOldToken);
      CountBracketed(Unparse(v), TransformSlice(s), IsOldToken);
      CountEnclosed(LParen, Unparse(v), RParen, IsOldToken);
    }
  }

  lemma {:induction false} ItemsLeft(es: seq<Expr>)
    requires AllWellFormed(es)
    ensures OldTokens(TransformAll(es, Comma)) == AllOutOfReach(es)
    decreases es, 0
  {
    if es != [] {
      OnlyOutOfReachLeft(es[0]);
      ItemsLeft(es[1..]);
      CountAround(NewText(es[0]), Comma, TransformAll(es[1..], Comma), IsOldToken);
    }
  }

  // ---------------------------------------------------------------- the text is the tree's

  predicate IsMark(t: Token) {
    t == LParen || t == Comma
  }

  /** How many opening parentheses and commas a text has. */
  function Marks(t: Text): nat {
    Count(t, IsMark)
  }

  /** The marks in the printed form of a tree; no text with fewer parses to it. */
  function Cost(e: Expr): nat
    decreases e, 1
  {
    match e
    case Name(_) => 0
    case Atom(_) => 0
    case Subscript(v, s) => CostOperand(v) + CostSlice(s)
    case Tuple(elts) => 1 + CostItems(elts)
    case Or(l, r) => Cost(l) + CostOperand(r)
  }

  function CostOperand(e: Expr): nat
    decreases e, 2
  {
    if e.Or? then 1 + Cost(e) else Cost(e)
  }

  function CostSlice(s: Expr): nat
    decreases s, 2
  {
    if s.Tuple? && s.elts != [] then CostItems(s.elts) else Cost(s)
  }

  function CostItems(elts: seq<Expr>): nat
    decreases elts, 1
  {
    if |elts| == 1 then Cost(elts[0]) + 1 else CostJoined(elts)
  }

  function CostJoined(elts: seq<Expr>): nat
    decreases elts, 0
  {
    if elts == [] then 0
    else if |elts| == 1 then Cost(elts[0])
    else Cost(elts[0]) + 1 + CostJoined(elts[1..])
  }

  lemma {:induction false} UnparseCost(e: Expr)
    ensures Marks(Unparse(e)) == Cost(e)
    decreases e, 1
  {
    match e
    case Name(id) => CountOne(Ident(id), IsMark);
    case Atom(text) => CountOne(Lit(text), IsMark);
    case Subscript(v, s) =>
      OperandCost(v);
      SliceCost(s);
      CountBracketed(Operand(v), UnparseSlice(s), IsMark);
    case Tuple(elts) =>
      ItemsCost(elts);
      CountEnclosed(LParen, UnparseItems(elts), RParen, IsMark);
    case Or(l, r) =>
      UnparseCost(l);
      OperandCost(r);
      CountAround(Unparse(l), Bar, Operand(r), IsMark);
  }

  lemma {:induction false} OperandCost(e: Expr)
    ensures Marks(Operand(e)) == CostOperand(e)
    decreases e, 2
  {
    UnparseCost(e);
    CountEnclosed(LParen, Unparse(e), RParen, IsMark);
  }

  lemma {:induction false} SliceCost(s: Expr)
    ensures Marks(UnparseSlice(s)) == CostSlice(s)
    decreases s, 2
  {
    if s.Tuple? && s.elts != [] {
      ItemsCost(s.elts);
    } else {
      UnparseCost(s);
    }
  }

  lemma {:induction false} ItemsCost(elts: seq<Expr>)
    ensures Marks(UnparseItems(elts)) == CostItems(elts) && Marks(Joined(elts)) == CostJoined(elts)
    decreases elts, 0
  {
    if elts != [] {
      UnparseCost(elts[0]);
      CountConcat(Unparse(elts[0]), [Comma], IsMark);
      CountOne(Comma, IsMark);
      if |elts| > 1 {
        ItemsCost(elts[1..]);
        CountAround(Unparse(elts[0]), Comma, Joined(elts[1..]), IsMark);
      }
    }
  }

  lemma {:induction false} UnparseJoinOr(a: Expr, b: Expr)
    ensures Unparse(JoinOr(a, b)) == Unparse(a) + [Bar] + Unparse(b)
    ensures Cost(JoinOr(a, b)) == Cost(a) + Cost(b)
    decreases b
  {
    if b.Or? {
      UnparseJoinOr(a, b.left);
    }
  }

  /** The text is the tree's printed form, or is short of marks. */
  ghost predicate Renders(text: Text, printed: Text, cost: nat, safe: bool) {
    if safe then text == printed && Marks(text) == cost else Marks(text) < cost
  }

  lemma RendersJoin(a: Text, pa: Text, ca: nat, x: bool, sep: Token, b: Text, pb: Text, cb: nat, y: bool)
    requires Renders(a, pa, ca, x) && Renders(b, pb, cb, y)
    ensures Renders(a + [sep] + b, pa + [sep] + pb, ca + (if IsMark(sep) then 1 else 0) + cb, x && y)
  {
    CountAround(a, sep, b, IsMark);
  }

  /**
    The rewritten text, glued together from pieces, is the printed form of the rewritten tree if and only if no
    delimiter is dropped; otherwise it has too few delimiters for that tree.
   */
  lemma {:induction false} TextIsTree(e: Expr)
    requires WellFormed(e)
    ensures Renders(NewText(e), Unparse(Modern(e)), Cost(Modern(e)), Safe(e))
    decreases e, 1
  {
    TransformRemovesOld(e);
    UnparseCost(Modern(e));
    if HasOld(e) {
      match e
      case Name(_) =>
      case Tuple(elts) =>
        ItemsTextIsTree(elts);
      case Or(l, r) =>
        TextIsTree(l);
        TextIsTree(r);
        UnparseJoinOr(Modern(l), Modern(r));
        NewTextNotEmpty(l);
        NewTextNotEmpty(r);
        RendersJoin(NewText(l), Unparse(Modern(l)), Cost(Modern(l)), Safe(l), Bar,
                    NewText(r), Unparse(Modern(r)), Cost(Modern(r)), Safe(r));
      case Subscript(v, s) =>
        SubscriptTextIsTree(e);
    }
  }

  lemma {:induction false} ItemsTextIsTree(elts: seq<Expr>)
    requires elts != [] && AllWellFormed(elts)
    ensures Renders(TransformAll(elts, Comma), Joined(ModernAll(elts)), CostJoined(ModernAll(elts)), AllSafe(elts))
    ensures Renders(TransformAll(elts, Bar), Unparse(JoinAll(ModernAll(elts))), Cost(JoinAll(ModernAll(elts))),
                    AllSafe(elts))
    decreases elts, 0
  {
    hide Renders, Unparse, Cost, Safe, Modern;
    TextIsTree(elts[0]);
    var ms := ModernAll(elts);
    if |elts| > 1 {
      var rest := ModernAll(elts[1..]);
      ItemsTextIsTree(elts[1..]);
      assert ms[1..] == rest;
      UnparseJoinOr(ms[0], JoinAll(rest));
      RendersJoin(NewText(elts[0]), Unparse(ms[0]), Cost(ms[0]), Safe(elts[0]), Comma,
                  TransformAll(elts[1..], Comma), Joined(rest), CostJoined(rest), AllSafe(elts[1..]));
      RendersJoin(NewText(elts[0]), Unparse(ms[0]), Cost(ms[0]), Safe(elts[0]), Bar,
                  TransformAll(elts[1..], Bar), Unparse(JoinAll(rest)), Cost(JoinAll(rest)), AllSafe(elts[1..]));
      assert AllSafe(elts) <==> Safe(elts[0]) && AllSafe(elts[1..]) by {
        assert forall i :: 1 <= i < |elts| ==> elts[i] == elts[1..][i - 1];
      }
    }
  }

  lemma {:induction false} SliceTextIsTree(s: Expr)
    requires AllWellFormed(Args(s))
    ensures Args(s) != [] ==>
              Renders(TransformSlice(s), Joined(ModernArgs(s)), CostJoined(ModernArgs(s)), AllSafe(Args(s)))
    ensures Args(s) != [] ==>
              Renders(if s.Tuple? then TransformAll(s.elts, Bar) else NewText(s), Unparse(JoinAll(ModernArgs(s))),
                      Cost(JoinAll(ModernArgs(s))), AllSafe(Args(s)))
    ensures Args(s) == [] ==> TransformSlice(s) == []
    decreases s, 2
  {
    if s.Tuple? {
      if s.elts != [] {
        ItemsTextIsTree(s.elts);
      }
    } else {
      assert s == Args(s)[0];
      TextIsTree(s);
    }
  }

  /** The arguments' marks as printed in brackets, against their marks side by side. */
  lemma AsSliceCost(args: seq<Expr>)
    ensures CostSlice(AsSlice(args)) ==
            if args == [] then 1 else CostJoined(args) + if |args| == 1 && args[0].Tuple? then 1 else 0
  {
    if args == [] {
      assert CostItems([]) == 0;
    }
  }

  lemma AsSliceText(args: seq<Expr>)
    requires args != [] && !(|args| == 1 && args[0].Tuple?)
    ensures UnparseSlice(AsSlice(args)) == Joined(args)
  {
    hide Unparse;
  }

  lemma {:induction false} SubscriptTextIsTree(e: Expr)
    requires WellFormed(e) && e.Subscript? && HasOld(e)
    ensures Renders(NewText(e), Unparse(Modern(e)), Cost(Modern(e)), Safe(e))
    decreases e, 0
  {
    hide Renders, Unparse, Cost, TransformAll, TransformSlice, Joined, CostJoined, JoinAll, JoinOr;
    var v, s := e.value, e.slice;
    var args, safe := ModernArgs(s), AllSafe(Args(s));
    SliceTextIsTree(s);
    TransformRemovesOld(e);
    SafeSubscript(e);
    ModernSubscript(e);
    if OldHead(e) == Some("Optional") {
      assert args == [args[0]];
      OptionalTextIsTree(TransformSlice(s), args[0], safe);
    } else if OldHead(e) != Some("Union") {
      GenericText(e);
      GenericTextIsTree(e, TransformSlice(s), args);
    }
  }

  lemma GenericText(e: Expr)
    requires WellFormed(e) && e.Subscript? && HasOld(e) && OldHead(e) != Some("Optional") && OldHead(e) != Some("Union")
    ensures NewText(e) == HeadText(e) + [LBracket] + TransformSlice(e.slice) + [RBracket]
  {
    hide TransformSlice, HasOld;
    TransformRemovesOld(e);
    if OldHead(e).Some? {
      var head := Ident(SIMPLE_RENAMES[e.value.id]);
      assert [head, LBracket] == [head] + [LBracket];
    }
  }

  lemma SafeSubscript(e: Expr)
    requires e.Subscript? && HasOld(e)
    ensures Safe(e) <==> Delimited(e) && AllSafe(Args(e.slice))
  {
    assert [e.slice][0] == e.slice;
  }

  lemma OptionalTextIsTree(text: Text, arg: Expr, safe: bool)
    requires Renders(text, Joined([arg]), CostJoined([arg]), safe)
    ensures var tree := JoinOr(arg, Atom("None"));
            Renders(text + [Bar, Lit("None")], Unparse(tree), Cost(tree), safe)
  {
    UnparseJoinOr(arg, Atom("None"));
    OptionalTokens(text);
    CountOne(Lit("None"), IsMark);
    RendersJoin(text, Unparse(arg), Cost(arg), safe, Bar, [Lit("None")], [Lit("None")], 0, true);
  }

  /** A generic keeps its meaning in brackets exactly when head and arguments need no delimiter that was left out. */
  lemma GenericTextIsTree(e: Expr, text: Text, args: seq<Expr>)
    requires e.Subscript? && OldHead(e) != Some("Optional") && OldHead(e) != Some("Union")
    requires AllWellFormed(Args(e.slice)) && args == ModernArgs(e.slice)
    requires if args == [] then text == []
             else Renders(text, Joined(args), CostJoined(args), AllSafe(Args(e.slice)))
    ensures var tree := Subscript(NewHead(e), AsSlice(args));
            Renders(HeadText(e) + [LBracket] + text + [RBracket], Unparse(tree), Cost(tree),
                    Delimited(e) && AllSafe(Args(e.slice)))
  {
    var head := NewHead(e);
    if |args| == 1 {
      GroupLikeMeans(Args(e.slice)[0]);
    }
    AsSliceCost(args);
    if Delimited(e) {
      AsSliceText(args);
    }
    HeadMarks(e);
    CountBracketed(HeadText(e), text, IsMark);
  }

  /** The head of a rewritten generic, which is printed without the parentheses a union would need. */
  function HeadText(e: Expr): Text
    requires e.Subscript? && OldHead(e) != Some("Optional") && OldHead(e) != Some("Union")
  {
    Unparse(NewHead(e))
  }

  lemma HeadMarks(e: Expr)
    requires e.Subscript? && OldHead(e) != Some("Optional") && OldHead(e) != Some("Union")
    ensures Marks(HeadText(e)) == Cost(NewHead(e))
    ensures NewHead(e).Or? <==> OldHead(e).None? && e.value.Or?
  {
    UnparseCost(NewHead(e));
  }
}
