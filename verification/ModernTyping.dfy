/** Rewriting old-style annotations (`Optional[X]`, `Dict[K, V]`, ...) to the modern syntax: a small compiler pass. */
module ModernTyping {
  import opened Options

  /** Annotation expressions.  `Atom` is any other expression that prints as one unit, such as `None`. */
  datatype Expr =
    | Name(id: string)
    | Atom(text: string)
    | Subscript(value: Expr, slice: Expr)
    | Tuple(elts: seq<Expr>)
    | Or(left: Expr, right: Expr)

  datatype Token = Ident(id: string) | Lit(text: string) | LBracket | RBracket | LParen | RParen | Bar | Comma

  type Text = seq<Token>

  const SIMPLE_RENAMES: map<string, string> :=
    map["Dict" := "dict", "List" := "list", "Tuple" := "tuple",
        "Set" := "set", "FrozenSet" := "frozenset", "Type" := "type"]

  predicate IsOldName(id: string) {
    id in SIMPLE_RENAMES || id == "Optional" || id == "Union"
  }

  // ---------------------------------------------------------------- printing

  /** ast.unparse for these expressions. */
  function Unparse(e: Expr): Text
    decreases e, 1
  {
    match e
    case Name(id) => [Ident(id)]
    case Atom(text) => [Lit(text)]
    case Subscript(v, s) => Operand(v) + [LBracket] + UnparseSlice(s) + [RBracket]
    case Tuple(elts) => [LParen] + UnparseItems(elts) + [RParen]
    case Or(l, r) => Unparse(l) + [Bar] + Operand(r)
  }

  /** An operand that binds tighter than `|`. */
  function Operand(e: Expr): Text
    decreases e, 2
  {
    if e.Or? then [LParen] + Unparse(e) + [RParen] else Unparse(e)
  }

  function UnparseSlice(s: Expr): Text
    decreases s, 2
  {
    if s.Tuple? && s.elts != [] then UnparseItems(s.elts) else Unparse(s)
  }

  /** The items of a tuple; a single one keeps its trailing comma. */
  function UnparseItems(elts: seq<Expr>): Text
    decreases elts, 1
  {
    if |elts| == 1 then Unparse(elts[0]) + [Comma] else Joined(elts)
  }

  function Joined(elts: seq<Expr>): Text
    decreases elts, 0
  {
    if elts == [] then []
    else if |elts| == 1 then Unparse(elts[0])
    else Unparse(elts[0]) + [Comma] + Joined(elts[1..])
  }

  /** _slice_text: the inside of the brackets, without the trailing comma. */
  function SliceText(s: Expr): Text {
    if s.Tuple? then Joined(s.elts) else Unparse(s)
  }

  // ---------------------------------------------------------------- the rewrite, as text

  function OldHead(e: Expr): Option<string> {
    if e.Subscript? && e.value.Name? && IsOldName(e.value.id) then Some(e.value.id) else None
  }

  function Transform(e: Expr): Option<Text>
    decreases e, 3
  {
    match e
    case Subscript(v, s) =>
      if OldHead(e) == Some("Optional") then Some(TransformSlice(s) + [Bar, Lit("None")])
      else if OldHead(e) == Some("Union") then
        if s.Tuple? then Some(TransformAll(s.elts, Bar)) else Some(NewText(s))
      else if OldHead(e).Some? then
        Some([Ident(SIMPLE_RENAMES[v.id]), LBracket] + TransformSlice(s) + [RBracket])
      else if TransformSlice(s) != SliceText(s) then Some(Unparse(v) + [LBracket] + TransformSlice(s) + [RBracket])
      else None
    case Tuple(elts) => if AnyChanges(elts) then Some(TransformAll(elts, Comma)) else None
    case Or(l, r) =>
      if Transform(l).Some? || Transform(r).Some? then Some(MemberText(l) + [Bar] + MemberText(r)) else None
    case Name(id) => if id in SIMPLE_RENAMES then Some([Ident(SIMPLE_RENAMES[id])]) else None
    case Atom(_) => None
  }

  /** The rewritten text, or the original when nothing changed. */
  function NewText(e: Expr): Text
    decreases e, 4
  {
    var t := Transform(e);
    if t.Some? then t.value else Unparse(e)
  }

  /** `new or original`: a member of a union that was rewritten to nothing is left as it was. */
  function MemberText(e: Expr): Text
    decreases e, 4
  {
    var t := Transform(e);
    if t.Some? && t.value != [] then t.value else Unparse(e)
  }

  function TransformSlice(s: Expr): Text
    decreases s, 5
  {
    if s.Tuple? then TransformAll(s.elts, Comma) else NewText(s)
  }

  function TransformAll(elts: seq<Expr>, sep: Token): Text
    decreases elts, 0
  {
    if elts == [] then []
    else if |elts| == 1 then NewText(elts[0])
    else NewText(elts[0]) + [sep] + TransformAll(elts[1..], sep)
  }

  predicate AnyChanges(elts: seq<Expr>)
    decreases elts, 0
  {
    elts != [] && (Transform(elts[0]).Some? || AnyChanges(elts[1..]))
  }

  // ---------------------------------------------------------------- annotations

  function Args(s: Expr): seq<Expr> {
    if s.Tuple? then s.elts else [s]
  }

  /** What typing accepts: Optional takes one argument and Union at least one. */
  predicate WellFormed(e: Expr)
    decreases e
  {
    match e
    case Name(_) => true
    case Atom(_) => true
    case Subscript(_, s) =>
      && (OldHead(e) == Some("Optional") ==> |Args(s)| == 1)
      && (OldHead(e) == Some("Union") ==> Args(s) != [])
      && (if s.Tuple? then forall i :: 0 <= i < |s.elts| ==> WellFormed(s.elts[i]) else WellFormed(s))
    case Tuple(elts) => forall i :: 0 <= i < |elts| ==> WellFormed(elts[i])
    case Or(l, r) => WellFormed(l) && WellFormed(r)
  }

  ghost predicate AllWellFormed(es: seq<Expr>) {
    forall i :: 0 <= i < |es| ==> WellFormed(es[i])
  }

  /** An old name the rewrite reaches: at the head of a subscript or bare, but not within a subscripted expression. */
  predicate HasOld(e: Expr)
    decreases e
  {
    match e
    case Name(id) => id in SIMPLE_RENAMES
    case Atom(_) => false
    case Subscript(_, s) =>
      || OldHead(e).Some?
      || (if s.Tuple? then exists i :: 0 <= i < |s.elts| && HasOld(s.elts[i]) else HasOld(s))
    case Tuple(elts) => exists i :: 0 <= i < |elts| && HasOld(elts[i])
    case Or(l, r) => HasOld(l) || HasOld(r)
  }

  predicate AnyOld(es: seq<Expr>) {
    exists i :: 0 <= i < |es| && HasOld(es[i])
  }

  /** A parenthesised tuple, or a union of nothing but one: alone in brackets it would read as several arguments. */
  predicate GroupLike(e: Expr)
    decreases e
  {
    match e
    case Tuple(_) => true
    case Subscript(_, s) =>
      && OldHead(e) == Some("Union")
      && (if s.Tuple? then |s.elts| == 1 && GroupLike(s.elts[0]) else GroupLike(s))
    case _ => false
  }

  /** Whether the head and the argument list of a rewritten generic need nothing that the rewrite leaves out. */
  predicate Delimited(e: Expr)
    requires e.Subscript?
  {
    || OldHead(e) == Some("Optional")
    || OldHead(e) == Some("Union")
    || ((OldHead(e).None? ==> !e.value.Or?)
        && Args(e.slice) != []
        && !(|Args(e.slice)| == 1 && GroupLike(Args(e.slice)[0])))
  }

  /**
    No branch that drops a delimiter is taken: where something is rewritten there is no tuple around it and no
    subscripted union in front of it, and its argument list is neither empty nor a single parenthesised tuple.
   */
  predicate Safe(e: Expr)
    decreases e
  {
    HasOld(e) ==>
      match e
      case Name(_) => true
      case Subscript(_, s) =>
        && Delimited(e)
        && (if s.Tuple? then forall i :: 0 <= i < |s.elts| ==> Safe(s.elts[i]) else Safe(s))
      case Or(l, r) => Safe(l) && Safe(r)
      case _ => false
  }

  predicate AllSafe(es: seq<Expr>) {
    forall i :: 0 <= i < |es| ==> Safe(es[i])
  }

  // ---------------------------------------------------------------- the rewrite, as a tree

  /** The tree that `a | b` parses to: `|` associates to the left. */
  function JoinOr(a: Expr, b: Expr): Expr {
    if b.Or? then Or(JoinOr(a, b.left), b.right) else Or(a, b)
  }

  function JoinAll(es: seq<Expr>): Expr
    requires es != []
  {
    if |es| == 1 then es[0] else JoinOr(es[0], JoinAll(es[1..]))
  }

  function Modern(e: Expr): Expr
    requires WellFormed(e)
    decreases e, 1
  {
    if !HasOld(e) then e
    else
      match e
      case Subscript(v, s) =>
        var args := if s.Tuple? then ModernAll(s.elts) else [Modern(s)];
        if OldHead(e) == Some("Optional") then JoinOr(args[0], Atom("None"))
        else if OldHead(e) == Some("Union") then JoinAll(args)
        else Subscript(NewHead(e), AsSlice(args))
      case Tuple(elts) => Tuple(ModernAll(elts))
      case Or(l, r) => JoinOr(Modern(l), Modern(r))
      case Name(id) => Name(SIMPLE_RENAMES[id])
  }

  function NewHead(e: Expr): Expr
    requires e.Subscript? && OldHead(e) != Some("Optional") && OldHead(e) != Some("Union")
  {
    if OldHead(e).Some? then Name(SIMPLE_RENAMES[e.value.id]) else e.value
  }

  function ModernAll(es: seq<Expr>): (r: seq<Expr>)
    requires forall i :: 0 <= i < |es| ==> WellFormed(es[i])
    ensures |r| == |es|
    ensures forall i :: 0 <= i < |es| ==> r[i] == Modern(es[i])
    decreases es, 0
  {
    if es == [] then [] else [Modern(es[0])] + ModernAll(es[1..])
  }

  /** Arguments as they stand between brackets. */
  function AsSlice(args: seq<Expr>): Expr {
    if |args| == 1 && !args[0].Tuple? then args[0] else Tuple(args)
  }

  /** The rewritten arguments of a subscript. */
  function ModernArgs(s: Expr): (r: seq<Expr>)
    requires AllWellFormed(Args(s))
    ensures |r| == |Args(s)| && forall i :: 0 <= i < |r| ==> r[i] == Modern(Args(s)[i])
  {
    ModernAll(Args(s))
  }

  lemma {:induction false} GroupLikeMeans(e: Expr)
    requires WellFormed(e)
    ensures Modern(e).Tuple? <==> GroupLike(e)
    decreases e
  {
    if e.Subscript? && OldHead(e) == Some("Union") && |Args(e.slice)| == 1 {
      GroupLikeMeans(Args(e.slice)[0]);
    }
  }

  lemma ModernSubscript(e: Expr)
    requires WellFormed(e) && e.Subscript? && HasOld(e)
    ensures var args := ModernArgs(e.slice);
            if OldHead(e) == Some("Optional") then |args| == 1 && Modern(e) == JoinOr(args[0], Atom("None"))
            else if OldHead(e) == Some("Union") then args != [] && Modern(e) == JoinAll(args)
            else Modern(e) == Subscript(NewHead(e), AsSlice(args))
  {
    if !e.slice.Tuple? {
      assert ModernAll([e.slice]) == [Modern(e.slice)];
    }
  }

  lemma OldSubscript(e: Expr)
    requires e.Subscript?
    ensures HasOld(e) <==> OldHead(e).Some? || AnyOld(Args(e.slice))
  {
    assert [e.slice][0] == e.slice;
  }

  // ---------------------------------------------------------------- the result is modern

  lemma {:induction false} JoinOrKeeps(a: Expr, b: Expr)
    requires WellFormed(a) && WellFormed(b)
    ensures WellFormed(JoinOr(a, b)) && HasOld(JoinOr(a, b)) == (HasOld(a) || HasOld(b))
    ensures Denote(JoinOr(a, b)) == Denote(a) + Denote(b)
    decreases b
  {
    if b.Or? {
      JoinOrKeeps(a, b.left);
    }
  }

  lemma {:induction false} JoinAllKeeps(es: seq<Expr>)
    requires es != [] && AllWellFormed(es) && !AnyOld(es)
    ensures WellFormed(JoinAll(es)) && !HasOld(JoinAll(es))
    ensures Denote(JoinAll(es)) == DenoteUnion(es)
  {
    if |es| > 1 {
      JoinAllKeeps(es[1..]);
      JoinOrKeeps(es[0], JoinAll(es[1..]));
    } else {
      assert es[1..] == [];
    }
  }

  lemma {:induction false} ModernWellFormed(e: Expr)
    requires WellFormed(e)
    ensures WellFormed(Modern(e)) && !HasOld(Modern(e))
    decreases e, 2
  {
    if HasOld(e) {
      match e
      case Name(_) =>
      case Tuple(elts) =>
        AllModernWellFormed(elts);
      case Or(l, r) =>
        ModernWellFormed(l);
        ModernWellFormed(r);
        JoinOrKeeps(Modern(l), Modern(r));
      case Subscript(v, s) =>
        if s.Tuple? {
          AllModernWellFormed(s.elts);
        } else {
          ModernWellFormed(s);
        }
        SubscriptKeeps(e, ModernArgs(s));
    }
  }

  lemma SubscriptKeeps(e: Expr, args: seq<Expr>)
    requires WellFormed(e) && e.Subscript? && HasOld(e) && args == ModernArgs(e.slice)
    requires AllWellFormed(args) && !AnyOld(args)
    ensures WellFormed(Modern(e)) && !HasOld(Modern(e))
  {
    ModernSubscript(e);
    hide Modern, WellFormed, HasOld;
    if OldHead(e) == Some("Optional") {
      AtomIsModern("None");
      JoinOrKeeps(args[0], Atom("None"));
    } else if OldHead(e) == Some("Union") {
      JoinAllKeeps(args);
    } else {
      GenericKeeps(NewHead(e), args);
    }
  }

  lemma AtomIsModern(text: string)
    ensures WellFormed(Atom(text)) && !HasOld(Atom(text))
  {
  }

  lemma {:induction false} AllModernWellFormed(es: seq<Expr>)
    requires AllWellFormed(es)
    ensures AllWellFormed(ModernAll(es)) && !AnyOld(ModernAll(es))
    decreases es, 1
  {
    forall i | 0 <= i < |es| ensures WellFormed(Modern(es[i])) && !HasOld(Modern(es[i])) {
      ModernWellFormed(es[i]);
    }
  }

  lemma GenericKeeps(head: Expr, args: seq<Expr>)
    requires head.Name? ==> !IsOldName(head.id)
    requires AllWellFormed(args) && !AnyOld(args)
    ensures WellFormed(Subscript(head, AsSlice(args))) && !HasOld(Subscript(head, AsSlice(args)))
  {
    assert |args| == 1 ==> WellFormed(args[0]) && !HasOld(args[0]);
  }

  // ---------------------------------------------------------------- meaning

  /** The builtin generics that have a name in typing as well (section "Implementation" of PEP 585). */
  datatype Builtin = DictOf | ListOf | TupleOf | SetOf | FrozenSetOf | TypeOf

  /** The name in typing, and the builtin's own. */
  function Spellings(b: Builtin): (string, string) {
    match b
    case DictOf => ("Dict", "dict")
    case ListOf => ("List", "list")
    case TupleOf => ("Tuple", "tuple")
    case SetOf => ("Set", "set")
    case FrozenSetOf => ("FrozenSet", "frozenset")
    case TypeOf => ("Type", "type")
  }

  /** What a name stands for: both spellings of a builtin stand for the same one. */
  function BuiltinNamed(id: string): Option<Builtin> {
    if id == "Dict" || id == "dict" then Some(DictOf)
    else if id == "List" || id == "list" then Some(ListOf)
    else if id == "Tuple" || id == "tuple" then Some(TupleOf)
    else if id == "Set" || id == "set" then Some(SetOf)
    else if id == "FrozenSet" || id == "frozenset" then Some(FrozenSetOf)
    else if id == "Type" || id == "type" then Some(TypeOf)
    else None
  }

  lemma BuiltinExactly(id: string, b: Builtin)
    ensures BuiltinNamed(id) == Some(b) <==> id == Spellings(b).0 || id == Spellings(b).1
  {
  }

  /** The rename table is right and complete: typing's name of each builtin, and no other, becomes the builtin's own. */
  lemma RenamesExactly(id: string)
    ensures id in SIMPLE_RENAMES <==> exists b :: id == Spellings(b).0
    ensures forall b :: id == Spellings(b).0 ==> id in SIMPLE_RENAMES && SIMPLE_RENAMES[id] == Spellings(b).1
    ensures IsOldName(id) <==> (exists b :: id == Spellings(b).0) || id == "Optional" || id == "Union"
  {
    if id in SIMPLE_RENAMES {
      var b := BuiltinNamed(id).value;
      assert id == Spellings(b).0;
    }
  }

  lemma RenameKeepsBuiltin(id: string)
    requires id in SIMPLE_RENAMES
    ensures BuiltinNamed(id).Some? && BuiltinNamed(SIMPLE_RENAMES[id]) == BuiltinNamed(id)
  {
  }

  /** A name or expression, as far as its meaning goes. */
  datatype Symbol = Known(b: Builtin) | Plain(e: Expr)

  function SymbolOf(e: Expr): Symbol {
    if e.Name? && BuiltinNamed(e.id).Some? then Known(BuiltinNamed(e.id).value) else Plain(e)
  }

  /** A bare name, a generic applied to arguments, or a group; arguments are sets of alternatives. */
  datatype Ty = Base(symbol: Symbol) | App(head: Symbol, args: seq<set<Ty>>) | Group(items: seq<set<Ty>>)

  const NONE_TYPE := Base(Plain(Atom("None")))

  /** The alternatives an annotation stands for (section "Specification" of PEP 604). */
  function Denote(e: Expr): set<Ty>
    decreases e, 1
  {
    match e
    case Name(_) => {Base(SymbolOf(e))}
    case Atom(_) => {Base(Plain(e))}
    case Tuple(elts) => {Group(DenoteAll(elts))}
    case Or(l, r) => Denote(l) + Denote(r)
    case Subscript(v, s) =>
      if v == Name("Optional") then DenoteArgs(s) + {NONE_TYPE}
      else if v == Name("Union") then DenoteArgs(s)
      else {App(SymbolOf(v), if s.Tuple? then DenoteAll(s.elts) else [Denote(s)])}
  }

  function DenoteArgs(s: Expr): set<Ty>
    decreases s, 2
  {
    if s.Tuple? then DenoteUnion(s.elts) else Denote(s)
  }

  function DenoteUnion(es: seq<Expr>): set<Ty>
    decreases es, 0
  {
    if es == [] then {} else Denote(es[0]) + DenoteUnion(es[1..])
  }

  function DenoteAll(es: seq<Expr>): (r: seq<set<Ty>>)
    ensures |r| == |es| && forall i :: 0 <= i < |es| ==> r[i] == Denote(es[i])
    decreases es, 0
  {
    if es == [] then [] else [Denote(es[0])] + DenoteAll(es[1..])
  }

  function DenoteSlice(s: Expr): seq<set<Ty>> {
    DenoteAll(Args(s))
  }

  lemma {:induction false} DenoteUnionPointwise(a: seq<Expr>, b: seq<Expr>)
    requires |a| == |b| && forall i :: 0 <= i < |a| ==> Denote(a[i]) == Denote(b[i])
    ensures DenoteUnion(a) == DenoteUnion(b)
  {
    if a != [] {
      DenoteUnionPointwise(a[1..], b[1..]);
    }
  }

  lemma {:induction false} MeaningPreserved(e: Expr)
    requires WellFormed(e)
    ensures Denote(Modern(e)) == Denote(e)
    decreases e, 2
  {
    if HasOld(e) {
      match e
      case Name(id) =>
        RenameKeepsBuiltin(id);
      case Tuple(elts) =>
        MeaningsPreserved(elts);
        assert DenoteAll(ModernAll(elts)) == DenoteAll(elts);
      case Or(l, r) =>
        MeaningPreserved(l);
        MeaningPreserved(r);
        ModernWellFormed(l);
        ModernWellFormed(r);
        JoinOrKeeps(Modern(l), Modern(r));
      case Subscript(v, s) =>
        if s.Tuple? {
          MeaningsPreserved(s.elts);
        } else {
          MeaningPreserved(s);
        }
        AllModernWellFormed(Args(s));
        SubscriptMeaning(e, ModernArgs(s));
    }
  }

  lemma {:induction false} MeaningsPreserved(es: seq<Expr>)
    requires AllWellFormed(es)
    ensures forall i :: 0 <= i < |es| ==> Denote(ModernAll(es)[i]) == Denote(es[i])
    decreases es, 1
  {
    forall i | 0 <= i < |es| ensures Denote(ModernAll(es)[i]) == Denote(es[i]) {
      MeaningPreserved(es[i]);
    }
  }

  lemma {:induction false} SubscriptMeaning(e: Expr, args: seq<Expr>)
    requires WellFormed(e) && e.Subscript? && HasOld(e) && args == ModernArgs(e.slice)
    requires AllWellFormed(args) && !AnyOld(args)
    requires forall i :: 0 <= i < |args| ==> Denote(args[i]) == Denote(Args(e.slice)[i])
    ensures Denote(Modern(e)) == Denote(e)
  {
    hide HasOld, WellFormed, Modern;
    var v, s := e.value, e.slice;
    DenoteUnionPointwise(args, Args(s));
    ArgsMeaning(s);
    ModernSubscript(e);
    if OldHead(e) == Some("Optional") {
      OptionalMeaning(args);
    } else if OldHead(e) == Some("Union") {
      JoinAllKeeps(args);
    } else {
      if OldHead(e).Some? {
        RenameKeepsBuiltin(v.id);
      }
      GenericMeaning(s, args);
      GenericDenotes(v, s);
      GenericDenotes(NewHead(e), AsSlice(args));
    }
  }

  lemma GenericDenotes(head: Expr, s: Expr)
    requires OldHead(Subscript(head, s)) != Some("Optional") && OldHead(Subscript(head, s)) != Some("Union")
    ensures Denote(Subscript(head, s)) == {App(SymbolOf(head), DenoteSlice(s))}
  {
    ArgsMeaning(s);
  }

  lemma ArgsMeaning(s: Expr)
    ensures DenoteArgs(s) == DenoteUnion(Args(s))
    ensures DenoteSlice(s) == if s.Tuple? then DenoteAll(s.elts) else [Denote(s)]
  {
    if !s.Tuple? {
      assert [s][1..] == [];
    }
  }

  lemma OptionalMeaning(args: seq<Expr>)
    requires |args| == 1 && WellFormed(args[0])
    ensures Denote(JoinOr(args[0], Atom("None"))) == DenoteUnion(args) + {NONE_TYPE}
  {
    JoinOrKeeps(args[0], Atom("None"));
    assert args[1..] == [];
  }

  lemma GenericMeaning(s: Expr, args: seq<Expr>)
    requires |args| == |Args(s)|
    requires forall i :: 0 <= i < |args| ==> Denote(args[i]) == Denote(Args(s)[i])
    ensures DenoteSlice(AsSlice(args)) == DenoteSlice(s)
  {
    assert DenoteAll(args) == DenoteAll(Args(s));
    assert |args| == 1 ==> args == [args[0]];
  }
}
