/** Configuration paths as strings: how they are written, split, matched with the whitelist and parsed back. */
module ConfigPath {
  import opened Options
  import opened ConfigDiff
  import opened ConfigPatch

  // ---------------------------------------------------------------- writing

  function Digit(d: nat): char
    requires d < 10
  {
    "0123456789"[d]
  }

  function Decimal(n: nat): string {
    if n < 10 then [Digit(n)] else Decimal(n / 10) + [Digit(n % 10)]
  }

  function IndexText(i: nat): string {
    "[" + Decimal(i) + "]"
  }

  /** A dot before each key but the first, and brackets around indices. */
  function Render(p: Path): string {
    if p == [] then ""
    else
      var path, last := Render(p[..|p| - 1]), p[|p| - 1];
      match last
      case Key(k) => if path != "" then path + "." + k else k
      case Idx(i) => path + IndexText(i)
  }

  // ---------------------------------------------------------------- reading

  function Split(s: string): (parts: seq<string>)
    ensures parts != []
  {
    if s == "" then [""]
    else
      var rest := Split(s[1..]);
      if s[0] == '.' then [""] + rest else [[s[0]] + rest[0]] + rest[1..]
  }

  /** What comes before the first opening bracket. */
  function Before(t: string): (key: string)
    ensures |key| <= |t| && ('[' in t ==> |key| < |t|)
  {
    if t == "" || t[0] == '[' then "" else [t[0]] + Before(t[1..])
  }

  function Stripped(s: string): string {
    if s != "" && s[|s| - 1] == ']' then Stripped(s[..|s| - 1]) else s
  }

  predicate IsDigit(c: char) {
    '0' <= c <= '9'
  }

  predicate IsNumber(s: string) {
    s != "" && forall i :: 0 <= i < |s| ==> IsDigit(s[i])
  }

  function Value(s: string): nat
    requires forall i :: 0 <= i < |s| ==> IsDigit(s[i])
  {
    if s == "" then 0
    else
      var last := s[|s| - 1];
      assert IsDigit(last);
      Value(s[..|s| - 1]) * 10 + (last as int - '0' as int)
  }

  /** One dot-separated token: a key, and an index or none. */
  datatype Segment = Segment(key: string, index: Option<nat>)

  function ParseToken(t: string): Option<Segment> {
    if '[' !in t then Some(Segment(t, None))
    else if t[|t| - 1] != ']' then None
    else
      var number := Stripped(t[|Before(t)| + 1..]);
      if IsNumber(number) then Some(Segment(Before(t), Some(Value(number)))) else None
  }

  function ParseTokens(ts: seq<string>): Option<Path> {
    if ts == [] then Some([])
    else
      var before, last := ParseTokens(ts[..|ts| - 1]), ParseToken(ts[|ts| - 1]);
      if before.None? || last.None? then None else Some(before.value + Steps(last.value))
  }

  function Steps(s: Segment): Path {
    [Key(s.key)] + if s.index.Some? then [Idx(s.index.value)] else []
  }

  /** The steps a path string stands for, or nothing when a token is malformed. */
  function ParsePath(s: string): Option<Path> {
    ParseTokens(Split(s))
  }

  /** The keys that are looked up in the whitelist. */
  function NormalizedKeys(ts: seq<string>): seq<string> {
    if ts == [] then [] else NormalizedKeys(ts[..|ts| - 1]) + [Before(ts[|ts| - 1])]
  }

  // ---------------------------------------------------------------- numbers

  lemma DigitReads(d: nat)
    requires d < 10
    ensures IsDigit(Digit(d)) && Digit(d) as int - '0' as int == d
  {
  }

  lemma {:induction false} DecimalReads(n: nat)
    ensures IsNumber(Decimal(n)) && Value(Decimal(n)) == n
  {
    var d := Decimal(n);
    if n < 10 {
      DigitReads(n);
      assert d[..0] == "";
    } else {
      DigitReads(n % 10);
      hide Digit;
      DecimalReads(n / 10);
      assert d[..|d| - 1] == Decimal(n / 10) && d[|d| - 1] == Digit(n % 10);
    }
  }

  // ---------------------------------------------------------------- splitting

  lemma {:induction false} SplitKey(k: string)
    requires '.' !in k
    ensures Split(k) == [k]
  {
    if k != "" {
      SplitKey(k[1..]);
      assert k == [k[0]] + k[1..];
    }
  }

  lemma {:induction false} SplitAtDot(a: string, b: string)
    ensures Split(a + "." + b) == Split(a) + Split(b)
  {
    var s := a + "." + b;
    if a == "" {
      assert s[1..] == b;
    } else {
      assert s[1..] == a[1..] + "." + b;
      SplitAtDot(a[1..], b);
    }
  }

  lemma GrowFirst(c: char, rest: seq<string>, t: string)
    requires rest != []
    ensures var n, grown := |rest| - 1, rest[..|rest| - 1] + [rest[|rest| - 1] + t];
            var parts := [[c] + rest[0]] + rest[1..];
            && [""] + grown == ([""] + rest)[..n + 1] + [rest[n] + t]
            && [[c] + grown[0]] + grown[1..] == parts[..n] + [parts[n] + t]
  {
    if |rest| == 1 {
      assert [c] + (rest[0] + t) == [c] + rest[0] + t;
    }
  }

  /** Text without a dot goes to the last part. */
  lemma {:induction false} SplitTail(a: string, t: string)
    requires '.' !in t
    ensures var parts := Split(a); Split(a + t) == parts[..|parts| - 1] + [parts[|parts| - 1] + t]
  {
    if a == "" {
      assert a + t == t;
      SplitKey(t);
    } else {
      assert (a + t)[1..] == a[1..] + t;
      SplitTail(a[1..], t);
      GrowFirst(a[0], Split(a[1..]), t);
    }
  }

  // ---------------------------------------------------------------- a path's tokens

  /** A key with the indices that follow it. */
  datatype Group = Group(key: string, indices: seq<nat>)

  function Indices(indices: seq<nat>): string {
    if indices == [] then "" else Indices(indices[..|indices| - 1]) + IndexText(indices[|indices| - 1])
  }

  function Text(g: Group): string {
    g.key + Indices(g.indices)
  }

  function Grouped(p: Path): (gs: seq<Group>)
    ensures gs != []
  {
    if p == [] then [Group("", [])]
    else
      var gs, last := Grouped(p[..|p| - 1]), p[|p| - 1];
      match last
      case Key(k) => if |p| == 1 then [Group(k, [])] else gs + [Group(k, [])]
      case Idx(i) => Grown(gs, i)
  }

  /** The last group with one more index. */
  function Grown(gs: seq<Group>, i: nat): (r: seq<Group>)
    requires gs != []
    ensures r != []
  {
    var n := |gs| - 1;
    gs[..n] + [gs[n].(indices := gs[n].indices + [i])]
  }

  function Texts(gs: seq<Group>): (ts: seq<string>)
    ensures |ts| == |gs|
  {
    if gs == [] then [] else Texts(gs[..|gs| - 1]) + [Text(gs[|gs| - 1])]
  }

  predicate PlainKey(k: string) {
    k != "" && '.' !in k && '[' !in k && ']' !in k
  }

  predicate PlainKeys(p: Path) {
    forall i :: 0 <= i < |p| && p[i].Key? ==> PlainKey(p[i].k)
  }

  lemma IndexHasNoDot(i: nat)
    ensures '.' !in IndexText(i)
  {
    DecimalReads(i);
  }

  lemma {:induction false} RenderNotEmpty(p: Path)
    requires PlainKeys(p) && p != []
    ensures Render(p) != ""
  {
    if |p| > 1 {
      RenderNotEmpty(p[..|p| - 1]);
    }
  }

  lemma TextsAppend(gs: seq<Group>, g: Group)
    ensures Texts(gs + [g]) == Texts(gs) + [Text(g)]
  {
    assert (gs + [g])[..|gs|] == gs;
  }

  lemma IndicesAppend(indices: seq<nat>, i: nat)
    ensures Indices(indices + [i]) == Indices(indices) + IndexText(i)
  {
    assert (indices + [i])[..|indices|] == indices;
  }

  lemma TextsSnoc(gs: seq<Group>)
    requires gs != []
    ensures var n := |gs| - 1; Texts(gs)[..n] == Texts(gs[..n]) && Texts(gs)[n] == Text(gs[n])
  {
  }

  lemma TextGrown(g: Group, i: nat)
    ensures Text(g.(indices := g.indices + [i])) == Text(g) + IndexText(i)
  {
    hide IndexText, Indices;
    IndicesAppend(g.indices, i);
    assert g.key + (Indices(g.indices) + IndexText(i)) == g.key + Indices(g.indices) + IndexText(i);
  }

  lemma GrowLast(gs: seq<Group>, i: nat)
    requires gs != []
    ensures var ts, n := Texts(gs), |gs| - 1; Texts(Grown(gs, i)) == ts[..n] + [ts[n] + IndexText(i)]
  {
    hide IndexText, Text, Texts;
    var n := |gs| - 1;
    TextsAppend(gs[..n], gs[n].(indices := gs[n].indices + [i]));
    TextGrown(gs[n], i);
    TextsSnoc(gs);
  }

  lemma TextsOne(k: string)
    ensures Text(Group(k, [])) == k && Texts([Group(k, [])]) == [k]
  {
    assert [Group(k, [])][..0] == [] && Texts([]) == [] && Indices([]) == "";
    assert k + "" == k;
  }

  lemma SplitRenderSnoc(front: Path, last: Token)
    requires PlainKeys(front + [last]) && Split(Render(front)) == Texts(Grouped(front))
    ensures Split(Render(front + [last])) == Texts(Grouped(front + [last]))
  {
    var p := front + [last];
    assert p[..|p| - 1] == front && p[|p| - 1] == last;
    assert PlainKeys(front) && (last.Key? ==> PlainKey(last.k));
    hide Texts, Text, Split;
    match last {
      case Key(k) =>
        SplitKey(k);
        TextsAppend(Grouped(front), Group(k, []));
        TextsOne(k);
        if front != [] {
          RenderNotEmpty(front);
          SplitAtDot(Render(front), k);
        }
      case Idx(i) =>
        IndexHasNoDot(i);
        SplitTail(Render(front), IndexText(i));
        GrowLast(Grouped(front), i);
    }
  }

  /** Splitting a path string at its dots gives its keys with their indices. */
  lemma {:induction false} SplitRender(p: Path)
    requires PlainKeys(p)
    ensures Split(Render(p)) == Texts(Grouped(p))
  {
    if p == [] {
      TextsOne("");
    } else {
      var front, last := p[..|p| - 1], p[|p| - 1];
      assert p == front + [last];
      hide Split, Render, Texts, Grouped;
      SplitRender(front);
      SplitRenderSnoc(front, last);
    }
  }

  // ---------------------------------------------------------------- parsing one token

  lemma {:induction false} BeforeBracket(k: string, t: string)
    requires '[' !in k && (t == "" || t[0] == '[')
    ensures Before(k + t) == k
  {
    if k == "" {
      assert k + t == t;
    } else {
      assert (k + t)[1..] == k[1..] + t;
      BeforeBracket(k[1..], t);
    }
  }

  lemma {:induction false} IndicesShape(indices: seq<nat>)
    requires indices != []
    ensures var t := Indices(indices); |t| > 2 && t[0] == '[' && t[|t| - 1] == ']'
  {
    DecimalReads(indices[|indices| - 1]);
    if |indices| > 1 {
      IndicesShape(indices[..|indices| - 1]);
    }
  }

  lemma StripNumber(d: string)
    requires IsNumber(d)
    ensures Stripped(d + "]") == d && Stripped(d) == d
  {
    assert (d + "]")[..|d|] == d;
    assert IsDigit(d[|d| - 1]);
  }

  lemma BracketInside(front: string, d: string)
    requires front != "" && IsNumber(d)
    ensures !IsNumber(Stripped((front + ("[" + d + "]"))[1..]))
  {
    var inner := front[1..] + "[" + d;
    var n := |inner|;
    assert (front + ("[" + d + "]"))[1..] == inner + "]";
    assert (inner + "]")[..n] == inner && inner[n - 1] == d[|d| - 1] && IsDigit(d[|d| - 1]);
    assert Stripped(inner + "]") == inner;
    assert inner[|front| - 1] == '[';
  }

  /** With more than one index, what stands between the first and the last bracket is no number. */
  lemma SeveralIndices(indices: seq<nat>)
    requires |indices| > 1
    ensures !IsNumber(Stripped(Indices(indices)[1..]))
  {
    hide IsNumber, Stripped, Decimal;
    var n := |indices| - 1;
    IndicesShape(indices[..n]);
    DecimalReads(indices[n]);
    BracketInside(Indices(indices[..n]), Decimal(indices[n]));
  }

  lemma OneIndex(i: nat)
    ensures Indices([i]) == IndexText(i) && Stripped(IndexText(i)[1..]) == Decimal(i)
  {
    assert [i][..0] == [] && Indices([]) == "";
    assert "" + IndexText(i) == IndexText(i);
    assert IndexText(i)[1..] == Decimal(i) + "]";
    DecimalReads(i);
    StripNumber(Decimal(i));
  }

  /** A token with one index or none is read as it was written; with several it is malformed. */
  lemma ParseText(g: Group)
    requires '[' !in g.key
    ensures Before(Text(g)) == g.key
    ensures ParseToken(Text(g)) ==
            if g.indices == [] then Some(Segment(g.key, None))
            else if |g.indices| == 1 then Some(Segment(g.key, Some(g.indices[0])))
            else None
  {
    var t := Indices(g.indices);
    if g.indices == [] {
      assert Text(g) == g.key;
      assert t == "";
      BeforeBracket(g.key, t);
    } else {
      IndicesShape(g.indices);
      BeforeBracket(g.key, t);
      assert Text(g)[|g.key|] == '[' && Text(g)[|Text(g)| - 1] == ']' && Text(g)[|g.key| + 1..] == t[1..];
      if |g.indices| == 1 {
        assert g.indices == [g.indices[0]];
        OneIndex(g.indices[0]);
        DecimalReads(g.indices[0]);
      } else {
        SeveralIndices(g.indices);
      }
    }
  }

  // ---------------------------------------------------------------- parsing the whole path

  ghost predicate Bracketless(gs: seq<Group>) {
    forall i :: 0 <= i < |gs| ==> '[' !in gs[i].key
  }

  ghost predicate OneEach(gs: seq<Group>) {
    forall i :: 0 <= i < |gs| ==> |gs[i].indices| <= 1
  }

  function AllIdx(indices: seq<nat>): Path {
    if indices == [] then [] else AllIdx(indices[..|indices| - 1]) + [Idx(indices[|indices| - 1])]
  }

  /** The steps that groups stand for. */
  function Ungrouped(gs: seq<Group>): Path {
    if gs == [] then [] else Ungrouped(gs[..|gs| - 1]) + [Key(gs[|gs| - 1].key)] + AllIdx(gs[|gs| - 1].indices)
  }

  lemma StepsOfGroup(g: Group)
    requires |g.indices| <= 1
    ensures [Key(g.key)] + AllIdx(g.indices) ==
            Steps(Segment(g.key, if g.indices == [] then None else Some(g.indices[0])))
  {
    if g.indices != [] {
      assert g.indices[..0] == [] && AllIdx([]) == [];
    }
  }

  lemma OneEachSnoc(gs: seq<Group>)
    requires gs != []
    ensures var n := |gs| - 1;
            && (OneEach(gs) <==> OneEach(gs[..n]) && |gs[n].indices| <= 1)
            && (Bracketless(gs) ==> Bracketless(gs[..n]) && '[' !in gs[n].key)
  {
    var n := |gs| - 1;
    assert gs == gs[..n] + [gs[n]];
  }

  lemma ParseStep(ts: seq<string>, g: Group)
    requires '[' !in g.key
    ensures ParseTokens(ts + [Text(g)]) ==
            if ParseTokens(ts).None? || |g.indices| > 1 then None
            else Some(ParseTokens(ts).value + ([Key(g.key)] + AllIdx(g.indices)))
  {
    hide Text, ParseToken, AllIdx, Steps;
    ParseText(g);
    assert (ts + [Text(g)])[..|ts|] == ts;
    if |g.indices| <= 1 {
      StepsOfGroup(g);
    }
  }

  lemma UngroupSnoc(gs: seq<Group>)
    requires gs != []
    ensures var n := |gs| - 1; Ungrouped(gs) == Ungrouped(gs[..n]) + ([Key(gs[n].key)] + AllIdx(gs[n].indices))
  {
    var n := |gs| - 1;
    var a, b, c := Ungrouped(gs[..n]), [Key(gs[n].key)], AllIdx(gs[n].indices);
    assert a + (b + c) == a + b + c;
  }

  lemma {:induction false} ParseGroups(gs: seq<Group>)
    requires Bracketless(gs)
    ensures ParseTokens(Texts(gs)) == if OneEach(gs) then Some(Ungrouped(gs)) else None
  {
    if gs != [] {
      var n := |gs| - 1;
      OneEachSnoc(gs);
      hide OneEach, Bracketless, Text, ParseTokens, AllIdx, Ungrouped;
      ParseGroups(gs[..n]);
      ParseStep(Texts(gs[..n]), gs[n]);
      UngroupSnoc(gs);
    }
  }

  lemma UngroupAppend(gs: seq<Group>, g: Group)
    ensures Ungrouped(gs + [g]) == Ungrouped(gs) + [Key(g.key)] + AllIdx(g.indices)
  {
    assert (gs + [g])[..|gs|] == gs;
  }

  lemma AllIdxAppend(indices: seq<nat>, i: nat)
    ensures AllIdx(indices + [i]) == AllIdx(indices) + [Idx(i)]
  {
    assert (indices + [i])[..|indices|] == indices;
  }

  lemma UngroupGrow(gs: seq<Group>, i: nat)
    requires gs != []
    ensures Ungrouped(Grown(gs, i)) == Ungrouped(gs) + [Idx(i)]
  {
    hide AllIdx;
    var n := |gs| - 1;
    var g := gs[n];
    var before := Ungrouped(gs[..n]) + [Key(g.key)];
    UngroupAppend(gs[..n], g.(indices := g.indices + [i]));
    AllIdxAppend(g.indices, i);
    assert before + (AllIdx(g.indices) + [Idx(i)]) == before + AllIdx(g.indices) + [Idx(i)];
  }

  lemma UngroupOne(k: string)
    ensures Ungrouped([Group(k, [])]) == [Key(k)]
  {
    UngroupAppend([], Group(k, []));
    assert [] + [Group(k, [])] == [Group(k, [])];
  }

  /** What a path lacks in front: a first key. */
  function Missing(p: Path): Path {
    if p == [] || p[0].Idx? then [Key("")] else []
  }

  lemma MissingSnoc(front: Path, last: Token)
    ensures Missing(front + [last]) == if front == [] && last.Key? then [] else Missing(front)
  {
  }

  lemma UngroupStep(p: Path, last: Token)
    ensures Ungrouped(Grouped(p + [last])) ==
            if p == [] && last.Key? then [last] else Ungrouped(Grouped(p)) + [last]
  {
    assert (p + [last])[..|p|] == p;
    hide Ungrouped;
    match last {
      case Key(k) =>
        UngroupOne(k);
        UngroupAppend(Grouped(p), Group(k, []));
      case Idx(i) =>
        UngroupGrow(Grouped(p), i);
    }
  }

  /** Grouping loses nothing: it only adds an empty key in front of a path that has none there. */
  ghost predicate NothingLost(p: Path) {
    Ungrouped(Grouped(p)) == Missing(p) + p
  }

  lemma NothingLostSnoc(p: Path, last: Token)
    requires NothingLost(p)
    ensures NothingLost(p + [last])
  {
    UngroupStep(p, last);
    MissingSnoc(p, last);
    hide Ungrouped, Grouped, Missing;
    if p == [] && last.Key? {
      assert [] + (p + [last]) == [last];
    } else {
      assert Missing(p) + p + [last] == Missing(p) + (p + [last]);
    }
  }

  lemma {:induction false} UngroupGrouped(p: Path)
    ensures NothingLost(p)
  {
    if p == [] {
      UngroupOne("");
    } else {
      hide NothingLost;
      UngroupGrouped(p[..|p| - 1]);
      NothingLostSnoc(p[..|p| - 1], p[|p| - 1]);
      assert p == p[..|p| - 1] + [p[|p| - 1]];
    }
  }

  ghost predicate TwoIndices(p: Path) {
    exists i :: 0 <= i < |p| - 1 && p[i].Idx? && p[i + 1].Idx?
  }

  lemma TwoIndicesSnoc(p: Path)
    requires p != []
    ensures var n := |p| - 1; TwoIndices(p) <==> TwoIndices(p[..n]) || (n > 0 && p[n - 1].Idx? && p[n].Idx?)
  {
    var front := p[..|p| - 1];
    if i :| 0 <= i < |p| - 1 && p[i].Idx? && p[i + 1].Idx? && i < |p| - 2 {
      assert front[i].Idx? && front[i + 1].Idx?;
    }
    if i :| 0 <= i < |front| - 1 && front[i].Idx? && front[i + 1].Idx? {
      assert p[i].Idx? && p[i + 1].Idx?;
    }
  }

  lemma OneEachGrown(gs: seq<Group>, i: nat)
    requires gs != []
    ensures OneEach(Grown(gs, i)) <==> OneEach(gs) && gs[|gs| - 1].indices == []
    ensures Grown(gs, i)[|Grown(gs, i)| - 1].indices != []
  {
    var n := |gs| - 1;
    OneEachSnoc(gs);
    OneEachSnoc(Grown(gs, i));
    assert Grown(gs, i)[..n] == gs[..n];
  }

  lemma OneEachAppend(gs: seq<Group>, k: string)
    ensures OneEach(gs + [Group(k, [])]) <==> OneEach(gs)
  {
    OneEachSnoc(gs + [Group(k, [])]);
    assert (gs + [Group(k, [])])[..|gs|] == gs;
  }

  /** Two indices in a row, seen from the groups. */
  lemma {:induction false} OneEachExactly(p: Path)
    ensures OneEach(Grouped(p)) <==> !TwoIndices(p)
    ensures Grouped(p)[|Grouped(p)| - 1].indices == [] <==> p == [] || p[|p| - 1].Key?
  {
    if p != [] {
      var front, last := p[..|p| - 1], p[|p| - 1];
      OneEachExactly(front);
      TwoIndicesSnoc(p);
      match last {
        case Key(k) =>
          OneEachAppend(Grouped(front), k);
          OneEachAppend([], k);
          assert [] + [Group(k, [])] == [Group(k, [])] && (|p| == 1 ==> front == []);
        case Idx(i) =>
          OneEachGrown(Grouped(front), i);
      }
    }
  }

  lemma {:induction false} GroupKeys(p: Path)
    requires PlainKeys(p)
    ensures Bracketless(Grouped(p))
  {
    if p != [] {
      GroupKeys(p[..|p| - 1]);
    }
  }

  /**
    A path whose keys are plain parses back from its string if and only if it starts with a key and no two indices
    follow each other.  From a path that starts with a key, anything else is malformed.
   */
  lemma ParsesExactly(p: Path)
    requires PlainKeys(p)
    ensures ParsePath(Render(p)) == Some(p) <==> Parses(p)
    ensures p != [] && p[0].Key? ==> (ParsePath(Render(p)).None? <==> !Parses(p))
  {
    SplitRender(p);
    GroupKeys(p);
    ParseGroups(Grouped(p));
    UngroupGrouped(p);
    OneEachExactly(p);
    hide Split, Render, Texts, Grouped, Ungrouped, ParseTokens, PlainKeys, Bracketless, OneEach, Parses, Missing;
    NothingMissing(p);
    ParsesIs(p);
  }

  lemma NothingMissing(p: Path)
    ensures Missing(p) + p == p <==> p != [] && p[0].Key?
  {
    if Missing(p) != [] {
      assert |Missing(p) + p| == |p| + 1;
    }
  }

  lemma ParsesIs(p: Path)
    ensures Parses(p) <==> p != [] && p[0].Key? && !TwoIndices(p)
  {
  }

  /** Different paths that parse have different strings. */
  lemma RenderInjective(p: Path, q: Path)
    requires PlainKeys(p) && PlainKeys(q) && Parses(p) && Parses(q) && Render(p) == Render(q)
    ensures p == q
  {
    ParsesExactly(p);
    ParsesExactly(q);
  }

  // ---------------------------------------------------------------- the whitelist's view

  function GroupNames(gs: seq<Group>): seq<string> {
    if gs == [] then [] else GroupNames(gs[..|gs| - 1]) + [gs[|gs| - 1].key]
  }

  lemma {:induction false} NormalizedTexts(gs: seq<Group>)
    requires Bracketless(gs)
    ensures NormalizedKeys(Texts(gs)) == GroupNames(gs)
  {
    if gs != [] {
      var n := |gs| - 1;
      assert Texts(gs)[..n] == Texts(gs[..n]) && Texts(gs)[n] == Text(gs[n]);
      NormalizedTexts(gs[..n]);
      ParseText(gs[n]);
    }
  }

  lemma NamesAppend(gs: seq<Group>, g: Group)
    ensures GroupNames(gs + [g]) == GroupNames(gs) + [g.key]
  {
    assert (gs + [g])[..|gs|] == gs;
  }

  lemma NamesGrown(gs: seq<Group>, i: nat)
    requires gs != []
    ensures GroupNames(Grown(gs, i)) == GroupNames(gs)
  {
    var n := |gs| - 1;
    NamesAppend(gs[..n], gs[n].(indices := gs[n].indices + [i]));
  }

  lemma TokenKeysSnoc(front: Path, last: Token)
    ensures TokenKeys(front + [last]) ==
            if last.Idx? then TokenKeys(front) else (if front == [] then [] else TokenKeys(front)) + [last.k]
  {
    KeyTokensExactly(front, [last]);
    if front == [] {
      assert front + [last] == [last] && KeyTokens(front) == [];
    }
  }

  lemma {:induction false} NamesAreTokenKeys(p: Path)
    ensures GroupNames(Grouped(p)) == TokenKeys(p)
  {
    if p == [] {
      NamesOne("");
    } else {
      var front, last := p[..|p| - 1], p[|p| - 1];
      NamesAreTokenKeys(front);
      assert p == front + [last];
      TokenKeysSnoc(front, last);
      hide GroupNames, TokenKeys;
      match last {
        case Key(k) =>
          NamesAppend(Grouped(front), Group(k, []));
          NamesOne(k);
        case Idx(i) =>
          NamesGrown(Grouped(front), i);
      }
    }
  }

  lemma NamesOne(k: string)
    ensures GroupNames([Group(k, [])]) == [k]
  {
    NamesAppend([], Group(k, []));
    assert [] + [Group(k, [])] == [Group(k, [])];
  }

  /** The keys that the whitelist is asked for are those of the path's steps. */
  lemma WhitelistKeysExactly(p: Path)
    requires PlainKeys(p)
    ensures NormalizedKeys(Split(Render(p))) == TokenKeys(p)
  {
    SplitRender(p);
    GroupKeys(p);
    NormalizedTexts(Grouped(p));
    NamesAreTokenKeys(p);
  }
}
