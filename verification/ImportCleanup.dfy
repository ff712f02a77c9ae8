/** Removing imports that a rewrite made obsolete: can the list of replacements still be applied in order? */
module ImportCleanup {
  import opened Options
  import opened Splice
  import Sorting

  // ---------------------------------------------------------------- the range of an import statement

  /** Where the line of this position ends: at its newline, or at the end of the text. */
  function LineEnd(source: string, i: nat): (e: nat)
    requires i <= |source|
    ensures i <= e <= |source| && (e < |source| ==> source[e] == '\n')
    ensures forall j :: i <= j < e ==> source[j] != '\n'
    decreases |source| - i
  {
    if i == |source| || source[i] == '\n' then i else LineEnd(source, i + 1)
  }

  /** The parenthesis that brings the count back to zero. */
  function Closing(source: string, i: nat, depth: int): (r: Option<nat>)
    requires i <= |source|
    ensures r.Some? ==> i <= r.value < |source|
    decreases |source| - i
  {
    if i == |source| then None
    else if source[i] == '(' then Closing(source, i + 1, depth + 1)
    else if source[i] == ')' then if depth == 1 then Some(i) else Closing(source, i + 1, depth - 1)
    else Closing(source, i + 1, depth)
  }

  /** The end of the statement's last line; a parenthesised list of names may take several. */
  function LastLineEnd(source: string, lineStart: nat): (e: nat)
    requires lineStart <= |source|
    ensures lineStart <= e <= |source| && (e < |source| ==> source[e] == '\n')
  {
    var first := LineEnd(source, lineStart);
    var closing := Closing(source, lineStart, 0);
    if '(' in source[lineStart..first] && closing.Some? then LineEnd(source, closing.value) else first
  }

  /** Including the newline. */
  function StatementEnd(source: string, lineStart: nat): (e: nat)
    requires lineStart <= |source|
    ensures lineStart <= e <= |source|
    ensures e == |source| || (e > lineStart && source[e - 1] == '\n')
  {
    var e := LastLineEnd(source, lineStart);
    if e < |source| then e + 1 else e
  }

  /** _import_statement_range, given the offset at which the statement's line starts. */
  method ImportStatementRange(source: string, lineStart: nat) returns (start: nat, end: nat)
    requires lineStart <= |source|
    ensures start == lineStart && end == StatementEnd(source, lineStart)
  {
    start := lineStart;
    end := ToLineEnd(source, lineStart);
    if '(' in source[lineStart..end] {
      var depth, i := 0, lineStart;
      while i < |source|
        invariant lineStart <= i <= |source| && end == LineEnd(source, lineStart)
        invariant Closing(source, lineStart, 0) == Closing(source, i, depth)
      {
        if source[i] == '(' {
          depth := depth + 1;
        } else if source[i] == ')' {
          depth := depth - 1;
          if depth == 0 {
            end := i;
            break;
          }
        }
        i := i + 1;
      }
      end := ToLineEnd(source, end);
    }
    if end < |source| {
      end := end + 1;
    }
  }

  method ToLineEnd(source: string, i: nat) returns (e: nat)
    requires i <= |source|
    ensures e == LineEnd(source, i)
  {
    e := i;
    while e < |source| && source[e] != '\n'
      invariant i <= e <= |source| && LineEnd(source, i) == LineEnd(source, e)
    {
      e := e + 1;
    }
  }

  /** How much deeper in parentheses the text is at `k` than at `i`. */
  function Nesting(source: string, i: nat, k: nat): int
    requires i <= k <= |source|
    decreases k - i
  {
    if i == k then 0
    else (if source[i] == '(' then 1 else if source[i] == ')' then -1 else 0) + Nesting(source, i + 1, k)
  }

  /** A closing parenthesis after which as many have been closed as opened. */
  ghost predicate Closes(source: string, i: nat, depth: int, k: nat)
    requires i <= |source|
  {
    i <= k < |source| && source[k] == ')' && depth + Nesting(source, i, k + 1) == 0
  }

  /** The first such parenthesis is found, if there is one. */
  lemma {:induction false} ClosingExactly(source: string, i: nat, depth: int)
    requires i <= |source|
    ensures var r := Closing(source, i, depth);
            && (r.Some? ==> Closes(source, i, depth, r.value))
            && forall k :: Closes(source, i, depth, k) ==> r.Some? && r.value <= k
    decreases |source| - i
  {
    if i < |source| {
      var next := depth + if source[i] == '(' then 1 else if source[i] == ')' then -1 else 0;
      ClosingExactly(source, i + 1, next);
      assert Nesting(source, i + 1, i + 1) == 0;
      forall k | i < k ensures Closes(source, i, depth, k) <==> Closes(source, i + 1, next, k) {
      }
    }
  }

  /** An opening parenthesis on the line that starts here. */
  ghost predicate OpensOnLine(source: string, lineStart: nat) {
    exists j :: lineStart <= j < |source| && source[j] == '(' && forall i :: lineStart <= i < j ==> source[i] != '\n'
  }

  /** Whole lines: from `from` the text goes on to a newline, which is the last character, or to the end of the file. */
  ghost predicate EndsLineOf(source: string, from: nat, end: nat) {
    && from <= end <= |source|
    && (end < |source| ==> from < end && source[end - 1] == '\n')
    && forall i :: from <= i < end - 1 ==> source[i] != '\n'
  }

  /**
    The statement ends with the line of the parenthesis that closes it, if one is opened on its first line and closed
    anywhere, and with its first line otherwise.
   */
  lemma StatementEndExactly(source: string, lineStart: nat)
    requires lineStart <= |source|
    ensures var end := StatementEnd(source, lineStart);
            && (forall k :: OpensOnLine(source, lineStart) && Closes(source, lineStart, 0, k)
                            && (forall j :: lineStart <= j < k ==> !Closes(source, lineStart, 0, j)) ==>
                  EndsLineOf(source, k, end))
            && (!OpensOnLine(source, lineStart) || (forall k :: !Closes(source, lineStart, 0, k)) ==>
                  EndsLineOf(source, lineStart, end))
  {
    var first := LineEnd(source, lineStart);
    ClosingExactly(source, lineStart, 0);
    assert OpensOnLine(source, lineStart) <==> '(' in source[lineStart..first] by {
      if '(' in source[lineStart..first] {
        var j :| 0 <= j < first - lineStart && source[lineStart..first][j] == '(';
        assert source[lineStart + j] == '(';
      }
      if j :| lineStart <= j < |source| && source[j] == '(' && forall i :: lineStart <= i < j ==> source[i] != '\n' {
        assert j < first && source[lineStart..first][j - lineStart] == '(';
      }
    }
  }

  // ---------------------------------------------------------------- the whole list

  ghost predicate NonEmpty(reps: seq<Replacement>) {
    forall i :: 0 <= i < |reps| ==> reps[i].start < reps[i].end
  }

  predicate Clear(a: Replacement, b: Replacement) {
    a.end <= b.start || b.end <= a.start
  }

  /** No expression that is rewritten shares a line with an import that is cleaned up. */
  ghost predicate AllClear(exprs: seq<Replacement>, imports: seq<Replacement>) {
    forall i, j :: 0 <= i < |exprs| && 0 <= j < |imports| ==> Clear(exprs[i], imports[j])
  }

  lemma DisjointConcat(a: seq<Replacement>, b: seq<Replacement>)
    ensures Disjoint(a + b) <==> Disjoint(a) && Disjoint(b) && AllClear(a, b)
  {
    var all := a + b;
    if Disjoint(all) {
      assert forall i :: 0 <= i < |a| ==> all[i] == a[i];
      assert forall j :: 0 <= j < |b| ==> all[|a| + j] == b[j];
    }
    if Disjoint(a) && Disjoint(b) && AllClear(a, b) {
      forall i, j | 0 <= i < j < |all| ensures Clear(all[i], all[j]) {
        if j < |a| {
          assert all[i] == a[i] && all[j] == a[j];
        } else if i >= |a| {
          assert all[i] == b[i - |a|] && all[j] == b[j - |a|];
        } else {
          assert all[i] == a[i] && all[j] == b[j - |a|];
        }
      }
    }
  }

  lemma OrderlyNonEmpty(source: string, reps: seq<Replacement>)
    requires InBounds(source, reps) && NonEmpty(reps)
    ensures Orderly(reps) <==> Disjoint(reps)
  {
    OrderlyExactly(source, reps);
  }

  /**
    The list that process_file builds, rewritten expressions first and then import statements: it can be applied in
    order if and only if no two cleaned-up imports share a line, nor an import and an expression.
   */
  lemma CleanupOrderlyExactly(source: string, exprs: seq<Replacement>, imports: seq<Replacement>)
    requires InBounds(source, exprs + imports) && NonEmpty(exprs + imports) && Disjoint(exprs)
    ensures Orderly(exprs + imports) <==> Disjoint(imports) && AllClear(exprs, imports)
  {
    OrderlyNonEmpty(source, exprs + imports);
    DisjointConcat(exprs, imports);
  }

  /** What shares the line is lost: the removal takes the line as it was before the expression on it was rewritten. */
  lemma SharedLineLost(source: string, lineStart: nat, r: Replacement)
    requires lineStart <= |source| && lineStart < r.start < r.end <= StatementEnd(source, lineStart)
    requires |r.text| == r.end - r.start
    ensures var end := StatementEnd(source, lineStart);
            var reps := [r, Replacement(lineStart, end, "")];
            && !Orderly(reps)
            && Applied(source, Sorted(reps)) == source[..lineStart] + source[end..]
  {
    var end := StatementEnd(source, lineStart);
    var removal := Replacement(lineStart, end, "");
    LaterFirst(r, removal);
    hide Sorted, StatementEnd, Applied, Cut;
    AppliedPair(source, r, removal);
    RemovedAfterwards(source, lineStart, end, r);
    assert [r, removal][1..] == [removal] && !Placed(r, removal);
  }

  lemma RemovedAfterwards(source: string, lineStart: nat, end: nat, r: Replacement)
    requires lineStart < r.start < r.end <= end <= |source| && |r.text| == r.end - r.start
    ensures Cut(Cut(source, r), Replacement(lineStart, end, "")) == source[..lineStart] + source[end..]
  {
    var once := Cut(source, r);
    assert once == source[..r.start] + r.text + source[r.end..];
    hide Cut;
    assert |once| == |source|;
    assert once[..lineStart] == source[..lineStart];
    assert once[end..] == source[end..];
    CutOut(once, lineStart, end);
  }

  lemma CutOut(text: string, start: nat, end: nat)
    requires start <= end <= |text|
    ensures Cut(text, Replacement(start, end, "")) == text[..start] + text[end..]
  {
  }

  lemma LaterFirst(a: Replacement, b: Replacement)
    requires a.start > b.start
    ensures Sorted([a, b]) == [a, b]
  {
    assert [a, b][1..] == [b] && [b][1..] == [];
    assert Sorting.LargestFirst([b], Start) == Sorting.Insert(b, [], Start) == [b];
    assert Sorting.LargestFirst([a, b], Start) == Sorting.Insert(a, [b], Start) == [a] + [b];
  }

  lemma {:induction false} OneLine(source: string, i: nat)
    requires i <= |source| && '\n' !in source
    ensures LineEnd(source, i) == |source|
    decreases |source| - i
  {
    if i < |source| {
      assert source[i] in source;
      OneLine(source, i + 1);
    }
  }

  /** A file of one line, such as `from typing import List; x: List[int] = []`, is emptied. */
  lemma OneLineFileLost(source: string, r: Replacement)
    requires '\n' !in source && '(' !in source
    requires 0 < r.start < r.end <= |source| && |r.text| == r.end - r.start
    ensures Applied(source, Sorted([r, Replacement(0, StatementEnd(source, 0), "")])) == ""
  {
    OneLine(source, 0);
    assert StatementEnd(source, 0) == |source|;
    SharedLineLost(source, 0, r);
  }
}
