/** The matchers that output is checked against; two of them compare line by line. */
module Matchers {
  import opened Wrappers
  import Sorting
  import StoreText
  import Timestamps

  datatype Matcher =
    | Exact(text: string)
    | Regex(pattern: string)
    | Contains(part: string)
    | NotContains(part: string)
    | LinesUnordered(lines: seq<string>)
    | LinesOrderedSubset(lines: seq<string>)

  /** Why a check failed; a missing line is named. */
  datatype Verdict = Fine | Differs | BadPattern | NoMatch | Absent | Present | LinesDiffer | Missing(line: string)

  /** The regular-expression engine: whether a pattern matches a text, nothing when it does not compile. */
  type Engine = (string, string) -> Option<bool>

  predicate OccursAt(part: string, text: string, i: int)
    requires 0 <= i <= |text| - |part|
  {
    text[i..i + |part|] == part
  }

  predicate Occurs(part: string, text: string)
  {
    exists i :: 0 <= i <= |text| - |part| && OccursAt(part, text, i)
  }

  /** A part occurs when the text is something, the part, and something more. */
  lemma OccursIff(part: string, text: string)
    ensures Occurs(part, text) <==> exists before: string, after: string :: text == before + part + after
  {
    if Occurs(part, text) {
      var i :| 0 <= i <= |text| - |part| && OccursAt(part, text, i);
      assert text == text[..i] + part + text[i + |part|..];
    }
    if before: string, after: string :| text == before + part + after {
      assert OccursAt(part, text, |before|);
    }
  }

  // ----- lines in order --------------------------------------------------------------------------

  /** Where each wanted line is found: later and later. */
  ghost predicate Embeds(want: seq<string>, lines: seq<string>, at: seq<nat>)
  {
    && |at| == |want|
    && (forall i | 0 <= i < |at| :: at[i] < |lines| && lines[at[i]] == want[i])
    && (forall i, j | 0 <= i < j < |at| :: at[i] < at[j])
  }

  ghost predicate Subsequence(want: seq<string>, lines: seq<string>)
  {
    exists at :: Embeds(want, lines, at)
  }

  /** The greedy scan finds as much as any scan: the wanted lines so far fit into `lines[..pos]` and, when
      `pos > 0`, into nothing shorter. */
  ghost predicate Greedy(want: seq<string>, lines: seq<string>, pos: nat)
  {
    && pos <= |lines| && Subsequence(want, lines[..pos])
    && forall n | 0 <= n < pos :: !Subsequence(want, lines[..n])
  }

  lemma EmptyGreedy(lines: seq<string>)
    ensures Greedy([], lines, 0)
  {
    assert Embeds([], lines[..0], []);
  }

  /** A longer list of wanted lines needs its last line at or after `pos`. */
  lemma LastOfLonger(want: seq<string>, lines: seq<string>, pos: nat, line: string, n: nat)
    requires Greedy(want, lines, pos) && n <= |lines| && forall k | pos <= k < n :: lines[k] != line
    ensures !Subsequence(want + [line], lines[..n])
  {
    if Subsequence(want + [line], lines[..n]) {
      var at :| Embeds(want + [line], lines[..n], at);
      var m := |want|;
      var k := at[m];
      assert lines[k] == line && k < pos;
      assert Embeds(want, lines[..k], at[..m]) by {
        forall i | 0 <= i < m
          ensures at[..m][i] < k && lines[..k][at[..m][i]] == want[i]
        {
          assert at[i] < at[m] && (want + [line])[i] == want[i];
        }
      }
    }
  }

  lemma GreedyNext(want: seq<string>, lines: seq<string>, pos: nat, line: string, found: nat)
    requires Greedy(want, lines, pos) && pos <= found < |lines| && lines[found] == line
    requires forall k | pos <= k < found :: lines[k] != line
    ensures Greedy(want + [line], lines, found + 1)
  {
    var at :| Embeds(want, lines[..pos], at);
    assert Embeds(want + [line], lines[..found + 1], at + [found]);
    forall n | 0 <= n < found + 1
      ensures !Subsequence(want + [line], lines[..n])
    {
      LastOfLonger(want, lines, pos, line, n);
    }
  }

  lemma {:induction false} PrefixSubsequence(want: seq<string>, lines: seq<string>, n: nat)
    requires n <= |want| && Subsequence(want, lines)
    ensures Subsequence(want[..n], lines)
  {
    var at :| Embeds(want, lines, at);
    assert Embeds(want[..n], lines, at[..n]);
  }

  // ----- lines in any order ----------------------------------------------------------------------

  predicate TextUpTo(a: string, b: string)
  {
    a == b || Timestamps.TextLess(a, b)
  }

  lemma {:induction false} TextOneWay(a: string, b: string)
    ensures TextUpTo(a, b) || TextUpTo(b, a)
    ensures TextUpTo(a, b) && TextUpTo(b, a) ==> a == b
  {
    if |a| > 0 && |b| > 0 && a[0] == b[0] {
      TextOneWay(a[1..], b[1..]);
      assert a == [a[0]] + a[1..] && b == [b[0]] + b[1..];
    }
  }

  lemma {:induction false} TextTransitive(a: string, b: string, c: string)
    requires Timestamps.TextLess(a, b) && Timestamps.TextLess(b, c)
    ensures Timestamps.TextLess(a, c)
  {
    if |a| > 0 && a[0] == b[0] == c[0] {
      TextTransitive(a[1..], b[1..], c[1..]);
    }
  }

  lemma TextTotal()
    ensures Sorting.Total(TextUpTo)
  {
    forall a, b
      ensures TextUpTo(a, b) || TextUpTo(b, a)
    {
      TextOneWay(a, b);
    }
    forall a, b, c | TextUpTo(a, b) && TextUpTo(b, c)
      ensures TextUpTo(a, c)
    {
      if a != b && b != c {
        TextTransitive(a, b, c);
      }
    }
  }

  lemma SameSize(a: seq<string>, b: seq<string>)
    requires multiset(a) == multiset(b)
    ensures |a| == |b|
  {
    assert |multiset(a)| == |a| && |multiset(b)| == |b|;
  }

  lemma LastIsGreatest(a: seq<string>, y: string)
    requires Sorting.Sorted(a, TextUpTo) && y in a
    ensures TextUpTo(y, a[|a| - 1])
  {
    var j :| 0 <= j < |a| && a[j] == y;
  }

  lemma LastSame(a: seq<string>, b: seq<string>)
    requires Sorting.Sorted(a, TextUpTo) && Sorting.Sorted(b, TextUpTo) && multiset(a) == multiset(b)
    requires |a| > 0 && |b| > 0
    ensures a[|a| - 1] == b[|b| - 1]
  {
    var x, y := a[|a| - 1], b[|b| - 1];
    assert x in multiset(a) && y in multiset(b);
    assert x in b && y in a;
    LastIsGreatest(a, y);
    LastIsGreatest(b, x);
    TextOneWay(x, y);
  }

  lemma RestSame(a: seq<string>, b: seq<string>, x: string)
    requires multiset(a + [x]) == multiset(b + [x])
    ensures multiset(a) == multiset(b)
  {
    assert multiset(a + [x]) - multiset{x} == multiset(a);
    assert multiset(b + [x]) - multiset{x} == multiset(b);
  }

  lemma RestSorted(a: seq<string>, x: string)
    requires Sorting.Sorted(a + [x], TextUpTo)
    ensures Sorting.Sorted(a, TextUpTo)
  {
    assert forall i | 0 <= i < |a| :: (a + [x])[i] == a[i];
  }

  /** Two sorted lists of the same lines are the same list. */
  lemma {:induction false} SortedSame(a: seq<string>, b: seq<string>)
    requires Sorting.Sorted(a, TextUpTo) && Sorting.Sorted(b, TextUpTo) && multiset(a) == multiset(b)
    ensures a == b
  {
    hide TextUpTo, Sorting.Sorted;
    SameSize(a, b);
    if |a| > 0 {
      LastSame(a, b);
      var x, a', b' := a[|a| - 1], a[..|a| - 1], b[..|b| - 1];
      assert a == a' + [x] && b == b' + [x];
      RestSame(a', b', x);
      RestSorted(a', x);
      RestSorted(b', x);
      SortedSame(a', b');
    }
  }

  // ----- the check -------------------------------------------------------------------------------

  /** What a matcher accepts. */
  ghost predicate Accepts(m: Matcher, actual: string, engine: Engine)
  {
    match m
    case Exact(text) => actual == text
    case Regex(pattern) => engine(pattern, actual) == Some(true)
    case Contains(part) => exists before: string, after: string :: actual == before + part + after
    case NotContains(part) => forall before: string, after: string :: actual != before + part + after
    case LinesUnordered(lines) => multiset(StoreText.Lines(actual)) == multiset(lines)
    case LinesOrderedSubset(lines) => Subsequence(lines, StoreText.Lines(actual))
  }

  /** Advance to just after the next line that equals `want`, or to the end. */
  method NextLine(lines: seq<string>, pos: nat, want: string) returns (found: bool, next: nat)
    requires pos <= |lines|
    ensures found ==> pos < next <= |lines| && lines[next - 1] == want
                      && forall k | pos <= k < next - 1 :: lines[k] != want
    ensures !found ==> next == |lines| && forall k | pos <= k < |lines| :: lines[k] != want
  {
    next := pos;
    while next < |lines|
      invariant pos <= next <= |lines| && forall k | pos <= k < next :: lines[k] != want
    {
      next := next + 1;
      if lines[next - 1] == want {
        return true, next;
      }
    }
    found := false;
  }

  lemma GreedyFits(want: seq<string>, lines: seq<string>, pos: nat)
    requires Greedy(want, lines, pos)
    ensures Subsequence(want, lines)
  {
    var at :| Embeds(want, lines[..pos], at);
    assert Embeds(want, lines, at);
  }

  /** The lines of `want` in order among `lines`; the first that cannot be found after the others is
      reported. */
  method LinesInOrder(want: seq<string>, lines: seq<string>) returns (v: Verdict)
    ensures v == Fine <==> Subsequence(want, lines)
    ensures v == Fine || v.Missing?
    ensures v != Fine ==> exists i :: 0 <= i < |want| && v == Missing(want[i])
                                      && Subsequence(want[..i], lines) && !Subsequence(want[..i + 1], lines)
  {
    hide Subsequence;
    var pos: nat := 0;
    EmptyGreedy(lines);
    for i := 0 to |want|
      invariant pos <= |lines| && Greedy(want[..i], lines, pos)
    {
      assert want[..i + 1] == want[..i] + [want[i]];
      var found, next := NextLine(lines, pos, want[i]);
      if !found {
        LastOfLonger(want[..i], lines, pos, want[i], |lines|);
        assert lines[..|lines|] == lines;
        GreedyFits(want[..i], lines, pos);
        if Subsequence(want, lines) {
          PrefixSubsequence(want, lines, i + 1);
        }
        return Missing(want[i]);
      }
      GreedyNext(want[..i], lines, pos, want[i], next - 1);
      pos := next;
    }
    assert want[..|want|] == want;
    GreedyFits(want, lines, pos);
    v := Fine;
  }

  /** Both lists sorted and compared. */
  method SameLines(want: seq<string>, lines: seq<string>) returns (same: bool)
    ensures same <==> multiset(lines) == multiset(want)
  {
    hide Sorting.Sort;
    var a, e := Sorting.Sort(lines, TextUpTo), Sorting.Sort(want, TextUpTo);
    TextTotal();
    Sorting.SortSorted(lines, TextUpTo);
    Sorting.SortSorted(want, TextUpTo);
    if multiset(lines) == multiset(want) {
      SortedSame(a, e);
    }
    same := a == e;
  }

  /** The check accepts exactly what the matcher describes. */
  method Check(m: Matcher, actual: string, engine: Engine) returns (v: Verdict)
    ensures v == Fine <==> Accepts(m, actual, engine)
    ensures v == BadPattern <==> m.Regex? && engine(m.pattern, actual).None?
    ensures v == NoMatch <==> m.Regex? && engine(m.pattern, actual) == Some(false)
    ensures v == Differs <==> m.Exact? && v != Fine
    ensures v == Absent <==> m.Contains? && v != Fine
    ensures v == Present <==> m.NotContains? && v != Fine
    ensures v == LinesDiffer <==> m.LinesUnordered? && v != Fine
    ensures v.Missing? <==> m.LinesOrderedSubset? && v != Fine
  {
    hide Subsequence, Occurs;
    match m
    case Exact(text) => v := if actual == text then Fine else Differs;
    case Regex(pattern) =>
      var matched := engine(pattern, actual);
      v := if matched.None? then BadPattern else if matched.value then Fine else NoMatch;
    case Contains(part) =>
      OccursIff(part, actual);
      v := if Occurs(part, actual) then Fine else Absent;
    case NotContains(part) =>
      OccursIff(part, actual);
      v := if !Occurs(part, actual) then Fine else Present;
    case LinesUnordered(lines) =>
      var same := SameLines(lines, StoreText.Lines(actual));
      v := if same then Fine else LinesDiffer;
    case LinesOrderedSubset(lines) =>
      v := LinesInOrder(lines, StoreText.Lines(actual));
  }
}
