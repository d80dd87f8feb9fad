/** PLAN.md: the generator that writes it from the catalog, and the two readers of its tick boxes. */
module PlanMd {
  import opened Wrappers
  import opened StoreText
  import Timestamps

  // ----- reading ticks ---------------------------------------------------------------------------

  /** The leading digits of a text. */
  function DigitRun(s: string): (r: string)
    ensures |r| <= |s| && r == s[..|r|]
    ensures forall i | 0 <= i < |r| :: IsDigit(r[i])
  {
    if |s| == 0 || !IsDigit(s[0]) then "" else [s[0]] + DigitRun(s[1..])
  }

  const OPEN: string := "- ["
  const CLOSE: string := "] **Stage "

  /** What `^- \[([ xX])\] \*\*Stage (\d+)` captures on a line: a stage number and a tick. */
  function TickOf(line: string): Option<(nat, bool)>
  {
    if |line| > 14 && line[..3] == OPEN && (line[3] == ' ' || line[3] == 'x' || line[3] == 'X')
       && line[4..14] == CLOSE && IsDigit(line[14])
    then
      match ParseDigits(DigitRun(line[14..]))
      case Some(n) => Some((n, line[3] != ' '))
      case None => None
    else None
  }

  lemma {:induction false} RunEnds(digits: string, rest: string)
    requires forall i | 0 <= i < |digits| :: IsDigit(digits[i])
    requires |rest| > 0 ==> !IsDigit(rest[0])
    ensures DigitRun(digits + rest) == digits
  {
    if |digits| == 0 {
      assert digits + rest == rest;
    } else {
      assert (digits + rest)[1..] == digits[1..] + rest;
      RunEnds(digits[1..], rest);
      assert digits == [digits[0]] + digits[1..];
    }
  }

  lemma {:induction false} RunIsWhole(s: string)
    ensures |DigitRun(s)| < |s| ==> !IsDigit(s[|DigitRun(s)|])
  {
    if |s| > 0 && IsDigit(s[0]) {
      RunIsWhole(s[1..]);
    }
  }

  /** A line that starts with a dash, a box with a blank or a tick in it, and the number of a stage in bold. */
  ghost predicate EntryParts(line: string, box: char, digits: string, rest: string)
  {
    && line == "- [" + [box] + "] **Stage " + digits + rest
    && (box == ' ' || box == 'x' || box == 'X')
    && |digits| > 0 && (forall i | 0 <= i < |digits| :: '0' <= digits[i] <= '9')
    && (|rest| > 0 ==> !('0' <= rest[0] <= '9'))
  }

  lemma {:induction false} DigitsParse(digits: string)
    requires forall i | 0 <= i < |digits| :: IsDigit(digits[i])
    ensures ParseDigits(digits).Some?
  {
    if |digits| > 0 {
      DigitsParse(digits[..|digits| - 1]);
    }
  }

  /** A line is an entry's if and only if it has those parts, and then says the number and whether the box is ticked. */
  lemma TickIs(line: string, box: char, digits: string, rest: string)
    requires EntryParts(line, box, digits, rest)
    ensures ParseDigits(digits).Some? && TickOf(line) == Some((ParseDigits(digits).value, box != ' '))
  {
    hide ParseDigits, DigitRun;
    RunEnds(digits, rest);
    DigitsParse(digits);
    assert line[..3] == OPEN && line[4..14] == CLOSE && line[14..] == digits + rest && line[14] == digits[0];
  }

  lemma SomeDigits(s: string)
    requires |s| > 0 && IsDigit(s[0])
    ensures |DigitRun(s)| > 0
  {
  }

  lemma TickIff(line: string)
    ensures TickOf(line).Some? <==> exists box, digits, rest :: EntryParts(line, box, digits, rest)
  {
    hide ParseDigits, DigitRun;
    if TickOf(line).Some? {
      var digits := DigitRun(line[14..]);
      var rest := line[14 + |digits|..];
      RunIsWhole(line[14..]);
      SomeDigits(line[14..]);
      assert line[14..] == digits + rest;
      assert line == line[..3] + [line[3]] + line[4..14] + line[14..];
      assert EntryParts(line, line[3], digits, rest);
    }
    if box, digits, rest :| EntryParts(line, box, digits, rest) {
      TickIs(line, box, digits, rest);
    }
  }

  type Ticks = map<nat, bool>

  /** Line `i` is the last one that says something of stage `n`. */
  ghost predicate SaysLast(lines: seq<string>, n: nat, i: nat)
  {
    && i < |lines| && TickOf(lines[i]).Some? && TickOf(lines[i]).value.0 == n
    && forall j | i < j < |lines| && TickOf(lines[j]).Some? :: TickOf(lines[j]).value.0 != n
  }

  ghost predicate SaysNothing(lines: seq<string>, n: nat)
  {
    forall j | 0 <= j < |lines| && TickOf(lines[j]).Some? :: TickOf(lines[j]).value.0 != n
  }

  /** The ticks of some lines: a later line wins. Numbers from `limit` on are passed over. */
  function TicksIn(lines: seq<string>, limit: Option<nat>): Ticks
  {
    if |lines| == 0 then map[]
    else
      var before := TicksIn(lines[..|lines| - 1], limit);
      match TickOf(lines[|lines| - 1])
      case None => before
      case Some((n, ticked)) => if limit.Some? && n >= limit.value then before else before[n := ticked]
  }

  lemma SaysMore(init: seq<string>, last: string, n: nat)
    ensures
      var lines, says := init + [last], TickOf(last).Some? && TickOf(last).value.0 == n;
      && (SaysNothing(lines, n) <==> SaysNothing(init, n) && !says)
      && (says ==> SaysLast(lines, n, |init|))
      && (!says ==> forall i: nat | SaysLast(init, n, i) :: SaysLast(lines, n, i))
  {
    hide TickOf;
    var lines := init + [last];
    assert forall j | 0 <= j < |init| :: init[j] == lines[j];
    assert lines[|init|] == last;
  }

  /** The ticks of some lines, line by line: a stage has the tick of the last line about it. */
  lemma {:induction false} TicksAre(lines: seq<string>, limit: Option<nat>, n: nat)
    ensures n in TicksIn(lines, limit) <==> !SaysNothing(lines, n) && (limit.Some? ==> n < limit.value)
    ensures n in TicksIn(lines, limit) ==>
              exists i: nat :: SaysLast(lines, n, i) && TickOf(lines[i]) == Some((n, TicksIn(lines, limit)[n]))
  {
    hide TickOf;
    if |lines| > 0 {
      var init, last := lines[..|lines| - 1], lines[|lines| - 1];
      assert lines == init + [last];
      TicksAre(init, limit, n);
      SaysMore(init, last, n);
      hide SaysNothing;
      if n in TicksIn(lines, limit) {
        if TickOf(last).Some? && TickOf(last).value.0 == n {
          assert SaysLast(lines, n, |init|);
        } else {
          var i: nat :| SaysLast(init, n, i) && TickOf(init[i]) == Some((n, TicksIn(init, limit)[n]));
          assert SaysLast(lines, n, i);
        }
      }
    }
  }

  /** Universal newlines: a text file as Python reads it. */
  function Universal(text: string): string
  {
    if |text| == 0 then ""
    else if text[0] != '\r' then [text[0]] + Universal(text[1..])
    else if |text| > 1 && text[1] == '\n' then "\n" + Universal(text[2..])
    else "\n" + Universal(text[1..])
  }

  const U32: nat := 0x1_0000_0000

  /** What the generator carries over: no file, no ticks. */
  function Carried(file: Option<string>): Ticks
  {
    if file.None? then map[] else TicksIn(Lines(Universal(file.value)), None)
  }

  /** What `--list` shows. */
  function Listed(file: Option<string>): Ticks
  {
    if file.None? then map[] else TicksIn(Lines(file.value), Some(U32))
  }

  method ExistingTicks(file: Option<string>) returns (ticks: Ticks)
    ensures ticks == Carried(file)
  {
    hide TickOf, Lines, Universal;
    ticks := map[];
    if file.None? {
      return;
    }
    var lines := Lines(Universal(file.value));
    for i := 0 to |lines|
      invariant ticks == TicksIn(lines[..i], None)
    {
      assert lines[..i + 1][..i] == lines[..i];
      var m := TickOf(lines[i]);
      if m.Some? {
        ticks := ticks[m.value.0 := m.value.1];
      }
    }
    assert lines[..|lines|] == lines;
  }

  method PlanTicks(file: Option<string>) returns (ticks: Ticks)
    ensures ticks == Listed(file)
  {
    hide TickOf, Lines;
    ticks := map[];
    if file.None? {
      return;
    }
    var lines := Lines(file.value);
    for i := 0 to |lines|
      invariant ticks == TicksIn(lines[..i], Some(U32))
    {
      assert lines[..i + 1][..i] == lines[..i];
      var m := TickOf(lines[i]);
      if m.Some? && m.value.0 < U32 {
        ticks := ticks[m.value.0 := m.value.1];
      }
    }
    assert lines[..|lines|] == lines;
  }

  // ----- the catalog -----------------------------------------------------------------------------

  datatype Ladder = Primitives | Algorithms | Node | Cluster
  {
    function Name(): string
    {
      match this
      case Primitives => "primitives"
      case Algorithms => "algorithms"
      case Node => "node"
      case Cluster => "cluster"
    }
  }

  datatype Stage = Stage(
    number: nat,
    name: string,
    ladder: Ladder,
    ext: bool,
    file: string,
    hints: seq<string>,
    tests: seq<bool>)

  datatype Section = Section(id: string, title: string, stages: seq<nat>)

  datatype Catalog = Catalog(sections: seq<Section>, stages: seq<Stage>)

  /** The fixed prose of the file: its opening lines, and what is said of each ladder. */
  datatype Prose = Prose(header: seq<string>, blurb: map<Ladder, string>)

  /** The stage of a number; the last one that has it. */
  function ByNumber(stages: seq<Stage>, n: nat): Option<Stage>
  {
    if |stages| == 0 then None
    else if stages[|stages| - 1].number == n then Some(stages[|stages| - 1])
    else ByNumber(stages[..|stages| - 1], n)
  }

  function Upper(c: char): char
  {
    if 'a' <= c <= 'z' then (c as int - 32) as char else c
  }

  function UpperAll(s: string): (r: string)
    ensures |r| == |s| && forall i | 0 <= i < |s| :: r[i] == Upper(s[i])
  {
    if |s| == 0 then "" else [Upper(s[0])] + UpperAll(s[1..])
  }

  /** Small letters become the capital at the same place in the alphabet, and nothing else changes. */
  lemma UpperIs(c: char)
    ensures 'a' <= c <= 'z' ==> 'A' <= Upper(c) <= 'Z' && Upper(c) - 'A' == c - 'a'
    ensures !('a' <= c <= 'z') ==> Upper(c) == c
  {
  }

  /** The ladder of the last of these stages that is in the catalog. */
  function LastLadder(c: Catalog, numbers: seq<nat>): Option<Ladder>
  {
    if |numbers| == 0 then None
    else
      match ByNumber(c.stages, numbers[|numbers| - 1])
      case Some(st) => Some(st.ladder)
      case None => LastLadder(c, numbers[..|numbers| - 1])
  }

  /** The ladders introduced before section `i`. */
  function Introduced(c: Catalog, i: nat): set<Ladder>
    requires i <= |c.sections|
  {
    if i == 0 then {}
    else
      match LastLadder(c, c.sections[i - 1].stages)
      case None => Introduced(c, i - 1)
      case Some(l) => Introduced(c, i - 1) + {l}
  }

  /** Position `j` of a section is the last whose number is in the catalog. */
  ghost predicate LastCatalogued(c: Catalog, numbers: seq<nat>, j: nat)
  {
    && j < |numbers| && ByNumber(c.stages, numbers[j]).Some?
    && forall l | j < l < |numbers| :: ByNumber(c.stages, numbers[l]).None?
  }

  lemma {:induction false} LastLadderIs(c: Catalog, numbers: seq<nat>)
    ensures LastLadder(c, numbers).None? <==> forall j | 0 <= j < |numbers| :: ByNumber(c.stages, numbers[j]).None?
    ensures forall j: nat | LastCatalogued(c, numbers, j) ::
              LastLadder(c, numbers) == Some(ByNumber(c.stages, numbers[j]).value.ladder)
  {
    hide ByNumber;
    if |numbers| > 0 {
      var init := numbers[..|numbers| - 1];
      LastLadderIs(c, init);
      assert forall j | 0 <= j < |init| :: init[j] == numbers[j];
      forall j: nat | LastCatalogued(c, numbers, j)
        ensures LastLadder(c, numbers) == Some(ByNumber(c.stages, numbers[j]).value.ladder)
      {
        if j < |init| {
          assert LastCatalogued(c, init, j);
        }
      }
    }
  }

  /** The stage of a number is the last one in the catalog that has it. */
  lemma {:induction false} ByNumberIs(stages: seq<Stage>, n: nat)
    ensures ByNumber(stages, n).None? <==> forall j | 0 <= j < |stages| :: stages[j].number != n
    ensures forall j | 0 <= j < |stages| && stages[j].number == n
              && (forall l | j < l < |stages| :: stages[l].number != n) :: ByNumber(stages, n) == Some(stages[j])
  {
    if |stages| > 0 {
      var init := stages[..|stages| - 1];
      ByNumberIs(init, n);
      assert forall j | 0 <= j < |init| :: init[j] == stages[j];
    }
  }

  /** A ladder has been introduced when some earlier section ends on it, so each blurb is written once. */
  lemma {:induction false} IntroducedIs(c: Catalog, i: nat, l: Ladder)
    requires i <= |c.sections|
    ensures l in Introduced(c, i) <==> exists k :: 0 <= k < i && LastLadder(c, c.sections[k].stages) == Some(l)
  {
    hide LastLadder;
    if i > 0 {
      IntroducedIs(c, i - 1, l);
    }
  }

  function ExtTests(tests: seq<bool>): nat
  {
    if |tests| == 0 then 0 else ExtTests(tests[..|tests| - 1]) + if tests[|tests| - 1] then 1 else 0
  }

  lemma {:induction false} ExtTestsAre(tests: seq<bool>)
    ensures ExtTests(tests) == multiset(tests)[true]
  {
    if |tests| > 0 {
      ExtTestsAre(tests[..|tests| - 1]);
      assert tests == tests[..|tests| - 1] + [tests[|tests| - 1]];
    }
  }

  // ----- the lines of the file -------------------------------------------------------------------

  function CountText(st: Stage): string
  {
    var ext := ExtTests(st.tests);
    Natural(|st.tests|) + (if |st.tests| == 1 then " test" else " tests")
    + (if ext > 0 && !st.ext then ", " + Natural(ext) + " ext" else "")
  }

  lemma OneIs()
    ensures Natural(1) == "1"
  {
  }

  /** How the tests of a stage are counted: one test or so many tests, and how many of them are extensions unless there
      are none or the whole stage is one. */
  lemma CountTextIs(st: Stage)
    ensures
      var tests := if |st.tests| == 1 then "1 test" else Natural(|st.tests|) + " tests";
      var ext := multiset(st.tests)[true];
      && (ext == 0 || st.ext ==> CountText(st) == tests)
      && (ext > 0 && !st.ext ==> CountText(st) == tests + ", " + Natural(ext) + " ext")
  {
    hide Natural;
    ExtTestsAre(st.tests);
    assert Natural(1) == "1" by { OneIs(); }
    assert "1" + " test" == "1 test";
    var ext := multiset(st.tests)[true];
    assert CountText(st) == (Natural(|st.tests|) + (if |st.tests| == 1 then " test" else " tests"))
                            + (if ext > 0 && !st.ext then ", " + Natural(ext) + " ext" else "");
  }

  /** What follows the number of a stage. */
  function StageRest(st: Stage): (r: string)
    ensures |r| > 0 && r[0] == '*'
  {
    "**" + (" — " + st.name + (if st.ext then " **[ext]**" else "")
            + " `" + st.ladder.Name() + "` (`" + st.file + "`, " + CountText(st) + ")")
  }

  function StageLine(st: Stage, number: nat, ticked: bool): string
  {
    OPEN + (if ticked then "x" else " ") + CLOSE + Timestamps.Padded(number, 2) + StageRest(st)
  }

  function PlannedLine(number: nat): string
  {
    OPEN + " " + CLOSE + Timestamps.Padded(number, 2) + "** — (planned)"
  }

  /** The words of an entry, one after the other. */
  lemma EntryText(st: Stage, n: nat, ticked: bool)
    ensures
      var ladder := if st.ladder == Primitives then "primitives" else if st.ladder == Algorithms then "algorithms"
                    else if st.ladder == Node then "node" else "cluster";
      StageLine(st, n, ticked)
      == "- [" + (if ticked then "x" else " ") + "] **Stage " + Timestamps.Padded(n, 2)
         + ("**" + (" — " + st.name + (if st.ext then " **[ext]**" else "")
                    + " `" + ladder + "` (`" + st.file + "`, " + CountText(st) + ")"))
    ensures PlannedLine(n) == "- [" + " " + "] **Stage " + Timestamps.Padded(n, 2) + "** — (planned)"
  {
    hide CountText, Timestamps.Padded;
  }

  function HintLines(hints: seq<string>): seq<string>
  {
    if |hints| == 0 then [] else HintLines(hints[..|hints| - 1]) + ["  - " + hints[|hints| - 1]]
  }

  /** Is the box of a stage ticked in the new file? Only a catalogued stage keeps its tick. */
  predicate Keeps(c: Catalog, was: Ticks, n: nat)
  {
    ByNumber(c.stages, n).Some? && n in was && was[n]
  }

  function EntryLines(c: Catalog, was: Ticks, n: nat): seq<string>
  {
    match ByNumber(c.stages, n)
    case None => [PlannedLine(n)]
    case Some(st) => [StageLine(st, n, Keeps(c, was, n))] + HintLines(st.hints)
  }

  function EntriesLines(c: Catalog, was: Ticks, numbers: seq<nat>): seq<string>
  {
    if |numbers| == 0 then []
    else EntriesLines(c, was, numbers[..|numbers| - 1]) + EntryLines(c, was, numbers[|numbers| - 1])
  }

  function SectionHead(prose: Prose, c: Catalog, i: nat): seq<string>
    requires i < |c.sections| && forall l :: l in prose.blurb
  {
    var s := c.sections[i];
    var ladder := LastLadder(c, s.stages);
    ["", "## " + UpperAll(s.id) + ". " + s.title]
    + (if ladder.Some? && ladder.value !in Introduced(c, i) then [prose.blurb[ladder.value], ""] else [])
  }

  function SectionsLines(prose: Prose, c: Catalog, was: Ticks, n: nat): seq<string>
    requires n <= |c.sections| && forall l :: l in prose.blurb
  {
    if n == 0 then []
    else
      SectionsLines(prose, c, was, n - 1) + SectionHead(prose, c, n - 1)
      + EntriesLines(c, was, c.sections[n - 1].stages)
  }

  function LadderStages(stages: seq<Stage>, l: Ladder): seq<Stage>
  {
    if |stages| == 0 then []
    else
      var last := stages[|stages| - 1];
      LadderStages(stages[..|stages| - 1], l) + (if last.ladder == l then [last] else [])
  }

  function TestCount(stages: seq<Stage>): nat
  {
    if |stages| == 0 then 0 else TestCount(stages[..|stages| - 1]) + |stages[|stages| - 1].tests|
  }

  function LadderRow(c: Catalog, l: Ladder): seq<string>
  {
    var mine := LadderStages(c.stages, l);
    if |mine| == 0 then []
    else ["| `" + l.Name() + "` | " + Natural(|mine|) + " | " + Natural(TestCount(mine)) + " |"]
  }

  lemma {:induction false} LadderStagesAre(stages: seq<Stage>, l: Ladder)
    ensures LadderStages(stages, l) == [] <==> forall i | 0 <= i < |stages| :: stages[i].ladder != l
  {
    if |stages| > 0 {
      LadderStagesAre(stages[..|stages| - 1], l);
    }
  }

  /** A ladder has a row exactly when some stage of the catalog is on it. */
  lemma LadderRowIs(c: Catalog, l: Ladder)
    ensures LadderRow(c, l) == [] <==> forall i | 0 <= i < |c.stages| :: c.stages[i].ladder != l
    ensures LadderRow(c, l) != [] ==>
              var mine := LadderStages(c.stages, l);
              LadderRow(c, l) == ["| `" + l.Name() + "` | " + Natural(|mine|) + " | " + Natural(TestCount(mine)) + " |"]
  {
    hide Natural, TestCount;
    LadderStagesAre(c.stages, l);
  }

  function TotalLines(c: Catalog): seq<string>
  {
    TABLE
    + LadderRow(c, Primitives) + LadderRow(c, Algorithms) + LadderRow(c, Node) + LadderRow(c, Cluster)
    + ["| **all** | **" + Natural(|c.stages|) + "** | **" + Natural(TestCount(c.stages)) + "** |"]
  }

  function PlanLines(prose: Prose, c: Catalog, was: Ticks): seq<string>
    requires forall l :: l in prose.blurb
  {
    prose.header + SectionsLines(prose, c, was, |c.sections|) + TotalLines(c)
  }

  /** Lines as text, each with its line break. */
  function Unlines(lines: seq<string>): string
  {
    if |lines| == 0 then "" else Unlines(lines[..|lines| - 1]) + lines[|lines| - 1] + "\n"
  }

  lemma {:induction false} UnlinesAppend(a: seq<string>, b: seq<string>)
    ensures Unlines(a + b) == Unlines(a) + Unlines(b)
  {
    if |b| == 0 {
      assert a + b == a;
    } else {
      assert (a + b)[..|a + b| - 1] == a + b[..|b| - 1];
      UnlinesAppend(a, b[..|b| - 1]);
    }
  }

  // ----- the generator ---------------------------------------------------------------------------

  lemma UnlinesNone()
    ensures Unlines([]) == ""
  {
  }

  lemma UnlinesOne(line: string)
    ensures Unlines([line]) == line + "\n"
  {
    assert [line][..0] == [];
  }

  /** The hints of a stage. */
  method WriteHints(hints: seq<string>) returns (r: string)
    ensures r == Unlines(HintLines(hints))
  {
    hide Unlines;
    UnlinesNone();
    r := "";
    for j := 0 to |hints|
      invariant r == Unlines(HintLines(hints[..j]))
    {
      assert hints[..j + 1][..j] == hints[..j];
      var line := "  - " + hints[j];
      UnlinesAppend(HintLines(hints[..j]), [line]);
      UnlinesOne(line);
      r := r + (line + "\n");
    }
    assert hints[..|hints|] == hints;
  }

  /** The entry of one stage number. */
  method WriteEntry(c: Catalog, ticks: Ticks, number: nat) returns (r: string)
    ensures r == Unlines(EntryLines(c, ticks, number))
  {
    hide Unlines, StageLine, PlannedLine, HintLines, ByNumber;
    match ByNumber(c.stages, number)
    case None =>
      UnlinesOne(PlannedLine(number));
      r := PlannedLine(number) + "\n";
    case Some(st) =>
      var line := StageLine(st, number, number in ticks && ticks[number]);
      UnlinesAppend([line], HintLines(st.hints));
      UnlinesOne(line);
      var hints := WriteHints(st.hints);
      r := line + "\n" + hints;
  }

  lemma EntriesOne(c: Catalog, ticks: Ticks, numbers: seq<nat>, j: nat)
    requires j < |numbers|
    ensures Unlines(EntriesLines(c, ticks, numbers[..j + 1]))
         == Unlines(EntriesLines(c, ticks, numbers[..j])) + Unlines(EntryLines(c, ticks, numbers[j]))
  {
    assert numbers[..j + 1][..j] == numbers[..j];
    UnlinesAppend(EntriesLines(c, ticks, numbers[..j]), EntryLines(c, ticks, numbers[j]));
  }

  /** The entries of a section. */
  method WriteEntries(c: Catalog, ticks: Ticks, numbers: seq<nat>) returns (r: string)
    ensures r == Unlines(EntriesLines(c, ticks, numbers))
  {
    hide Unlines, EntryLines;
    UnlinesNone();
    r := "";
    for j := 0 to |numbers|
      invariant r == Unlines(EntriesLines(c, ticks, numbers[..j]))
    {
      EntriesOne(c, ticks, numbers, j);
      var entry := WriteEntry(c, ticks, numbers[j]);
      r := r + entry;
    }
    assert numbers[..|numbers|] == numbers;
  }

  method FindLadder(c: Catalog, numbers: seq<nat>) returns (ladder: Option<Ladder>)
    ensures ladder == LastLadder(c, numbers)
  {
    ladder := None;
    for j := 0 to |numbers|
      invariant ladder == LastLadder(c, numbers[..j])
    {
      assert numbers[..j + 1][..j] == numbers[..j];
      var stage := ByNumber(c.stages, numbers[j]);
      if stage.Some? {
        ladder := Some(stage.value.ladder);
      }
    }
    assert numbers[..|numbers|] == numbers;
  }

  lemma UnlinesTwo(a: string, b: string)
    ensures Unlines([a, b]) == a + "\n" + b + "\n"
  {
    UnlinesOne(a);
    assert [a, b][..1] == [a];
  }

  /** The heading of a section, and the blurb of its ladder the first time it comes up. */
  method WriteHead(prose: Prose, c: Catalog, i: nat, seen: set<Ladder>) returns (r: string, now: set<Ladder>)
    requires i < |c.sections| && seen == Introduced(c, i) && forall l :: l in prose.blurb
    ensures r == Unlines(SectionHead(prose, c, i)) && now == Introduced(c, i + 1)
  {
    hide Unlines, LastLadder, UpperAll;
    var section := c.sections[i];
    var title := "## " + UpperAll(section.id) + ". " + section.title;
    r := "\n" + (title + "\n");
    now := seen;
    UnlinesTwo("", title);
    var ladder := FindLadder(c, section.stages);
    if ladder.Some? && ladder.value !in seen {
      now := now + {ladder.value};
      var blurb := prose.blurb[ladder.value];
      UnlinesAppend(["", title], [blurb, ""]);
      UnlinesTwo(blurb, "");
      r := r + (blurb + "\n\n");
    } else {
      assert SectionHead(prose, c, i) == ["", title];
    }
  }

  /** How many stages and tests a ladder has. */
  function Tally(stages: seq<Stage>, l: Ladder): (nat, nat)
  {
    (|LadderStages(stages, l)|, TestCount(LadderStages(stages, l)))
  }

  lemma LadderOne(stages: seq<Stage>, j: nat, l: Ladder)
    requires j < |stages|
    ensures var mine := LadderStages(stages[..j], l);
            LadderStages(stages[..j + 1], l) == if stages[j].ladder == l then mine + [stages[j]] else mine
  {
    assert stages[..j + 1][..j] == stages[..j];
  }

  lemma TestCountOne(stages: seq<Stage>, s: Stage)
    ensures TestCount(stages + [s]) == TestCount(stages) + |s.tests|
  {
    assert (stages + [s])[..|stages|] == stages;
  }

  lemma EmptyCounts()
    ensures TestCount([]) == 0
  {
  }

  lemma TallyOne(stages: seq<Stage>, j: nat, l: Ladder)
    requires j < |stages|
    ensures var t := Tally(stages[..j], l);
            && Tally(stages[..j + 1], l) == (if stages[j].ladder == l then (t.0 + 1, t.1 + |stages[j].tests|) else t)
            && (t.0 == 0 ==> t.1 == 0)
  {
    hide LadderStages, TestCount;
    var mine := LadderStages(stages[..j], l);
    LadderOne(stages, j, l);
    TestCountOne(mine, stages[j]);
    EmptyCounts();
    assert |mine| == 0 ==> mine == [];
  }

  lemma NothingTallied()
    ensures forall l :: Tally([], l) == (0, 0)
  {
  }

  method CountTotals(stages: seq<Stage>) returns (totals: map<Ladder, (nat, nat)>)
    ensures forall l :: l in totals <==> Tally(stages, l).0 > 0
    ensures forall l | l in totals :: totals[l] == Tally(stages, l)
  {
    hide Tally;
    NothingTallied();
    totals := map[];
    for j := 0 to |stages|
      invariant forall l :: l in totals <==> Tally(stages[..j], l).0 > 0
      invariant forall l | l in totals :: totals[l] == Tally(stages[..j], l)
    {
      forall l {
        TallyOne(stages, j, l);
      }
      var s := stages[j];
      var t := if s.ladder in totals then totals[s.ladder] else (0, 0);
      totals := totals[s.ladder := (t.0 + 1, t.1 + |s.tests|)];
    }
    assert stages[..|stages|] == stages;
  }

  lemma NoneTallied(stages: seq<Stage>)
    ensures forall l | Tally(stages, l).0 == 0 :: Tally(stages, l).1 == 0
  {
    forall l | Tally(stages, l).0 == 0
      ensures Tally(stages, l).1 == 0
    {
      assert LadderStages(stages, l) == [];
    }
  }

  function Of(totals: map<Ladder, (nat, nat)>, l: Ladder): (nat, nat)
  {
    if l in totals then totals[l] else (0, 0)
  }

  /** The ladders share out the stages and the tests of the catalog. */
  lemma {:induction false} TotalsAddUp(stages: seq<Stage>)
    ensures |LadderStages(stages, Primitives)| + |LadderStages(stages, Algorithms)|
            + |LadderStages(stages, Node)| + |LadderStages(stages, Cluster)| == |stages|
    ensures TestCount(LadderStages(stages, Primitives)) + TestCount(LadderStages(stages, Algorithms))
            + TestCount(LadderStages(stages, Node)) + TestCount(LadderStages(stages, Cluster)) == TestCount(stages)
  {
    if |stages| > 0 {
      var init, s := stages[..|stages| - 1], stages[|stages| - 1];
      TotalsAddUp(init);
      TestCountOne(LadderStages(init, s.ladder), s);
      assert forall l | l != s.ladder :: LadderStages(stages, l) == LadderStages(init, l);
      assert LadderStages(stages, s.ladder) == LadderStages(init, s.ladder) + [s];
    }
  }

  method WriteRow(totals: map<Ladder, (nat, nat)>, c: Catalog, l: Ladder) returns (r: string)
    requires l in totals <==> Tally(c.stages, l).0 > 0
    requires l in totals ==> totals[l] == Tally(c.stages, l)
    ensures r == Unlines(LadderRow(c, l))
  {
    hide Unlines, LadderStages, TestCount, Natural;
    UnlinesNone();
    if l !in totals {
      return "";
    }
    var row := "| `" + l.Name() + "` | " + Natural(totals[l].0) + " | " + Natural(totals[l].1) + " |";
    UnlinesOne(row);
    r := row + "\n";
  }

  const TABLE: seq<string> := ["", "## Totals", "", "| ladder | stages | tests |", "|---|---:|---:|"]

  lemma TotalsText(c: Catalog, all: string)
    ensures Unlines(TABLE + LadderRow(c, Primitives) + LadderRow(c, Algorithms) + LadderRow(c, Node)
                    + LadderRow(c, Cluster) + [all])
         == Unlines(TABLE) + Unlines(LadderRow(c, Primitives)) + Unlines(LadderRow(c, Algorithms))
            + Unlines(LadderRow(c, Node)) + Unlines(LadderRow(c, Cluster)) + (all + "\n")
  {
    hide Unlines, LadderRow;
    var t1 := TABLE + LadderRow(c, Primitives);
    var t2 := t1 + LadderRow(c, Algorithms);
    var t3 := t2 + LadderRow(c, Node);
    var t4 := t3 + LadderRow(c, Cluster);
    UnlinesAppend(TABLE, LadderRow(c, Primitives));
    UnlinesAppend(t1, LadderRow(c, Algorithms));
    UnlinesAppend(t2, LadderRow(c, Node));
    UnlinesAppend(t3, LadderRow(c, Cluster));
    UnlinesAppend(t4, [all]);
    UnlinesOne(all);
  }

  /** The table of totals; its last row sums what the rows above it say. */
  method WriteTotals(c: Catalog) returns (r: string)
    ensures r == Unlines(TotalLines(c))
  {
    hide Unlines, LadderRow, LadderStages, TestCount, Natural;
    var totals := CountTotals(c.stages);
    TotalsAddUp(c.stages);
    EmptyCounts();
    var p, a, n, k := Of(totals, Primitives), Of(totals, Algorithms), Of(totals, Node), Of(totals, Cluster);
    NoneTallied(c.stages);
    assert forall l :: Of(totals, l) == Tally(c.stages, l);
    var all := "| **all** | **" + Natural(p.0 + a.0 + n.0 + k.0) + "** | **"
               + Natural(p.1 + a.1 + n.1 + k.1) + "** |";
    var rp := WriteRow(totals, c, Primitives);
    var ra := WriteRow(totals, c, Algorithms);
    var rn := WriteRow(totals, c, Node);
    var rk := WriteRow(totals, c, Cluster);
    TotalsText(c, all);
    r := Unlines(TABLE) + rp + ra + rn + rk + (all + "\n");
  }

  lemma SectionOne(prose: Prose, c: Catalog, ticks: Ticks, i: nat)
    requires i < |c.sections| && forall l :: l in prose.blurb
    ensures Unlines(prose.header + SectionsLines(prose, c, ticks, i + 1))
         == Unlines(prose.header + SectionsLines(prose, c, ticks, i)) + Unlines(SectionHead(prose, c, i))
            + Unlines(EntriesLines(c, ticks, c.sections[i].stages))
  {
    hide SectionHead, EntriesLines, Unlines;
    var a, b := prose.header + SectionsLines(prose, c, ticks, i), SectionHead(prose, c, i);
    var d := EntriesLines(c, ticks, c.sections[i].stages);
    UnlinesAppend(a, b);
    UnlinesAppend(a + b, d);
    assert prose.header + SectionsLines(prose, c, ticks, i + 1) == a + b + d;
  }

  /** Generate the file from the catalog and the file that is there. */
  method Generate(prose: Prose, c: Catalog, file: Option<string>) returns (out: string)
    requires forall l :: l in prose.blurb
    ensures out == Unlines(PlanLines(prose, c, Carried(file)))
  {
    hide Unlines, EntriesLines, TotalLines, LastLadder, Carried, SectionHead;
    var ticks := ExistingTicks(file);
    out := Unlines(prose.header);
    UnlinesNone();
    assert prose.header + SectionsLines(prose, c, ticks, 0) == prose.header;
    var seen: set<Ladder> := {};
    for i := 0 to |c.sections|
      invariant out == Unlines(prose.header + SectionsLines(prose, c, ticks, i))
      invariant seen == Introduced(c, i)
    {
      var head, entries;
      head, seen := WriteHead(prose, c, i, seen);
      entries := WriteEntries(c, ticks, c.sections[i].stages);
      SectionOne(prose, c, ticks, i);
      out := out + head + entries;
    }
    var totals := WriteTotals(c);
    UnlinesAppend(prose.header + SectionsLines(prose, c, ticks, |c.sections|), TotalLines(c));
    out := out + totals;
  }

  // ----- the file reads back ---------------------------------------------------------------------

  /** No line break of any kind. */
  predicate Plain(s: string)
  {
    Without(s, '\n') && Without(s, '\r')
  }

  ghost predicate AllPlain(lines: seq<string>)
  {
    forall i | 0 <= i < |lines| :: Plain(lines[i])
  }

  /** Names, titles and hints without line breaks. */
  ghost predicate PlainCatalog(c: Catalog)
  {
    && (forall i | 0 <= i < |c.sections| :: Plain(c.sections[i].id) && Plain(c.sections[i].title))
    && (forall i | 0 <= i < |c.stages| ::
          Plain(c.stages[i].name) && Plain(c.stages[i].file) && AllPlain(c.stages[i].hints))
  }

  /** Prose without line breaks inside its lines, none of which looks like an entry. */
  ghost predicate PlainProse(prose: Prose)
  {
    && (forall l :: l in prose.blurb && Plain(prose.blurb[l]) && TickOf(prose.blurb[l]).None?)
    && AllPlain(prose.header) && forall i | 0 <= i < |prose.header| :: TickOf(prose.header[i]).None?
  }

  lemma {:induction false} PlainText(lines: seq<string>)
    requires AllPlain(lines)
    ensures Without(Unlines(lines), '\r')
  {
    if |lines| > 0 {
      PlainText(lines[..|lines| - 1]);
      assert Plain(lines[|lines| - 1]);
    }
  }

  lemma {:induction false} UniversalOfPlain(text: string)
    requires Without(text, '\r')
    ensures Universal(text) == text
  {
    if |text| > 0 {
      UniversalOfPlain(text[1..]);
    }
  }

  lemma {:induction false} LinesBack(lines: seq<string>, rest: string)
    requires AllPlain(lines)
    ensures Lines(Unlines(lines) + rest) == lines + Lines(rest)
    decreases |lines|
  {
    hide Lines;
    if |lines| == 0 {
      assert Unlines(lines) + rest == rest;
    } else {
      var init, last := lines[..|lines| - 1], lines[|lines| - 1];
      var more := last + "\n" + rest;
      assert Unlines(lines) + rest == Unlines(init) + more;
      LinesBack(init, more);
      LinesFirst(last, rest);
    }
  }

  /** Python and Rust read the same lines from plain lines: those that were written. */
  lemma {:induction false} LinesOfUnlines(lines: seq<string>)
    requires AllPlain(lines)
    ensures Lines(Unlines(lines)) == lines && Universal(Unlines(lines)) == Unlines(lines)
  {
    PlainText(lines);
    UniversalOfPlain(Unlines(lines));
    LinesBack(lines, "");
    assert lines + [] == lines;
    assert Unlines(lines) + "" == Unlines(lines);
    assert Lines("") == [];
  }

  lemma PlainNatural(n: nat)
    ensures Plain(Natural(n))
  {
    ParseNatural(n);
  }

  // ----- what each line says ---------------------------------------------------------------------

  /** A number printed with at least two digits reads back. */
  lemma PaddedReadsBack(n: nat)
    ensures ParseDigits(Timestamps.Padded(n, 2)) == Some(n)
    ensures |Timestamps.Padded(n, 2)| > 0
    ensures forall i | 0 <= i < |Timestamps.Padded(n, 2)| :: IsDigit(Timestamps.Padded(n, 2)[i])
  {
    var t := Natural(n);
    ParseNatural(n);
    if |t| < 2 {
      Timestamps.ZerosAre(2 - |t|);
      Timestamps.ParseZeros(2 - |t|, t);
    } else {
      assert "" + t == t;
    }
  }

  /** An entry's first line says its number and its box. */
  lemma EntryTick(n: nat, ticked: bool, rest: string)
    requires |rest| > 0 && !IsDigit(rest[0])
    ensures TickOf(OPEN + (if ticked then "x" else " ") + CLOSE + Timestamps.Padded(n, 2) + rest) == Some((n, ticked))
  {
    hide ParseDigits, Timestamps.Padded;
    var box := if ticked then "x" else " ";
    var digits := Timestamps.Padded(n, 2);
    var line := OPEN + box + CLOSE + digits + rest;
    PaddedReadsBack(n);
    assert line[..3] == OPEN && line[3] == box[0] && line[4..14] == CLOSE && line[14..] == digits + rest;
    assert line[14] == digits[0];
    RunEnds(digits, rest);
  }

  lemma StageLineTick(st: Stage, n: nat, ticked: bool)
    ensures TickOf(StageLine(st, n, ticked)) == Some((n, ticked))
    ensures TickOf(PlannedLine(n)) == Some((n, false))
  {
    hide TickOf, StageRest;
    EntryTick(n, ticked, StageRest(st));
    EntryTick(n, false, "** — (planned)");
  }

  // ----- the ticks of the generated file ---------------------------------------------------------

  /** Is a number listed in some section? */
  ghost predicate ListedIn(c: Catalog, n: nat, sections: nat)
    requires sections <= |c.sections|
  {
    exists i :: 0 <= i < sections && n in c.sections[i].stages
  }

  ghost function Among(numbers: seq<nat>): iset<nat>
  {
    iset n | n in numbers
  }

  ghost function InSections(c: Catalog, sections: nat): iset<nat>
    requires sections <= |c.sections|
  {
    iset n: nat | ListedIn(c, n, sections)
  }

  /** The ticks say of each number in `who` exactly whether it keeps its tick. */
  ghost predicate TellsOf(ticks: Ticks, c: Catalog, was: Ticks, who: iset<nat>, limit: Option<nat>)
  {
    && (forall n: nat :: n in ticks <==> n in who && (limit.Some? ==> n < limit.value))
    && (forall n | n in ticks :: ticks[n] == Keeps(c, was, n))
  }

  lemma {:induction false} TicksAppend(a: seq<string>, b: seq<string>, limit: Option<nat>)
    ensures TicksIn(a + b, limit) == TicksIn(a, limit) + TicksIn(b, limit)
  {
    hide TickOf;
    if |b| == 0 {
      assert a + b == a;
    } else {
      assert (a + b)[..|a + b| - 1] == a + b[..|b| - 1];
      TicksAppend(a, b[..|b| - 1], limit);
    }
  }

  lemma TellsMore(a: seq<string>, b: seq<string>, c: Catalog, was: Ticks, who: iset<nat>, more: iset<nat>,
                  limit: Option<nat>)
    requires TellsOf(TicksIn(a, limit), c, was, who, limit) && TellsOf(TicksIn(b, limit), c, was, more, limit)
    ensures TellsOf(TicksIn(a + b, limit), c, was, who + more, limit)
  {
    hide TicksIn;
    TicksAppend(a, b, limit);
  }

  lemma {:induction false} SilentLines(lines: seq<string>, limit: Option<nat>)
    requires forall i | 0 <= i < |lines| :: TickOf(lines[i]).None?
    ensures TicksIn(lines, limit) == map[]
  {
    hide TickOf;
    if |lines| > 0 {
      SilentLines(lines[..|lines| - 1], limit);
    }
  }

  lemma NotDash(line: string)
    requires |line| == 0 || line[0] != '-'
    ensures TickOf(line).None?
  {
    if |line| > 14 {
      assert line[..3][0] == line[0];
    }
  }

  lemma {:induction false} HintsSilent(hints: seq<string>, limit: Option<nat>)
    ensures TicksIn(HintLines(hints), limit) == map[]
  {
    if |hints| > 0 {
      var init, line := hints[..|hints| - 1], "  - " + hints[|hints| - 1];
      HintsSilent(init, limit);
      assert HintLines(hints)[..|HintLines(hints)| - 1] == HintLines(init);
      assert line[0] == ' ' && OPEN[0] == '-';
      NotDash(line);
    }
  }

  lemma OneTick(line: string, limit: Option<nat>)
    requires TickOf(line).Some?
    ensures var (n, ticked) := TickOf(line).value;
            TicksIn([line], limit) == if limit.Some? && n >= limit.value then map[] else map[n := ticked]
  {
    hide TickOf;
    assert [line][..0] == [];
  }

  lemma EntryTells(c: Catalog, was: Ticks, n: nat, limit: Option<nat>)
    ensures TellsOf(TicksIn(EntryLines(c, was, n), limit), c, was, iset{n}, limit)
  {
    hide TickOf, ByNumber, StageLine, PlannedLine, HintLines;
    match ByNumber(c.stages, n)
    case None =>
      StageLineTick(Stage(n, "", Node, false, "", [], []), n, false);
      OneTick(PlannedLine(n), limit);
    case Some(st) =>
      var line := StageLine(st, n, Keeps(c, was, n));
      StageLineTick(st, n, Keeps(c, was, n));
      OneTick(line, limit);
      HintsSilent(st.hints, limit);
      TicksAppend([line], HintLines(st.hints), limit);
  }

  lemma NobodyTold(c: Catalog, was: Ticks, limit: Option<nat>)
    ensures TellsOf(TicksIn([], limit), c, was, iset{}, limit)
  {
  }

  lemma {:induction false} EntriesTell(c: Catalog, was: Ticks, numbers: seq<nat>, limit: Option<nat>)
    ensures TellsOf(TicksIn(EntriesLines(c, was, numbers), limit), c, was, Among(numbers), limit)
  {
    hide TicksIn, EntryLines, TellsOf;
    if |numbers| == 0 {
      NobodyTold(c, was, limit);
      assert Among(numbers) == iset{};
    } else {
      var init, n := numbers[..|numbers| - 1], numbers[|numbers| - 1];
      EntriesTell(c, was, init, limit);
      EntryTells(c, was, n, limit);
      TellsMore(EntriesLines(c, was, init), EntryLines(c, was, n), c, was, Among(init), iset{n}, limit);
      assert Among(numbers) == Among(init) + iset{n};
    }
  }

  lemma SilentTells(lines: seq<string>, c: Catalog, was: Ticks, limit: Option<nat>)
    requires TicksIn(lines, limit) == map[]
    ensures TellsOf(TicksIn(lines, limit), c, was, iset{}, limit)
  {
  }

  lemma HeadSilent(prose: Prose, c: Catalog, i: nat, limit: Option<nat>)
    requires i < |c.sections| && PlainProse(prose)
    ensures TicksIn(SectionHead(prose, c, i), limit) == map[]
  {
    hide TickOf, LastLadder, Introduced, UpperAll;
    var s := c.sections[i];
    NotDash("");
    NotDash("## " + UpperAll(s.id) + ". " + s.title);
    SilentLines(SectionHead(prose, c, i), limit);
  }

  lemma ListedMore(c: Catalog, n: nat)
    requires 0 < n <= |c.sections|
    ensures forall m: nat :: ListedIn(c, m, n) <==> ListedIn(c, m, n - 1) || m in c.sections[n - 1].stages
  {
  }

  lemma {:induction false} SectionsTell(prose: Prose, c: Catalog, was: Ticks, n: nat, limit: Option<nat>)
    requires n <= |c.sections| && PlainProse(prose)
    ensures TellsOf(TicksIn(SectionsLines(prose, c, was, n), limit), c, was, InSections(c, n), limit)
  {
    hide TicksIn, SectionHead, EntriesLines, TellsOf;
    if n == 0 {
      NobodyTold(c, was, limit);
      assert InSections(c, n) == iset{};
    } else {
      var s, init := c.sections[n - 1], SectionsLines(prose, c, was, n - 1);
      var before := InSections(c, n - 1);
      var head, entries := SectionHead(prose, c, n - 1), EntriesLines(c, was, s.stages);
      SectionsTell(prose, c, was, n - 1, limit);
      HeadSilent(prose, c, n - 1, limit);
      SilentTells(head, c, was, limit);
      TellsMore(init, head, c, was, before, iset{}, limit);
      EntriesTell(c, was, s.stages, limit);
      TellsMore(init + head, entries, c, was, before + iset{}, Among(s.stages), limit);
      ListedMore(c, n);
      assert forall m: nat :: m in InSections(c, n) <==> ListedIn(c, m, n);
      assert InSections(c, n) == before + iset{} + Among(s.stages);
    }
  }

  lemma RowSilent(c: Catalog, l: Ladder)
    ensures forall i | 0 <= i < |LadderRow(c, l)| :: TickOf(LadderRow(c, l)[i]).None?
  {
    hide TickOf, Natural, LadderStages, TestCount;
    var row := LadderRow(c, l);
    if |row| > 0 {
      assert row[0][0] == '|';
      NotDash(row[0]);
    }
  }

  lemma TotalsSilent(c: Catalog, limit: Option<nat>)
    ensures TicksIn(TotalLines(c), limit) == map[]
  {
    hide TickOf, LadderRow, Natural, TestCount;
    RowSilent(c, Primitives);
    RowSilent(c, Algorithms);
    RowSilent(c, Node);
    RowSilent(c, Cluster);
    var all := "| **all** | **" + Natural(|c.stages|) + "** | **" + Natural(TestCount(c.stages)) + "** |";
    assert all[0] == '|';
    NotDash(all);
    NotDash("");
    NotDash("## Totals");
    NotDash("| ladder | stages | tests |");
    NotDash("|---|---:|---:|");
    SilentLines(TotalLines(c), limit);
  }

  /** The ticks of the generated lines: every listed stage, ticked exactly when it is catalogued and was
      ticked before. */
  lemma PlanTells(prose: Prose, c: Catalog, was: Ticks, limit: Option<nat>)
    requires PlainProse(prose)
    ensures TellsOf(TicksIn(PlanLines(prose, c, was), limit), c, was,
                    InSections(c, |c.sections|), limit)
  {
    hide TicksIn, SectionsLines, TotalLines, TellsOf, TickOf;
    var sections, totals := SectionsLines(prose, c, was, |c.sections|), TotalLines(c);
    var who := InSections(c, |c.sections|);
    SilentLines(prose.header, limit);
    SilentTells(prose.header, c, was, limit);
    SectionsTell(prose, c, was, |c.sections|, limit);
    TellsMore(prose.header, sections, c, was, iset{}, who, limit);
    TotalsSilent(c, limit);
    SilentTells(totals, c, was, limit);
    TellsMore(prose.header + sections, totals, c, was, iset{} + who, iset{}, limit);
    assert iset{} + who + iset{} == who;
  }

  // ----- the two readers agree, and generating again changes nothing -----------------------------

  lemma UpperPlain(s: string)
    requires Plain(s)
    ensures Plain(UpperAll(s))
  {
    hide UpperAll;
  }

  lemma HeadPlain(prose: Prose, c: Catalog, i: nat)
    requires i < |c.sections| && PlainProse(prose) && PlainCatalog(c)
    ensures AllPlain(SectionHead(prose, c, i))
  {
    hide LastLadder, Introduced, TickOf;
    var s := c.sections[i];
    assert Plain(s.id) && Plain(s.title);
    UpperPlain(s.id);
  }

  lemma PaddedPlain(n: nat)
    ensures Plain(Timestamps.Padded(n, 2))
  {
    PaddedReadsBack(n);
  }

  lemma PlannedPlain(n: nat)
    ensures Plain(PlannedLine(n))
  {
    hide Timestamps.Padded;
    PaddedPlain(n);
  }

  ghost predicate PlainStage(st: Stage)
  {
    Plain(st.name) && Plain(st.file) && AllPlain(st.hints)
  }

  lemma {:induction false} FoundPlain(c: Catalog, stages: seq<Stage>, n: nat)
    requires ByNumber(stages, n).Some? && forall i | 0 <= i < |stages| :: PlainStage(stages[i])
    ensures PlainStage(ByNumber(stages, n).value)
  {
    if stages[|stages| - 1].number != n {
      FoundPlain(c, stages[..|stages| - 1], n);
    }
  }

  lemma CountPlain(st: Stage)
    ensures Plain(CountText(st))
  {
    hide Natural, ExtTests;
    PlainNatural(|st.tests|);
    PlainNatural(ExtTests(st.tests));
  }

  lemma PlainWords(l: Ladder)
    ensures Plain(" — ") && Plain(" **[ext]**") && Plain("") && Plain(" `") && Plain("` (`") && Plain("`, ")
    ensures Plain(")") && Plain("**") && Plain(l.Name())
  {
  }

  lemma PlainParts(a: string, b: string)
    requires Plain(a) && Plain(b)
    ensures Plain(a + b)
  {
  }

  lemma StageRestPlain(st: Stage)
    requires PlainStage(st)
    ensures Plain(StageRest(st))
  {
    hide Natural, ExtTests, CountText, Plain;
    CountPlain(st);
    PlainWords(st.ladder);
    var a := " — " + st.name;
    var b := a + (if st.ext then " **[ext]**" else "");
    var c := b + " `" + st.ladder.Name() + "` (`" + st.file;
    PlainParts(" — ", st.name);
    PlainParts(a, if st.ext then " **[ext]**" else "");
    PlainParts(b, " `");
    PlainParts(b + " `", st.ladder.Name());
    PlainParts(b + " `" + st.ladder.Name(), "` (`");
    PlainParts(b + " `" + st.ladder.Name() + "` (`", st.file);
    PlainParts(c, "`, ");
    PlainParts(c + "`, ", CountText(st));
    PlainParts(c + "`, " + CountText(st), ")");
    PlainParts("**", c + "`, " + CountText(st) + ")");
  }

  lemma StageLinePlain(st: Stage, n: nat, ticked: bool)
    requires Plain(StageRest(st))
    ensures Plain(StageLine(st, n, ticked))
  {
    hide StageRest, Timestamps.Padded;
    PaddedPlain(n);
  }

  lemma {:induction false} HintsPlain(hints: seq<string>)
    requires AllPlain(hints)
    ensures AllPlain(HintLines(hints))
  {
    if |hints| > 0 {
      HintsPlain(hints[..|hints| - 1]);
      assert Plain(hints[|hints| - 1]);
      assert Plain("  - " + hints[|hints| - 1]);
      hide Plain;
    }
  }

  lemma EntryPlain(c: Catalog, was: Ticks, n: nat)
    requires PlainCatalog(c)
    ensures AllPlain(EntryLines(c, was, n))
  {
    hide Plain, HintLines, StageLine, PlannedLine, ByNumber;
    PaddedPlain(n);
    PlannedPlain(n);
    match ByNumber(c.stages, n)
    case None =>
    case Some(st) =>
      FoundPlain(c, c.stages, n);
      StageRestPlain(st);
      StageLinePlain(st, n, Keeps(c, was, n));
      HintsPlain(st.hints);
  }

  lemma {:induction false} EntriesPlain(c: Catalog, was: Ticks, numbers: seq<nat>)
    requires PlainCatalog(c)
    ensures AllPlain(EntriesLines(c, was, numbers))
  {
    hide EntryLines, Plain, PlainCatalog;
    if |numbers| > 0 {
      EntriesPlain(c, was, numbers[..|numbers| - 1]);
      EntryPlain(c, was, numbers[|numbers| - 1]);
    }
  }

  lemma {:induction false} SectionsPlain(prose: Prose, c: Catalog, was: Ticks, n: nat)
    requires n <= |c.sections| && PlainProse(prose) && PlainCatalog(c)
    ensures AllPlain(SectionsLines(prose, c, was, n))
  {
    hide SectionHead, EntriesLines, Plain, TickOf;
    if n > 0 {
      SectionsPlain(prose, c, was, n - 1);
      HeadPlain(prose, c, n - 1);
      EntriesPlain(c, was, c.sections[n - 1].stages);
    }
  }

  lemma RowPlain(c: Catalog, l: Ladder)
    ensures AllPlain(LadderRow(c, l))
  {
    hide Natural, LadderStages, TestCount;
    var mine := LadderStages(c.stages, l);
    PlainNatural(|mine|);
    PlainNatural(TestCount(mine));
  }

  lemma TotalsPlain(c: Catalog)
    ensures AllPlain(TotalLines(c))
  {
    hide Natural, LadderRow, TestCount;
    RowPlain(c, Primitives);
    RowPlain(c, Algorithms);
    RowPlain(c, Node);
    RowPlain(c, Cluster);
    PlainNatural(|c.stages|);
    PlainNatural(TestCount(c.stages));
    var all := "| **all** | **" + Natural(|c.stages|) + "** | **" + Natural(TestCount(c.stages)) + "** |";
    assert Plain(all);
    assert AllPlain(TABLE);
    hide Plain;
  }

  lemma PlanPlain(prose: Prose, c: Catalog, was: Ticks)
    requires PlainProse(prose) && PlainCatalog(c)
    ensures AllPlain(PlanLines(prose, c, was))
  {
    hide SectionsLines, TotalLines, Plain, TickOf;
    SectionsPlain(prose, c, was, |c.sections|);
    TotalsPlain(c);
  }

  /** The old ticks of catalogued section stages, and false for planned ones: that is what both readers find
      in the generated file. The one that keeps 32-bit numbers passes over larger ones. */
  lemma TicksSurvive(prose: Prose, c: Catalog, was: Ticks)
    requires PlainProse(prose) && PlainCatalog(c)
    ensures var file := Some(Unlines(PlanLines(prose, c, was)));
            && TellsOf(Carried(file), c, was, InSections(c, |c.sections|), None)
            && TellsOf(Listed(file), c, was, InSections(c, |c.sections|), Some(U32))
  {
    hide PlanLines, TicksIn, TellsOf, Lines, Unlines, Universal;
    PlanPlain(prose, c, was);
    LinesOfUnlines(PlanLines(prose, c, was));
    PlanTells(prose, c, was, None);
    PlanTells(prose, c, was, Some(U32));
  }

  lemma {:induction false} EntriesDependOn(c: Catalog, a: Ticks, b: Ticks, numbers: seq<nat>)
    requires forall n: nat | n in numbers :: Keeps(c, a, n) == Keeps(c, b, n)
    ensures EntriesLines(c, a, numbers) == EntriesLines(c, b, numbers)
  {
    hide Keeps, StageLine, PlannedLine, HintLines, ByNumber;
    if |numbers| > 0 {
      EntriesDependOn(c, a, b, numbers[..|numbers| - 1]);
    }
  }

  lemma {:induction false} SectionsDependOn(prose: Prose, c: Catalog, a: Ticks, b: Ticks, n: nat)
    requires n <= |c.sections| && forall l :: l in prose.blurb
    requires forall m: nat | ListedIn(c, m, n) :: Keeps(c, a, m) == Keeps(c, b, m)
    ensures SectionsLines(prose, c, a, n) == SectionsLines(prose, c, b, n)
  {
    hide Keeps, SectionHead, EntriesLines;
    if n > 0 {
      ListedMore(c, n);
      SectionsDependOn(prose, c, a, b, n - 1);
      EntriesDependOn(c, a, b, c.sections[n - 1].stages);
    }
  }

  /** Only the ticks of listed, catalogued stages go into the file. */
  lemma PlanDependsOn(prose: Prose, c: Catalog, a: Ticks, b: Ticks)
    requires forall l :: l in prose.blurb
    requires forall n: nat | ListedIn(c, n, |c.sections|) :: Keeps(c, a, n) == Keeps(c, b, n)
    ensures PlanLines(prose, c, a) == PlanLines(prose, c, b)
  {
    hide Keeps, SectionsLines, TotalLines;
    SectionsDependOn(prose, c, a, b, |c.sections|);
  }

  /** Generating again from the same catalog gives the same file, whatever was there at first. */
  lemma GeneratingAgain(prose: Prose, c: Catalog, first: Option<string>)
    requires PlainProse(prose) && PlainCatalog(c)
    ensures var file := Some(Unlines(PlanLines(prose, c, Carried(first))));
            PlanLines(prose, c, Carried(file)) == PlanLines(prose, c, Carried(first))
  {
    hide PlanLines, Carried, TicksIn, Lines, Unlines, Universal, PlainCatalog, TickOf;
    TicksSurvive(prose, c, Carried(first));
    var file := Some(Unlines(PlanLines(prose, c, Carried(first))));
    PlanDependsOn(prose, c, Carried(first), Carried(file));
  }
}
