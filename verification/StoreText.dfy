/** The text format of `store.txt`: one line per pair, five fields separated by single spaces. */
module StoreText {
  import opened Wrappers
  import opened Bytes
  import opened ByteOrder
  import Base64

  type Key = seq<byte>

  /** A value, and the numbers the node keeps with it. */
  datatype Pair = Pair(value: seq<byte>, create: int, mod: int, version: int)

  type KV = map<Key, Pair>

  // ----- decimal numbers ----------------------------------------------------------------

  function Digit(d: nat): char
    requires d < 10
  {
    '0' + d as char
  }

  function Natural(n: nat): (r: string)
    ensures |r| > 0
  {
    if n < 10 then [Digit(n)] else Natural(n / 10) + [Digit(n % 10)]
  }

  /** A signed number in decimal. */
  function Decimal(n: int): string
  {
    if n < 0 then "-" + Natural(-n) else Natural(n)
  }

  predicate IsDigit(c: char)
  {
    '0' <= c <= '9'
  }

  function DigitValue(c: char): (d: nat)
    requires IsDigit(c)
    ensures d < 10 && Digit(d) == c
  {
    c as int - '0' as int
  }

  function ParseDigits(s: string): Option<nat>
  {
    if |s| == 0 then Some(0)
    else if !IsDigit(s[|s| - 1]) then None
    else
      match ParseDigits(s[..|s| - 1])
      case None => None
      case Some(high) => Some(10 * high + DigitValue(s[|s| - 1]))
  }

  /** A decimal number with an optional sign; nothing else is accepted. */
  function Parse(s: string): Option<int>
  {
    if |s| > 0 && (s[0] == '-' || s[0] == '+') then
      if |s| == 1 then None
      else
        match ParseDigits(s[1..])
        case None => None
        case Some(n) =>
          var magnitude: int := n;
          Some(if s[0] == '-' then -magnitude else magnitude)
    else if |s| == 0 then None
    else match ParseDigits(s) case None => None case Some(n) => Some(n)
  }

  lemma {:induction false} ParseNatural(n: nat)
    ensures ParseDigits(Natural(n)) == Some(n)
    ensures forall i | 0 <= i < |Natural(n)| :: IsDigit(Natural(n)[i])
  {
    if n >= 10 {
      ParseNatural(n / 10);
      assert Natural(n)[..|Natural(n)| - 1] == Natural(n / 10);
    } else {
      assert Natural(n)[..0] == [];
    }
  }

  /** Numbers round-trip, whatever their sign. */
  lemma ParseDecimal(n: int)
    ensures Parse(Decimal(n)) == Some(n)
    ensures forall i | 0 <= i < |Decimal(n)| :: IsDigit(Decimal(n)[i]) || Decimal(n)[i] == '-'
    ensures |Decimal(n)| > 0 && IsDigit(Decimal(n)[|Decimal(n)| - 1]) && (Decimal(n)[0] == '-' <==> n < 0)
  {
    hide Natural, ParseDigits;
    if n < 0 {
      ParseNatural(-n);
      assert Decimal(n)[1..] == Natural(-n);
    } else {
      ParseNatural(n);
    }
  }

  // ----- splitting ------------------------------------------------------------------------

  predicate Without(s: string, c: char)
  {
    forall i | 0 <= i < |s| :: s[i] != c
  }

  /** The pieces of `s` between separators; there is always one more piece than separators. */
  function Split(s: string, sep: char): (r: seq<string>)
    ensures |r| > 0
  {
    if |s| == 0 then [""]
    else
      var rest := Split(s[1..], sep);
      if s[0] == sep then [""] + rest else [[s[0]] + rest[0]] + rest[1..]
  }

  lemma {:induction false} SplitFirst(a: string, sep: char, b: string)
    requires Without(a, sep)
    ensures Split(a + [sep] + b, sep) == [a] + Split(b, sep)
  {
    var s := a + [sep] + b;
    if |a| == 0 {
      assert s[1..] == b;
    } else {
      assert s[1..] == a[1..] + [sep] + b;
      SplitFirst(a[1..], sep, b);
      assert [a[0]] + a[1..] == a;
    }
  }

  lemma {:induction false} SplitLast(a: string, sep: char)
    requires Without(a, sep)
    ensures Split(a, sep) == [a]
  {
    if |a| > 0 {
      SplitLast(a[1..], sep);
      assert [a[0]] + a[1..] == a;
    }
  }

  /** A line of text without its line break: a trailing carriage return is dropped. */
  function Chomp(line: string): string
  {
    if |line| > 0 && line[|line| - 1] == '\r' then line[..|line| - 1] else line
  }

  function ChompAll(raw: seq<string>): (r: seq<string>)
    ensures |r| == |raw|
  {
    if |raw| == 0 then [] else [Chomp(raw[0])] + ChompAll(raw[1..])
  }

  /** The lines of a text, as `str::lines` yields them: a final line break ends the last line and
      does not start another one. */
  function Lines(text: string): seq<string>
  {
    var raw := Split(text, '\n');
    var last := raw[|raw| - 1];
    var whole := ChompAll(raw[..|raw| - 1]);
    if last == "" then whole else whole + [last]
  }

  /** Putting a complete line in front of a text puts it in front of its lines. */
  lemma LinesFirst(line: string, text: string)
    requires Without(line, '\n') && (|line| > 0 ==> line[|line| - 1] != '\r')
    ensures Lines(line + "\n" + text) == [line] + Lines(text)
  {
    SplitFirst(line, '\n', text);
    var raw := Split(text, '\n');
    var both := [line] + raw;
    assert both[|both| - 1] == raw[|raw| - 1];
    assert both[..|both| - 1] == [line] + raw[..|raw| - 1];
    assert ([line] + raw[..|raw| - 1])[1..] == raw[..|raw| - 1];
  }

  // ----- one line ---------------------------------------------------------------------------

  function LineOf(k: Key, p: Pair): string
  {
    Base64.Encoded(k) + " " + Base64.Encoded(p.value) + " " + Decimal(p.create) + " " + Decimal(p.mod)
    + " " + Decimal(p.version)
  }

  function Or(n: Option<int>, default: int): int
  {
    match n case None => default case Some(v) => v
  }

  /** What `load` makes of one line: nothing unless it has five fields of which the first two are
      base64; a number that does not parse counts as 1. */
  function ParseLine(line: string): Option<(Key, Pair)>
  {
    var f := Split(line, ' ');
    if |f| != 5 then None
    else
      match (Base64.Decoded(f[0]), Base64.Decoded(f[1]))
      case (Some(k), Some(v)) => Some((k, Pair(v, Or(Parse(f[2]), 1), Or(Parse(f[3]), 1), Or(Parse(f[4]), 1))))
      case _ => None
  }

  lemma SplitFive(a: string, b: string, c: string, d: string, e: string)
    requires Without(a, ' ') && Without(b, ' ') && Without(c, ' ') && Without(d, ' ') && Without(e, ' ')
    ensures Split(a + " " + b + " " + c + " " + d + " " + e, ' ') == [a, b, c, d, e]
  {
    hide Split;
    var de := d + " " + e;
    var cde := c + " " + de;
    var bcde := b + " " + cde;
    assert a + " " + b + " " + c + " " + d + " " + e == a + " " + bcde;
    SplitFirst(a, ' ', bcde);
    SplitFirst(b, ' ', cde);
    SplitFirst(c, ' ', de);
    SplitFirst(d, ' ', e);
    SplitLast(e, ' ');
  }

  /** A number is read when it is digits after at most one sign; anything else counts as 1. */
  lemma NumberRead(sign: string, digits: string)
    requires sign == "" || sign == "+" || sign == "-"
    requires |digits| > 0 && IsDigit(digits[0]) && ParseDigits(digits).Some?
    ensures var n: int := ParseDigits(digits).value; Or(Parse(sign + digits), 1) == if sign == "-" then -n else n
  {
    hide ParseDigits;
    if sign == "" {
      assert sign + digits == digits;
    } else {
      assert (sign + digits)[1..] == digits;
    }
  }

  lemma NumberUnread(s: string)
    requires forall sign: string, digits: string | s == sign + digits && (sign == "" || sign == "+" || sign == "-") ::
               |digits| == 0 || ParseDigits(digits).None?
    ensures Or(Parse(s), 1) == 1
  {
    hide ParseDigits;
    assert s == "" + s;
    if |s| > 0 {
      assert s == s[..1] + s[1..];
    }
  }

  /** Five fields make a pair when the first two are base64, and nothing otherwise. */
  lemma FieldsParse(a: string, b: string, c: string, d: string, e: string)
    requires Without(a, ' ') && Without(b, ' ') && Without(c, ' ') && Without(d, ' ') && Without(e, ' ')
    ensures
      var r := ParseLine(a + " " + b + " " + c + " " + d + " " + e);
      && (r.Some? <==> Base64.Decoded(a).Some? && Base64.Decoded(b).Some?)
      && (r.Some? ==>
            r.value == (Base64.Decoded(a).value,
                        Pair(Base64.Decoded(b).value, Or(Parse(c), 1), Or(Parse(d), 1), Or(Parse(e), 1))))
  {
    hide Base64.Decoded, Parse, Split;
    SplitFive(a, b, c, d, e);
  }

  lemma FieldsArePlain(x: seq<byte>, n: int)
    ensures Without(Base64.Encoded(x), ' ') && Without(Base64.Encoded(x), '\n')
    ensures Without(Decimal(n), ' ') && Without(Decimal(n), '\n')
    ensures |Decimal(n)| > 0 && Decimal(n)[|Decimal(n)| - 1] != '\r'
  {
    Base64.EncodedIsPlain(x);
    ParseDecimal(n);
  }

  /** A line parses back to its pair, with empty keys and values too. */
  lemma LineRoundTrip(k: Key, p: Pair)
    ensures ParseLine(LineOf(k, p)) == Some((k, p))
    ensures Without(LineOf(k, p), '\n')
    ensures |LineOf(k, p)| > 0 && LineOf(k, p)[|LineOf(k, p)| - 1] != '\r'
  {
    hide Base64.Encoded, Base64.Decoded, Decimal, Parse, Split;
    FieldsArePlain(k, p.create);
    FieldsArePlain(p.value, p.mod);
    FieldsArePlain(k, p.version);
    SplitFive(Base64.Encoded(k), Base64.Encoded(p.value), Decimal(p.create), Decimal(p.mod), Decimal(p.version));
    Base64.RoundTrip(k);
    Base64.RoundTrip(p.value);
    ParseDecimal(p.create);
    ParseDecimal(p.mod);
    ParseDecimal(p.version);
  }

  // ----- the whole store ----------------------------------------------------------------------

  predicate AllIn(ks: seq<Key>, kv: KV)
  {
    forall i | 0 <= i < |ks| :: ks[i] in kv
  }

  function TextOf(ks: seq<Key>, kv: KV): string
    requires AllIn(ks, kv)
  {
    if |ks| == 0 then "" else LineOf(ks[0], kv[ks[0]]) + "\n" + TextOf(ks[1..], kv)
  }

  /** What `flush` writes: the pairs in key order. */
  function PrintStore(kv: KV): string
  {
    TextOf(SortedKeys(kv.Keys), kv)
  }

  lemma {:induction false} TextAppend(ks: seq<Key>, k: Key, kv: KV)
    requires AllIn(ks, kv) && k in kv
    ensures AllIn(ks + [k], kv)
    ensures TextOf(ks + [k], kv) == TextOf(ks, kv) + LineOf(k, kv[k]) + "\n"
  {
    hide LineOf;
    var all := ks + [k];
    if |ks| == 0 {
      assert all[1..] == [];
    } else {
      assert all[1..] == ks[1..] + [k];
      TextAppend(ks[1..], k, kv);
    }
  }

  datatype Loaded = Loaded(kv: KV, highest: int)

  function LoadLine(st: Loaded, line: string): Loaded
  {
    match ParseLine(line)
    case None => st
    case Some(kp) => Loaded(st.kv[kp.0 := kp.1], Max(st.highest, kp.1.mod))
  }

  /** The loop of `load` over the first `n` lines, starting from an existing store. */
  function LoadLines(lines: seq<string>, n: nat, start: KV): Loaded
    requires n <= |lines|
  {
    if n == 0 then Loaded(start, 0) else LoadLine(LoadLines(lines, n - 1, start), lines[n - 1])
  }

  function LoadText(text: string, start: KV): Loaded
  {
    LoadLines(Lines(text), |Lines(text)|, start)
  }

  function LineList(ks: seq<Key>, kv: KV): seq<string>
    requires AllIn(ks, kv)
  {
    seq(|ks|, i requires 0 <= i < |ks| => LineOf(ks[i], kv[ks[i]]))
  }

  lemma {:induction false} LinesOfText(ks: seq<Key>, kv: KV)
    requires AllIn(ks, kv)
    ensures Lines(TextOf(ks, kv)) == LineList(ks, kv)
  {
    hide LineOf;
    if |ks| > 0 {
      LineRoundTrip(ks[0], kv[ks[0]]);
      LinesFirst(LineOf(ks[0], kv[ks[0]]), TextOf(ks[1..], kv));
      LinesOfText(ks[1..], kv);
      assert LineList(ks, kv) == [LineOf(ks[0], kv[ks[0]])] + LineList(ks[1..], kv);
    }
  }

  /** `h` is the highest modification revision of the pairs, or 0 when none is above it. */
  ghost predicate IsHighest(h: int, kv: KV)
  {
    && h >= 0
    && (forall k | k in kv :: kv[k].mod <= h)
    && (h > 0 ==> exists k :: k in kv && kv[k].mod == h)
  }

  lemma HighestGrows(h: int, kv: KV, k: Key, p: Pair, all: KV)
    requires IsHighest(h, kv) && k in all && all[k] == p
    requires forall q | q in kv :: q in all && kv[q] == all[q]
    ensures IsHighest(Max(h, p.mod), kv[k := p])
  {
    var kv' := kv[k := p];
    if p.mod > h {
      assert k in kv' && kv'[k].mod == p.mod;
    } else if h > 0 {
      var q :| q in kv && kv[q].mod == h;
      assert q in kv' && kv'[q].mod == h;
    }
  }

  lemma {:induction false} LoadSome(ks: seq<Key>, kv: KV, n: nat)
    requires AllIn(ks, kv) && n <= |ks|
    ensures
      var got := LoadLines(LineList(ks, kv), n, map[]);
      && got.kv == (map k | k in ks[..n] :: kv[k])
      && IsHighest(got.highest, got.kv)
  {
    hide LineOf, ParseLine;
    if n > 0 {
      LoadSome(ks, kv, n - 1);
      var k := ks[n - 1];
      LineRoundTrip(k, kv[k]);
      var before, got := LoadLines(LineList(ks, kv), n - 1, map[]), LoadLines(LineList(ks, kv), n, map[]);
      assert ks[..n] == ks[..n - 1] + [k];
      assert got == Loaded(before.kv[k := kv[k]], Max(before.highest, kv[k].mod));
      HighestGrows(before.highest, before.kv, k, kv[k], kv);
    }
  }

  /** The printer and the parser of the store are inverse on every store, and the parser also
      finds the highest modification revision. */
  lemma StoreRoundTrip(kv: KV)
    ensures LoadText(PrintStore(kv), map[]).kv == kv
    ensures IsHighest(LoadText(PrintStore(kv), map[]).highest, kv)
  {
    hide Lines, LineOf, LoadLines, TextOf;
    var ks := SortedKeys(kv.Keys);
    LinesOfText(ks, kv);
    LoadSome(ks, kv, |ks|);
    assert ks[..|ks|] == ks;
  }
}
