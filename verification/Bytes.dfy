/** Byte strings: little-endian numbers, fixed-width records and in-place overwriting. */
module Bytes {
  type byte = b: int | 0 <= b < 256

  function Max(a: int, b: int): (m: int)
    ensures a <= m && b <= m && (m == a || m == b)
  {
    if a < b then b else a
  }

  /** A run of `n` zero bytes. */
  function Zeros(n: nat): (r: seq<byte>)
    ensures |r| == n
    ensures forall i | 0 <= i < n :: r[i] == 0
  {
    seq(n, _ => 0)
  }

  /** The low `width` bytes of `v` in two's complement, least significant first. */
  function LittleEndian(v: int, width: nat): (r: seq<byte>)
    ensures |r| == width
    decreases width
  {
    if width == 0 then [] else [v % 256] + LittleEndian(v / 256, width - 1)
  }

  /** The unsigned number a little-endian byte string stands for. */
  function Value(b: seq<byte>): nat
  {
    if |b| == 0 then 0 else b[0] + 256 * Value(b[1..])
  }

  function Pow256(w: nat): (r: nat)
    ensures r > 0
  {
    if w == 0 then 1 else 256 * Pow256(w - 1)
  }

  lemma Pow256Values()
    ensures Pow256(1) == 0x100
    ensures Pow256(2) == 0x1_0000
    ensures Pow256(4) == 0x1_0000_0000
    ensures Pow256(8) == 0x1_0000_0000_0000_0000
  {
    assert Pow256(3) == 0x100_0000;
    assert Pow256(6) == 0x1_0000_0000_0000;
  }

  /** A multiple of `m` other than zero is at least `m` away from zero. */
  lemma MulMagnitude(m: int, d: int)
    requires m > 0
    ensures d >= 1 ==> m * d >= m
    ensures d <= -1 ==> m * d <= -m
  {
    if d >= 1 {
      assert m * d == m + m * (d - 1);
    } else if d <= -1 {
      assert m * d == m * (d + 1) - m;
    }
  }

  lemma DivModUnique(a: int, m: int, q: int, r: int)
    requires m > 0 && a == m * q + r && 0 <= r < m
    ensures a / m == q && a % m == r
  {
    var q' := a / m;
    assert m * (q - q') == m * q - m * q';
    assert a == m * q' + a % m;
    MulMagnitude(m, q - q');
  }

  lemma ModSplit(v: int, p: int)
    requires p > 0
    ensures v % (256 * p) == v % 256 + 256 * ((v / 256) % p)
  {
    var q, r := v / 256, v % 256;
    var t, u := q / p, q % p;
    assert 256 * (p * t) == (256 * p) * t;
    DivModUnique(v, 256 * p, t, 256 * u + r);
  }

  /** Reading back what was written gives the number modulo the field's capacity. */
  lemma {:induction false} ValueOfLittleEndian(v: int, width: nat)
    ensures Value(LittleEndian(v, width)) == v % Pow256(width)
    decreases width
  {
    if width > 0 {
      ValueOfLittleEndian(v / 256, width - 1);
      ModSplit(v, Pow256(width - 1));
      assert LittleEndian(v, width)[1..] == LittleEndian(v / 256, width - 1);
    }
  }

  // ----- fixed-width records -------------------------------------------------------

  function Sum(widths: seq<nat>): nat
  {
    if |widths| == 0 then 0 else widths[0] + Sum(widths[1..])
  }

  lemma {:induction false} SumNext(widths: seq<nat>, i: nat)
    requires i < |widths|
    ensures Sum(widths[..i + 1]) == Sum(widths[..i]) + widths[i]
  {
    if i > 0 {
      SumNext(widths[1..], i - 1);
      assert widths[..i + 1][1..] == widths[1..][..i] && widths[..i][1..] == widths[1..][..i - 1];
    }
  }

  /** A record whose fields are little-endian numbers, one after the other. */
  function Encode(widths: seq<nat>, values: seq<int>): (r: seq<byte>)
    requires |widths| == |values|
    ensures |r| == Sum(widths)
  {
    if |widths| == 0 then []
    else LittleEndian(values[0], widths[0]) + Encode(widths[1..], values[1..])
  }

  /** Reads a record field after field. */
  function Decode(widths: seq<nat>, b: seq<byte>): (r: seq<nat>)
    requires |b| == Sum(widths)
    ensures |r| == |widths|
  {
    if |widths| == 0 then []
    else [Value(b[..widths[0]])] + Decode(widths[1..], b[widths[0]..])
  }

  ghost predicate Fit(widths: seq<nat>, values: seq<int>)
    requires |widths| == |values|
  {
    forall i | 0 <= i < |widths| :: 0 <= values[i] < Pow256(widths[i])
  }

  /** Records round-trip when every value fits its field. */
  lemma {:induction false} DecodeOfEncode(widths: seq<nat>, values: seq<int>)
    requires |widths| == |values| && Fit(widths, values)
    ensures Decode(widths, Encode(widths, values)) == values
  {
    if |widths| > 0 {
      var w, b := widths[0], Encode(widths, values);
      assert b[..w] == LittleEndian(values[0], w);
      assert b[w..] == Encode(widths[1..], values[1..]);
      ValueOfLittleEndian(values[0], w);
      assert 0 <= values[0] < Pow256(w);
      assert values[0] % Pow256(w) == values[0] by { DivModUnique(values[0], Pow256(w), 0, values[0]); }
      DecodeOfEncode(widths[1..], values[1..]);
    }
  }

  /** Where a field stands in its record: after the widths of those before it. */
  lemma {:induction false} EncodeField(widths: seq<nat>, values: seq<int>, i: nat)
    requires i < |widths| == |values|
    ensures Sum(widths[..i]) + widths[i] <= Sum(widths)
    ensures Encode(widths, values)[Sum(widths[..i])..Sum(widths[..i]) + widths[i]] == LittleEndian(values[i], widths[i])
  {
    hide LittleEndian;
    var first, rest := LittleEndian(values[0], widths[0]), Encode(widths[1..], values[1..]);
    assert Encode(widths, values) == first + rest;
    if i > 0 {
      EncodeField(widths[1..], values[1..], i - 1);
      assert widths[..i][1..] == widths[1..][..i - 1];
      var at := Sum(widths[1..][..i - 1]);
      assert rest[at..at + widths[i]] == (first + rest)[widths[0] + at..widths[0] + at + widths[i]];
    }
  }

  // ----- overwriting ---------------------------------------------------------------

  /** `s` with the bytes from `at` on overwritten by `b`. */
  function Splice<T>(s: seq<T>, at: nat, b: seq<T>): (r: seq<T>)
    requires at + |b| <= |s|
    ensures |r| == |s|
    ensures forall i | 0 <= i < |s| :: r[i] == if at <= i < at + |b| then b[i - at] else s[i]
  {
    s[..at] + b + s[at + |b|..]
  }

  lemma SpliceInside<T>(s: seq<T>, at: nat, b: seq<T>)
    requires at + |b| <= |s|
    ensures Splice(s, at, b)[at..at + |b|] == b
  {
  }

  lemma SpliceOutside<T>(s: seq<T>, at: nat, b: seq<T>, i: nat, j: nat)
    requires at + |b| <= |s| && i <= j <= |s|
    requires j <= at || at + |b| <= i
    ensures Splice(s, at, b)[i..j] == s[i..j]
  {
  }

  lemma SpliceSlice<T>(s: seq<T>, at: nat, b: seq<T>, i: nat, j: nat)
    requires at + |b| <= |s| && at <= i <= j <= at + |b|
    ensures Splice(s, at, b)[i..j] == b[i - at..j - at]
  {
  }

  lemma PrefixSlice<T>(a: seq<T>, b: seq<T>, i: nat, j: nat)
    requires i <= j <= |a|
    ensures (a + b)[i..j] == a[i..j]
  {
  }

  /** A part of a concatenation, found again by its position. */
  lemma PartSlice<T>(a: seq<T>, b: seq<T>, c: seq<T>)
    ensures (a + b + c)[|a|..|a| + |b|] == b
  {
  }

  /** Two overwrites that touch end to end are one. */
  lemma SpliceAdjacent<T>(s: seq<T>, at: nat, a: seq<T>, b: seq<T>)
    requires at + |a| + |b| <= |s|
    ensures Splice(Splice(s, at, a), at + |a|, b) == Splice(s, at, a + b)
  {
  }

  // ----- tables of records -----------------------------------------------------------

  ghost predicate RowsOf(widths: seq<nat>, rows: seq<seq<int>>)
  {
    forall i | 0 <= i < |rows| :: |rows[i]| == |widths|
  }

  /** Records of one shape, one after the other. */
  function Rows(widths: seq<nat>, rows: seq<seq<int>>): seq<byte>
    requires RowsOf(widths, rows)
  {
    if |rows| == 0 then [] else Encode(widths, rows[0]) + Rows(widths, rows[1..])
  }

  lemma {:induction false} RowsLength(widths: seq<nat>, rows: seq<seq<int>>)
    requires RowsOf(widths, rows)
    ensures |Rows(widths, rows)| == |rows| * Sum(widths)
  {
    if |rows| > 0 {
      RowsLength(widths, rows[1..]);
      assert |rows| * Sum(widths) == Sum(widths) + (|rows| - 1) * Sum(widths);
    }
  }

  lemma {:induction false} RowsAppend(widths: seq<nat>, rows: seq<seq<int>>, row: seq<int>)
    requires RowsOf(widths, rows) && |row| == |widths|
    ensures RowsOf(widths, rows + [row])
    ensures Rows(widths, rows + [row]) == Rows(widths, rows) + Encode(widths, row)
  {
    if |rows| == 0 {
      assert rows + [row] == [row];
    } else {
      RowsAppend(widths, rows[1..], row);
      assert (rows + [row])[1..] == rows[1..] + [row];
    }
  }

  lemma ShiftSlice<T>(a: seq<T>, b: seq<T>, i: nat, j: nat)
    requires i <= j <= |b|
    ensures (a + b)[|a| + i..|a| + j] == b[i..j]
  {
  }

  lemma OneFurther(i: int, w: int)
    ensures i * w == w + (i - 1) * w && (i + 1) * w == w + i * w
  {
  }

  lemma RowsSplit(widths: seq<nat>, rows: seq<seq<int>>)
    requires RowsOf(widths, rows) && |rows| > 0
    ensures |rows[0]| == |widths| && RowsOf(widths, rows[1..]) && |Encode(widths, rows[0])| == Sum(widths)
    ensures Rows(widths, rows) == Encode(widths, rows[0]) + Rows(widths, rows[1..])
  {
    hide Sum;
  }

  lemma RowFirst(widths: seq<nat>, rows: seq<seq<int>>)
    requires RowsOf(widths, rows) && |rows| > 0
    ensures Sum(widths) <= |Rows(widths, rows)| && Rows(widths, rows)[..Sum(widths)] == Encode(widths, rows[0])
  {
    hide Sum, Rows, Encode, RowsOf;
    RowsSplit(widths, rows);
    var row, rest := Encode(widths, rows[0]), Rows(widths, rows[1..]);
    assert (row + rest)[..Sum(widths)] == row;
  }

  lemma RowFurther(widths: seq<nat>, rows: seq<seq<int>>, row: seq<int>, from: nat, to: nat)
    requires RowsOf(widths, rows) && |rows| > 0 && |row| == |widths|
    requires from <= to <= |Rows(widths, rows[1..])| && Rows(widths, rows[1..])[from..to] == Encode(widths, row)
    ensures Sum(widths) + to <= |Rows(widths, rows)|
    ensures Rows(widths, rows)[Sum(widths) + from..Sum(widths) + to] == Encode(widths, row)
  {
    hide Sum, Rows, Encode, RowsOf;
    RowsSplit(widths, rows);
    ShiftSlice(Encode(widths, rows[0]), Rows(widths, rows[1..]), from, to);
  }

  lemma {:induction false} RowAt(widths: seq<nat>, rows: seq<seq<int>>, i: nat)
    requires RowsOf(widths, rows) && i < |rows|
    ensures 0 <= i * Sum(widths) <= (i + 1) * Sum(widths) <= |Rows(widths, rows)|
    ensures Rows(widths, rows)[i * Sum(widths)..(i + 1) * Sum(widths)] == Encode(widths, rows[i])
  {
    hide Sum, Rows, Encode;
    var w := Sum(widths);
    if i == 0 {
      RowFirst(widths, rows);
    } else {
      RowAt(widths, rows[1..], i - 1);
      OneFurther(i, w);
      RowFurther(widths, rows, rows[i], (i - 1) * w, i * w);
    }
  }
}
