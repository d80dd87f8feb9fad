/** The node's hand-written base64 codec (RFC 4648, section 4). */
module Base64 {
  import opened Wrappers
  import opened Bytes

  /** The standard alphabet: A-Z, a-z, 0-9, '+', '/'. */
  function Letter(v: nat): char
    requires v < 64
  {
    if v < 26 then 'A' + v as char
    else if v < 52 then 'a' + (v - 26) as char
    else if v < 62 then '0' + (v - 52) as char
    else if v == 62 then '+' else '/'
  }

  /** The position of a letter in the alphabet. */
  function Position(c: char): Option<nat>
  {
    if 'A' <= c <= 'Z' then Some((c - 'A') as nat)
    else if 'a' <= c <= 'z' then Some((c - 'a') as nat + 26)
    else if '0' <= c <= '9' then Some((c - '0') as nat + 52)
    else if c == '+' then Some(62)
    else if c == '/' then Some(63)
    else None
  }

  /** `Position` finds exactly the letters, each at its own place. */
  lemma LetterPosition(c: char, v: nat)
    ensures Position(c) == Some(v) <==> v < 64 && Letter(v) == c
    ensures v < 64 ==> Letter(v) != '=' && Letter(v) != ' ' && Letter(v) != '\n' && Letter(v) != '\r'
  {
  }

  const UPPER: string := "ABCDEFGHIJKLM" + "NOPQRSTUVWXYZ"
  const LOWER: string := "abcdefghijklm" + "nopqrstuvwxyz"

  /** The alphabet as RFC 4648 tabulates it in section 4. */
  const ALPHABET: string := UPPER + LOWER + "0123456789+/"

  lemma UpperLetter(v: nat)
    requires v < 26
    ensures UPPER[v] == Letter(v)
  {
  }

  lemma LowerLetter(v: nat)
    requires v < 26
    ensures LOWER[v] == Letter(26 + v)
  {
  }

  lemma OtherLetter(v: nat)
    requires v < 12
    ensures "0123456789+/"[v] == Letter(52 + v)
  {
  }

  /** Each letter stands at its place in the table, and only there. */
  lemma LettersOfAlphabet(v: nat)
    requires v < 64
    ensures |ALPHABET| == 64 && Letter(v) == ALPHABET[v]
    ensures forall c :: Position(c) == Some(v) <==> c == ALPHABET[v]
  {
    if v < 26 {
      UpperLetter(v);
    } else if v < 52 {
      LowerLetter(v - 26);
    } else {
      OtherLetter(v - 52);
    }
    forall c {
      LetterPosition(c, v);
    }
    hide Letter, Position;
  }

  // ----- bits regrouped ---------------------------------------------------------------------

  type sextet = v: int | 0 <= v < 64

  /** How many whole bytes are in `n` sextets. */
  function ByteCount(n: nat): nat
  {
    6 * n / 8
  }

  /** Byte `k` of the bit string that the sextets spell. */
  function ByteOf(v: seq<sextet>, k: nat): byte
    requires 8 * k + 8 <= 6 * |v|
  {
    var q := k / 3;
    if k % 3 == 0 then
      var a: int, b: int := v[4 * q], v[4 * q + 1];
      a * 4 + b / 16
    else if k % 3 == 1 then
      var a: int, b: int := v[4 * q + 1], v[4 * q + 2];
      a % 16 * 16 + b / 4
    else
      var a: int, b: int := v[4 * q + 2], v[4 * q + 3];
      a % 4 * 64 + b
  }

  /** The whole bytes in the bit string that the sextets spell; left-over bits are dropped. */
  function ToBytes(v: seq<sextet>): (r: seq<byte>)
    ensures |r| == ByteCount(|v|)
  {
    seq(ByteCount(|v|), k requires 0 <= k < ByteCount(|v|) => ByteOf(v, k))
  }

  function At(x: seq<byte>, i: nat): (b: byte)
    ensures 0 <= b < 256
  {
    if i < |x| then x[i] else 0
  }

  /** Sextet `j` of the bit string that the bytes spell, followed by zeros. */
  function SextetOf(x: seq<byte>, j: nat): sextet
  {
    var q := j / 4;
    if j % 4 == 0 then At(x, 3 * q) / 4
    else if j % 4 == 1 then At(x, 3 * q) % 4 * 16 + At(x, 3 * q + 1) / 16
    else if j % 4 == 2 then At(x, 3 * q + 1) % 16 * 4 + At(x, 3 * q + 2) / 64
    else At(x, 3 * q + 2) % 64
  }

  /** How many sextets carry bits of `n` bytes. */
  function SextetCount(n: nat): nat
  {
    (8 * n + 5) / 6
  }

  function EncodedLength(n: nat): nat
  {
    (n + 2) / 3 * 4
  }

  /** The encoding: one letter per sextet, padded with '=' to a multiple of four. */
  function Encoded(x: seq<byte>): (r: string)
    ensures |r| == EncodedLength(|x|)
  {
    seq(EncodedLength(|x|), j requires 0 <= j < EncodedLength(|x|) =>
      if j < SextetCount(|x|) then Letter(SextetOf(x, j)) else '=')
  }

  /** The letters before the first '=', as sextets; `None` at the first foreign character. */
  function Sextets(s: string): Option<seq<sextet>>
  {
    if |s| == 0 || s[0] == '=' then Some([])
    else
      match Position(s[0])
      case None => None
      case Some(v) =>
        match Sextets(s[1..])
        case None => None
        case Some(rest) => if v < 64 then Some([v] + rest) else None
  }

  function Decoded(s: string): Option<seq<byte>>
  {
    match Sextets(s) case None => None case Some(v) => Some(ToBytes(v))
  }

  lemma FourLetters(x: seq<byte>)
    requires 1 <= |x| <= 3
    ensures Encoded(x) == [Letter(SextetOf(x, 0)), Letter(SextetOf(x, 1)),
                           if |x| > 1 then Letter(SextetOf(x, 2)) else '=',
                           if |x| > 2 then Letter(SextetOf(x, 3)) else '=']
  {
    hide Letter, SextetOf;
  }

  lemma KnownSextets()
    ensures SextetOf([0x66], 0) == 25 && SextetOf([0x66], 1) == 32
    ensures SextetOf([0x66, 0x6f], 0) == 25 && SextetOf([0x66, 0x6f], 1) == 38 && SextetOf([0x66, 0x6f], 2) == 60
  {
  }

  lemma KnownSextetsOfThree()
    ensures SextetOf([0x66, 0x6f, 0x6f], 0) == 25 && SextetOf([0x66, 0x6f, 0x6f], 1) == 38
    ensures SextetOf([0x66, 0x6f, 0x6f], 2) == 61 && SextetOf([0x66, 0x6f, 0x6f], 3) == 47
  {
  }

  /** Three encodings that section 10 of RFC 4648 lists: of "f", "fo" and "foo". */
  lemma KnownEncodings()
    ensures Encoded([0x66]) == "Zg==" && Encoded([0x66, 0x6f]) == "Zm8=" && Encoded([0x66, 0x6f, 0x6f]) == "Zm9v"
  {
    hide Encoded, SextetOf, EncodedLength, SextetCount;
    FourLetters([0x66]);
    FourLetters([0x66, 0x6f]);
    FourLetters([0x66, 0x6f, 0x6f]);
    KnownSextets();
    KnownSextetsOfThree();
    assert Letter(25) == 'Z' && Letter(32) == 'g' && Letter(38) == 'm' && Letter(60) == '8';
    assert Letter(61) == '9' && Letter(47) == 'v';
    hide Letter;
  }

  // ----- the round trip -----------------------------------------------------------------------

  lemma {:induction false} SextetsOfLetters(x: seq<byte>, s: string, j: nat)
    requires s == Encoded(x) && j <= SextetCount(|x|) <= |s|
    ensures Sextets(s[j..]).Some?
    ensures |Sextets(s[j..]).value| == SextetCount(|x|) - j
    ensures forall i | 0 <= i < SextetCount(|x|) - j :: Sextets(s[j..]).value[i] == SextetOf(x, j + i)
    decreases |s| - j
  {
    hide SextetOf;
    var n := SextetCount(|x|);
    if j < n {
      SextetsOfLetters(x, s, j + 1);
      LetterPosition(s[j], SextetOf(x, j));
      assert s[j..][0] == s[j] && s[j..][1..] == s[j + 1..];
      forall i | 0 <= i < n - j
        ensures Sextets(s[j..]).value[i] == SextetOf(x, j + i)
      {
        if i > 0 {
          assert Sextets(s[j..]).value[i] == Sextets(s[j + 1..]).value[i - 1];
        }
      }
    } else if j < |s| {
      assert s[j..][0] == '=';
    }
  }

  lemma EnoughSextets(n: nat, k: nat)
    requires k < n
    ensures 8 * k + 8 <= 6 * SextetCount(n)
  {
  }

  lemma SextetIndex(q: nat)
    ensures (4 * q) / 4 == q && (4 * q) % 4 == 0
    ensures (4 * q + 1) / 4 == q && (4 * q + 1) % 4 == 1
    ensures (4 * q + 2) / 4 == q && (4 * q + 2) % 4 == 2
    ensures (4 * q + 3) / 4 == q && (4 * q + 3) % 4 == 3
  {
  }

  lemma SextetGroup(x: seq<byte>, q: nat)
    ensures SextetOf(x, 4 * q) == At(x, 3 * q) / 4
    ensures SextetOf(x, 4 * q + 1) == At(x, 3 * q) % 4 * 16 + At(x, 3 * q + 1) / 16
    ensures SextetOf(x, 4 * q + 2) == At(x, 3 * q + 1) % 16 * 4 + At(x, 3 * q + 2) / 64
    ensures SextetOf(x, 4 * q + 3) == At(x, 3 * q + 2) % 64
  {
    SextetIndex(q);
  }

  lemma ByteOfGroup(v: seq<sextet>, q: nat, r: nat)
    requires r < 3 && 8 * (3 * q + r) + 8 <= 6 * |v|
    ensures r == 0 ==> ByteOf(v, 3 * q) == v[4 * q] as int * 4 + v[4 * q + 1] / 16
    ensures r == 1 ==> ByteOf(v, 3 * q + 1) == v[4 * q + 1] % 16 as int * 16 + v[4 * q + 2] / 4
    ensures r == 2 ==> ByteOf(v, 3 * q + 2) == v[4 * q + 2] % 4 as int * 64 + v[4 * q + 3]
  {
    assert (3 * q + r) / 3 == q && (3 * q + r) % 3 == r;
  }

  lemma Rejoin(a: byte, b: byte, c: byte)
    ensures (a / 4) as int * 4 + (a % 4 as int * 16 + b / 16) / 16 == a
    ensures (a % 4 as int * 16 + b / 16) % 16 as int * 16 + (b % 16 as int * 4 + c / 64) / 4 == b
    ensures (b % 16 as int * 4 + c / 64) % 4 as int * 64 + c % 64 == c
  {
    var b1, c1 := b / 16, c / 64;
    DivModUnique(a % 4 as int * 16 + b1, 16, a % 4, b1);
    DivModUnique(b % 16 as int * 4 + c1, 4, b % 16, c1);
  }

  lemma ByteOfSextets(x: seq<byte>, v: seq<sextet>, k: nat)
    requires k < |x| && |v| == SextetCount(|x|)
    requires forall i | 0 <= i < |v| :: v[i] == SextetOf(x, i)
    ensures 8 * k + 8 <= 6 * |v|
    ensures ByteOf(v, k) == x[k]
  {
    hide SextetOf, ByteOf, SextetCount;
    EnoughSextets(|x|, k);
    var q := k / 3;
    assert k == 3 * q + k % 3;
    SextetGroup(x, q);
    ByteOfGroup(v, q, k - 3 * q);
    Rejoin(At(x, 3 * q), At(x, 3 * q + 1), At(x, 3 * q + 2));
  }

  /** Decoding what was encoded gives the bytes back, at every length. */
  lemma RoundTrip(x: seq<byte>)
    ensures Decoded(Encoded(x)) == Some(x)
  {
    hide ByteOf, SextetOf;
    var s := Encoded(x);
    SextetsOfLetters(x, s, 0);
    assert s[0..] == s;
    var v := Sextets(s).value;
    forall k | 0 <= k < |x|
      ensures 8 * k + 8 <= 6 * |v| && ByteOf(v, k) == x[k]
    {
      ByteOfSextets(x, v, k);
    }
    assert ByteCount(SextetCount(|x|)) == |x|;
    assert ToBytes(v) == x;
  }

  /** An encoding is letters and then padding: nothing that the store's text format uses as a separator. */
  lemma EncodedIsPlain(x: seq<byte>)
    ensures SextetCount(|x|) <= |Encoded(x)| <= SextetCount(|x|) + 2
    ensures forall j | 0 <= j < SextetCount(|x|) :: Position(Encoded(x)[j]).Some?
    ensures forall j | SextetCount(|x|) <= j < |Encoded(x)| :: Encoded(x)[j] == '='
    ensures forall j | 0 <= j < |Encoded(x)| ::
      Encoded(x)[j] != ' ' && Encoded(x)[j] != '\n' && Encoded(x)[j] != '\r'
  {
    hide SextetOf;
    forall j | 0 <= j < |Encoded(x)|
      ensures Encoded(x)[j] != ' ' && Encoded(x)[j] != '\n' && Encoded(x)[j] != '\r'
    {
      LetterPosition(Encoded(x)[j], SextetOf(x, j));
    }
  }

  // ----- the loops ------------------------------------------------------------------------------

  /** One letter, or padding past the last sextet. */
  function Symbol(x: seq<byte>, j: nat): char
  {
    if j < SextetCount(|x|) then Letter(SextetOf(x, j)) else '='
  }

  lemma Lengths(n: nat)
    ensures forall i | n <= i <= n + 2 && i % 3 == 0 :: i / 3 * 4 == EncodedLength(n)
    ensures SextetCount(n) <= EncodedLength(n)
  {
  }

  lemma ShiftAndMask(n: int, m: int, high: int, mid: int, low: int)
    requires m > 0 && n == m * (64 * high + mid) + low && 0 <= mid < 64 && 0 <= low < m
    ensures n / m % 64 == mid
  {
    DivModUnique(n, m, 64 * high + mid, low);
    DivModUnique(64 * high + mid, 64, high, mid);
  }

  lemma ChunkShifts(a: byte, b: byte, c: byte, n: nat)
    requires n == a * 0x1_0000 + b * 0x100 + c
    ensures n / 0x4_0000 % 64 == a / 4
    ensures n / 0x1000 % 64 == a % 4 * 16 + b / 16
    ensures n / 0x40 % 64 == b % 16 * 4 + c / 64
    ensures n % 64 == c % 64
  {
    var a1, a0, b1, b0, c1, c0 := a / 4, a % 4, b / 16, b % 16, c / 64, c % 64;
    ShiftAndMask(n, 0x4_0000, 0, a1, 0x1_0000 * a0 + 0x1000 * b1 + 0x100 * b0 + 0x40 * c1 + c0);
    ShiftAndMask(n, 0x1000, a1, 16 * a0 + b1, 0x100 * b0 + 0x40 * c1 + c0);
    ShiftAndMask(n, 0x40, 64 * a1 + 16 * a0 + b1, 4 * b0 + c1, c0);
    ShiftAndMask(n, 1, 0x1000 * a1 + 0x400 * a0 + 0x40 * b1 + 4 * b0 + c1, c0, 0);
  }

  /** The four shifts of a 24-bit group are its four sextets. */
  lemma ChunkSextets(x: seq<byte>, i: nat, n: nat)
    requires i < |x| && i % 3 == 0 && n == At(x, i) * 0x1_0000 + At(x, i + 1) * 0x100 + At(x, i + 2)
    ensures
      var q := i / 3;
      && n / 0x4_0000 % 64 == SextetOf(x, 4 * q) && n / 0x1000 % 64 == SextetOf(x, 4 * q + 1)
      && n / 0x40 % 64 == SextetOf(x, 4 * q + 2) && n % 64 == SextetOf(x, 4 * q + 3)
      && 4 * q + 1 < SextetCount(|x|)
      && (4 * q + 2 < SextetCount(|x|) <==> i + 1 < |x|)
      && (4 * q + 3 < SextetCount(|x|) <==> i + 2 < |x|)
  {
    var q := i / 3;
    assert i == 3 * q;
    hide SextetOf;
    SextetGroup(x, q);
    ChunkShifts(At(x, i), At(x, i + 1), At(x, i + 2), n);
  }

  lemma AppendFour(x: seq<byte>, was: string, q: nat, c0: char, c1: char, c2: char, c3: char)
    requires |was| == 4 * q && forall j | 0 <= j < |was| :: was[j] == Symbol(x, j)
    requires c0 == Symbol(x, 4 * q) && c1 == Symbol(x, 4 * q + 1)
    requires c2 == Symbol(x, 4 * q + 2) && c3 == Symbol(x, 4 * q + 3)
    ensures forall j | 0 <= j < 4 * q + 4 :: (was + [c0, c1, c2, c3])[j] == Symbol(x, j)
  {
    hide Symbol;
  }

  method Encode(x: seq<byte>) returns (out: string)
    ensures out == Encoded(x)
  {
    hide SextetOf, SextetCount, EncodedLength;
    Lengths(|x|);
    out := "";
    var i := 0;
    while i < |x|
      invariant i % 3 == 0 && i <= |x| + 2
      invariant |out| == i / 3 * 4
      invariant forall j | 0 <= j < |out| :: out[j] == Symbol(x, j)
    {
      var len := if |x| - i < 3 then |x| - i else 3;
      var b0, b1, b2 := At(x, i), At(x, i + 1), At(x, i + 2);
      var n: int := b0 as int * 0x1_0000 + b1 as int * 0x100 + b2 as int;
      ChunkSextets(x, i, n);
      var c2 := if len > 1 then Letter(n / 0x40 % 64) else '=';
      var c3 := if len > 2 then Letter(n % 64) else '=';
      ghost var was := out;
      out := out + [Letter(n / 0x4_0000 % 64), Letter(n / 0x1000 % 64), c2, c3];
      AppendFour(x, was, i / 3, Letter(n / 0x4_0000 % 64), Letter(n / 0x1000 % 64), c2, c3);
      i := i + 3;
    }
    assert i == 3 * (i / 3);
  }

  const U32: nat := 0x1_0000_0000

  /** `(acc << 6) | v` in 32 bits: the high bits fall off silently. */
  function Shifted(acc: nat, v: sextet): (r: nat)
  {
    acc * 64 % U32 + v
  }

  lemma ShiftedPart(a: int, r: int, v: sextet, m: int, k: int, top: int)
    requires 0 <= r < m
    ensures (64 * (m * a + r) - 64 * m * k * top + v) % (64 * m) == r * 64 + v
  {
    var q := a - k * top;
    assert 64 * (m * a + r) - 64 * m * k * top == 64 * m * q + 64 * r by {
      assert m * a - m * k * top == m * q;
    }
    DivModUnique(64 * m * q + 64 * r + v, 64 * m, q, 64 * r + v);
  }

  /** Bits that fall off never matter: the low bits are the old low bits, then the new letter. */
  lemma ShiftedLow(acc: nat, v: sextet, m: nat)
    requires m == 1 || m == 4 || m == 16 || m == 64
    ensures Shifted(acc, v) % (64 * m) == acc % m * 64 + v
    ensures Shifted(acc, v) < U32
  {
    var top, low := acc * 64 / U32, acc * 64 % U32;
    var a, r := acc / m, acc % m;
    var k := U32 / (64 * m);
    assert U32 == 64 * m * k;
    assert low % 64 == 0 && low + v < U32;
    ShiftedPart(a, r, v, m, k, top);
  }

  lemma DropBits(x: nat, d: nat)
    requires d == 1 || d == 4 || d == 16
    ensures x / d % 256 == x % (256 * d) / d
    ensures x % d == x % (256 * d) % d
  {
    var q, r := x / (256 * d), x % (256 * d);
    var r1, r0 := r / d, r % d;
    assert x == 256 * d * q + r && r == d * r1 + r0;
    assert x == d * (256 * q + r1) + r0;
    DivModUnique(x, d, 256 * q + r1, r0);
    DivModUnique(256 * q + r1, 256, q, r1);
  }

  /** What the accumulator holds after the sextets `v`: the bits not yet turned into bytes. */
  ghost predicate Pending(v: seq<sextet>, acc: nat, bits: nat)
  {
    && bits == 6 * |v| % 8
    && (bits == 6 ==> acc % 64 == v[|v| - 1])
    && (bits == 4 ==> acc % 16 == v[|v| - 1] % 16)
    && (bits == 2 ==> acc % 4 == v[|v| - 1] % 4)
  }

  function Power2(bits: nat): nat
  {
    if bits == 0 then 1 else if bits == 2 then 4 else if bits == 4 then 16 else 64
  }

  lemma BitsLeft(n: nat)
    ensures 6 * n % 8 == (if n % 4 == 0 then 0 else if n % 4 == 1 then 6 else if n % 4 == 2 then 4 else 2)
    ensures ByteCount(n + 1) == ByteCount(n) + (if n % 4 == 0 then 0 else 1)
    ensures 6 * (n + 1) % 8 == if n % 4 == 0 then 6 else 6 * n % 8 - 2
  {
  }

  lemma NewByte(a: sextet, p: sextet, low: nat, bits: nat)
    requires bits == 2 || bits == 4 || bits == 6
    requires low == a % Power2(bits)
    ensures (low * 64 + p) / Power2(bits - 2) ==
      if bits == 6 then a as int * 4 + p / 16
      else if bits == 4 then a % 16 as int * 16 + p / 4 else a % 4 as int * 64 + p
    ensures (low * 64 + p) % Power2(bits - 2) == p % Power2(bits - 2)
  {
  }

  lemma PendingBits(v: seq<sextet>, acc: nat, bits: nat, p: sextet)
    requires Pending(v, acc, bits)
    ensures bits == 0 || bits == 2 || bits == 4 || bits == 6
    ensures bits > 0 ==> |v| > 0 && acc % Power2(bits) == v[|v| - 1] % Power2(bits)
    ensures Pending(v + [p], Shifted(acc, p), if bits == 0 then 6 else bits - 2)
  {
    hide Shifted;
    BitsLeft(|v|);
    ShiftedLow(acc, p, Power2(bits));
    if bits > 0 {
      DropBits(Shifted(acc, p), Power2(bits - 2));
      NewByte(v[|v| - 1], p, acc % Power2(bits), bits);
    }
  }

  lemma ToBytesPrefix(v: seq<sextet>, p: sextet)
    ensures ByteCount(|v|) <= ByteCount(|v + [p]|)
    ensures ToBytes(v + [p])[..ByteCount(|v|)] == ToBytes(v)
  {
    var w := v + [p];
    forall k | 0 <= k < ByteCount(|v|)
      ensures ByteOf(w, k) == ByteOf(v, k)
    {
      assert forall i | 0 <= i < |v| :: w[i] == v[i];
    }
  }

  lemma LastByte(w: seq<sextet>, bits: nat)
    requires |w| > 0 && bits == 6 * (|w| - 1) % 8 && bits > 0
    ensures |w| >= 2 && ByteCount(|w|) == ByteCount(|w| - 1) + 1
    ensures
      var a, b := w[|w| - 2], w[|w| - 1];
      ByteOf(w, ByteCount(|w|) - 1) ==
        if bits == 6 then a as int * 4 + b / 16
        else if bits == 4 then a % 16 as int * 16 + b / 4 else a % 4 as int * 64 + b
  {
    var n := |w| - 1;
    BitsLeft(n);
    var q := n / 4;
    assert n == 4 * q + n % 4;
    ByteOfGroup(w, q, n % 4 - 1);
  }

  lemma NextByte(acc: nat, a: sextet, p: sextet, bits: nat)
    requires bits == 2 || bits == 4 || bits == 6
    requires acc % Power2(bits) == a % Power2(bits)
    ensures Shifted(acc, p) / Power2(bits - 2) % 256 ==
      if bits == 6 then a as int * 4 + p / 16
      else if bits == 4 then a % 16 as int * 16 + p / 4 else a % 4 as int * 64 + p
  {
    hide Shifted;
    ShiftedLow(acc, p, Power2(bits));
    DropBits(Shifted(acc, p), Power2(bits - 2));
    NewByte(a, p, acc % Power2(bits), bits);
  }

  lemma ToBytesAt(v: seq<sextet>, k: nat)
    requires k < ByteCount(|v|)
    ensures ToBytes(v)[k] == ByteOf(v, k)
  {
  }

  lemma PendingStep(v: seq<sextet>, acc: nat, bits: nat, p: sextet)
    requires Pending(v, acc, bits)
    ensures bits == 0 || bits == 2 || bits == 4 || bits == 6
    ensures Pending(v + [p], Shifted(acc, p), if bits == 0 then 6 else bits - 2)
    ensures ToBytes(v + [p]) ==
      ToBytes(v) + if bits == 0 then [] else [Shifted(acc, p) / Power2(bits - 2) % 256]
  {
    PendingBits(v, acc, bits, p);
    hide Shifted, ToBytes, ByteOf, ByteCount;
    var w := v + [p];
    BitsLeft(|v|);
    ToBytesPrefix(v, p);
    if bits > 0 {
      hide Pending, Power2;
      LastByte(w, bits);
      NextByte(acc, v[|v| - 1], p, bits);
      ToBytesAt(w, ByteCount(|w|) - 1);
      assert ToBytes(w) == ToBytes(w)[..ByteCount(|v|)] + [ToBytes(w)[ByteCount(|w|) - 1]];
    } else {
      assert ToBytes(w) == ToBytes(w)[..ByteCount(|v|)];
    }
  }

  lemma NothingPending()
    ensures Pending([], 0, 0) && ToBytes([]) == []
  {
  }

  method Decode(s: string) returns (r: Option<seq<byte>>)
    ensures r == Decoded(s)
  {
    hide Shifted, Pending, ToBytes;
    var out: seq<byte> := [];
    var acc: nat, bits: nat, i: nat := 0, 0, 0;
    ghost var v: seq<sextet> := [];
    NothingPending();
    assert s[0..] == s && forall rest: seq<sextet> :: v + rest == rest;
    while i < |s| && s[i] != '='
      invariant i <= |s|
      invariant Pending(v, acc, bits) && out == ToBytes(v)
      invariant Sextets(s) == match Sextets(s[i..]) case None => None case Some(rest) => Some(v + rest)
    {
      assert s[i..][0] == s[i] && s[i..][1..] == s[i + 1..];
      var p := Position(s[i]);
      if p == None {
        return None;
      }
      LetterPosition(s[i], p.value);
      var c: sextet := p.value;
      PendingStep(v, acc, bits, c);
      acc := Shifted(acc, c);
      bits := bits + 6;
      if bits >= 8 {
        bits := bits - 8;
        out := out + [acc / Power2(bits) % 256];
      }
      assert forall rest: seq<sextet> :: v + ([c] + rest) == v + [c] + rest;
      v := v + [c];
      i := i + 1;
    }
    assert Sextets(s[i..]) == Some([]) && v + [] == v;
    r := Some(out);
  }
}
