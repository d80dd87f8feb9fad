/** Byte strings in lexicographic order: the order a Rust `BTreeMap` keeps its keys in. */
module ByteOrder {
  import opened Bytes

  predicate Less(a: seq<byte>, b: seq<byte>)
  {
    |b| > 0 && (|a| == 0 || a[0] < b[0] || (a[0] == b[0] && Less(a[1..], b[1..])))
  }

  /** Where `a` and `b` part, `a` is at its end or has the smaller byte. */
  ghost predicate PartsBelow(a: seq<byte>, b: seq<byte>, i: nat)
  {
    i <= |a| && i < |b| && a[..i] == b[..i] && (i == |a| || a[i] < b[i])
  }

  lemma PartsHead(a: seq<byte>, b: seq<byte>, i: nat)
    requires PartsBelow(a, b, i)
    ensures i > 0 ==> |a| > 0 && |b| > 0 && a[0] == b[0]
  {
    assert i > 0 ==> a[..i][0] == b[..i][0];
  }

  /** The order is the lexicographic one. */
  lemma {:induction false} LessWhen(a: seq<byte>, b: seq<byte>)
    ensures Less(a, b) <==> exists i: nat :: PartsBelow(a, b, i)
  {
    if |a| > 0 && |b| > 0 && a[0] == b[0] {
      LessWhen(a[1..], b[1..]);
      if Less(a, b) {
        var i: nat :| PartsBelow(a[1..], b[1..], i);
        assert a[..i + 1] == [a[0]] + a[1..][..i] && b[..i + 1] == [b[0]] + b[1..][..i];
        assert PartsBelow(a, b, i + 1);
      }
      if i: nat :| PartsBelow(a, b, i) {
        assert a[1..][..i - 1] == a[..i][1..] && b[1..][..i - 1] == b[..i][1..];
        assert PartsBelow(a[1..], b[1..], i - 1);
      }
    } else if Less(a, b) {
      assert PartsBelow(a, b, 0);
    } else if i: nat :| PartsBelow(a, b, i) {
      PartsHead(a, b, i);
    }
  }

  lemma {:induction false} LessIrreflexive(a: seq<byte>)
    ensures !Less(a, a)
  {
    if |a| > 0 {
      LessIrreflexive(a[1..]);
    }
  }

  lemma {:induction false} LessTransitive(a: seq<byte>, b: seq<byte>, c: seq<byte>)
    requires Less(a, b) && Less(b, c)
    ensures Less(a, c)
  {
    if |a| > 0 && a[0] == b[0] == c[0] {
      LessTransitive(a[1..], b[1..], c[1..]);
    }
  }

  lemma {:induction false} LessTotal(a: seq<byte>, b: seq<byte>)
    ensures a == b || Less(a, b) || Less(b, a)
  {
    if |a| > 0 && |b| > 0 && a[0] == b[0] {
      LessTotal(a[1..], b[1..]);
      assert a == [a[0]] + a[1..] && b == [b[0]] + b[1..];
    }
  }

  lemma LessAsymmetric(a: seq<byte>, b: seq<byte>)
    requires Less(a, b)
    ensures a != b && !Less(b, a)
  {
    LessIrreflexive(a);
    if Less(b, a) {
      LessTransitive(a, b, a);
    }
  }

  predicate IsLeast(x: seq<byte>, s: set<seq<byte>>)
  {
    x in s && forall y | y in s && y != x :: Less(x, y)
  }

  /** Every non-empty set of keys has exactly one least key. */
  lemma {:induction false} LeastExists(s: set<seq<byte>>)
    requires s != {}
    ensures exists x :: IsLeast(x, s)
    ensures forall x, y | IsLeast(x, s) && IsLeast(y, s) :: x == y
    decreases |s|
  {
    forall x, y | IsLeast(x, s) && IsLeast(y, s)
      ensures x == y
    {
      if x != y {
        LessAsymmetric(x, y);
      }
    }
    var x :| x in s;
    var rest := s - {x};
    if rest == {} {
      assert forall y | y in s :: y == x || y in rest;
      assert IsLeast(x, s);
    } else {
      LeastExists(rest);
      var z :| IsLeast(z, rest);
      LessTotal(x, z);
      if Less(z, x) {
        assert IsLeast(z, s);
      } else {
        forall y | y in s && y != x
          ensures Less(x, y)
        {
          if y != z {
            LessTransitive(x, z, y);
          }
        }
        assert IsLeast(x, s);
      }
    }
  }

  function Least(s: set<seq<byte>>): (x: seq<byte>)
    requires s != {}
    ensures IsLeast(x, s)
  {
    LeastExists(s);
    var x :| x in s && IsLeast(x, s);
    x
  }

  ghost predicate Ascending(ks: seq<seq<byte>>)
  {
    forall i, j | 0 <= i < j < |ks| :: Less(ks[i], ks[j])
  }

  /** The keys of an ordered map, in the order it is iterated. */
  function SortedKeys(s: set<seq<byte>>): (ks: seq<seq<byte>>)
    ensures |ks| == |s|
    ensures forall k :: k in ks <==> k in s
    ensures Ascending(ks)
    decreases |s|
  {
    if s == {} then []
    else
      var x := Least(s);
      [x] + SortedKeys(s - {x})
  }
}
