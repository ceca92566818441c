/** Byte strings and the order that BYTEA columns and derived `Ord` compare them in. */
module ByteStrings {

  type Byte = n: int | 0 <= n < 256
  type Bytes = seq<Byte>

  /** Strictly before in lexicographic order. */
  predicate Before(a: Bytes, b: Bytes)
    decreases |a|
  {
    b != [] && (a == [] || a[0] < b[0] || (a[0] == b[0] && Before(a[1..], b[1..])))
  }

  /** The two agree on `n` bytes, and there `a` ends or has the lesser byte. */
  predicate Decides(a: Bytes, b: Bytes, n: nat) {
    n <= |a| && n < |b| && a[..n] == b[..n] && (n == |a| || a[n] < b[n])
  }

  /** The first byte that differs decides; a proper prefix comes first. */
  lemma {:induction false} BeforeExactly(a: Bytes, b: Bytes)
    ensures Before(a, b) <==> exists n: nat :: Decides(a, b, n)
    decreases |a|
  {
    if a != [] && b != [] && a[0] == b[0] {
      BeforeExactly(a[1..], b[1..]);
      if n: nat :| Decides(a, b, n) {
        assert n > 0;
        assert a[1..][..n - 1] == a[..n][1..] && b[1..][..n - 1] == b[..n][1..];
        assert Decides(a[1..], b[1..], n - 1);
      }
      if n: nat :| Decides(a[1..], b[1..], n) {
        assert a[..n + 1] == [a[0]] + a[1..][..n] && b[..n + 1] == [b[0]] + b[1..][..n];
        assert Decides(a, b, n + 1);
      }
    } else if b != [] && (a == [] || a[0] < b[0]) {
      assert Decides(a, b, 0);
    } else if a != [] && b != [] {
      assert forall n :: 0 < n <= |a| && n < |b| ==> a[..n][0] != b[..n][0];
    }
  }

  predicate AtMost(a: Bytes, b: Bytes) {
    a == b || Before(a, b)
  }

  lemma {:induction false} BeforeTransitive(a: Bytes, b: Bytes, c: Bytes)
    requires Before(a, b) && Before(b, c)
    ensures Before(a, c)
    decreases |a|
  {
    if a != [] && a[0] == b[0] == c[0] {
      BeforeTransitive(a[1..], b[1..], c[1..]);
    }
  }

  lemma {:induction false} BeforeTotal(a: Bytes, b: Bytes)
    ensures a == b || Before(a, b) || Before(b, a)
    ensures !(Before(a, b) && Before(b, a)) && !Before(a, a)
    decreases |a|
  {
    if a != [] && b != [] && a[0] == b[0] {
      BeforeTotal(a[1..], b[1..]);
      assert a == [a[0]] + a[1..] && b == [b[0]] + b[1..];
    }
    if a != [] {
      BeforeTotal(a[1..], a[1..]);
    }
  }

  function Filled(n: nat, b: Byte): (s: Bytes)
    ensures |s| == n
  {
    seq(n, _ => b)
  }

  /** All zeros is the least and all 0xFF the greatest string of a length. */
  lemma {:induction false} FilledBounds(s: Bytes)
    ensures AtMost(Filled(|s|, 0), s) && AtMost(s, Filled(|s|, 255))
    decreases |s|
  {
    if s != [] {
      FilledBounds(s[1..]);
      assert Filled(|s|, 0)[1..] == Filled(|s| - 1, 0);
      assert Filled(|s|, 255)[1..] == Filled(|s| - 1, 255);
      assert s == [s[0]] + s[1..];
      assert Filled(|s|, 0) == [0] + Filled(|s| - 1, 0);
      assert Filled(|s|, 255) == [255] + Filled(|s| - 1, 255);
    }
  }
}
