/** Object identifiers as lists of 64-bit arcs, in lexicographic order. */
module Oid {
  import opened Common

  type Arc = a: int | 0 <= a < TWO_TO_THE_64
  type Oid = seq<Arc>

  /** The order of `Vec<u64>`: arc by arc, a proper prefix being smaller. */
  predicate Less(a: Oid, b: Oid) {
    b != [] && (a == [] || a[0] < b[0] || (a[0] == b[0] && Less(a[1..], b[1..])))
  }

  lemma {:induction false} LessIsTransitive(a: Oid, b: Oid, c: Oid)
    requires Less(a, b) && Less(b, c)
    ensures Less(a, c)
  {
    if a != [] && a[0] == b[0] == c[0] { LessIsTransitive(a[1..], b[1..], c[1..]); }
  }

  lemma {:induction false} LessIsStrict(a: Oid)
    ensures !Less(a, a)
  {
    if a != [] { LessIsStrict(a[1..]); }
  }

  /** Lexicographic: an identifier comes before its extensions, else the first different arc decides. */
  lemma {:induction false} LessIff(a: Oid, b: Oid)
    ensures Less(a, b) <==> a < b || exists i :: 0 <= i < |a| && i < |b| && a[..i] == b[..i] && a[i] < b[i]
  {
    if a != [] && b != [] {
      if a[0] == b[0] {
        LessIff(a[1..], b[1..]);
        assert a < b <==> a[1..] < b[1..];
        if i :| 0 <= i < |a| && i < |b| && a[..i] == b[..i] && a[i] < b[i] {
          assert i > 0 && a[1..][..i - 1] == a[..i][1..] == b[..i][1..] == b[1..][..i - 1];
          assert a[1..][i - 1] < b[1..][i - 1];
        }
        if j :| 0 <= j < |a[1..]| && j < |b[1..]| && a[1..][..j] == b[1..][..j] && a[1..][j] < b[1..][j] {
          assert a[..j + 1] == [a[0]] + a[1..][..j] == b[..j + 1] && a[j + 1] < b[j + 1];
        }
      } else {
        assert !(a < b);
        if a[0] < b[0] { assert a[..0] == b[..0]; }
        forall i | 0 < i < |a| && i < |b| ensures a[..i] != b[..i] {
          assert a[..i][0] == a[0] && b[..i][0] == b[0];
        }
      }
    }
  }

  /** A proper extension comes after what it extends. */
  lemma {:induction false} ExtensionIsGreater(root: Oid, x: Oid)
    requires root < x
    ensures Less(root, x)
  {
    if root != [] {
      assert root[1..] < x[1..];
      ExtensionIsGreater(root[1..], x[1..]);
    }
  }

  lemma ProperExtension(root: Oid, x: Oid)
    requires root <= x && Less(root, x)
    ensures root < x
  {
    LessIsStrict(root);
    assert root != x;
  }

  /** A subtree is an interval: what lies between two of its members belongs to it. */
  lemma {:induction false} SubtreeIsConvex(root: Oid, x: Oid, y: Oid, z: Oid)
    requires root <= x && root <= z && Less(x, y) && Less(y, z)
    ensures root <= y
  {
    if root != [] {
      assert x[0] == root[0] == z[0] == y[0];
      assert root[1..] <= x[1..] && root[1..] <= z[1..];
      SubtreeIsConvex(root[1..], x[1..], y[1..], z[1..]);
      assert y == [y[0]] + y[1..] && root == [root[0]] + root[1..];
    }
  }

  // ---- Rank: the order embedded in the naturals --------------------------------

  const BASE := TWO_TO_THE_64 + 1

  function Power(n: nat): (p: nat)
    ensures p > 0
  {
    if n == 0 then 1 else BASE * Power(n - 1)
  }

  /** The position of `a` among the identifiers of at most `n` arcs, read as digits of base 2^64 + 1. */
  function Rank(a: Oid, n: nat): (r: nat)
    requires |a| <= n
  {
    if a == [] then 0 else (a[0] as int + 1) * Power(n - 1) + Rank(a[1..], n - 1)
  }

  lemma TimesIsMonotone(x: nat, y: nat, p: nat)
    requires x <= y
    ensures x * p <= y * p && (x + 1) * p == x * p + p
  {
  }

  lemma {:induction false} RankIsBounded(a: Oid, n: nat)
    requires |a| <= n
    ensures Rank(a, n) < Power(n)
  {
    if a != [] {
      RankIsBounded(a[1..], n - 1);
      TimesIsMonotone(a[0] as int + 1, BASE - 1, Power(n - 1));
    }
  }

  lemma {:induction false} RankIsMonotone(a: Oid, b: Oid, n: nat)
    requires |a| <= n && |b| <= n && Less(a, b)
    ensures Rank(a, n) < Rank(b, n)
  {
    var p := Power(n - 1);
    if a == [] {
      TimesIsMonotone(1, b[0] as int + 1, p);
    } else if a[0] == b[0] {
      RankIsMonotone(a[1..], b[1..], n - 1);
    } else {
      RankIsBounded(a[1..], n - 1);
      TimesIsMonotone(a[0] as int + 2, b[0] as int + 1, p);
      TimesIsMonotone(a[0] as int + 1, b[0] as int + 1, p);
    }
  }
}
