/** The stereo interleaver `interleave_vect` (src/main.cpp:46-62). */
module Interleave {

  function Min(x: nat, y: nat): nat { if x <= y then x else y }

  /** Reference definition: take the next left sample if one remains, then the
      next right sample if one remains, until both sides are used up. */
  function Interleaved<T>(a: seq<T>, b: seq<T>): (r: seq<T>)
    ensures |r| == |a| + |b|
    decreases |a| + |b|
  {
    if a == [] then b
    else if b == [] then a
    else [a[0], b[0]] + Interleaved(a[1..], b[1..])
  }

  /** The first `m` pairs of `r` alternate a sample of `a` and one of `b`. */
  ghost predicate PairsAlternate<T>(a: seq<T>, b: seq<T>, r: seq<T>, m: nat) {
    m <= |a| && m <= |b| && 2 * m <= |r|
    && forall i :: 0 <= i < m ==> r[2 * i] == a[i] && r[2 * i + 1] == b[i]
  }

  /** Past its first `m` samples, `s` is found in `r` shifted by `m`. */
  ghost predicate TailFollows<T>(s: seq<T>, r: seq<T>, m: nat) {
    forall j :: m <= j < |s| ==> m + j < |r| && r[m + j] == s[j]
  }

  /** Index-level description of an interleaving of `a` and `b`: the first
      min(|a|, |b|) pairs alternate left, right, and the rest of the longer
      input follows in order. */
  ghost predicate IsInterleaving<T>(a: seq<T>, b: seq<T>, r: seq<T>) {
    var m := Min(|a|, |b|);
    |r| == |a| + |b| && PairsAlternate(a, b, r, m) && TailFollows(a, r, m) && TailFollows(b, r, m)
  }

  /** Putting a0, b0 in front of an interleaving of the tails interleaves the
      whole inputs. */
  lemma ConsInterleaving<T>(a: seq<T>, b: seq<T>, t: seq<T>)
    requires a != [] && b != [] && IsInterleaving(a[1..], b[1..], t)
    ensures IsInterleaving(a, b, [a[0], b[0]] + t)
  {
    var r, m := [a[0], b[0]] + t, Min(|a|, |b|);
    forall i | 0 <= i < m ensures r[2 * i] == a[i] && r[2 * i + 1] == b[i] {
      if i > 0 {
        assert r[2 * i] == t[2 * (i - 1)] && r[2 * i + 1] == t[2 * (i - 1) + 1];
      }
    }
    assert PairsAlternate(a, b, r, m);
    forall j | m <= j < |a| ensures m + j < |r| && r[m + j] == a[j] {
      assert r[m + j] == t[(m - 1) + (j - 1)];
    }
    forall j | m <= j < |b| ensures m + j < |r| && r[m + j] == b[j] {
      assert r[m + j] == t[(m - 1) + (j - 1)];
    }
  }

  /** The reference definition meets the index-level description. */
  lemma {:induction false} InterleavedAt<T>(a: seq<T>, b: seq<T>)
    ensures IsInterleaving(a, b, Interleaved(a, b))
    decreases |a| + |b|
  {
    if a != [] && b != [] {
      InterleavedAt(a[1..], b[1..]);
      ConsInterleaving(a, b, Interleaved(a[1..], b[1..]));
    }
  }

  /** The index-level description leaves no freedom: it fixes every sample. */
  lemma InterleavingUnique<T>(a: seq<T>, b: seq<T>, r1: seq<T>, r2: seq<T>)
    requires IsInterleaving(a, b, r1) && IsInterleaving(a, b, r2)
    ensures r1 == r2
  {
    var m := Min(|a|, |b|);
    forall k | 0 <= k < |r1| ensures r1[k] == r2[k] {
      if k < 2 * m {
        var i := k / 2;
        if k % 2 == 0 {
          assert k == 2 * i;
          assert r1[2 * i] == a[i] == r2[2 * i];
        } else {
          assert k == 2 * i + 1;
          assert r1[2 * i + 1] == b[i] == r2[2 * i + 1];
        }
      } else if k - m < |a| {
        assert r1[m + (k - m)] == a[k - m] == r2[m + (k - m)];
      } else {
        assert r1[m + (k - m)] == b[k - m] == r2[m + (k - m)];
      }
    }
  }

  /** Every sample of both inputs appears in the output, and nothing else. */
  lemma {:induction false} InterleavedPermutation<T>(a: seq<T>, b: seq<T>)
    ensures multiset(Interleaved(a, b)) == multiset(a) + multiset(b)
    decreases |a| + |b|
  {
    if a != [] && b != [] {
      InterleavedPermutation(a[1..], b[1..]);
      assert a == [a[0]] + a[1..];
      assert b == [b[0]] + b[1..];
    }
  }

  /** With equal lengths the output is exactly the alternating merge
      a0, b0, a1, b1, ...: the case the debug assertion at line 49 expects. */
  lemma AlternatingWhenEqual<T>(a: seq<T>, b: seq<T>)
    requires |a| == |b|
    ensures var r := Interleaved(a, b);
      && |r| == 2 * |a|
      && forall i :: 0 <= i < |a| ==> r[2 * i] == a[i] && r[2 * i + 1] == b[i]
  {
    InterleavedAt(a, b);
    assert Min(|a|, |b|) == |a|;
  }

  /** An equal-length and an unequal-length example. */
  lemma InterleaveExamples()
    ensures Interleaved([1, 2, 3], [10, 20, 30]) == [1, 10, 2, 20, 3, 30]
    ensures Interleaved([1, 2], [10, 20, 30]) == [1, 10, 2, 20, 30]
  {
    assert [1, 2, 3][1..] == [2, 3] && [2, 3][1..] == [3];
    assert [10, 20, 30][1..] == [20, 30] && [20, 30][1..] == [30];
    assert [1, 2][1..] == [2] && [2][1..] == [];
  }

  /** One pass of the loop: appending the first remaining left sample (if
      any) and then the first remaining right sample (if any) to the output
      `done`, and advancing the cursors past them, keeps the output plus the
      interleaving of what remains unchanged. */
  lemma InterleavedPass<T>(a: seq<T>, b: seq<T>, done: seq<T>, i: nat, j: nat,
                           done2: seq<T>, i2: nat, j2: nat)
    requires i <= |a| && j <= |b| && (i < |a| || j < |b|)
    requires i2 == (if i < |a| then i + 1 else i) && j2 == (if j < |b| then j + 1 else j)
    requires done2 == done + (if i < |a| then [a[i]] else []) + (if j < |b| then [b[j]] else [])
    ensures done + Interleaved(a[i..], b[j..]) == done2 + Interleaved(a[i2..], b[j2..])
  {
    if i < |a| && j < |b| {
      assert a[i..][1..] == a[i2..] && b[j..][1..] == b[j2..];
      assert Interleaved(a[i..], b[j..]) == [a[i], b[j]] + Interleaved(a[i2..], b[j2..]);
    } else if i < |a| {
      assert b[j..] == [] && b[j2..] == [];
      assert a[i..] == [a[i]] + a[i2..];
    } else {
      assert a[i..] == [] && a[i2..] == [];
      assert b[j..] == [b[j]] + b[j2..];
    }
  }

  /** `interleave_vect`: two cursors advance over the inputs; each pass appends
      the next left sample if one remains and then the next right sample if
      one remains. The inputs are values and are left unchanged. Lengths may
      differ: the equal-length assertion of the source is a debug-only check. */
  method InterleaveVect<T>(a: seq<T>, b: seq<T>) returns (r: seq<T>)
    ensures IsInterleaving(a, b, r)
    ensures r == Interleaved(a, b)
  {
    r := [];
    var i, j := 0, 0;
    assert a[0..] == a && b[0..] == b;
    while i < |a| || j < |b|
      invariant 0 <= i <= |a| && 0 <= j <= |b|
      invariant r + Interleaved(a[i..], b[j..]) == Interleaved(a, b)
      decreases |a| - i + |b| - j
    {
      ghost var r0, i0, j0 := r, i, j;
      if i < |a| {
        r := r + [a[i]];
        i := i + 1;
      }
      if j < |b| {
        r := r + [b[j]];
        j := j + 1;
      }
      InterleavedPass(a, b, r0, i0, j0, r, i, j);
    }
    assert a[i..] == [] && b[j..] == [];
    InterleavedAt(a, b);
  }
}
