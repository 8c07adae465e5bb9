/** Sequence and string helpers shared by the mnemonics model: the pandas
    operations the manager relies on (`drop_duplicates`, boolean-mask
    filtering, `str.contains`, `nunique`) restated over Dafny sequences. */
module Seqs {
  import opened Options


  /** No value occurs twice. */
  predicate NoRepeats<T(==)>(s: seq<T>) {
    forall i, j :: 0 <= i < j < |s| ==> s[i] != s[j]
  }

  /** `a` can be obtained from `b` by deleting elements: its elements occur
      in `b` in the same order. Matched greedily from the end. */
  predicate IsSubseq<T(==)>(a: seq<T>, b: seq<T>)
    decreases |b|
  {
    if a == [] then true
    else if b == [] then false
    else if a[|a| - 1] == b[|b| - 1] then IsSubseq(a[..|a| - 1], b[..|b| - 1])
    else IsSubseq(a, b[..|b| - 1])
  }

  /** Appending to the larger sequence keeps a subsequence a subsequence. */
  lemma {:induction false} SubseqExtend<T>(a: seq<T>, b: seq<T>, y: T)
    requires IsSubseq(a, b)
    ensures IsSubseq(a, b + [y])
    decreases |b|, 1
  {
    var b' := b + [y];
    assert b'[..|b'| - 1] == b;
    if a != [] && a[|a| - 1] == y {
      SubseqDropLast(a, b);
    }
  }

  /** Dropping the last element of a subsequence keeps it a subsequence. */
  lemma {:induction false} SubseqDropLast<T>(a: seq<T>, b: seq<T>)
    requires a != [] && IsSubseq(a, b)
    ensures IsSubseq(a[..|a| - 1], b)
    decreases |b|, 0
  {
    var a', b' := a[..|a| - 1], b[..|b| - 1];
    if a[|a| - 1] == b[|b| - 1] {
      SubseqExtend(a', b', b[|b| - 1]);
    } else {
      SubseqDropLast(a, b');
      SubseqExtend(a', b', b[|b| - 1]);
    }
    assert b' + [b[|b| - 1]] == b;
  }

  /** A subsequence of a subsequence is a subsequence. */
  lemma {:induction false} SubseqTrans<T>(a: seq<T>, b: seq<T>, c: seq<T>)
    requires IsSubseq(a, b) && IsSubseq(b, c)
    ensures IsSubseq(a, c)
    decreases |c|
  {
    if a != [] {
      var b', c' := b[..|b| - 1], c[..|c| - 1];
      assert c' + [c[|c| - 1]] == c;
      if b[|b| - 1] == c[|c| - 1] {
        if a[|a| - 1] == b[|b| - 1] {
          SubseqTrans(a[..|a| - 1], b', c');
        } else {
          SubseqTrans(a, b', c');
          SubseqExtend(a, c', c[|c| - 1]);
        }
      } else {
        SubseqTrans(a, b, c');
        SubseqExtend(a, c', c[|c| - 1]);
      }
    }
  }

  /** Appending the same value to both keeps a subsequence a subsequence. */
  lemma SubseqSnoc<T>(a: seq<T>, b: seq<T>, y: T)
    requires IsSubseq(a, b)
    ensures IsSubseq(a + [y], b + [y])
  {
    assert (a + [y])[..|a|] == a;
    assert (b + [y])[..|b|] == b;
  }

  /** The elements of `s` that do not occur in `t`, in the order of `s`. */
  function Without<T(==)>(s: seq<T>, t: seq<T>): (r: seq<T>)
    ensures forall x :: x in r ==> x in s && x !in t
    ensures forall x :: x in s && x !in t ==> x in r
    ensures IsSubseq(r, s)
  {
    if s == [] then []
    else
      var p, x := s[..|s| - 1], s[|s| - 1];
      assert s == p + [x];
      var w := Without(p, t);
      if x in t then
        SubseqExtend(w, p, x);
        w
      else
        SubseqSnoc(w, p, x);
        w + [x]
  }

  /** pandas `drop_duplicates`: keeps the first occurrence of every value,
      in order. */
  function Dedup<T(==)>(s: seq<T>): (r: seq<T>)
    ensures forall x :: x in r ==> x in s
    ensures forall x :: x in s ==> x in r
    ensures IsSubseq(r, s)
    ensures |r| <= |s|
  {
    if s == [] then []
    else
      var p, x := s[..|s| - 1], s[|s| - 1];
      assert s == p + [x];
      var d := Dedup(p);
      if x in d then
        SubseqExtend(d, p, x);
        d
      else
        d + [x]
  }

  /** `Dedup` leaves no value twice. */
  lemma {:induction false} DedupNoRepeats<T>(s: seq<T>)
    ensures NoRepeats(Dedup(s))
    decreases |s|
  {
    if s != [] {
      var p, x := s[..|s| - 1], s[|s| - 1];
      assert s == p + [x];
      DedupNoRepeats(p);
    }
  }

  /** One step of `Dedup`: a new last value is kept exactly when it is new. */
  lemma DedupSnoc<T>(p: seq<T>, x: T)
    ensures Dedup(p + [x]) == if x in p then Dedup(p) else Dedup(p) + [x]
  {
    assert (p + [x])[..|p|] == p;
  }

  /** A value held at two positions is counted at least twice. */
  lemma TwoPositionsCount<T>(s: seq<T>, i: nat, j: nat)
    requires i < j < |s| && s[i] == s[j]
    ensures multiset(s)[s[i]] >= 2
  {
    assert s == s[..j] + [s[j]] + s[j + 1..];
    assert s[i] in s[..j];
  }

  /** A value counted at least twice is held at two positions. */
  lemma {:induction false} CountTwoPositions<T>(s: seq<T>, v: T) returns (i: nat, j: nat)
    requires multiset(s)[v] >= 2
    ensures i < j < |s| && s[i] == v && s[j] == v
    decreases |s|
  {
    var p, x := s[..|s| - 1], s[|s| - 1];
    assert s == p + [x];
    if x == v {
      assert v in multiset(p);
      i :| 0 <= i < |p| && p[i] == v;
      j := |s| - 1;
    } else {
      i, j := CountTwoPositions(p, v);
    }
  }

  /** One step of `Without`. */
  lemma WithoutSnoc<T>(p: seq<T>, x: T, t: seq<T>)
    ensures Without(p + [x], t) == Without(p, t) + (if x in t then [] else [x])
  {
    assert (p + [x])[..|p|] == p;
  }

  /** De-duplicating a concatenation: the first part de-duplicated, then the
      values of the second part that the first does not hold. */
  lemma {:induction false} DedupAppend<T>(a: seq<T>, b: seq<T>)
    ensures Dedup(a + b) == Dedup(a) + Dedup(Without(b, a))
    decreases |b|
  {
    if b == [] {
      assert a + b == a;
      assert Without(b, a) == [];
      assert Dedup(a) + [] == Dedup(a);
    } else {
      var b', x := b[..|b| - 1], b[|b| - 1];
      assert b == b' + [x];
      ConcatAssoc(a, b', [x]);
      DedupAppend(a, b');
      DedupAppendStep(a, b', x);
    }
  }

  lemma ConcatAssoc<T>(p: seq<T>, q: seq<T>, r: seq<T>)
    ensures p + q + r == p + (q + r)
  {
  }

  /** The inductive step of `DedupAppend`: one more value at the end. */
  lemma DedupAppendStep<T>(a: seq<T>, b: seq<T>, x: T)
    requires Dedup(a + b) == Dedup(a) + Dedup(Without(b, a))
    ensures Dedup((a + b) + [x]) == Dedup(a) + Dedup(Without(b + [x], a))
  {
    DedupSnoc(a + b, x);
    WithoutSnoc(b, x, a);
    if x in a {
      assert Without(b, a) + [] == Without(b, a);
    } else {
      StepNew(a, b, x);
    }
  }

  /** The inductive step when `x` is not in the first part. */
  lemma StepNew<T>(a: seq<T>, b: seq<T>, x: T)
    requires x !in a
    requires Dedup(a + b) == Dedup(a) + Dedup(Without(b, a))
    requires Dedup(a + b + [x]) == if x in a + b then Dedup(a + b) else Dedup(a + b) + [x]
    ensures Dedup(a + b + [x]) == Dedup(a) + Dedup(Without(b, a) + [x])
  {
    var w := Without(b, a);
    DedupSnoc(w, x);
    assert x in b <==> x in w;
    if x !in b {
      ConcatAssoc(Dedup(a), Dedup(w), [x]);
    }
  }

  /** The values present in a column of cells (pandas `dropna` + `unique`). */
  function Present<T(==)>(cells: seq<Option<T>>): (r: set<T>)
    ensures forall x :: x in r ==> Some(x) in cells
    ensures forall i :: 0 <= i < |cells| && cells[i].Some? ==> cells[i].value in r
    ensures |r| <= |cells|
  {
    if cells == [] then {}
    else
      var p, c := cells[..|cells| - 1], cells[|cells| - 1];
      assert cells == p + [c];
      var rest := Present(p);
      if c.Some? then rest + {c.value} else rest
  }

  /** `q` occurs in `s` starting at offset `k`. */
  predicate OccursAt(s: string, q: string, k: nat) {
    k + |q| <= |s| && s[k..k + |q|] == q
  }

  /** `q` occurs in `s` as a contiguous block (a plain substring test). */
  predicate Contains(s: string, q: string)
    decreases |s|
  {
    q <= s || (|s| > 0 && Contains(s[1..], q))
  }

  /** `Contains` holds exactly when `q` sits at some offset of `s`. */
  lemma {:induction false} ContainsAt(s: string, q: string)
    ensures Contains(s, q) <==> exists k: nat :: OccursAt(s, q, k)
    decreases |s|
  {
    if |s| > 0 {
      ContainsAt(s[1..], q);
      if Contains(s[1..], q) {
        var k: nat :| OccursAt(s[1..], q, k);
        assert OccursAt(s, q, k + 1) by {
          assert s[k + 1..k + 1 + |q|] == s[1..][k..k + |q|];
        }
      }
      if !(q <= s) && exists k: nat :: OccursAt(s, q, k) {
        var k: nat :| OccursAt(s, q, k);
        if k > 0 {
          assert OccursAt(s[1..], q, k - 1) by {
            assert s[1..][k - 1..k - 1 + |q|] == s[k..k + |q|];
          }
        }
      }
      if q <= s {
        assert OccursAt(s, q, 0);
      }
    } else {
      if exists k: nat :: OccursAt(s, q, k) {
        var k: nat :| OccursAt(s, q, k);
        assert q <= s;
      }
      if q <= s {
        assert OccursAt(s, q, 0);
      }
    }
  }

  /** A string is contained in every string that starts with `p + q`. */
  lemma ContainsEnd(p: string, q: string, t: string)
    requires p + q <= t
    ensures Contains(t, q)
  {
    ContainsAt(t, q);
    assert OccursAt(t, q, |p|) by {
      assert t[|p|..|p| + |q|] == (p + q)[|p|..];
    }
  }
}
