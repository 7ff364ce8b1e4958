/**
 * The order-preserving filter behind every list comprehension of the store
 * (`[row for row in rows if p(row)]`): blank-row removal, delete by ID, the
 * search filter and the due-soon scan.
 */
module Seqs {

  /** The elements of `s` that satisfy `p`, in their original order. */
  function Keep<T>(s: seq<T>, p: T -> bool): (r: seq<T>)
    ensures |r| <= |s|
    ensures forall i :: 0 <= i < |r| ==> r[i] in s && p(r[i])
    ensures forall i :: 0 <= i < |s| && p(s[i]) ==> s[i] in r
  {
    if s == [] then []
    else if p(s[0]) then [s[0]] + Keep(s[1..], p)
    else Keep(s[1..], p)
  }

  /** Filtering a concatenation filters each part and keeps them in order. */
  lemma {:induction false} KeepAppend<T>(a: seq<T>, b: seq<T>, p: T -> bool)
    ensures Keep(a + b, p) == Keep(a, p) + Keep(b, p)
    decreases |a|
  {
    if a == [] {
      assert a + b == b;
    } else {
      assert (a + b)[0] == a[0];
      assert (a + b)[1..] == a[1..] + b;
      KeepAppend(a[1..], b, p);
    }
  }

  /** Filtering the prefix `s[..i + 1]` adds `s[i]` exactly when it passes. */
  lemma KeepSnoc<T>(s: seq<T>, i: nat, p: T -> bool)
    requires i < |s|
    ensures Keep(s[..i + 1], p) == Keep(s[..i], p) + (if p(s[i]) then [s[i]] else [])
  {
    assert s[..i + 1] == s[..i] + [s[i]];
    KeepAppend(s[..i], [s[i]], p);
    assert [s[i]][1..] == [];
  }

  /** When every element passes, nothing is removed. */
  lemma {:induction false} KeepAll<T>(s: seq<T>, p: T -> bool)
    requires forall i :: 0 <= i < |s| ==> p(s[i])
    ensures Keep(s, p) == s
    decreases |s|
  {
    if s != [] {
      KeepAll(s[1..], p);
    }
  }

  /** Filtering twice by the same test is filtering once. */
  lemma KeepIdempotent<T>(s: seq<T>, p: T -> bool)
    ensures Keep(Keep(s, p), p) == Keep(s, p)
  {
    var r := Keep(s, p);
    KeepAll(r, p);
  }

  /** When exactly the element at `i` fails, filtering removes just that element. */
  lemma KeepDropsOne<T>(s: seq<T>, i: nat, p: T -> bool)
    requires i < |s| && !p(s[i])
    requires forall j :: 0 <= j < |s| && j != i ==> p(s[j])
    ensures Keep(s, p) == s[..i] + s[i + 1..]
  {
    var before, after := s[..i], s[i + 1..];
    assert s == before + ([s[i]] + after);
    KeepAppend(before, [s[i]] + after, p);
    KeepAppend([s[i]], after, p);
    assert [s[i]][1..] == [];
    KeepAll(before, p);
    forall j | 0 <= j < |after| ensures p(after[j]) {
      assert after[j] == s[i + 1 + j];
    }
    KeepAll(after, p);
  }
}
