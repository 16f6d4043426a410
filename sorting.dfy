/**
  Python's ordering of `str` values (lexicographic by code point, a proper
  prefix first) and `sorted()` over a list of strings. `sorted()` is a
  library routine, so it is given here by its promise — ascending and a
  permutation of its input — and an insertion sort that keeps it.
 */
module Sorting {

  /** Python's `a < b` on `str`. */
  predicate Less(a: string, b: string)
    decreases |a|
  {
    if a == [] then b != []
    else if b == [] then false
    else if a[0] != b[0] then a[0] < b[0]
    else Less(a[1..], b[1..])
  }

  lemma {:induction false} LessIrreflexive(a: string)
    ensures !Less(a, a)
    decreases |a|
  {
    if a != [] {
      LessIrreflexive(a[1..]);
    }
  }

  lemma {:induction false} LessAsymmetric(a: string, b: string)
    requires Less(a, b)
    ensures !Less(b, a)
    decreases |a|
  {
    if a != [] && b != [] && a[0] == b[0] {
      LessAsymmetric(a[1..], b[1..]);
    }
  }

  lemma {:induction false} LessTransitive(a: string, b: string, c: string)
    requires Less(a, b) && Less(b, c)
    ensures Less(a, c)
    decreases |a|
  {
    if a != [] && a[0] == b[0] && b[0] == c[0] {
      LessTransitive(a[1..], b[1..], c[1..]);
    }
  }

  /** Two different strings are always ordered one way or the other. */
  lemma {:induction false} LessTotal(a: string, b: string)
    requires a != b
    ensures Less(a, b) || Less(b, a)
    decreases |a|
  {
    if a != [] && b != [] && a[0] == b[0] {
      assert a == [a[0]] + a[1..] && b == [b[0]] + b[1..];
      LessTotal(a[1..], b[1..]);
    }
  }

  /** The order runs from smaller to larger code points, and a proper
      prefix comes first. */
  lemma LessExamples()
    ensures Less("Firefox", "GIMP") && !Less("GIMP", "Firefox")
    ensures Less("GIMP", "GIMP 2") && !Less("GIMP 2", "GIMP")
    ensures Less("GIMP", "gedit") && Less("GIMP 2", "gedit")
  {
    assert "GIMP"[1..] == "IMP" && "GIMP 2"[1..] == "IMP 2";
    assert "IMP"[1..] == "MP" && "IMP 2"[1..] == "MP 2";
    assert "MP"[1..] == "P" && "MP 2"[1..] == "P 2";
    assert "P"[1..] == "" && "P 2"[1..] == " 2";
  }

  /** No later element is smaller than an earlier one. */
  ghost predicate Ascending(s: seq<string>) {
    forall i, j :: 0 <= i < j < |s| ==> !Less(s[j], s[i])
  }

  /** Every later element is larger: ascending without repeats. */
  ghost predicate StrictlyAscending(s: seq<string>) {
    forall i, j :: 0 <= i < j < |s| ==> Less(s[i], s[j])
  }

  /** `x` placed before the first element not smaller than it. */
  function Insert(x: string, s: seq<string>): (r: seq<string>)
    requires Ascending(s)
    ensures Ascending(r)
    ensures multiset(r) == multiset(s) + multiset{x}
  {
    if s == [] then [x]
    else if !Less(s[0], x) then
      InsertInFront(x, s);
      [x] + s
    else
      var t := Insert(x, s[1..]);
      InsertBehind(x, s, t);
      [s[0]] + t
  }

  lemma ConsAscending(h: string, t: seq<string>)
    requires Ascending(t)
    requires forall k :: 0 <= k < |t| ==> !Less(t[k], h)
    ensures Ascending([h] + t)
  {
    forall i, j | 0 <= i < j < |[h] + t| ensures !Less(([h] + t)[j], ([h] + t)[i]) {
      assert ([h] + t)[j] == t[j - 1];
      if i > 0 {
        assert ([h] + t)[i] == t[i - 1];
      }
    }
  }

  lemma InsertInFront(x: string, s: seq<string>)
    requires Ascending(s) && s != [] && !Less(s[0], x)
    ensures Ascending([x] + s)
  {
    forall k | 0 <= k < |s| ensures !Less(s[k], x) {
      if Less(s[k], x) && s[0] != x {
        LessTotal(s[0], x);
        LessTransitive(s[k], x, s[0]);
      }
    }
    ConsAscending(x, s);
  }

  lemma InsertBehind(x: string, s: seq<string>, t: seq<string>)
    requires Ascending(s) && s != [] && Less(s[0], x)
    requires Ascending(t) && multiset(t) == multiset(s[1..]) + multiset{x}
    ensures Ascending([s[0]] + t)
    ensures multiset([s[0]] + t) == multiset(s) + multiset{x}
  {
    forall k | 0 <= k < |t| ensures !Less(t[k], s[0]) {
      assert t[k] in multiset(t);
      if t[k] == x {
        LessAsymmetric(s[0], x);
      } else {
        assert t[k] in multiset(s[1..]);
        var m :| 0 <= m < |s[1..]| && s[1..][m] == t[k];
        assert s[m + 1] == t[k];
      }
    }
    ConsAscending(s[0], t);
    assert s == [s[0]] + s[1..];
  }

  /** `sorted(s)`. */
  function Sort(s: seq<string>): (r: seq<string>)
    ensures Ascending(r)
    ensures multiset(r) == multiset(s)
  {
    if s == [] then []
    else
      assert s == [s[0]] + s[1..];
      Insert(s[0], Sort(s[1..]))
  }

  /** Sorting a list without repeats gives a strictly ascending list. */
  lemma SortDistinct(s: seq<string>)
    requires forall i, j :: 0 <= i < j < |s| ==> s[i] != s[j]
    ensures StrictlyAscending(Sort(s))
    ensures |Sort(s)| == |s|
    ensures forall x :: x in Sort(s) <==> x in s
  {
    var r := Sort(s);
    assert |r| == |multiset(r)| == |multiset(s)| == |s|;
    forall x ensures x in r <==> x in s {
      assert x in r <==> x in multiset(r);
      assert x in s <==> x in multiset(s);
    }
    forall i, j | 0 <= i < j < |r| ensures Less(r[i], r[j]) {
      if r[i] == r[j] {
        DuplicateInPermutation(s, r, i, j);
      }
      LessTotal(r[i], r[j]);
    }
  }

  /** A permutation of a list without repeats has no repeats either. */
  lemma DuplicateInPermutation(s: seq<string>, r: seq<string>, i: nat, j: nat)
    requires forall a, b :: 0 <= a < b < |s| ==> s[a] != s[b]
    requires multiset(r) == multiset(s)
    requires i < j < |r|
    ensures r[i] != r[j]
  {
    if r[i] == r[j] {
      var x := r[i];
      MultiplicityAtLeastTwo(r, i, j);
      MultiplicityAtMostOne(s, x);
      assert false;
    }
  }

  lemma {:induction false} MultiplicityAtLeastTwo(r: seq<string>, i: nat, j: nat)
    requires i < j < |r| && r[i] == r[j]
    ensures multiset(r)[r[i]] >= 2
  {
    var x := r[i];
    assert r == r[..i] + [x] + r[i + 1..j] + [x] + r[j + 1..];
    assert multiset(r) == multiset(r[..i]) + multiset{x} + multiset(r[i + 1..j]) + multiset{x} + multiset(r[j + 1..]);
  }

  lemma {:induction false} MultiplicityAtMostOne(s: seq<string>, x: string)
    requires forall a, b :: 0 <= a < b < |s| ==> s[a] != s[b]
    ensures multiset(s)[x] <= 1
  {
    if s != [] {
      var t := s[1..];
      assert s == [s[0]] + t;
      MultiplicityAtMostOne(t, x);
      if s[0] == x {
        assert forall k :: 0 <= k < |t| ==> t[k] == s[k + 1] != s[0];
      }
    }
  }
}
