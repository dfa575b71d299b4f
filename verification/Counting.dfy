/** Counting and comparing: sizes of sets, and the smaller and larger of two numbers. */
module Counting {
  function Min(a: int, b: int): int {
    if a < b then a else b
  }

  function Max(a: int, b: int): int {
    if a < b then b else a
  }

  function Power(b: nat, k: nat): (r: nat)
    ensures b > 0 ==> r > 0
  {
    if k == 0 then 1 else b * Power(b, k - 1)
  }

  lemma {:induction false} FewerInSubset(a: set<nat>, b: set<nat>)
    requires a <= b
    ensures |a| <= |b|
  {
    if a != {} {
      var x :| x in a;
      FewerInSubset(a - {x}, b - {x});
    }
  }

  ghost function Elements(s: seq<nat>): set<nat> {
    set i | 0 <= i < |s| :: s[i]
  }

  lemma {:induction false} DistinctSize(s: seq<nat>)
    requires forall i, j :: 0 <= i < j < |s| ==> s[i] != s[j]
    ensures |Elements(s)| == |s|
  {
    if s != [] {
      var t := s[..|s| - 1];
      DistinctSize(t);
      assert Elements(s) == Elements(t) + {s[|s| - 1]};
    }
  }

  /** Two sets of which one is the image of the other, with no two elements sent to the same. */
  lemma {:induction false} OneToOne(s: set<nat>, t: set<nat>, f: seq<nat>)
    requires forall x :: x in s ==> x < |f| && f[x] in t
    requires forall x, y :: x in s && y in s && x != y ==> f[x] != f[y]
    requires forall z :: z in t ==> exists x :: x in s && f[x] == z
    ensures |s| == |t|
  {
    if s == {} {
      assert t == {};
    } else {
      var x :| x in s;
      OneToOne(s - {x}, t - {f[x]}, f);
    }
  }

  /** The k numbers from `lo` on. */
  ghost function Stretch(lo: nat, k: nat): (s: set<nat>)
    ensures |s| == k && forall i :: i in s <==> lo <= i < lo + k
  {
    if k == 0 then {} else Stretch(lo, k - 1) + {lo + k - 1}
  }

  ghost function Below(k: nat): (s: set<nat>)
    ensures |s| == k && forall i :: i in s <==> 0 <= i < k
  {
    Stretch(0, k)
  }
}
