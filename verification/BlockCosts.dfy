/** How many blocks a write takes: one for every reference it needs that the inode lacks. A row
    has the references of an inode, and `used` the bits of the bitmap. */
module BlockCosts {
  import opened Counting

  ghost function FreeSet(used: seq<bool>): set<nat> {
    set b: nat | b < |used| && !used[b]
  }

  /** The references among `wanted` that are empty. */
  ghost function Lacking(row: seq<nat>, wanted: set<nat>): set<nat> {
    set k | k in wanted && k < |row| && row[k] == 0
  }

  /** The references `wanted` have been filled, with as many free blocks as they lacked, and the
      others are the same. */
  ghost predicate Took(used: seq<bool>, row: seq<nat>, used': seq<bool>, row': seq<nat>, wanted: set<nat>) {
    && |row'| == |row|
    && (forall k :: 0 <= k < |row| ==> if k in wanted && row[k] == 0 then row'[k] != 0 else row'[k] == row[k])
    && |FreeSet(used')| + |Lacking(row, wanted)| == |FreeSet(used)|
  }

  /** There are too few free blocks for the references `wanted`. */
  ghost predicate Short(used: seq<bool>, row: seq<nat>, wanted: set<nat>) {
    |FreeSet(used)| < |Lacking(row, wanted)|
  }

  lemma TookNotShort(used: seq<bool>, row: seq<nat>, used': seq<bool>, row': seq<nat>, wanted: set<nat>)
    requires Took(used, row, used', row', wanted)
    ensures !Short(used, row, wanted)
  {
  }

  lemma TookNone(used: seq<bool>, row: seq<nat>, wanted: set<nat>)
    requires forall k :: k in wanted && k < |row| ==> row[k] != 0
    ensures Took(used, row, used, row, wanted)
  {
    assert Lacking(row, wanted) == {};
  }

  lemma TookOne(used: seq<bool>, row: seq<nat>, b: nat, k: nat)
    requires b < |used| && !used[b] && b != 0 && k < |row| && row[k] == 0
    ensures Took(used, row, used[b := true], row[k := b], {k})
  {
    assert Lacking(row, {k}) == {k};
    assert FreeSet(used[b := true]) == FreeSet(used) - {b};
  }

  /** Two parts of a write, one after the other. */
  lemma TookBoth(used: seq<bool>, row: seq<nat>, used1: seq<bool>, row1: seq<nat>, used2: seq<bool>, row2: seq<nat>,
                 a: set<nat>, b: set<nat>)
    requires Took(used, row, used1, row1, a) && Took(used1, row1, used2, row2, b)
    ensures Took(used, row, used2, row2, a + b)
  {
    LackingBoth(row, row1, a, b);
  }

  lemma LackingBoth(row: seq<nat>, row1: seq<nat>, a: set<nat>, b: set<nat>)
    requires |row1| == |row| && forall k :: 0 <= k < |row| ==> if k in a then row1[k] != 0 else row1[k] == row[k]
    ensures |Lacking(row, a + b)| == |Lacking(row, a)| + |Lacking(row1, b)|
  {
    assert Lacking(row, a + b) == Lacking(row, a) + Lacking(row1, b);
    assert Lacking(row, a) !! Lacking(row1, b);
  }

  /** What is too much for the second part is too much for both. */
  lemma ShortAfter(used: seq<bool>, row: seq<nat>, used1: seq<bool>, row1: seq<nat>, a: set<nat>, b: set<nat>)
    requires Took(used, row, used1, row1, a) && Short(used1, row1, b)
    ensures Short(used, row, a + b)
  {
    LackingBoth(row, row1, a, b);
  }

  lemma ShortMore(used: seq<bool>, row: seq<nat>, a: set<nat>, b: set<nat>)
    requires Short(used, row, a) && a <= b
    ensures Short(used, row, b)
  {
    FewerInSubset(Lacking(row, a), Lacking(row, b));
  }

  lemma NoneFree(used: seq<bool>, row: seq<nat>, wanted: set<nat>, k: nat)
    requires (forall b :: 0 <= b < |used| ==> used[b]) && k in wanted && k < |row| && row[k] == 0
    ensures Short(used, row, wanted)
  {
    assert FreeSet(used) == {};
    assert k in Lacking(row, wanted);
  }
}
