/** How many pages growing an address space takes: its user pages, and a table for every
    directory entry that has none yet. */
module PageCosts {
  import opened Counting
  import opened PageTables

  /** The directory entries that have a table. */
  ghost function Tabs(mem: Memory, d: nat): set<nat> {
    set i: nat | i < NPDENTRIES && Entry(mem, d, i).present
  }

  /** The directory entries of virtual pages [lo, hi). */
  ghost function Covered(lo: nat, hi: nat): set<nat> {
    set v: nat | lo <= v < hi :: v / NPTENTRIES
  }

  ghost function TableCost(mem: Memory, d: nat, i: nat): nat {
    if i in Tabs(mem, d) then 0 else 1
  }

  /** n pages have gone, and one more for table i of d if there was none. */
  ghost predicate Took(mem: Memory, free: seq<nat>, mem': Memory, free': seq<nat>, d: nat, n: nat, i: nat) {
    Tabs(mem', d) == Tabs(mem, d) + {i} && |free'| + n + TableCost(mem, d, i) == |free|
  }

  /** There are too few free pages for n pages and table i of d. */
  ghost predicate Short(mem: Memory, free: seq<nat>, d: nat, n: nat, i: nat) {
    |free| < n + TableCost(mem, d, i)
  }

  /** Of `had` pages, free or tables of d, n have been used, and d has the tables `tabs`. */
  ghost predicate Paid(mem: Memory, free: seq<nat>, d: nat, had: nat, n: nat, tabs: set<nat>) {
    Tabs(mem, d) == tabs && |free| + n + |tabs| == had
  }

  lemma PaidStep(mem: Memory, free: seq<nat>, mem': Memory, free': seq<nat>, d: nat, had: nat, n: nat, tabs: set<nat>,
                 m: nat, i: nat)
    requires Paid(mem, free, d, had, n, tabs) && Took(mem, free, mem', free', d, m, i)
    ensures Paid(mem', free', d, had, n + m, tabs + {i})
  {
    if i in tabs {
      assert tabs + {i} == tabs;
    } else {
      assert |tabs + {i}| == |tabs| + 1;
    }
  }

  /** What is too much for one step is too much for all that includes it. */
  lemma PaidShort(mem: Memory, free: seq<nat>, d: nat, had: nat, n: nat, tabs: set<nat>, m: nat, i: nat, n': nat,
                  tabs': set<nat>)
    requires Paid(mem, free, d, had, n, tabs) && Short(mem, free, d, m, i)
    requires n + m <= n' && tabs + {i} <= tabs'
    ensures had < n' + |tabs'|
  {
    if i in tabs {
      assert tabs + {i} == tabs;
    } else {
      assert |tabs + {i}| == |tabs| + 1;
    }
    FewerInSubset(tabs + {i}, tabs');
  }

  /** With the page to be mapped taken first. */
  lemma OneMore(mem: Memory, free: seq<nat>, mem1: Memory, free1: seq<nat>, d: nat, i: nat)
    requires Tabs(mem1, d) == Tabs(mem, d) && |free1| + 1 == |free|
    ensures forall mem2, free2 :: Took(mem1, free1, mem2, free2, d, 0, i) ==> Took(mem, free, mem2, free2, d, 1, i)
    ensures Short(mem1, free1, d, 0, i) ==> Short(mem, free, d, 1, i)
    ensures i in Tabs(mem, d) ==> !Short(mem, free, d, 1, i)
  {
    hide Tabs;
  }

  lemma NoPages(mem: Memory, d: nat, i: nat)
    ensures Short(mem, [], d, 1, i)
  {
  }

  /** What is enough for one step more. */
  lemma PaidEnough(mem: Memory, free: seq<nat>, d: nat, had: nat, n: nat, tabs: set<nat>, m: nat, i: nat)
    requires Paid(mem, free, d, had, n, tabs) && !Short(mem, free, d, m, i)
    ensures had >= n + m + |tabs + {i}|
  {
    if i in tabs {
      assert tabs + {i} == tabs;
    } else {
      assert |tabs + {i}| == |tabs| + 1;
    }
  }

  lemma CoveredNext(lo: nat, a: nat)
    requires lo <= a
    ensures Covered(lo, lo) == {} && Covered(lo, a + 1) == Covered(lo, a) + {a / NPTENTRIES}
  {
    forall i | i in Covered(lo, a + 1)
      ensures i in Covered(lo, a) + {a / NPTENTRIES}
    {
      var v: nat :| lo <= v < a + 1 && v / NPTENTRIES == i;
    }
    assert a / NPTENTRIES in Covered(lo, a + 1);
  }

  lemma CoveredMore(lo: nat, a: nat, hi: nat)
    requires lo <= a < hi
    ensures Covered(lo, a) + {a / NPTENTRIES} <= Covered(lo, hi)
  {
    CoveredNext(lo, a);
  }

  /** Tables are found in the directory alone. */
  lemma SameTabs(mem: Memory, mem': Memory, d: nat)
    requires d in mem && d in mem' && mem'[d] == mem[d]
    ensures Tabs(mem', d) == Tabs(mem, d)
  {
  }

  lemma NewTab(mem: Memory, d: nat, i: nat, f: nat, flags: nat)
    requires d in mem && mem[d].Entries? && i < |mem[d].e| == NPDENTRIES && d != f
    ensures Tabs(WithTable(mem, d, i, f, flags), d) == Tabs(mem, d) + {i}
  {
    var mem' := WithTable(mem, d, i, f, flags);
    forall k: nat
      ensures k in Tabs(mem', d) <==> k in Tabs(mem, d) || k == i
    {
      assert Entry(mem', d, k) == if k == i then Pte(true, f, flags) else Entry(mem, d, k);
    }
  }
}
