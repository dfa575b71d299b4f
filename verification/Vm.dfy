/** Address spaces over the page allocator. Virtual addresses are counted in pages, sizes in
    bytes. */
module Vm {
  import opened Blocks
  import opened Counting
  import opened Options
  import opened PageTables
  import opened PageCosts

  const PGSIZE: nat := 4096
  const KERNBASE: nat := 0x8000_0000
  /** Virtual pages, and those below KERNBASE. */
  const NPAGES: nat := NPDENTRIES * NPTENTRIES
  const UPAGES: nat := UPDENTRIES * NPTENTRIES
  const PTE_W: nat := 2
  const PTE_U: nat := 4

  /** The flat view of an address space. */
  function Translate(mem: Memory, d: nat, v: nat): Pte {
    Lookup(mem, d, v / NPTENTRIES, v % NPTENTRIES)
  }

  /** Nothing has changed but translations of d in [lo, hi), tables of d, and free pages. */
  ghost predicate Kept(mem: Memory, role: Roles, mem': Memory, role': Roles, d: nat, lo: nat, hi: nat) {
    && role'.Keys == role.Keys
    && (forall e :: IsDir(role', e) <==> IsDir(role, e))
    && (forall e, v :: IsDir(role, e) && 0 <= v < NPAGES && !(e == d && lo <= v < hi) ==>
          Translate(mem', e, v) == Translate(mem, e, v))
    && (forall f :: f in role && f in mem && (role[f].User? || role[f] == Other) && !InPages(role[f], d, lo, hi) ==>
          f in mem' && role'[f] == role[f] && mem'[f] == mem[f])
  }

  /** A user page of d in [lo, hi). */
  predicate InPages(r: Role, d: nat, lo: nat, hi: nat) {
    r.User? && r.d == d && lo <= r.i * NPTENTRIES + r.j < hi
  }

  /** What kfree leaves in a page. */
  function Junk(): Page {
    Bytes(seq(PGSIZE, _ => 1))
  }

  function ZeroPage(): Page {
    Bytes(seq(PGSIZE, _ => 0))
  }

  /** The first page at or above an address. */
  function PageUp(a: nat): nat {
    (a + PGSIZE - 1) / PGSIZE
  }

  /** The uses of pages once the user pages of d in [lo, hi) are free. */
  ghost function Vacated(role: Roles, d: nat, lo: nat, hi: nat): Roles {
    map f | f in role :: if InPages(role[f], d, lo, hi) then Free else role[f]
  }

  lemma KeptTrans(mem: Memory, role: Roles, mem1: Memory, role1: Roles, mem2: Memory, role2: Roles, d: nat, lo: nat,
                  hi: nat)
    requires Kept(mem, role, mem1, role1, d, lo, hi) && Kept(mem1, role1, mem2, role2, d, lo, hi)
    ensures Kept(mem, role, mem2, role2, d, lo, hi)
  {
  }

  lemma Split(i: nat, j: nat)
    requires j < NPTENTRIES
    ensures (i * NPTENTRIES + j) / NPTENTRIES == i && (i * NPTENTRIES + j) % NPTENTRIES == j
  {
  }

  class Kernel {
    const lo: nat
    const hi: nat
    var mem: Memory
    var free: seq<nat>
    ghost var role: Roles

    /** Every physical page has its one use. */
    ghost predicate Valid()
      reads this
    {
      Sound(mem, role, free) && 0 < lo && forall f :: f in role ==> lo <= f < hi
    }

    /** kinit: every page is freed once. */
    constructor (lo: nat, hi: nat)
      requires 0 < lo <= hi
      ensures Valid() && this.lo == lo && this.hi == hi
      ensures forall f :: f in role <==> lo <= f < hi
      ensures forall f :: f in role ==> role[f] == Free
    {
      this.lo, this.hi := lo, hi;
      mem, free, role := map[], [], map[];
      new;
      var p := lo;
      while p < hi
        invariant lo <= p <= hi && forall f :: f in role <==> lo <= f < p
        invariant forall f :: f in role ==> f in mem && role[f] == Free
        invariant FreeList(role, free)
      {
        assert p !in free;
        ghost var was := free;
        mem := mem[p := Junk()];
        free := [p] + free;
        role := role[p := Free];
        assert forall a :: 0 < a < |free| ==> free[a] == was[a - 1] != p;
        p := p + 1;
      }
      assert Sound(mem, role, free);
    }

    /** A page off the free list. */
    method Kalloc() returns (r: Option<nat>)
      requires Valid()
      modifies this`free, this`role
      ensures Valid() && (r.None? <==> old(free) == [])
      ensures r.None? ==> free == old(free) && role == old(role)
      ensures r.Some? ==>
                && r.value in old(role) && old(role)[r.value] == Free && role == old(role)[r.value := Other]
                && free == old(free)[1..]
    {
      if free == [] {
        return None;
      }
      TakeFree(mem, role, free);
      r := Some(free[0]);
      role := role[free[0] := Other];
      free := free[1..];
    }

    /** A page that the caller has goes back; false is the panic. */
    method Kfree(f: nat) returns (ok: bool)
      requires Valid() && f in role && role[f] == Other
      modifies this`mem, this`free, this`role
      ensures ok && Valid() && role == old(role)[f := Free] && free == [f] + old(free)
      ensures mem == old(mem)[f := Junk()]
    {
      if f < lo || f >= hi {
        return false;
      }
      GiveBack(mem, role, free, f, Junk());
      mem := mem[f := Junk()];
      role := role[f := Free];
      free := [f] + free;
      return true;
    }

    /** The table with the entry for page v; None if there is none, and none can be made. */
    method Walk(d: nat, v: nat, alloc: bool) returns (r: Option<nat>)
      requires Valid() && IsDir(role, d) && v < NPAGES
      modifies this`mem, this`free, this`role
      ensures Valid() && Kept(old(mem), old(role), mem, role, d, 0, 0)
      ensures !alloc || r.None? || Entry(old(mem), d, v / NPTENTRIES).present ==>
                mem == old(mem) && free == old(free) && role == old(role)
      ensures r.None? <==> !Entry(old(mem), d, v / NPTENTRIES).present && (!alloc || old(free) == [])
      ensures r.Some? ==> Took(old(mem), old(free), mem, free, d, 0, v / NPTENTRIES)
      ensures r.Some? ==> Entry(mem, d, v / NPTENTRIES).present && Entry(mem, d, v / NPTENTRIES).frame == r.value
      ensures r.Some? ==> r.value in role && role[r.value] == Tab(d, v / NPTENTRIES)
      ensures r.Some? ==> OnlyTable(old(role), role, r.value)
    {
      hide Sound, Kept;
      var i := v / NPTENTRIES;
      PagePlace(v);
      DirPage(mem, role, free, d);
      KeptRefl(mem, role, d, 0, 0);
      var pde := mem[d].e[i];
      if pde.present {
        TableOf(mem, role, free, d, i);
        return Some(pde.frame);
      }
      if !alloc {
        return None;
      }
      r := AddTable(d, i);
    }

    /** A blank table for directory entry i, if there is a page for it. */
    method AddTable(d: nat, i: nat) returns (t: Option<nat>)
      requires Valid() && IsDir(role, d) && i < NPDENTRIES && !Entry(mem, d, i).present
      modifies this`mem, this`free, this`role
      ensures Valid() && Kept(old(mem), old(role), mem, role, d, 0, 0)
      ensures t.None? <==> old(free) == []
      ensures t.None? ==> mem == old(mem) && free == old(free) && role == old(role)
      ensures t.Some? ==> Took(old(mem), old(free), mem, free, d, 0, i)
      ensures t.Some? ==> Entry(mem, d, i).present && Entry(mem, d, i).frame == t.value
      ensures t.Some? ==> t.value in role && role[t.value] == Tab(d, i) && OnlyTable(old(role), role, t.value)
    {
      hide Sound, Kept, WithTable;
      KeptRefl(mem, role, d, 0, 0);
      t := Kalloc();
      if t.None? {
        return;
      }
      TableKeeps(mem, role, free, d, i, t.value, PTE_W + PTE_U);
      NewTableKept(mem, role, free, d, i, t.value, PTE_W + PTE_U);
      assert role[t.value := Free] == old(role);
      TableEntry(mem, d, i, t.value, PTE_W + PTE_U);
      NewTab(mem, d, i, t.value, PTE_W + PTE_U);
      mem := WithTable(mem, d, i, t.value, PTE_W + PTE_U);
      role := role[t.value := Tab(d, i)];
    }

    /** mappages for one page of user memory, which the caller has. */
    method MapUser(d: nat, v: nat, f: nat, flags: nat) returns (r: Mapping)
      requires Valid() && IsDir(role, d) && v < UPAGES && f in role && role[f] == Other && f in mem && mem[f].Bytes?
      modifies this`mem, this`free, this`role
      ensures Valid() && (r == Remap <==> Translate(old(mem), d, v).present)
      ensures r == NoMem ==> Short(old(mem), old(free), d, 0, v / NPTENTRIES)
      ensures r == Mapped ==> Took(old(mem), old(free), mem, free, d, 0, v / NPTENTRIES)
      ensures r != Mapped ==> mem == old(mem) && free == old(free) && role == old(role)
      ensures r == Mapped ==> Translate(mem, d, v) == Pte(true, f, flags) && f in mem && mem[f] == old(mem)[f]
      ensures r == Mapped ==> Kept(old(mem), old(role)[f := Free], mem, role, d, v, v + 1)
      ensures r == Mapped ==> MoreTables(old(role)[f := User(d, v / NPTENTRIES, v % NPTENTRIES)], role, d)
    {
      hide Sound, Kept, Translate;
      PagePlace(v);
      var t := Walk(d, v, true);
      SameTranslation(old(mem), old(role), mem, role, d, v, f);
      TranslateIs(old(mem), d, v);
      if t.None? {
        return NoMem;
      }
      TableOf(mem, role, free, d, v / NPTENTRIES);
      TranslateIs(mem, d, v);
      if mem[t.value].e[v % NPTENTRIES].present {
        return Remap;
      }
      ghost var mem1, role1 := mem, role;
      WriteUser(d, v, t.value, f, flags);
      KeptTrans(old(mem), old(role)[f := Free], mem1, role1[f := Free], mem, role, d, v, v + 1);
      return Mapped;
    }

    /** The write to the table. */
    method WriteUser(d: nat, v: nat, t: nat, f: nat, flags: nat)
      requires Valid() && IsDir(role, d) && v < UPAGES && f in role && role[f] == Other && f in mem && mem[f].Bytes?
      requires Entry(mem, d, v / NPTENTRIES).present && Entry(mem, d, v / NPTENTRIES).frame == t
      requires !Translate(mem, d, v).present
      modifies this`mem, this`role
      ensures Valid() && Kept(old(mem), old(role)[f := Free], mem, role, d, v, v + 1)
      ensures Translate(mem, d, v) == Pte(true, f, flags) && f in mem && mem[f] == old(mem)[f]
      ensures role == old(role)[f := User(d, v / NPTENTRIES, v % NPTENTRIES)] && Tabs(mem, d) == Tabs(old(mem), d)
    {
      ghost var i, j := v / NPTENTRIES, v % NPTENTRIES;
      hide Sound, Kept, WithEntry;
      PagePlace(v);
      TableOf(mem, role, free, d, i);
      ghost var role' := role[f := User(d, i, j)];
      RemapKeeps(mem, role, free, d, i, j, Pte(true, f, flags), role');
      MapKept(mem, role, free, d, v, Pte(true, f, flags), role');
      ContentKept(mem, t, j, Pte(true, f, flags), f);
      TabsKept(mem, role, free, d, t, j, Pte(true, f, flags));
      mem := WithEntry(mem, t, v % NPTENTRIES, Pte(true, f, flags));
      role := role';
    }

    /** Page v of the user memory of d is unmapped and freed. */
    method Unmap(d: nat, v: nat, t: nat)
      requires Valid() && IsDir(role, d) && v < UPAGES && Translate(mem, d, v).present
      requires Entry(mem, d, v / NPTENTRIES).present && Entry(mem, d, v / NPTENTRIES).frame == t
      modifies this`mem, this`free, this`role
      ensures Valid() && Kept(old(mem), old(role), mem, role, d, v, v + 1) && !Translate(mem, d, v).present
      ensures role == old(role)[Translate(old(mem), d, v).frame := Free]
    {
      hide Sound, Kept, WithEntry, Translate;
      ghost var i := v / NPTENTRIES;
      var j := v % NPTENTRIES;
      TranslateIs(mem, d, v);
      PagePlace(v);
      TableOf(mem, role, free, d, i);
      UserPage(mem, role, free, d, v);
      var pa := mem[t].e[j].frame;
      RemapKeeps(mem, role, free, d, i, j, ZERO, role[pa := Other]);
      UnmapKept(mem, role, free, d, v, pa);
      mem := WithEntry(mem, t, j, ZERO);
      role := role[pa := Other];
      assert role[pa := Free] == old(role)[pa := Free];
      var ok := Kfree(pa);
    }

    /** Free the user pages between two sizes; where a table is missing, its pages are skipped. */
    method DeallocUvm(d: nat, oldsz: nat, newsz: nat) returns (sz: nat)
      requires Valid() && IsDir(role, d) && oldsz <= KERNBASE
      modifies this`mem, this`free, this`role
      ensures Valid() && sz == if newsz >= oldsz then oldsz else newsz
      ensures newsz >= oldsz ==> mem == old(mem) && free == old(free) && role == old(role)
      ensures newsz < oldsz ==>
                && Kept(old(mem), old(role), mem, role, d, PageUp(newsz), PageUp(oldsz))
                && role == Vacated(old(role), d, PageUp(newsz), PageUp(oldsz))
                && (forall v :: PageUp(newsz) <= v < PageUp(oldsz) ==> !Translate(mem, d, v).present)
    {
      if newsz >= oldsz {
        return oldsz;
      }
      ghost var first, last := PageUp(newsz), PageUp(oldsz);
      PageUpIs(newsz, oldsz);
      KeptRefl(mem, role, d, first, last);
      VacatedNone(role, d, first);
      var a := PageUp(newsz);
      hide Sound, Kept, Translate, Vacated, PageUp;
      while a * PGSIZE < oldsz
        invariant Valid() && IsDir(role, d) && first <= a <= UPAGES
        invariant Kept(old(mem), old(role), mem, role, d, first, last)
        invariant role == Vacated(old(role), d, first, if a < last then a else last)
        invariant forall v :: first <= v < a && v < last ==> !Translate(mem, d, v).present
        decreases UPAGES - a
      {
        BelowLast(oldsz, a);
        a := FreePage(d, a, old(mem), old(role), first, last);
      }
      BelowLast(oldsz, a);
      return newsz;
    }

    /** One turn of deallocuvm. */
    method FreePage(d: nat, a: nat, ghost mem0: Memory, ghost role0: Roles, ghost first: nat, ghost last: nat)
      returns (a': nat)
      requires Valid() && IsDir(role, d) && first <= a < last <= UPAGES
      requires Kept(mem0, role0, mem, role, d, first, last) && role == Vacated(role0, d, first, a)
      requires forall v :: first <= v < a ==> !Translate(mem, d, v).present
      modifies this`mem, this`free, this`role
      ensures Valid() && IsDir(role, d) && a < a' <= UPAGES && Kept(mem0, role0, mem, role, d, first, last)
      ensures role == Vacated(role0, d, first, if a' < last then a' else last)
      ensures forall v :: first <= v < a' && v < last ==> !Translate(mem, d, v).present
    {
      hide Sound, Kept, Vacated;
      PagePlace(a);
      ghost var mem1, role1 := mem, role;
      var t := Walk(d, a, false);
      a' := a + 1;
      if t.None? {
        a' := (a / NPTENTRIES + 1) * NPTENTRIES;
        SkipTable(mem, d, a, a');
        VacatedSame(mem, role, free, role0, d, first, a, if a' < last then a' else last);
      } else {
        TableOf(mem, role, free, d, a / NPTENTRIES);
        if mem[t.value].e[a % NPTENTRIES].present {
          var pa := mem[t.value].e[a % NPTENTRIES].frame;
          if pa == 0 {
            UserPage(mem, role, free, d, a);
            assert false;
          }
          VacatedStep(mem, role, free, role0, d, first, a);
          Unmap(d, a, t.value);
          OthersStay(mem1, role1, mem, role, d, first, last, a);
          KeptTrans(mem0, role0, mem1, role1, mem, role, d, first, last);
        } else {
          VacatedSame(mem, role, free, role0, d, first, a, a + 1);
        }
      }
    }

    /** Grow user memory from one size to another with zeroed pages. Failed leaves no page mapped
        and none lost; Panic comes upon a page that is mapped already. */
    method AllocUvm(d: nat, oldsz: nat, newsz: nat) returns (r: Outcome)
      requires Valid() && IsDir(role, d)
      modifies this`mem, this`free, this`role
      ensures r != Panic ==> Valid()
      ensures newsz >= KERNBASE ==> r == Failed
      ensures newsz >= KERNBASE || newsz < oldsz ==> mem == old(mem) && free == old(free) && role == old(role)
      ensures newsz < KERNBASE && newsz < oldsz ==> r == Done(oldsz)
      ensures oldsz <= newsz < KERNBASE ==> r.Done? ==> r == Done(newsz)
      ensures oldsz <= newsz < KERNBASE ==>
                (r == Failed <==> Lacking(old(mem), old(free), d, PageUp(oldsz), PageUp(newsz)))
      ensures oldsz <= newsz < KERNBASE && r != Failed ==>
                (r == Panic <==> SomeMapped(old(mem), d, PageUp(oldsz), PageUp(newsz)))
      ensures oldsz <= newsz < KERNBASE && r == Failed ==>
                FailedGrowth(old(mem), old(role), mem, role, d, PageUp(oldsz), PageUp(newsz))
      ensures oldsz <= newsz < KERNBASE && r == Failed && !SomeMapped(old(mem), d, PageUp(oldsz), PageUp(newsz)) ==>
                MoreTables(old(role), role, d) && SameView(old(mem), old(role), mem, role)
      ensures oldsz <= newsz < KERNBASE && r.Done? ==>
                && Kept(old(mem), old(role), mem, role, d, PageUp(oldsz), PageUp(newsz))
                && (forall v :: PageUp(oldsz) <= v < PageUp(newsz) ==> FreshPage(old(role), mem, d, v))
    {
      hide Sound, Kept, Translate, FreshPage, PageUp, SameView, MoreTables, Lacking, SomeMapped, FailedGrowth;
      if newsz >= KERNBASE {
        return Failed;
      }
      if newsz < oldsz {
        return Done(oldsz);
      }
      SizesInPages(oldsz, newsz);
      r := GrowTo(d, oldsz, newsz);
    }

    /** The loop of allocuvm, once the sizes are admitted. */
    method GrowTo(d: nat, oldsz: nat, newsz: nat) returns (r: Outcome)
      requires Valid() && IsDir(role, d) && oldsz <= newsz < KERNBASE && PageUp(oldsz) <= PageUp(newsz) <= UPAGES
      modifies this`mem, this`free, this`role
      ensures (r != Panic ==> Valid()) && (r.Done? ==> r == Done(newsz))
      ensures r == Failed <==> Lacking(old(mem), old(free), d, PageUp(oldsz), PageUp(newsz))
      ensures r != Failed ==> (r == Panic <==> SomeMapped(old(mem), d, PageUp(oldsz), PageUp(newsz)))
      ensures r == Failed ==> FailedGrowth(old(mem), old(role), mem, role, d, PageUp(oldsz), PageUp(newsz))
      ensures r == Failed && !SomeMapped(old(mem), d, PageUp(oldsz), PageUp(newsz)) ==>
                MoreTables(old(role), role, d) && SameView(old(mem), old(role), mem, role)
      ensures r.Done? ==>
                && Kept(old(mem), old(role), mem, role, d, PageUp(oldsz), PageUp(newsz))
                && (forall v :: PageUp(oldsz) <= v < PageUp(newsz) ==> FreshPage(old(role), mem, d, v))
    {
      hide Sound, Kept, Translate, Grown, FreshPage, PageUp, SameView, MoreTables, Vacated, Tabs, Covered, Took, Short,
        FailedGrowth, Stop, SomeMapped;
      ghost var first, last := PageUp(oldsz), PageUp(newsz);
      ghost var stop, upto := Stop(mem, d, first, last, false), Reach(mem, d, first, last);
      StopsIfMapped(mem, d, first, last);
      KeptRefl(mem, role, d, first, last);
      var a := PageUp(oldsz);
      GrownRefl(role, d, first);
      ghost var had, tabs := |free| + |Tabs(mem, d)|, Tabs(mem, d);
      PaidNothing(mem, free, d, first);
      while a * PGSIZE < newsz
        invariant Valid() && IsDir(role, d) && first <= a <= stop
        invariant Kept(old(mem), old(role), mem, role, d, first, last) && Grown(old(role), role, d, first, a)
        invariant Paid(mem, free, d, had, a - first, tabs + Covered(first, a))
        invariant forall v :: first <= v < a ==> FreshPage(old(role), mem, d, v)
        invariant forall v :: a <= v < last ==> Translate(mem, d, v) == Translate(old(mem), d, v)
        decreases last - a
      {
        BelowLast(newsz, a);
        ghost var mem1, free1 := mem, free;
        var m := GrowPage(d, a, old(mem), old(role), first, last);
        if m == Remap {
          PaidUpTo(mem1, free1, d, had, tabs, first, a);
          return Panic;
        }
        PaidNext(mem1, free1, mem, free, d, had, 0, tabs, first, a, upto, m == Mapped);
        if m == NoMem {
          GiveUp(d, oldsz, newsz, old(mem), old(role), old(free), a);
          return Failed;
        }
        a := a + 1;
      }
      BelowLast(newsz, a);
      return Done(newsz);
    }

    /** The failure of allocuvm: what was grown is freed. */
    method GiveUp(d: nat, oldsz: nat, newsz: nat, ghost mem0: Memory, ghost role0: Roles, ghost free0: seq<nat>,
                  ghost a: nat)
      requires Valid() && IsDir(role, d) && oldsz < newsz < KERNBASE && PageUp(oldsz) <= a <= PageUp(newsz)
      requires Sound(mem0, role0, free0) && IsDir(role0, d)
      requires Kept(mem0, role0, mem, role, d, PageUp(oldsz), PageUp(newsz)) && Grown(role0, role, d, PageUp(oldsz), a)
      modifies this`mem, this`free, this`role
      ensures Valid() && FailedGrowth(mem0, role0, mem, role, d, PageUp(oldsz), PageUp(newsz))
      ensures !SomeMapped(mem0, d, PageUp(oldsz), PageUp(newsz)) ==>
                MoreTables(role0, role, d) && SameView(mem0, role0, mem, role)
    {
      hide Sound, Kept, Translate, Grown, PageUp, SameView, MoreTables, Vacated, FailedGrowth;
      SizesInPages(oldsz, newsz);
      ghost var mem1, role1, first, last := mem, role, PageUp(oldsz), PageUp(newsz);
      var _ := DeallocUvm(d, newsz, oldsz);
      GrowthUndone(mem0, role0, mem1, role1, mem, role, d, first, last, a);
      if !SomeMapped(mem0, d, first, last) {
        FailedView(mem0, role0, free0, mem1, role1, mem, role, d, first, last, a);
      }
    }

    /** One turn of allocuvm: memory has run out, or the page is mapped already, which is a panic. */
    method GrowPage(d: nat, a: nat, ghost mem0: Memory, ghost role0: Roles, ghost first: nat, ghost last: nat)
      returns (m: Mapping)
      requires Valid() && IsDir(role, d) && first <= a < last <= UPAGES
      requires Kept(mem0, role0, mem, role, d, first, last) && Grown(role0, role, d, first, a)
      modifies this`mem, this`free, this`role
      ensures m == Remap ==> Translate(old(mem), d, a).present && !Short(old(mem), old(free), d, 1, a / NPTENTRIES)
      ensures m == Mapped ==> !Translate(old(mem), d, a).present
      ensures m != Remap ==> Valid() && IsDir(role, d) && Kept(mem0, role0, mem, role, d, first, last)
      ensures m != Remap ==> Grown(role0, role, d, first, if m == Mapped then a + 1 else a)
      ensures m == Mapped ==> FreshPage(role0, mem, d, a)
      ensures m == Mapped ==> Took(old(mem), old(free), mem, free, d, 1, a / NPTENTRIES)
      ensures m == NoMem ==> Short(old(mem), old(free), d, 1, a / NPTENTRIES)
      ensures m != Remap ==>
                forall v :: 0 <= v < NPAGES && v != a ==> Translate(mem, d, v) == Translate(old(mem), d, v)
      ensures forall v :: first <= v < a && FreshPage(role0, old(mem), d, v) ==> FreshPage(role0, mem, d, v)
    {
      hide Sound, Kept, Translate, Grown, Tabs, Took, Short;
      ghost var mem1, role1, free1 := mem, role, free;
      var f := AllocZeroed();
      if f.None? {
        NoPages(mem, d, a / NPTENTRIES);
        return NoMem;
      }
      PaintFree(mem1, role1, free1, f.value, ZeroPage(), d, a, a + 1);
      TabsPainted(mem1, role1, free1, f.value, ZeroPage(), d);
      OneMore(mem1, free1, mem, free, d, a / NPTENTRIES);
      SameAbsent(mem1, role1, mem, role1, d, a);
      assert role[f.value := Free] == role1;
      m := MapUser(d, a, f.value, PTE_W + PTE_U);
      if m == Remap {
        HasTable(mem1, d, a);
        return;
      }
      if m == NoMem {
        var _ := Kfree(f.value);
        assert role == role1;
        PaintFree(mem1, role1, free1, f.value, Junk(), d, a, a + 1);
        assert mem == mem1[f.value := Junk()];
        GrowTurn(mem0, role0, mem1, role1, free1, mem, role, d, first, last, a);
        SameAbsent(mem1, role1, mem, role, d, a);
        return;
      }
      KeptTrans(mem1, role1, mem1[f.value := ZeroPage()], role1, mem, role, d, a, a + 1);
      GrowTurn(mem0, role0, mem1, role1, free1, mem, role, d, first, last, a);
      GrownMore(role0, role1, role, d, first, a, f.value);
    }

    /** kalloc and memset. */
    method AllocZeroed() returns (r: Option<nat>)
      requires Valid()
      modifies this`mem, this`free, this`role
      ensures Valid() && (r.None? <==> old(free) == [])
      ensures r.None? ==> mem == old(mem) && free == old(free) && role == old(role)
      ensures r.Some? ==>
                && r.value in old(role) && old(role)[r.value] == Free && role == old(role)[r.value := Other]
                && mem == old(mem)[r.value := ZeroPage()] && |free| + 1 == |old(free)|
    {
      r := Kalloc();
      if r.Some? {
        assert role[r.value := Other] == role;
        Repaint(mem, role, free, r.value, ZeroPage(), Other, free);
        mem := mem[r.value := ZeroPage()];
      }
    }

    /** Free an address space: its user pages, its tables and its directory. */
    method FreeVm(d: nat)
      requires Valid() && IsDir(role, d)
      modifies this`mem, this`free, this`role
      ensures Valid() && role == FreedSpace(old(role), d) && Beside(old(mem), old(role), mem, d)
    {
      hide Sound, Kept, Vacated, FreedSpace, Beside, Dismissed, SweptRole, NoUserPages, Translate;
      var _ := DeallocUvm(d, KERNBASE, 0);
      AllVacated(old(mem), old(role), old(free), mem, role, free, d);
      ghost var mem1, role1, free1 := mem, role, free;
      DirPage(mem, role, free, d);
      var dir := mem[d].e;
      DismissKeeps(mem, role, free, d);
      SweptNone(role, d);
      role := Dismissed(role, d);
      var i := 0;
      while i < NPDENTRIES
        invariant 0 <= i <= NPDENTRIES && Valid() && role == SweptRole(role1, d, i)
        invariant Beside(old(mem), old(role), mem, d)
        invariant d in mem && mem[d] == Entries(dir)
      {
        if dir[i].present {
          TableSwept(mem1, role1, free1, d, i, dir, old(role));
          BesideFree(old(mem), old(role), mem, role, free, dir[i].frame, Junk(), d);
          var _ := Kfree(dir[i].frame);
        } else {
          NothingSwept(mem1, role1, free1, d, i, dir);
        }
        i := i + 1;
      }
      SweptAll(mem1, role1, free1, d);
      BesideFree(old(mem), old(role), mem, role, free, d, Junk(), d);
      var _ := Kfree(d);
    }

    /** mappages for one page of the kernel's half. */
    method MapKernel(d: nat, v: nat, pfn: nat, perm: nat) returns (r: Mapping)
      requires Valid() && IsDir(role, d) && UPAGES <= v < NPAGES
      modifies this`mem, this`free, this`role
      ensures Valid() && (r == Remap <==> Translate(old(mem), d, v).present)
      ensures r == NoMem ==> Short(old(mem), old(free), d, 0, v / NPTENTRIES)
      ensures r == Mapped ==> Took(old(mem), old(free), mem, free, d, 0, v / NPTENTRIES)
      ensures r != Mapped ==> mem == old(mem) && free == old(free) && role == old(role)
      ensures r == Mapped ==>
                Translate(mem, d, v) == Pte(true, pfn, perm) && Kept(old(mem), old(role), mem, role, d, v, v + 1)
      ensures r == Mapped ==> MoreTables(old(role), role, d)
    {
      hide Sound, Kept, Translate, WithEntry;
      var j := v % NPTENTRIES;
      PagePlace(v);
      TranslateIs(mem, d, v);
      var t := Walk(d, v, true);
      if t.None? {
        return NoMem;
      }
      WalkKept(old(mem), old(role), mem, role, d, v);
      TableOf(mem, role, free, d, v / NPTENTRIES);
      TranslateIs(mem, d, v);
      if mem[t.value].e[j].present {
        return Remap;
      }
      RemapKeeps(mem, role, free, d, v / NPTENTRIES, j, Pte(true, pfn, perm), role);
      KernelKept(mem, role, free, d, v, Pte(true, pfn, perm));
      KeptTrans(old(mem), old(role), mem, role, WithEntry(mem, t.value, j, Pte(true, pfn, perm)), role, d, v, v + 1);
      TabsKept(mem, role, free, d, t.value, j, Pte(true, pfn, perm));
      mem := WithEntry(mem, t.value, j, Pte(true, pfn, perm));
      return Mapped;
    }

    /** mappages for a range of the kernel's half; the ranges before it are `ks`. */
    method MapRange(d: nat, k: Range, ghost ks: seq<Range>, ghost mem0: Memory, ghost role0: Roles, ghost had: nat,
                    ghost tabs: set<nat>)
      returns (ok: bool)
      requires Valid() && NewSpace(mem0, role0, mem, role, d, ks) && RangesOk(ks + [k])
      requires Paid(mem, free, d, had, 1, tabs)
      modifies this`mem, this`free, this`role
      ensures Valid() && IsDir(role, d) && d in role0 && role0[d] == Free && Beside(mem0, role0, mem, d)
      ensures GrownSpace(role0, role, d)
      ensures ok ==> NewSpace(mem0, role0, mem, role, d, ks + [k])
      ensures ok ==> Paid(mem, free, d, had, 1, tabs + Covered(k.virt, k.virt + k.n))
      ensures !ok ==> had < 1 + |tabs + Covered(k.virt, k.virt + k.n)|
    {
      hide Sound, Kept, Translate, KernelPte, Beside, GrownSpace, NoUserPages, Paid, Took, Short, Covered;
      RangeBegins(mem, d, ks, k);
      CoveredNext(k.virt, k.virt);
      assert tabs + Covered(k.virt, k.virt) == tabs;
      var a := 0;
      while a < k.n
        invariant 0 <= a <= k.n && Valid() && NewSpace(mem0, role0, mem, role, d, ks + [k.(n := a)])
        invariant Paid(mem, free, d, had, 1, tabs + Covered(k.virt, k.virt + a))
      {
        RangeNext(mem, d, ks, k, a);
        ghost var mem1, role1, free1 := mem, role, free;
        var m := MapKernel(d, k.virt + a, k.phys + a, k.perm);
        PaidKernel(mem1, free1, mem, free, d, had, 1, tabs, k.virt, k.virt + a, k.virt + k.n, m == Mapped);
        if m != Mapped {
          return false;
        }
        RangeStep(mem0, role0, mem1, role1, mem, role, d, ks, k, a);
        a := a + 1;
      }
      assert k.(n := a) == k;
      return true;
    }

    /** A new address space with the kernel's mappings, or, for want of pages, nothing. */
    method SetupKvm(ks: seq<Range>) returns (r: Option<nat>)
      requires Valid() && RangesOk(ks)
      modifies this`mem, this`free, this`role
      ensures Valid()
      ensures r.Some? <==> |old(free)| >= 1 + |KernelTabs(ks)|
      ensures r.None? ==> role == old(role) && SameView(old(mem), old(role), mem, role)
      ensures r.Some? ==> NewSpace(old(mem), old(role), mem, role, r.value, ks)
      ensures r.Some? ==> Paid(mem, free, r.value, |old(free)|, 1, KernelTabs(ks))
    {
      hide Sound, NewSpace, SameView, KernelTabs, Covered;
      SameViewRefl(mem, role);
      r := NewDir();
      if r.None? {
        return;
      }
      var d := r.value;
      assert ks[..0] == [];
      NoRanges();
      var k := 0;
      while k < |ks|
        invariant 0 <= k <= |ks| && Valid() && NewSpace(old(mem), old(role), mem, role, d, ks[..k])
        invariant Paid(mem, free, d, |old(free)|, 1, KernelTabs(ks[..k]))
      {
        RangesPrefix(ks, k);
        KernelTabsPrefix(ks, k);
        var ok := MapRange(d, ks[k], ks[..k], old(mem), old(role), |old(free)|, KernelTabs(ks[..k]));
        if !ok {
          FewerInSubset(KernelTabs(ks[..k + 1]), KernelTabs(ks));
          ghost var mem1, role1 := mem, role;
          FreeVm(d);
          SpaceUndone(old(mem), old(role), old(free), mem1, role1, mem, role, d);
          return None;
        }
        assert ks[..k] + [ks[k]] == ks[..k + 1];
        k := k + 1;
      }
      assert ks[..k] == ks;
    }

    /** A blank directory. */
    method NewDir() returns (r: Option<nat>)
      requires Valid()
      modifies this`mem, this`free, this`role
      ensures Valid() && (r.None? <==> old(free) == [])
      ensures r.None? ==> mem == old(mem) && free == old(free) && role == old(role)
      ensures r.Some? ==>
                NewSpace(old(mem), old(role), mem, role, r.value, []) && Paid(mem, free, r.value, |old(free)|, 1, {})
    {
      hide Sound, Kept, Beside, Translate;
      r := Kalloc();
      if r.Some? {
        assert role[r.value := Free] == old(role);
        DirKeeps(mem, role, free, r.value);
        BlankSpace(old(mem), old(role), old(free), r.value);
        assert role[r.value := Dir] == old(role)[r.value := Dir];
        mem := mem[r.value := Blank()];
        role := role[r.value := Dir];
      }
    }

    /** A copy of the first sz bytes of user memory in an address space of its own. Failed leaves
        everything as it was; Panic comes upon a page that is not there. */
    method CopyUvm(d: nat, sz: nat, ks: seq<Range>) returns (r: Outcome)
      requires Valid() && IsDir(role, d) && sz <= KERNBASE && RangesOk(ks)
      modifies this`mem, this`free, this`role
      ensures r != Panic ==> Valid()
      ensures var n := Stop(old(mem), d, 0, PageUp(sz), true);
              && (r == Failed <==> |old(free)| < 1 + n + |KernelTabs(ks) + Covered(0, n)|)
              && (r != Failed ==> (r == Panic <==> n < PageUp(sz)))
      ensures r == Failed ==> role == old(role) && SameView(old(mem), old(role), mem, role)
      ensures r.Done? ==>
                CopiedSpace(old(mem), old(role), mem, role, d, r.value, PageUp(sz)) && KernelHalf(mem, r.value, ks)
    {
      hide Sound, NewSpace, SameView, CopiedSpace, PageUp, Translate, KernelTabs, Covered, Took, Short, KernelHalf,
        Tabs, Stop;
      var pgdir := SetupKvm(ks);
      ghost var had, tabs, n := |old(free)|, KernelTabs(ks), Stop(old(mem), d, 0, PageUp(sz), true);
      if pgdir.None? {
        FewerInSubset(tabs, tabs + Covered(0, n));
        return Failed;
      }
      var d' := pgdir.value;
      CoveredNext(0, 0);
      assert tabs + Covered(0, 0) == tabs;
      CopyBegins(old(mem), old(role), mem, role, d, d', ks);
      PageUpAtMost(sz);
      var i := 0;
      while i * PGSIZE < sz
        invariant Valid() && 0 <= i <= n && CopiedSpace(old(mem), old(role), mem, role, d, d', i)
        invariant KernelHalf(mem, d', ks) && Paid(mem, free, d', had, 1 + i, tabs + Covered(0, i))
      {
        BelowLast(sz, i);
        ghost var mem0, free0 := mem, free;
        var m := CopyPage(d, d', i, old(mem), old(role), ks);
        if m.None? {
          return Panic;
        }
        PaidNext(mem0, free0, mem, free, d', had, 1, tabs, 0, i, n, m.value);
        if !m.value {
          ghost var mem1, role1 := mem, role;
          CopiedDir(old(mem), old(role), mem, role, d, d', i);
          FreeVm(d');
          CopyUndone(old(mem), old(role), old(free), mem1, role1, mem, role, d, d', i);
          return Failed;
        }
        i := i + 1;
      }
      BelowLast(sz, i);
      return Done(d');
    }

    /** One turn of copyuvm; false means that memory has run out, and None that there is no
        page to copy, which is one of two panics. */
    method CopyPage(d: nat, d': nat, i: nat, ghost mem0: Memory, ghost role0: Roles, ghost ks: seq<Range>)
      returns (ok: Option<bool>)
      requires Valid() && CopiedSpace(mem0, role0, mem, role, d, d', i) && i < UPAGES && KernelHalf(mem, d', ks)
      modifies this`mem, this`free, this`role
      ensures ok.None? <==> !Translate(mem0, d, i).present
      ensures ok.None? ==> mem == old(mem) && free == old(free) && role == old(role)
      ensures ok.Some? ==> Valid() && CopiedSpace(mem0, role0, mem, role, d, d', if ok.value then i + 1 else i)
      ensures ok == Some(true) ==>
                KernelHalf(mem, d', ks) && Took(old(mem), old(free), mem, free, d', 1, i / NPTENTRIES)
      ensures ok == Some(false) ==> Short(old(mem), old(free), d', 1, i / NPTENTRIES)
    {
      hide Sound, Kept, CopiedSpace, Translate, MoreTables, KernelHalf;
      PagePlace(i);
      CopySource(mem0, role0, mem, role, d, d', i);
      ghost var mem1, role1, free1 := mem, role, free;
      TranslateIs(mem, d, i);
      var t := Walk(d, i, false);
      if t.None? {
        return None;
      }
      TableOf(mem, role, free, d, i / NPTENTRIES);
      var pte := mem[t.value].e[i % NPTENTRIES];
      if !pte.present {
        return None;
      }
      UserPage(mem, role, free, d, i);
      var f := AllocCopy(pte.frame);
      if f.None? {
        return Some(false);
      }
      PaintFree(mem1, role1, free1, f.value, mem1[pte.frame], d', i, i + 1);
      TabsPainted(mem1, role1, free1, f.value, mem1[pte.frame], d');
      ghost var use := User(d', i / NPTENTRIES, i % NPTENTRIES);
      assert role[f.value := Free] == role1 && role[f.value := use] == role1[f.value := use];
      var m := MapUser(d', i, f.value, pte.flags);
      if m != Mapped {
        var _ := Kfree(f.value);
        assert role == role1 && mem == mem1[f.value := Junk()];
        PaintFree(mem1, role1, free1, f.value, Junk(), d', i, i);
        CopyFails(mem0, role0, mem1, role1, free1, mem, role, d, d', i);
        return Some(false);
      }
      KeptTrans(mem1, role1, mem1[f.value := mem1[pte.frame]], role1, mem, role, d', i, i + 1);
      HalfKept(mem1, role1, mem, role, d', i, ks);
      CopyStep(mem0, role0, mem1, role1, free1, mem, role, d, d', i, f.value);
      return Some(true);
    }

    /** kalloc and memmove from another page. */
    method AllocCopy(x: nat) returns (r: Option<nat>)
      requires Valid() && x in mem && mem[x].Bytes?
      modifies this`mem, this`free, this`role
      ensures Valid() && (r.None? <==> old(free) == [])
      ensures r.None? ==> mem == old(mem) && free == old(free) && role == old(role)
      ensures r.Some? ==>
                && r.value in old(role) && old(role)[r.value] == Free && role == old(role)[r.value := Other]
                && mem == old(mem)[r.value := old(mem)[x]] && |free| + 1 == |old(free)|
    {
      r := Kalloc();
      if r.Some? {
        assert role[r.value := Other] == role;
        Repaint(mem, role, free, r.value, mem[x], Other, free);
        mem := mem[r.value := mem[x]];
      }
    }
  }

  /** The page to copy is still there. */
  lemma CopySource(mem0: Memory, role0: Roles, mem: Memory, role: Roles, d: nat, d': nat, i: nat)
    requires CopiedSpace(mem0, role0, mem, role, d, d', i) && i < UPAGES
    ensures IsDir(role, d) && IsDir(role, d') && d != d'
    ensures Translate(mem, d, i) == Translate(mem0, d, i) && !Translate(mem, d', i).present
  {
  }

  lemma CopiedDir(mem0: Memory, role0: Roles, mem: Memory, role: Roles, d: nat, d': nat, i: nat)
    requires CopiedSpace(mem0, role0, mem, role, d, d', i)
    ensures IsDir(role, d')
  {
  }

  lemma CopyBegins(mem0: Memory, role0: Roles, mem: Memory, role: Roles, d: nat, d': nat, ks: seq<Range>)
    requires NewSpace(mem0, role0, mem, role, d', ks) && IsDir(role0, d)
    ensures CopiedSpace(mem0, role0, mem, role, d, d', 0) && KernelHalf(mem, d', ks)
  {
    forall v | 0 <= v < UPAGES
      ensures !Translate(mem, d', v).present
    {
      PagePlace(v);
    }
  }

  lemma PageUpAtMost(sz: nat)
    requires sz <= KERNBASE
    ensures PageUp(sz) <= UPAGES
  {
  }

  /** Pages already copied stay copies while page i of d' changes. */
  lemma CopiesStay(mem0: Memory, role0: Roles, mem1: Memory, role1: Roles, free1: seq<nat>, mem2: Memory, role2: Roles,
                   d: nat, d': nat, i: nat, hi: nat, v: nat)
    requires Sound(mem1, role1, free1) && CopiedSpace(mem0, role0, mem1, role1, d, d', i) && i <= hi <= i + 1
    requires Kept(mem1, role1, mem2, role2, d', i, hi) && v < i && v < UPAGES
    ensures CopiedPage(role0, mem2, d, d', v)
  {
    assert CopiedPage(role0, mem1, d, d', v) && IsDir(role1, d) && d != d';
    UserPage(mem1, role1, free1, d, v);
    UserPage(mem1, role1, free1, d', v);
    assert v == v / NPTENTRIES * NPTENTRIES + v % NPTENTRIES;
    var x, y := Translate(mem1, d, v).frame, Translate(mem1, d', v).frame;
    assert !InPages(role1[x], d', i, hi) && !InPages(role1[y], d', i, hi);
  }

  lemma CopyFails(mem0: Memory, role0: Roles, mem1: Memory, role1: Roles, free1: seq<nat>, mem2: Memory, role2: Roles,
                  d: nat, d': nat, i: nat)
    requires Sound(mem1, role1, free1) && CopiedSpace(mem0, role0, mem1, role1, d, d', i) && i < UPAGES
    requires Kept(mem1, role1, mem2, role2, d', i, i) && role2 == role1
    ensures CopiedSpace(mem0, role0, mem2, role2, d, d', i)
  {
    hide Sound, Translate;
    forall v | 0 <= v < i && v < UPAGES
      ensures CopiedPage(role0, mem2, d, d', v)
    {
      CopiesStay(mem0, role0, mem1, role1, free1, mem2, role2, d, d', i, i, v);
    }
  }

  lemma CopyStep(mem0: Memory, role0: Roles, mem1: Memory, role1: Roles, free1: seq<nat>, mem2: Memory, role2: Roles,
                 d: nat, d': nat, i: nat, f: nat)
    requires Sound(mem1, role1, free1) && CopiedSpace(mem0, role0, mem1, role1, d, d', i) && i < UPAGES
    requires Kept(mem1, role1, mem2, role2, d', i, i + 1) && f in role1 && role1[f] == Free
    requires MoreTables(role1[f := User(d', i / NPTENTRIES, i % NPTENTRIES)], role2, d')
    requires var x := Translate(mem1, d, i);
             && x.present && x.frame in mem1 && Translate(mem2, d', i) == Pte(true, f, x.flags)
             && f in mem2 && mem2[f] == mem1[x.frame]
    ensures CopiedSpace(mem0, role0, mem2, role2, d, d', i + 1)
  {
    hide Sound, Translate, Kept, CopiedPage, Beside, GrownSpace, MoreTables;
    CopyStepPage(mem0, role0, mem1, role1, free1, mem2, role2, d, d', i, f);
    CopyStepRest(mem0, role0, mem1, role1, mem2, role2, d, d', i, f);
    forall v | 0 <= v < i && v < UPAGES
      ensures CopiedPage(role0, mem2, d, d', v)
    {
      CopiesStay(mem0, role0, mem1, role1, free1, mem2, role2, d, d', i, i + 1, v);
    }
    forall v | i + 1 <= v < UPAGES
      ensures !Translate(mem2, d', v).present
    {
      LaterSame(mem1, role1, mem2, role2, d', i, v);
    }
  }

  lemma LaterSame(mem1: Memory, role1: Roles, mem2: Memory, role2: Roles, d: nat, i: nat, v: nat)
    requires Kept(mem1, role1, mem2, role2, d, i, i + 1) && IsDir(role1, d) && i < v < NPAGES
    ensures Translate(mem2, d, v) == Translate(mem1, d, v)
  {
    hide Translate;
  }

  /** The page that has been copied. */
  lemma CopyStepPage(mem0: Memory, role0: Roles, mem1: Memory, role1: Roles, free1: seq<nat>, mem2: Memory,
                     role2: Roles, d: nat, d': nat, i: nat, f: nat)
    requires Sound(mem1, role1, free1) && CopiedSpace(mem0, role0, mem1, role1, d, d', i) && i < UPAGES
    requires Kept(mem1, role1, mem2, role2, d', i, i + 1) && f in role1 && role1[f] == Free
    requires var x := Translate(mem1, d, i);
             && x.present && x.frame in mem1 && Translate(mem2, d', i) == Pte(true, f, x.flags)
             && f in mem2 && mem2[f] == mem1[x.frame]
    ensures CopiedPage(role0, mem2, d, d', i)
  {
    CopySpaceHas(mem0, role0, mem1, role1, d, d', i);
    UserPage(mem1, role1, free1, d, i);
    hide Sound, Translate, CopiedSpace;
    var x := Translate(mem1, d, i).frame;
    assert !InPages(role1[x], d', i, i + 1);
  }

  lemma CopySpaceHas(mem0: Memory, role0: Roles, mem1: Memory, role1: Roles, d: nat, d': nat, i: nat)
    requires CopiedSpace(mem0, role0, mem1, role1, d, d', i)
    ensures IsDir(role1, d) && IsDir(role1, d') && d != d' && role1.Keys == role0.Keys
    ensures forall f :: f in role1 && role1[f] == Free ==> role0[f] == Free
  {
  }

  /** All but that page. */
  lemma CopyStepRest(mem0: Memory, role0: Roles, mem1: Memory, role1: Roles, mem2: Memory, role2: Roles,
                     d: nat, d': nat, i: nat, f: nat)
    requires CopiedSpace(mem0, role0, mem1, role1, d, d', i) && i < UPAGES
    requires Kept(mem1, role1, mem2, role2, d', i, i + 1) && f in role1 && role1[f] == Free
    requires MoreTables(role1[f := User(d', i / NPTENTRIES, i % NPTENTRIES)], role2, d')
    ensures IsDir(role2, d') && Beside(mem0, role0, mem2, d') && GrownSpace(role0, role2, d')
  {
    hide Translate;
    assert role1[f := User(d', i / NPTENTRIES, i % NPTENTRIES)].Keys == role1.Keys;
  }

  /** Page v of d' is a copy of page v of d, in memory that was free. */
  ghost predicate CopiedPage(role0: Roles, mem: Memory, d: nat, d': nat, v: nat) {
    var x, y := Translate(mem, d, v), Translate(mem, d', v);
    && x.present && y.present && y.flags == x.flags
    && y.frame in role0 && role0[y.frame] == Free && x.frame in mem && y.frame in mem && mem[y.frame] == mem[x.frame]
  }

  /** d' is a new address space whose user memory is a copy of the first n pages of d, and all
      else is as it was. */
  ghost predicate CopiedSpace(mem0: Memory, role0: Roles, mem: Memory, role: Roles, d: nat, d': nat, n: nat) {
    && IsDir(role0, d) && IsDir(role, d') && d' in role0 && role0[d'] == Free
    && Beside(mem0, role0, mem, d') && GrownSpace(role0, role, d')
    && (forall v :: 0 <= v < n && v < UPAGES ==> CopiedPage(role0, mem, d, d', v))
    && (forall v :: n <= v < UPAGES ==> !Translate(mem, d', v).present)
  }

  lemma SameViewRefl(mem: Memory, role: Roles)
    ensures SameView(mem, role, mem, role)
  {
  }

  lemma RangesPrefix(ks: seq<Range>, k: nat)
    requires RangesOk(ks) && k < |ks|
    ensures RangesOk(ks[..k] + [ks[k]])
  {
    assert ks[..k] + [ks[k]] == ks[..k + 1];
  }

  /** A new address space freed again: everything is as it was. */
  lemma CopyUndone(mem0: Memory, role0: Roles, free0: seq<nat>, mem1: Memory, role1: Roles, mem2: Memory, role2: Roles,
                   d: nat, d': nat, i: nat)
    requires Sound(mem0, role0, free0) && CopiedSpace(mem0, role0, mem1, role1, d, d', i)
    requires role2 == FreedSpace(role1, d') && Beside(mem1, role1, mem2, d')
    ensures role2 == role0 && SameView(mem0, role0, mem2, role2)
  {
    SpaceUndone(mem0, role0, free0, mem1, role1, mem2, role2, d');
  }

  lemma SpaceUndone(mem0: Memory, role0: Roles, free0: seq<nat>, mem1: Memory, role1: Roles, mem2: Memory,
                    role2: Roles, d: nat)
    requires Beside(mem0, role0, mem1, d) && GrownSpace(role0, role1, d) && d in role0 && role0[d] == Free
    requires Sound(mem0, role0, free0) && role2 == FreedSpace(role1, d) && Beside(mem1, role1, mem2, d)
    ensures role2 == role0 && SameView(mem0, role0, mem2, role2)
  {
    hide Sound, Translate, GrownSpace, FreedSpace;
    RolesUndone(mem0, role0, free0, role1, d);
    forall f | f in role0 && f in mem0 && (role0[f].User? || role0[f] == Other)
      ensures f in mem2 && mem2[f] == mem0[f]
    {
    }
  }

  lemma RolesUndone(mem0: Memory, role0: Roles, free0: seq<nat>, role1: Roles, d: nat)
    requires Sound(mem0, role0, free0) && GrownSpace(role0, role1, d) && d in role0 && role0[d] == Free
    ensures FreedSpace(role1, d) == role0 && role1.Keys == role0.Keys
    ensures forall f :: f in role0 ==> !OfSpace(role0, d, f) && (role1[f] == role0[f] || role0[f] == Free)
    ensures forall f :: f in role0 && role0[f] != Free ==> !OfSpace(role1, d, f)
  {
    forall f | f in role0
      ensures !OfSpace(role0, d, f)
    {
      assert PageAt(mem0, role0, f);
    }
  }

  lemma BlankSpace(mem: Memory, role: Roles, free: seq<nat>, f: nat)
    requires Sound(mem, role, free) && f in role && role[f] == Free
    ensures NewSpace(mem, role, mem[f := Blank()], role[f := Dir], f, [])
  {
    var mem', role' := mem[f := Blank()], role[f := Dir];
    assert role'.Keys == role.Keys;
    BesideFree(mem, role, mem, role, free, f, Blank(), f);
    hide Sound, Blank;
    assert forall i :: 0 <= i < NPDENTRIES ==> Entry(mem', f, i) == ZERO;
    forall v | 0 <= v < NPAGES
      ensures Translate(mem', f, v) == ZERO
    {
      PagePlace(v);
    }
  }

  /** An entry of kmap, in pages. */
  datatype Range = Range(virt: nat, phys: nat, n: nat, perm: nat)

  /** What a list of ranges maps page v to. */
  function KernelPte(ks: seq<Range>, v: nat): Pte {
    if ks == [] then ZERO
    else
      var k := ks[|ks| - 1];
      if k.virt <= v < k.virt + k.n then Pte(true, k.phys + (v - k.virt), k.perm) else KernelPte(ks[..|ks| - 1], v)
  }

  /** Ranges of the kernel's half that do not overlap. */
  predicate RangesOk(ks: seq<Range>) {
    && (forall i :: 0 <= i < |ks| ==> UPAGES <= ks[i].virt && ks[i].virt + ks[i].n <= NPAGES)
    && (forall i, j :: 0 <= i < j < |ks| ==> ks[i].virt + ks[i].n <= ks[j].virt || ks[j].virt + ks[j].n <= ks[i].virt)
  }

  /** Since role0, free pages have come to be of the address space d. */
  ghost predicate GrownSpace(role0: Roles, role: Roles, d: nat) {
    && role.Keys == role0.Keys
    && forall f :: f in role0 ==> role[f] == role0[f] || (role0[f] == Free && OfSpace(role, d, f))
  }

  /** The kernel's half of d maps the ranges ks. */
  ghost predicate KernelHalf(mem: Memory, d: nat, ks: seq<Range>) {
    forall v :: UPAGES <= v < NPAGES ==> Translate(mem, d, v) == KernelPte(ks, v)
  }

  lemma HalfKept(mem: Memory, role: Roles, mem': Memory, role': Roles, d: nat, i: nat, ks: seq<Range>)
    requires KernelHalf(mem, d, ks) && Kept(mem, role, mem', role', d, i, i + 1) && IsDir(role, d) && i < UPAGES
    ensures KernelHalf(mem', d, ks)
  {
  }

  /** d is a new address space with the ranges ks and no user memory. */
  ghost predicate NewSpace(mem0: Memory, role0: Roles, mem: Memory, role: Roles, d: nat, ks: seq<Range>) {
    && IsDir(role, d) && d in role0 && role0[d] == Free
    && Beside(mem0, role0, mem, d) && GrownSpace(role0, role, d) && NoUserPages(mem, d)
    && KernelHalf(mem, d, ks)
  }

  lemma WalkKept(mem: Memory, role: Roles, mem': Memory, role': Roles, d: nat, v: nat)
    requires Kept(mem, role, mem', role', d, 0, 0) && IsDir(role, d) && v < NPAGES
    ensures Kept(mem, role, mem', role', d, v, v + 1) && Translate(mem', d, v) == Translate(mem, d, v)
  {
  }

  lemma KernelKept(mem: Memory, role: Roles, free: seq<nat>, d: nat, v: nat, x: Pte)
    requires Sound(mem, role, free) && IsDir(role, d) && UPAGES <= v < NPAGES && Entry(mem, d, v / NPTENTRIES).present
    ensures var t := Entry(mem, d, v / NPTENTRIES).frame;
            && t in mem && mem[t].Entries? && v % NPTENTRIES < |mem[t].e|
            && Kept(mem, role, WithEntry(mem, t, v % NPTENTRIES, x), role, d, v, v + 1)
            && Translate(WithEntry(mem, t, v % NPTENTRIES, x), d, v) == x
  {
    var i, j := v / NPTENTRIES, v % NPTENTRIES;
    PagePlace(v);
    TableOf(mem, role, free, d, i);
    var t := Entry(mem, d, i).frame;
    var mem' := WithEntry(mem, t, j, x);
    assert TabAt(mem, role, d, i);
    WriteWalk(mem, role, d, i, t, j, x, d, i, j);
    forall e, w | IsDir(role, e) && 0 <= w < NPAGES && !(e == d && v <= w < v + 1)
      ensures Translate(mem', e, w) == Translate(mem, e, w)
    {
      PagePlace(w);
      assert TabAt(mem, role, e, w / NPTENTRIES);
      WriteWalk(mem, role, d, i, t, j, x, e, w / NPTENTRIES, w % NPTENTRIES);
      assert w == w / NPTENTRIES * NPTENTRIES + w % NPTENTRIES && v == i * NPTENTRIES + j;
    }
  }

  lemma KernelPteAppend(ks: seq<Range>, k: Range, v: nat)
    ensures KernelPte(ks + [k], v) ==
              if k.virt <= v < k.virt + k.n then Pte(true, k.phys + (v - k.virt), k.perm) else KernelPte(ks, v)
  {
    assert (ks + [k])[..|ks|] == ks;
  }

  lemma RangeBegins(mem: Memory, d: nat, ks: seq<Range>, k: Range)
    requires KernelHalf(mem, d, ks)
    ensures KernelHalf(mem, d, ks + [k.(n := 0)])
  {
    hide Translate, KernelPte;
    forall v | UPAGES <= v < NPAGES
      ensures Translate(mem, d, v) == KernelPte(ks + [k.(n := 0)], v)
    {
      KernelPteAppend(ks, k.(n := 0), v);
    }
  }

  lemma {:induction false} NotInRanges(ks: seq<Range>, v: nat)
    requires forall i :: 0 <= i < |ks| ==> v < ks[i].virt || ks[i].virt + ks[i].n <= v
    ensures KernelPte(ks, v) == ZERO
  {
    if ks != [] {
      NotInRanges(ks[..|ks| - 1], v);
    }
  }

  /** The next page of a range is not mapped yet. */
  lemma RangeNext(mem: Memory, d: nat, ks: seq<Range>, k: Range, a: nat)
    requires RangesOk(ks + [k]) && a < k.n
    requires KernelHalf(mem, d, ks + [k.(n := a)])
    ensures UPAGES <= k.virt + a < NPAGES && !Translate(mem, d, k.virt + a).present
  {
    assert (ks + [k])[|ks|] == k;
    forall i | 0 <= i < |ks|
      ensures k.virt + a < ks[i].virt || ks[i].virt + ks[i].n <= k.virt + a
    {
      assert (ks + [k])[i] == ks[i];
    }
    NotInRanges(ks, k.virt + a);
    KernelPteAppend(ks, k.(n := a), k.virt + a);
  }

  lemma RangeStep(mem0: Memory, role0: Roles, mem1: Memory, role1: Roles, mem2: Memory, role2: Roles, d: nat,
                  ks: seq<Range>, k: Range, a: nat)
    requires NewSpace(mem0, role0, mem1, role1, d, ks + [k.(n := a)]) && UPAGES <= k.virt + a < NPAGES
    requires Kept(mem1, role1, mem2, role2, d, k.virt + a, k.virt + a + 1) && MoreTables(role1, role2, d)
    requires Translate(mem2, d, k.virt + a) == Pte(true, k.phys + a, k.perm)
    ensures NewSpace(mem0, role0, mem2, role2, d, ks + [k.(n := a + 1)])
  {
    hide Translate, KernelPte;
    SpaceStep(mem0, role0, mem1, role1, mem2, role2, d, k.virt + a);
    forall v | UPAGES <= v < NPAGES
      ensures Translate(mem2, d, v) == KernelPte(ks + [k.(n := a + 1)], v)
    {
      KernelPteAppend(ks, k.(n := a), v);
      KernelPteAppend(ks, k.(n := a + 1), v);
    }
    UserHalf(mem1, mem2, role1, role2, d, k.virt + a);
  }

  lemma SpaceStep(mem0: Memory, role0: Roles, mem1: Memory, role1: Roles, mem2: Memory, role2: Roles, d: nat, v: nat)
    requires Beside(mem0, role0, mem1, d) && GrownSpace(role0, role1, d) && d in role0 && role0[d] == Free
    requires IsDir(role1, d)
    requires Kept(mem1, role1, mem2, role2, d, v, v + 1) && MoreTables(role1, role2, d)
    ensures Beside(mem0, role0, mem2, d) && GrownSpace(role0, role2, d) && IsDir(role2, d)
  {
  }

  /** A change in the kernel's half maps no user memory. */
  lemma UserHalf(mem1: Memory, mem2: Memory, role1: Roles, role2: Roles, d: nat, v: nat)
    requires Kept(mem1, role1, mem2, role2, d, v, v + 1) && IsDir(role1, d) && UPAGES <= v && NoUserPages(mem1, d)
    ensures NoUserPages(mem2, d)
  {
    forall i, j | 0 <= i < UPDENTRIES && 0 <= j < NPTENTRIES
      ensures !Lookup(mem2, d, i, j).present
    {
      Split(i, j);
      assert Translate(mem2, d, i * NPTENTRIES + j) == Translate(mem1, d, i * NPTENTRIES + j);
      assert !Lookup(mem1, d, i, j).present;
    }
  }

  /** The uses of pages once the address space d is gone. */
  ghost function FreedSpace(role: Roles, d: nat): Roles {
    map f | f in role :: if OfSpace(role, d, f) then Free else role[f]
  }

  /** f is the directory d, one of its tables or one of its user pages. */
  predicate OfSpace(role: Roles, d: nat, f: nat)
    requires f in role
  {
    (f == d && role[f] == Dir) || (role[f].Tab? && role[f].d == d) || (role[f].User? && role[f].d == d)
  }

  /** Other address spaces, and what is in their pages and in pages not used for paging, are
      the same. */
  ghost predicate Beside(mem: Memory, role: Roles, mem': Memory, d: nat) {
    && (forall e, v :: IsDir(role, e) && e != d && 0 <= v < NPAGES ==> Translate(mem', e, v) == Translate(mem, e, v))
    && (forall f :: f in role && f in mem && (role[f].User? || role[f] == Other) && !OfSpace(role, d, f) ==>
          f in mem' && mem'[f] == mem[f])
  }

  lemma KeptBeside(mem: Memory, role: Roles, mem': Memory, role': Roles, d: nat, lo: nat, hi: nat)
    requires Kept(mem, role, mem', role', d, lo, hi)
    ensures Beside(mem, role, mem', d)
  {
  }

  /** deallocuvm over all of user memory. */
  lemma AllVacated(mem0: Memory, role0: Roles, free0: seq<nat>, mem: Memory, role: Roles, free: seq<nat>, d: nat)
    requires Sound(mem0, role0, free0) && Sound(mem, role, free) && IsDir(role0, d)
    requires Kept(mem0, role0, mem, role, d, PageUp(0), PageUp(KERNBASE))
    requires role == Vacated(role0, d, PageUp(0), PageUp(KERNBASE))
    requires forall v :: PageUp(0) <= v < PageUp(KERNBASE) ==> !Translate(mem, d, v).present
    ensures IsDir(role, d) && NoUserPages(mem, d) && Beside(mem0, role0, mem, d)
    ensures forall e :: IsDir(role0, e) ==> IsDir(role, e)
    ensures FreedSpace(role0, d) == FreedSpace(role, d)
  {
    assert PageUp(0) == 0 && PageUp(KERNBASE) == UPAGES;
    KeptBeside(mem0, role0, mem, role, d, 0, UPAGES);
    forall i, j | 0 <= i < UPDENTRIES && 0 <= j < NPTENTRIES
      ensures !Lookup(mem, d, i, j).present
    {
      Split(i, j);
      assert !Translate(mem, d, i * NPTENTRIES + j).present;
    }
    forall f | f in role0
      ensures FreedSpace(role0, d)[f] == FreedSpace(role, d)[f]
    {
      if role0[f].User? && role0[f].d == d {
        assert PageAt(mem0, role0, f);
      }
    }
    assert FreedSpace(role0, d).Keys == FreedSpace(role, d).Keys;
  }

  /** Where freevm's loop is: the first k tables of d are free. */
  ghost function SweptRole(role: Roles, d: nat, k: nat): Roles {
    map f | f in role ::
      if role[f].Tab? && role[f].d == d then (if role[f].i < k then Free else Other)
      else if f == d then Other else role[f]
  }

  lemma SweptNone(role: Roles, d: nat)
    ensures Dismissed(role, d) == SweptRole(role, d, 0) && Dismissed(role, d).Keys == role.Keys
  {
  }

  /** The next table to free is still in hand, and is no other's. */
  lemma TableSwept(mem: Memory, role: Roles, free: seq<nat>, d: nat, i: nat, dir: seq<Pte>, role0: Roles)
    requires Sound(mem, role, free) && IsDir(role, d) && i < NPDENTRIES == |dir| && d in mem && mem[d] == Entries(dir)
    requires dir[i].present
    requires role == Vacated(role0, d, PageUp(0), PageUp(KERNBASE))
    ensures var f, r := dir[i].frame, SweptRole(role, d, i);
            && f != d && f in r && r[f] == Other && r[f := Free] == SweptRole(role, d, i + 1)
            && f in role0 && OfSpace(role0, d, f)
            && (forall e :: IsDir(role0, e) && e != d ==> IsDir(r, e))
  {
    TableOf(mem, role, free, d, i);
    var f, r, r' := dir[i].frame, SweptRole(role, d, i), SweptRole(role, d, i + 1);
    forall g | g in role
      ensures r[f := Free][g] == r'[g]
    {
      assert PageAt(mem, role, g);
    }
    assert r[f := Free].Keys == r'.Keys;
  }

  lemma NothingSwept(mem: Memory, role: Roles, free: seq<nat>, d: nat, i: nat, dir: seq<Pte>)
    requires Sound(mem, role, free) && i < NPDENTRIES == |dir| && d in mem && mem[d] == Entries(dir) && !dir[i].present
    ensures SweptRole(role, d, i) == SweptRole(role, d, i + 1)
  {
    var r, r' := SweptRole(role, d, i), SweptRole(role, d, i + 1);
    forall g | g in role
      ensures r[g] == r'[g]
    {
      assert PageAt(mem, role, g);
    }
    assert r.Keys == r'.Keys;
  }

  lemma SweptAll(mem: Memory, role: Roles, free: seq<nat>, d: nat)
    requires Sound(mem, role, free) && IsDir(role, d) && NoUserPages(mem, d)
    ensures var r := SweptRole(role, d, NPDENTRIES);
            && d in r && r[d] == Other && r[d := Free] == FreedSpace(role, d)
            && forall e :: IsDir(role, e) && e != d ==> IsDir(r, e)
  {
    var r, r' := SweptRole(role, d, NPDENTRIES), FreedSpace(role, d);
    forall g | g in role
      ensures r[d := Free][g] == r'[g]
    {
      assert PageAt(mem, role, g);
    }
    assert r[d := Free].Keys == r'.Keys;
  }

  /** Freeing a page of d leaves what is beside it. */
  lemma BesideFree(mem0: Memory, role0: Roles, mem: Memory, role: Roles, free: seq<nat>, f: nat, x: Page, d: nat)
    requires Beside(mem0, role0, mem, d) && Sound(mem, role, free) && f in role && (role[f] == Other || role[f] == Free)
    requires f in role0 && (OfSpace(role0, d, f) || role0[f] == Free)
    requires forall e :: IsDir(role0, e) && e != d ==> IsDir(role, e)
    ensures Beside(mem0, role0, mem[f := x], d)
  {
    forall e, v | IsDir(role0, e) && e != d && 0 <= v < NPAGES
      ensures Translate(mem[f := x], e, v) == Translate(mem, e, v)
    {
      PagePlace(v);
      assert TabAt(mem, role, e, v / NPTENTRIES);
      Unseen(mem, role, f, x, e, v / NPTENTRIES, v % NPTENTRIES);
    }
  }

  /** What a free page holds matters to nobody. */
  lemma PaintFree(mem: Memory, role: Roles, free: seq<nat>, f: nat, x: Page, d: nat, lo: nat, hi: nat)
    requires Sound(mem, role, free) && f in role && role[f] == Free
    ensures Kept(mem, role, mem[f := x], role, d, lo, hi)
    ensures forall e, v :: IsDir(role, e) && 0 <= v < NPAGES ==> Translate(mem[f := x], e, v) == Translate(mem, e, v)
  {
    forall e, v | IsDir(role, e) && 0 <= v < NPAGES
      ensures Translate(mem[f := x], e, v) == Translate(mem, e, v)
    {
      PagePlace(v);
      assert TabAt(mem, role, e, v / NPTENTRIES);
      Unseen(mem, role, f, x, e, v / NPTENTRIES, v % NPTENTRIES);
    }
  }

  lemma SameAbsent(mem: Memory, role: Roles, mem': Memory, role': Roles, d: nat, v: nat)
    requires Kept(mem, role, mem', role', d, v, v + 1) && IsDir(role, d)
    ensures IsDir(role', d)
  {
  }

  /** Pages that were free may be tables of d or user pages of d in [lo, hi). */
  ghost predicate Grown(role: Roles, role': Roles, d: nat, lo: nat, hi: nat) {
    && role'.Keys == role.Keys
    && forall f :: f in role ==>
         || role'[f] == role[f]
         || (role[f] == Free && ((role'[f].Tab? && role'[f].d == d) || InPages(role'[f], d, lo, hi)))
  }

  lemma GrownMore(role0: Roles, role1: Roles, role2: Roles, d: nat, first: nat, a: nat, f: nat)
    requires Grown(role0, role1, d, first, a) && first <= a < UPAGES && f in role1 && role1[f] == Free
    requires MoreTables(role1[f := User(d, a / NPTENTRIES, a % NPTENTRIES)], role2, d)
    ensures Grown(role0, role2, d, first, a + 1) && role0[f] == Free
  {
    assert a == a / NPTENTRIES * NPTENTRIES + a % NPTENTRIES;
    assert role1[f := User(d, a / NPTENTRIES, a % NPTENTRIES)].Keys == role1.Keys;
    assert f in role0.Keys;
    assert InPages(User(d, a / NPTENTRIES, a % NPTENTRIES), d, first, a + 1);
  }

  /** The pages grown so far are as they were. */
  lemma GrowTurn(mem0: Memory, role0: Roles, mem1: Memory, role1: Roles, free1: seq<nat>, mem2: Memory, role2: Roles,
                 d: nat, first: nat, last: nat, a: nat)
    requires Sound(mem1, role1, free1) && IsDir(role1, d) && first <= a < last <= UPAGES
    requires Kept(mem0, role0, mem1, role1, d, first, last) && Kept(mem1, role1, mem2, role2, d, a, a + 1)
    ensures Kept(mem0, role0, mem2, role2, d, first, last) && IsDir(role2, d)
    ensures forall v :: 0 <= v < NPAGES && v != a ==> Translate(mem2, d, v) == Translate(mem1, d, v)
    ensures forall v :: first <= v < a && FreshPage(role0, mem1, d, v) ==> FreshPage(role0, mem2, d, v)
  {
    OthersStay(mem1, role1, mem2, role2, d, first, last, a);
    KeptTrans(mem0, role0, mem1, role1, mem2, role2, d, first, last);
    forall v | first <= v < a && FreshPage(role0, mem1, d, v)
      ensures FreshPage(role0, mem2, d, v)
    {
      UserPage(mem1, role1, free1, d, v);
      assert v == v / NPTENTRIES * NPTENTRIES + v % NPTENTRIES;
      var x := Translate(mem1, d, v).frame;
      assert !InPages(role1[x], d, a, a + 1);
    }
  }

  lemma GrownRefl(role: Roles, d: nat, lo: nat)
    ensures Grown(role, role, d, lo, lo)
  {
  }

  lemma SizesInPages(oldsz: nat, newsz: nat)
    requires oldsz <= newsz < KERNBASE
    ensures PageUp(oldsz) <= PageUp(newsz) <= UPAGES
  {
  }

  /** Page v of d is zeroed memory that was free. */
  ghost predicate FreshPage(role: Roles, mem: Memory, d: nat, v: nat) {
    var x := Translate(mem, d, v);
    && x.present && x.flags == PTE_W + PTE_U && x.frame in role && role[x.frame] == Free
    && x.frame in mem && mem[x.frame] == ZeroPage()
  }

  /** The same translations, and the same contents of user pages. */
  ghost predicate SameView(mem: Memory, role: Roles, mem': Memory, role': Roles) {
    && (forall e, v :: IsDir(role, e) && 0 <= v < NPAGES ==>
          && IsDir(role', e) && (Translate(mem', e, v).present <==> Translate(mem, e, v).present)
          && (Translate(mem, e, v).present ==> Translate(mem', e, v) == Translate(mem, e, v)))
    && (forall f :: f in role && f in mem && (role[f].User? || role[f] == Other) ==>
          f in role' && f in mem' && role'[f] == role[f] && mem'[f] == mem[f])
  }

  /** A failure: the pages of the range are gone, those that had been mapped before among them,
      and at most there are more tables. */
  ghost predicate FailedGrowth(mem0: Memory, role0: Roles, mem: Memory, role: Roles, d: nat, lo: nat, hi: nat) {
    && Kept(mem0, role0, mem, role, d, lo, hi) && MoreTables(Vacated(role0, d, lo, hi), role, d)
    && forall v :: lo <= v < hi ==> !Translate(mem, d, v).present
  }

  lemma GrowthUndone(mem0: Memory, role0: Roles, mem1: Memory, role1: Roles, mem2: Memory, role2: Roles,
                     d: nat, first: nat, last: nat, a: nat)
    requires first <= a <= last
    requires forall v :: first <= v < last ==> !Translate(mem2, d, v).present
    requires Kept(mem0, role0, mem1, role1, d, first, last) && Grown(role0, role1, d, first, a)
    requires Kept(mem1, role1, mem2, role2, d, first, last) && role2 == Vacated(role1, d, first, last)
    ensures FailedGrowth(mem0, role0, mem2, role2, d, first, last)
  {
    hide Translate;
    KeptTrans(mem0, role0, mem1, role1, mem2, role2, d, first, last);
  }

  /** From page lo on, the first page of [lo, hi) that is mapped, or for `mapped` that is not;
      hi if there is none. */
  ghost function Stop(mem: Memory, d: nat, lo: nat, hi: nat, mapped: bool): (s: nat)
    requires lo <= hi
    ensures lo <= s <= hi && (s < hi ==> Translate(mem, d, s).present != mapped)
    ensures forall v :: lo <= v < s ==> Translate(mem, d, v).present == mapped
    decreases hi - lo
  {
    if lo < hi && Translate(mem, d, lo).present == mapped then Stop(mem, d, lo + 1, hi, mapped) else lo
  }

  ghost predicate SomeMapped(mem: Memory, d: nat, lo: nat, hi: nat) {
    exists v :: lo <= v < hi && Translate(mem, d, v).present
  }

  lemma StopsIfMapped(mem: Memory, d: nat, lo: nat, hi: nat)
    requires lo <= hi
    ensures SomeMapped(mem, d, lo, hi) <==> Stop(mem, d, lo, hi, false) < hi
  {
    hide Stop, Translate;
  }

  /** The pages that allocuvm asks for: up to the first that is mapped, and for that one too. */
  ghost function Reach(mem: Memory, d: nat, lo: nat, hi: nat): (r: nat)
    requires lo <= hi
    ensures lo <= r <= hi
  {
    var s := Stop(mem, d, lo, hi, false);
    if s < hi then s + 1 else hi
  }

  /** The free pages do not suffice for the pages asked for and the tables they lack. */
  ghost predicate Lacking(mem: Memory, free: seq<nat>, d: nat, lo: nat, hi: nat)
    requires lo <= hi
  {
    |free| + |Tabs(mem, d)| < Demand(mem, d, lo, Reach(mem, d, lo, hi))
  }

  lemma HasTable(mem: Memory, d: nat, v: nat)
    requires v < NPAGES && Translate(mem, d, v).present
    ensures v / NPTENTRIES in Tabs(mem, d)
  {
    PagePlace(v);
    TranslateIs(mem, d, v);
  }

  /** Growing and then freeing the whole range leaves at most more tables. */
  lemma FailedView(mem0: Memory, role0: Roles, free0: seq<nat>, mem1: Memory, role1: Roles, mem2: Memory, role2: Roles,
                   d: nat, first: nat, last: nat, a: nat)
    requires Sound(mem0, role0, free0) && IsDir(role0, d) && first <= a <= last <= UPAGES
    requires forall v :: first <= v < last ==> !Translate(mem0, d, v).present && !Translate(mem2, d, v).present
    requires Kept(mem0, role0, mem1, role1, d, first, last) && Grown(role0, role1, d, first, a)
    requires Kept(mem1, role1, mem2, role2, d, first, last) && role2 == Vacated(role1, d, first, last)
    ensures MoreTables(role0, role2, d) && SameView(mem0, role0, mem2, role2)
  {
    hide Sound, Translate;
    KeptTrans(mem0, role0, mem1, role1, mem2, role2, d, first, last);
    NonePages(mem0, role0, free0, d, first, last);
  }

  /** Where nothing is mapped no page is used. */
  lemma NonePages(mem: Memory, role: Roles, free: seq<nat>, d: nat, first: nat, last: nat)
    requires Sound(mem, role, free) && forall v :: first <= v < last ==> !Translate(mem, d, v).present
    ensures forall f :: f in role ==> !InPages(role[f], d, first, last)
  {
    forall f | f in role
      ensures !InPages(role[f], d, first, last)
    {
      if role[f].User? && role[f].d == d {
        assert PageAt(mem, role, f);
        Split(role[f].i, role[f].j);
        assert Translate(mem, d, role[f].i * NPTENTRIES + role[f].j).present;
      }
    }
  }

  lemma DirPage(mem: Memory, role: Roles, free: seq<nat>, d: nat)
    requires Sound(mem, role, free) && IsDir(role, d)
    ensures d in mem && mem[d].Entries? && |mem[d].e| == NPDENTRIES
  {
    assert PageAt(mem, role, d);
  }

  lemma TableEntry(mem: Memory, d: nat, i: nat, f: nat, flags: nat)
    requires d in mem && mem[d].Entries? && i < |mem[d].e|
    ensures Entry(WithTable(mem, d, i, f, flags), d, i) == Pte(true, f, flags)
  {
  }

  lemma KeptRefl(mem: Memory, role: Roles, d: nat, lo: nat, hi: nat)
    ensures Kept(mem, role, mem, role, d, lo, hi)
  {
  }

  lemma VacatedNone(role: Roles, d: nat, lo: nat)
    ensures Vacated(role, d, lo, lo) == role
  {
  }

  lemma PageUpIs(newsz: nat, oldsz: nat)
    requires newsz < oldsz <= KERNBASE
    ensures PageUp(newsz) <= PageUp(oldsz) <= UPAGES
  {
  }

  lemma BelowLast(oldsz: nat, a: nat)
    ensures a * PGSIZE < oldsz <==> a < PageUp(oldsz)
  {
  }

  /** A mapped user page is that page's own. */
  lemma UserPage(mem: Memory, role: Roles, free: seq<nat>, d: nat, v: nat)
    requires Sound(mem, role, free) && IsDir(role, d) && v < UPAGES && Translate(mem, d, v).present
    ensures var f := Translate(mem, d, v).frame;
            f in role && role[f] == User(d, v / NPTENTRIES, v % NPTENTRIES) && f in mem && mem[f].Bytes?
  {
    PagePlace(v);
    assert UserAt(mem, role, d, v / NPTENTRIES, v % NPTENTRIES);
    assert PageAt(mem, role, Translate(mem, d, v).frame);
  }

  lemma UnmapKept(mem: Memory, role: Roles, free: seq<nat>, d: nat, v: nat, f: nat)
    requires Sound(mem, role, free) && IsDir(role, d) && v < UPAGES && Entry(mem, d, v / NPTENTRIES).present
    requires f in role && role[f] == User(d, v / NPTENTRIES, v % NPTENTRIES)
    ensures var t := Entry(mem, d, v / NPTENTRIES).frame;
            && t in mem && mem[t].Entries? && v % NPTENTRIES < |mem[t].e|
            && var mem' := WithEntry(mem, t, v % NPTENTRIES, ZERO)[f := Junk()];
            Kept(mem, role, mem', role[f := Free], d, v, v + 1) && !Translate(mem', d, v).present
  {
    var i, j := v / NPTENTRIES, v % NPTENTRIES;
    PagePlace(v);
    TableOf(mem, role, free, d, i);
    var t := Entry(mem, d, i).frame;
    var mem1 := WithEntry(mem, t, j, ZERO);
    assert PageAt(mem, role, f) && v == i * NPTENTRIES + j;
    RemapKeeps(mem, role, free, d, i, j, ZERO, role[f := Other]);
    forall e, w | IsDir(role, e) && 0 <= w < NPAGES
      ensures Translate(mem1[f := Junk()], e, w) == if e == d && w == v then ZERO else Translate(mem, e, w)
    {
      PagePlace(w);
      assert w == w / NPTENTRIES * NPTENTRIES + w % NPTENTRIES;
      assert TabAt(mem, role, e, w / NPTENTRIES) && TabAt(mem1, role[f := Other], e, w / NPTENTRIES);
      WriteWalk(mem, role, d, i, t, j, ZERO, e, w / NPTENTRIES, w % NPTENTRIES);
      Unseen(mem1, role[f := Other], f, Junk(), e, w / NPTENTRIES, w % NPTENTRIES);
    }
  }

  /** Where nothing is mapped there is nothing to free. */
  lemma VacatedSame(mem: Memory, role: Roles, free: seq<nat>, role0: Roles, d: nat, lo: nat, v: nat, v': nat)
    requires Sound(mem, role, free) && role == Vacated(role0, d, lo, v) && lo <= v <= v'
    requires forall w :: v <= w < v' ==> !Translate(mem, d, w).present
    ensures role == Vacated(role0, d, lo, v')
  {
    forall f | f in role
      ensures role[f] == Vacated(role0, d, lo, v')[f]
    {
      if role[f].User? && role[f].d == d {
        assert PageAt(mem, role, f);
        Split(role[f].i, role[f].j);
        assert Translate(mem, d, role[f].i * NPTENTRIES + role[f].j).present;
        assert !InPages(role[f], d, v, v');
      }
    }
    assert role.Keys == Vacated(role0, d, lo, v').Keys;
  }

  /** The one page there is at v. */
  lemma VacatedStep(mem: Memory, role: Roles, free: seq<nat>, role0: Roles, d: nat, lo: nat, v: nat)
    requires Sound(mem, role, free) && IsDir(role, d) && role == Vacated(role0, d, lo, v) && lo <= v < UPAGES
    requires Translate(mem, d, v).present
    ensures role[Translate(mem, d, v).frame := Free] == Vacated(role0, d, lo, v + 1)
  {
    UserPage(mem, role, free, d, v);
    var g, role' := Translate(mem, d, v).frame, Vacated(role0, d, lo, v + 1);
    forall f | f in role
      ensures role[g := Free][f] == role'[f]
    {
      if InPages(role0[f], d, v, v + 1) {
        assert PageAt(mem, role, f);
        Split(role0[f].i, role0[f].j);
      }
    }
    assert role[g := Free].Keys == role'.Keys;
  }

  lemma OthersStay(mem: Memory, role: Roles, mem': Memory, role': Roles, d: nat, lo: nat, hi: nat, v: nat)
    requires Kept(mem, role, mem', role', d, v, v + 1) && lo <= v < hi && IsDir(role, d) && hi <= NPAGES
    ensures Kept(mem, role, mem', role', d, lo, hi) && IsDir(role', d)
    ensures forall w :: 0 <= w < NPAGES && w != v ==> Translate(mem', d, w) == Translate(mem, d, w)
  {
  }

  /** Without a table nothing up to the next one is mapped. */
  lemma SkipTable(mem: Memory, d: nat, a: nat, a': nat)
    requires a < UPAGES && a' == (a / NPTENTRIES + 1) * NPTENTRIES && !Entry(mem, d, a / NPTENTRIES).present
    ensures a < a' <= UPAGES && forall v :: a <= v < a' ==> !Translate(mem, d, v).present
  {
    forall v | a <= v < a'
      ensures v / NPTENTRIES == a / NPTENTRIES
    {
      assert v == a / NPTENTRIES * NPTENTRIES + (v - a / NPTENTRIES * NPTENTRIES);
      Split(a / NPTENTRIES, v - a / NPTENTRIES * NPTENTRIES);
    }
  }

  lemma PagePlace(v: nat)
    ensures v < UPAGES ==> v / NPTENTRIES < UPDENTRIES
    ensures v < NPAGES ==> v / NPTENTRIES < NPDENTRIES
  {
  }

  lemma TranslateIs(mem: Memory, d: nat, v: nat)
    ensures Translate(mem, d, v) == Lookup(mem, d, v / NPTENTRIES, v % NPTENTRIES)
  {
  }

  lemma ContentKept(mem: Memory, t: nat, j: nat, x: Pte, f: nat)
    requires t in mem && mem[t].Entries? && j < |mem[t].e| && f in mem && mem[f].Bytes?
    ensures f in WithEntry(mem, t, j, x) && WithEntry(mem, t, j, x)[f] == mem[f]
  {
  }

  /** A walk changes no translation, nor the page f that the caller has. */
  lemma SameTranslation(mem: Memory, role: Roles, mem': Memory, role': Roles, d: nat, v: nat, f: nat)
    requires Kept(mem, role, mem', role', d, 0, 0) && IsDir(role, d) && v < NPAGES
    requires f in role && role[f] == Other && f in mem
    ensures Translate(mem', d, v) == Translate(mem, d, v) && f in role' && role'[f] == Other && f in mem'
    ensures mem'[f] == mem[f]
    ensures Kept(mem, role[f := Free], mem', role'[f := Free], d, v, v + 1)
  {
    var r, r' := role[f := Free], role'[f := Free];
    assert r.Keys == role.Keys && r'.Keys == role'.Keys;
    forall e
      ensures IsDir(r', e) <==> IsDir(r, e)
      ensures IsDir(r, e) <==> IsDir(role, e)
    {
      assert IsDir(role', e) <==> IsDir(role, e);
    }
    forall g | g in r && g in mem && (r[g].User? || r[g] == Other) && !InPages(r[g], d, v, v + 1)
      ensures g in mem' && r'[g] == r[g] && mem'[g] == mem[g]
    {
      assert g != f && !InPages(role[g], d, 0, 0);
    }
  }

  /** What growing d from page lo to page hi comes to, the tables it has included. */
  ghost function Demand(mem: Memory, d: nat, lo: nat, hi: nat): nat
    requires lo <= hi
  {
    hi - lo + |Tabs(mem, d) + Covered(lo, hi)|
  }

  lemma PaidNothing(mem: Memory, free: seq<nat>, d: nat, lo: nat)
    ensures Paid(mem, free, d, |free| + |Tabs(mem, d)|, 0, Tabs(mem, d) + Covered(lo, lo))
  {
    assert Tabs(mem, d) + Covered(lo, lo) == Tabs(mem, d);
  }

  /** The next user page; `base` pages have been used for other things. */
  lemma PaidNext(mem: Memory, free: seq<nat>, mem': Memory, free': seq<nat>, d: nat, had: nat, base: nat,
                 tabs: set<nat>, lo: nat, a: nat, hi: nat, ok: bool)
    requires lo <= a < hi && Paid(mem, free, d, had, base + a - lo, tabs + Covered(lo, a))
    requires if ok then Took(mem, free, mem', free', d, 1, a / NPTENTRIES) else Short(mem, free, d, 1, a / NPTENTRIES)
    ensures ok ==> Paid(mem', free', d, had, base + a + 1 - lo, tabs + Covered(lo, a + 1))
    ensures !ok ==> had < base + hi - lo + |tabs + Covered(lo, hi)|
  {
    hide Paid, Took, Short, Covered;
    var i := a / NPTENTRIES;
    CoveredNext(lo, a);
    CoveredMore(lo, a, hi);
    assert tabs + Covered(lo, a + 1) == tabs + Covered(lo, a) + {i};
    if ok {
      PaidStep(mem, free, mem', free', d, had, base + a - lo, tabs + Covered(lo, a), 1, i);
    } else {
      PaidShort(mem, free, d, had, base + a - lo, tabs + Covered(lo, a), 1, i, base + hi - lo, tabs + Covered(lo, hi));
    }
  }

  lemma PaidUpTo(mem: Memory, free: seq<nat>, d: nat, had: nat, tabs: set<nat>, lo: nat, a: nat)
    requires lo <= a && Paid(mem, free, d, had, a - lo, tabs + Covered(lo, a))
    requires !Short(mem, free, d, 1, a / NPTENTRIES)
    ensures had >= a + 1 - lo + |tabs + Covered(lo, a + 1)|
  {
    hide Paid, Short, Covered;
    CoveredNext(lo, a);
    PaidEnough(mem, free, d, had, a - lo, tabs + Covered(lo, a), 1, a / NPTENTRIES);
    assert tabs + Covered(lo, a) + {a / NPTENTRIES} == tabs + Covered(lo, a + 1);
  }

  /** The next page of a kernel range, which takes a table at the most. */
  lemma PaidKernel(mem: Memory, free: seq<nat>, mem': Memory, free': seq<nat>, d: nat, had: nat, base: nat,
                   tabs: set<nat>, lo: nat, a: nat, hi: nat, ok: bool)
    requires lo <= a < hi && Paid(mem, free, d, had, base, tabs + Covered(lo, a))
    requires if ok then Took(mem, free, mem', free', d, 0, a / NPTENTRIES) else Short(mem, free, d, 0, a / NPTENTRIES)
    ensures ok ==> Paid(mem', free', d, had, base, tabs + Covered(lo, a + 1))
    ensures !ok ==> had < base + |tabs + Covered(lo, hi)|
  {
    hide Paid, Took, Short, Covered;
    var i := a / NPTENTRIES;
    CoveredNext(lo, a);
    CoveredMore(lo, a, hi);
    assert tabs + Covered(lo, a + 1) == tabs + Covered(lo, a) + {i};
    if ok {
      PaidStep(mem, free, mem', free', d, had, base, tabs + Covered(lo, a), 0, i);
    } else {
      PaidShort(mem, free, d, had, base, tabs + Covered(lo, a), 0, i, base, tabs + Covered(lo, hi));
    }
  }

  /** The directory entries that the kernel's ranges need. */
  ghost function KernelTabs(ks: seq<Range>): set<nat> {
    if ks == [] then {}
    else KernelTabs(ks[..|ks| - 1]) + Covered(ks[|ks| - 1].virt, ks[|ks| - 1].virt + ks[|ks| - 1].n)
  }

  lemma NoRanges()
    ensures KernelTabs([]) == {}
  {
  }

  lemma {:induction false} KernelTabsPrefix(ks: seq<Range>, k: nat)
    requires k < |ks|
    ensures KernelTabs(ks[..k + 1]) == KernelTabs(ks[..k]) + Covered(ks[k].virt, ks[k].virt + ks[k].n)
    ensures KernelTabs(ks[..k + 1]) <= KernelTabs(ks)
    decreases |ks|
  {
    assert ks[..k + 1][..k] == ks[..k];
    if k + 1 == |ks| {
      assert ks[..k + 1] == ks;
    } else {
      var front := ks[..|ks| - 1];
      assert front[..k + 1] == ks[..k + 1];
      KernelTabsPrefix(front, k);
    }
  }

  lemma TabsPainted(mem: Memory, role: Roles, free: seq<nat>, f: nat, x: Page, d: nat)
    requires Sound(mem, role, free) && f in role && role[f] == Free && IsDir(role, d)
    ensures Tabs(mem[f := x], d) == Tabs(mem, d)
  {
    assert PageAt(mem, role, d);
    SameTabs(mem, mem[f := x], d);
  }

  /** Writing into a table changes no directory. */
  lemma TabsKept(mem: Memory, role: Roles, free: seq<nat>, d: nat, t: nat, j: nat, x: Pte)
    requires Sound(mem, role, free) && IsDir(role, d) && t in role && role[t].Tab? && t in mem && mem[t].Entries?
    requires j < |mem[t].e|
    ensures Tabs(WithEntry(mem, t, j, x), d) == Tabs(mem, d)
  {
    assert PageAt(mem, role, d);
    SameTabs(mem, WithEntry(mem, t, j, x), d);
  }

  datatype Mapping = Mapped | NoMem | Remap

  /** A size or an address space; 0; or a panic, after which nothing is promised. */
  datatype Outcome = Done(value: nat) | Failed | Panic

  /** At most, free pages have become tables of d. */
  ghost predicate MoreTables(role: Roles, role': Roles, d: nat) {
    && role'.Keys == role.Keys
    && forall f :: f in role ==> role'[f] == role[f] || (role[f] == Free && role'[f].Tab? && role'[f].d == d)
  }

  /** Changing one translation keeps the rest. */
  lemma MapKept(mem: Memory, role: Roles, free: seq<nat>, d: nat, v: nat, x: Pte, role': Roles)
    requires Sound(mem, role, free) && IsDir(role, d) && v < UPAGES && Entry(mem, d, v / NPTENTRIES).present
    requires x.present && Remapped(mem, role, role', d, v / NPTENTRIES, v % NPTENTRIES, x)
    ensures var t := Entry(mem, d, v / NPTENTRIES).frame;
            && t in mem && mem[t].Entries? && v % NPTENTRIES < |mem[t].e|
            && Kept(mem, role[x.frame := Free], WithEntry(mem, t, v % NPTENTRIES, x), role', d, v, v + 1)
            && Translate(WithEntry(mem, t, v % NPTENTRIES, x), d, v) == x
  {
    var i, j := v / NPTENTRIES, v % NPTENTRIES;
    TableOf(mem, role, free, d, i);
    var t := Entry(mem, d, i).frame;
    var mem' := WithEntry(mem, t, j, x);
    assert TabAt(mem, role, d, i);
    WriteWalk(mem, role, d, i, t, j, x, d, i, j);
    forall e, w | IsDir(role, e) && 0 <= w < NPAGES && !(e == d && v <= w < v + 1)
      ensures Translate(mem', e, w) == Translate(mem, e, w)
    {
      assert TabAt(mem, role, e, w / NPTENTRIES);
      WriteWalk(mem, role, d, i, t, j, x, e, w / NPTENTRIES, w % NPTENTRIES);
      assert w == w / NPTENTRIES * NPTENTRIES + w % NPTENTRIES && v == i * NPTENTRIES + j;
    }
  }

  /** At most, a free page has become a table. */
  ghost predicate OnlyTable(role: Roles, role': Roles, t: nat) {
    role' == role || (t in role && t in role' && role[t] == Free && role' == role[t := role'[t]])
  }

  lemma NewTableKept(mem: Memory, role: Roles, free: seq<nat>, d: nat, i: nat, f: nat, flags: nat)
    requires Sound(mem, role, free) && IsDir(role, d) && i < NPDENTRIES && !Entry(mem, d, i).present
    requires f in role && role[f] == Other
    ensures d in mem && mem[d].Entries? && |mem[d].e| == NPTENTRIES
    ensures Kept(mem, role[f := Free], WithTable(mem, d, i, f, flags), role[f := Tab(d, i)], d, 0, 0)
  {
    assert PageAt(mem, role, d);
    var mem' := WithTable(mem, d, i, f, flags);
    forall e, v | IsDir(role, e) && 0 <= v < NPAGES
      ensures Translate(mem', e, v) == Translate(mem, e, v)
    {
      assert TabAt(mem, role, e, v / NPTENTRIES);
      TableWalk(mem, role, d, i, f, flags, e, v / NPTENTRIES, v % NPTENTRIES);
    }
  }
}
