/** Physical pages and what they are used for. Memory is counted in pages: a page is a page
    directory or page table, with its entries, or plain bytes; PDX and PTX are the two halves
    of a virtual page number. */
module PageTables {
  import opened Blocks

  const NPDENTRIES: nat := 1024
  const NPTENTRIES: nat := 1024
  /** The directory entries below KERNBASE. */
  const UPDENTRIES: nat := 512

  /** An entry: the PTE_P bit, the page it refers to, and the other flags. */
  datatype Pte = Pte(present: bool, frame: nat, flags: nat)

  const ZERO: Pte := Pte(false, 0, 0)

  datatype Page = Entries(e: seq<Pte>) | Bytes(b: seq<byte>)

  type Memory = map<nat, Page>

  /** What a page is used for: nothing, something that is not paging, the directory of an
      address space, entry i of directory d, or page (i, j) of the user memory of d. */
  datatype Role = Free | Other | Dir | Tab(d: nat, i: nat) | User(d: nat, i: nat, j: nat)

  type Roles = map<nat, Role>

  function Entry(mem: Memory, t: nat, i: nat): Pte {
    if t in mem && mem[t].Entries? && i < |mem[t].e| then mem[t].e[i] else ZERO
  }

  /** The two-level walk. */
  function Lookup(mem: Memory, d: nat, i: nat, j: nat): Pte {
    var pde := Entry(mem, d, i);
    if pde.present then Entry(mem, pde.frame, j) else ZERO
  }

  predicate IsDir(role: Roles, d: nat) {
    d in role && role[d] == Dir
  }

  /** The use of page f is backed by memory. */
  predicate PageAt(mem: Memory, role: Roles, f: nat)
    requires f in role
  {
    && f in mem
    && (role[f].Dir? || role[f].Tab? ==> mem[f].Entries? && |mem[f].e| == NPTENTRIES)
    && (role[f].User? ==> mem[f].Bytes?)
    && (role[f].Tab? ==>
          IsDir(role, role[f].d) && role[f].i < NPDENTRIES
          && Entry(mem, role[f].d, role[f].i).present && Entry(mem, role[f].d, role[f].i).frame == f)
    && (role[f].User? ==>
          IsDir(role, role[f].d) && role[f].i < UPDENTRIES && role[f].j < NPTENTRIES
          && Lookup(mem, role[f].d, role[f].i, role[f].j).present
          && Lookup(mem, role[f].d, role[f].i, role[f].j).frame == f)
  }

  /** What directory entry i of d refers to is its table. */
  predicate TabAt(mem: Memory, role: Roles, d: nat, i: nat) {
    Entry(mem, d, i).present ==> Entry(mem, d, i).frame in role && role[Entry(mem, d, i).frame] == Tab(d, i)
  }

  /** What user page (i, j) of d refers to is that page's and nobody else's. */
  predicate UserAt(mem: Memory, role: Roles, d: nat, i: nat, j: nat) {
    Lookup(mem, d, i, j).present ==>
      Lookup(mem, d, i, j).frame in role && role[Lookup(mem, d, i, j).frame] == User(d, i, j)
  }

  /** Every page has its one use, and the page tables and the free list agree with it. */
  ghost predicate Sound(mem: Memory, role: Roles, free: seq<nat>) {
    && (forall f :: f in role ==> PageAt(mem, role, f))
    && (forall d, i :: IsDir(role, d) && 0 <= i < NPDENTRIES ==> TabAt(mem, role, d, i))
    && (forall d, i, j :: IsDir(role, d) && 0 <= i < UPDENTRIES && 0 <= j < NPTENTRIES ==> UserAt(mem, role, d, i, j))
    && FreeList(role, free)
  }

  ghost predicate FreeList(role: Roles, free: seq<nat>) {
    && (forall f :: f in free <==> f in role && role[f] == Free)
    && (forall a, b :: 0 <= a < b < |free| ==> free[a] != free[b])
  }

  /** kalloc, as far as uses go. */
  lemma TakeFree(mem: Memory, role: Roles, free: seq<nat>)
    requires Sound(mem, role, free) && free != []
    ensures free[0] in role && role[free[0]] == Free
    ensures Sound(mem, role[free[0] := Other], free[1..])
  {
    var f := free[0];
    assert f in free && PageAt(mem, role, f);
    assert mem == mem[f := mem[f]];
    Repaint(mem, role, free, f, mem[f], Other, free[1..]);
  }

  /** A page that is not on the way does not matter to the walk. */
  lemma Unseen(mem: Memory, role: Roles, f: nat, x: Page, d: nat, i: nat, j: nat)
    requires TabAt(mem, role, d, i) && f in role && d != f && role[f] != Tab(d, i)
    ensures Entry(mem[f := x], d, i) == Entry(mem, d, i) && Lookup(mem[f := x], d, i, j) == Lookup(mem, d, i, j)
  {
  }

  /** kfree: a page nobody refers to goes to the head of the list; its contents are lost. */
  lemma GiveBack(mem: Memory, role: Roles, free: seq<nat>, f: nat, junk: Page)
    requires Sound(mem, role, free) && f in role && role[f] == Other
    ensures Sound(mem[f := junk], role[f := Free], [f] + free)
  {
    var role' := role[f := Free];
    Repaint(mem, role, free, f, junk, Free, [f] + free);
  }

  /** A page that is free or used for something that is not paging may change its contents and
      be either afterwards. */
  lemma Repaint(mem: Memory, role: Roles, free: seq<nat>, f: nat, x: Page, r: Role, free': seq<nat>)
    requires Sound(mem, role, free) && f in role && (role[f] == Other || role[f] == Free) && (r == Other || r == Free)
    requires FreeList(role[f := r], free')
    ensures Sound(mem[f := x], role[f := r], free')
  {
    var mem', role' := mem[f := x], role[f := r];
    forall g | g in role'
      ensures PageAt(mem', role', g)
    {
      assert PageAt(mem, role, g);
      if g != f && role[g].Tab? {
        assert TabAt(mem, role, role[g].d, role[g].i);
        Unseen(mem, role, f, x, role[g].d, role[g].i, 0);
      }
      if g != f && role[g].User? {
        assert TabAt(mem, role, role[g].d, role[g].i);
        Unseen(mem, role, f, x, role[g].d, role[g].i, role[g].j);
      }
    }
    forall d, i | IsDir(role', d) && 0 <= i < NPDENTRIES
      ensures TabAt(mem', role', d, i)
    {
      assert TabAt(mem, role, d, i);
      Unseen(mem, role, f, x, d, i, 0);
    }
    forall d, i, j | IsDir(role', d) && 0 <= i < UPDENTRIES && 0 <= j < NPTENTRIES
      ensures UserAt(mem', role', d, i, j)
    {
      assert TabAt(mem, role, d, i) && UserAt(mem, role, d, i, j);
      Unseen(mem, role, f, x, d, i, j);
    }
  }

  /** The table of directory entry i, with entry j changed. */
  function WithEntry(mem: Memory, t: nat, j: nat, x: Pte): Memory
    requires t in mem && mem[t].Entries? && j < |mem[t].e|
  {
    mem[t := Entries(mem[t].e[j := x])]
  }

  /** Changing an entry of the table of (d, i) changes that one translation. */
  lemma WriteWalk(mem: Memory, role: Roles, d: nat, i: nat, t: nat, j: nat, x: Pte, d': nat, i': nat, j': nat)
    requires TabAt(mem, role, d', i') && t in role && role[t] == Tab(d, i) && t in mem && mem[t].Entries?
    requires j < |mem[t].e|
    requires Entry(mem, d, i).present && Entry(mem, d, i).frame == t && IsDir(role, d') && IsDir(role, d)
    ensures Entry(WithEntry(mem, t, j, x), d', i') == Entry(mem, d', i')
    ensures Lookup(WithEntry(mem, t, j, x), d', i', j') ==
              if d' == d && i' == i && j' == j then x else Lookup(mem, d', i', j')
  {
  }

  /** Tables in use are where their directory says. */
  lemma TableOf(mem: Memory, role: Roles, free: seq<nat>, d: nat, i: nat)
    requires Sound(mem, role, free) && IsDir(role, d) && i < NPDENTRIES && Entry(mem, d, i).present
    ensures var t := Entry(mem, d, i).frame;
            t in role && role[t] == Tab(d, i) && t in mem && mem[t].Entries? && |mem[t].e| == NPTENTRIES
  {
    assert TabAt(mem, role, d, i);
    assert PageAt(mem, role, Entry(mem, d, i).frame);
  }

  /** Entry (i, j) of d is set to a page that was nobody's, or cleared and the page nobody's
      again, or set in the kernel's half. */
  ghost predicate Remapped(mem: Memory, role: Roles, role': Roles, d: nat, i: nat, j: nat, x: Pte) {
    var was := Lookup(mem, d, i, j);
    if i >= UPDENTRIES then role' == role
    else if x.present then
      !was.present && x.frame in role && role[x.frame] == Other && x.frame in mem && mem[x.frame].Bytes?
      && role' == role[x.frame := User(d, i, j)]
    else was.present && was.frame in role && role' == role[was.frame := Other]
  }

  lemma RemapPage(mem: Memory, role: Roles, free: seq<nat>, d: nat, i: nat, j: nat, x: Pte, role': Roles, g: nat)
    requires Sound(mem, role, free) && IsDir(role, d) && i < NPDENTRIES && j < NPTENTRIES && Entry(mem, d, i).present
    requires Remapped(mem, role, role', d, i, j, x) && g in role'
    ensures var t := Entry(mem, d, i).frame;
            && t in mem && mem[t].Entries? && j < |mem[t].e|
            && PageAt(WithEntry(mem, t, j, x), role', g)
  {
    TableOf(mem, role, free, d, i);
    assert PageAt(mem, role, g);
    var t := Entry(mem, d, i).frame;
    if i < UPDENTRIES {
      assert UserAt(mem, role, d, i, j);
    }
    if role[g].Tab? {
      assert TabAt(mem, role, role[g].d, role[g].i);
      WriteWalk(mem, role, d, i, t, j, x, role[g].d, role[g].i, 0);
    }
    if role'[g].User? {
      assert TabAt(mem, role, role'[g].d, role'[g].i);
      WriteWalk(mem, role, d, i, t, j, x, role'[g].d, role'[g].i, role'[g].j);
    }
  }

  lemma RemapKeeps(mem: Memory, role: Roles, free: seq<nat>, d: nat, i: nat, j: nat, x: Pte, role': Roles)
    requires Sound(mem, role, free) && IsDir(role, d) && i < NPDENTRIES && j < NPTENTRIES && Entry(mem, d, i).present
    requires Remapped(mem, role, role', d, i, j, x)
    ensures var t := Entry(mem, d, i).frame;
            && t in mem && mem[t].Entries? && j < |mem[t].e|
            && Sound(WithEntry(mem, t, j, x), role', free)
  {
    TableOf(mem, role, free, d, i);
    var t := Entry(mem, d, i).frame;
    var mem' := WithEntry(mem, t, j, x);
    assert i < UPDENTRIES ==> UserAt(mem, role, d, i, j);
    forall g | g in role'
      ensures PageAt(mem', role', g)
    {
      RemapPage(mem, role, free, d, i, j, x, role', g);
    }
    forall d', i' | IsDir(role', d') && 0 <= i' < NPDENTRIES
      ensures TabAt(mem', role', d', i')
    {
      assert TabAt(mem, role, d', i');
      WriteWalk(mem, role, d, i, t, j, x, d', i', 0);
    }
    forall d', i', j' | IsDir(role', d') && 0 <= i' < UPDENTRIES && 0 <= j' < NPTENTRIES
      ensures UserAt(mem', role', d', i', j')
    {
      assert TabAt(mem, role, d', i') && UserAt(mem, role, d', i', j');
      WriteWalk(mem, role, d, i, t, j, x, d', i', j');
    }
  }

  function Blank(): (p: Page)
    ensures p.Entries? && |p.e| == NPTENTRIES && forall i :: 0 <= i < NPTENTRIES ==> p.e[i] == ZERO
  {
    Entries(seq(NPTENTRIES, _ => ZERO))
  }

  /** Directory entry i of d refers to the new, blank table f. */
  function WithTable(mem: Memory, d: nat, i: nat, f: nat, flags: nat): Memory
    requires d in mem && mem[d].Entries? && i < |mem[d].e|
  {
    mem[f := Blank()][d := Entries(mem[d].e[i := Pte(true, f, flags)])]
  }

  lemma TableWalk(mem: Memory, role: Roles, d: nat, i: nat, f: nat, flags: nat, d': nat, i': nat, j': nat)
    requires d in mem && mem[d].Entries? && i < |mem[d].e| && !mem[d].e[i].present && d != f && d' != f
    requires IsDir(role, d) && IsDir(role, d') && TabAt(mem, role, d', i') && f in role && role[f] == Other
    ensures var mem' := WithTable(mem, d, i, f, flags);
            && Entry(mem', d', i') == (if d' == d && i' == i then Pte(true, f, flags) else Entry(mem, d', i'))
            && (j' < NPTENTRIES ==> Lookup(mem', d', i', j') == Lookup(mem, d', i', j'))
  {
  }

  /** A new table changes no translation. */
  lemma TableKeeps(mem: Memory, role: Roles, free: seq<nat>, d: nat, i: nat, f: nat, flags: nat)
    requires Sound(mem, role, free) && IsDir(role, d) && i < NPDENTRIES && !Entry(mem, d, i).present
    requires f in role && role[f] == Other
    ensures d in mem && mem[d].Entries? && |mem[d].e| == NPTENTRIES
    ensures Sound(WithTable(mem, d, i, f, flags), role[f := Tab(d, i)], free)
  {
    assert PageAt(mem, role, d) && PageAt(mem, role, f);
    var mem', role' := WithTable(mem, d, i, f, flags), role[f := Tab(d, i)];
    forall g | g in role'
      ensures PageAt(mem', role', g)
    {
      assert PageAt(mem, role, g);
      if g == f {
        assert TabAt(mem, role, d, i);
        TableWalk(mem, role, d, i, f, flags, d, i, 0);
      } else if role[g].Tab? {
        assert TabAt(mem, role, role[g].d, role[g].i);
        TableWalk(mem, role, d, i, f, flags, role[g].d, role[g].i, 0);
      } else if role[g].User? {
        assert TabAt(mem, role, role[g].d, role[g].i);
        TableWalk(mem, role, d, i, f, flags, role[g].d, role[g].i, role[g].j);
      }
    }
    forall d', i' | IsDir(role', d') && 0 <= i' < NPDENTRIES
      ensures TabAt(mem', role', d', i')
    {
      assert TabAt(mem, role, d', i');
      TableWalk(mem, role, d, i, f, flags, d', i', 0);
    }
    forall d', i', j' | IsDir(role', d') && 0 <= i' < UPDENTRIES && 0 <= j' < NPTENTRIES
      ensures UserAt(mem', role', d', i', j')
    {
      assert TabAt(mem, role, d', i') && UserAt(mem, role, d', i', j');
      TableWalk(mem, role, d, i, f, flags, d', i', j');
    }
  }

  /** A blank page becomes a directory, of an address space that maps nothing. */
  lemma DirKeeps(mem: Memory, role: Roles, free: seq<nat>, f: nat)
    requires Sound(mem, role, free) && f in role && role[f] == Other
    ensures Sound(mem[f := Blank()], role[f := Dir], free)
  {
    var mem', role' := mem[f := Blank()], role[f := Dir];
    Repaint(mem, role, free, f, Blank(), Other, free);
    assert role[f := Other] == role;
    forall g | g in role'
      ensures PageAt(mem', role', g)
    {
      assert PageAt(mem', role, g);
    }
    forall d, i | IsDir(role', d) && 0 <= i < NPDENTRIES
      ensures TabAt(mem', role', d, i)
    {
      if d != f {
        assert TabAt(mem', role, d, i);
      }
    }
    forall d, i, j | IsDir(role', d) && 0 <= i < UPDENTRIES && 0 <= j < NPTENTRIES
      ensures UserAt(mem', role', d, i, j)
    {
      if d != f {
        assert UserAt(mem', role, d, i, j);
      }
    }
  }

  /** The pages of an address space that maps no user memory, taken out of use. */
  ghost function Dismissed(role: Roles, d: nat): Roles {
    map f | f in role :: if f == d || (role[f].Tab? && role[f].d == d) then Other else role[f]
  }

  ghost predicate NoUserPages(mem: Memory, d: nat) {
    forall i, j :: 0 <= i < UPDENTRIES && 0 <= j < NPTENTRIES ==> !Lookup(mem, d, i, j).present
  }

  lemma DismissKeeps(mem: Memory, role: Roles, free: seq<nat>, d: nat)
    requires Sound(mem, role, free) && IsDir(role, d) && NoUserPages(mem, d)
    ensures Sound(mem, Dismissed(role, d), free)
  {
    var role' := Dismissed(role, d);
    forall g | g in role'
      ensures PageAt(mem, role', g)
    {
      assert PageAt(mem, role, g);
    }
    forall d', i' | IsDir(role', d') && 0 <= i' < NPDENTRIES
      ensures TabAt(mem, role', d', i')
    {
      assert TabAt(mem, role, d', i');
    }
    forall d', i', j' | IsDir(role', d') && 0 <= i' < UPDENTRIES && 0 <= j' < NPTENTRIES
      ensures UserAt(mem, role', d', i', j')
    {
      assert UserAt(mem, role, d', i', j');
    }
  }
}
