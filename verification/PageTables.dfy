/** Page tables as the processor reads them, and the shape of the kernel's identity mapping. */
module PageTables {
  import opened Sizes

  const ENTRY_COUNT: nat := 512
  const HUGE_PAGE: nat := 0x20_0000
  const GIB: nat := 0x4000_0000
  const LOWER_HALF: nat := 0x1_0000_0000_0000

  datatype Entry = Entry(
    present: bool, writable: bool, user: bool, writeThrough: bool, cacheDisable: bool, huge: bool, address: nat)

  const ABSENT := Entry(false, false, false, false, false, false, 0)

  function Link(frame: nat): Entry {
    Entry(true, true, false, false, false, false, frame)
  }

  function Leaf(number: nat, uncached: bool): Entry {
    Entry(true, true, false, uncached, uncached, true, number * HUGE_PAGE)
  }

  type Table = t: seq<Entry> | |t| == ENTRY_COUNT witness seq(ENTRY_COUNT, _ => ABSENT)

  type Tables = map<nat, Table>

  const BLANK: Table := seq(ENTRY_COUNT, _ => ABSENT)

  function At(m: Tables, frame: nat, index: nat): Entry
    requires index < ENTRY_COUNT
  {
    if frame in m then m[frame][index] else ABSENT
  }

  /** The number of the 2 MiB page an address lies in, and of the GiB that page lies in. */
  function HugeOf(address: nat): nat { address / HUGE_PAGE }

  function GibOf(number: nat): nat { number / ENTRY_COUNT }

  function SlotOf(number: nat): (j: nat)
    ensures j < ENTRY_COUNT
  {
    number % ENTRY_COUNT
  }

  function Number(upper: nat, j: nat): nat { upper * ENTRY_COUNT + j }

  lemma Split(number: nat)
    ensures Number(GibOf(number), SlotOf(number)) == number
  {
  }

  lemma Joined(upper: nat, j: nat)
    requires j < ENTRY_COUNT
    ensures GibOf(Number(upper, j)) == upper && SlotOf(Number(upper, j)) == j
  {
  }

  datatype Translation = Fault | Mapped(physical: nat, writable: bool, user: bool, uncached: bool)

  /** Four-level translation: section 4.5 of the Intel Software Developer's Manual, volume 3A. */
  function Walk(m: Tables, root: nat, va: nat): Translation
    requires va < LOWER_HALF
  {
    var g := GibOf(HugeOf(va));
    var e4 := At(m, root, GibOf(g));
    if !e4.present then Fault else WalkPdpt(m, e4, va)
  }

  function WalkPdpt(m: Tables, e4: Entry, va: nat): Translation {
    var e3 := At(m, e4.address, SlotOf(GibOf(HugeOf(va))));
    if !e3.present then
      Fault
    else if e3.huge then
      Mapped(e3.address + va % GIB, e4.writable && e3.writable, e4.user && e3.user, e3.writeThrough && e3.cacheDisable)
    else
      WalkDirectory(m, e3, e4.writable && e3.writable, e4.user && e3.user, va)
  }

  function WalkDirectory(m: Tables, e3: Entry, writable: bool, user: bool, va: nat): Translation {
    var e2 := At(m, e3.address, SlotOf(HugeOf(va)));
    if !e2.present then
      Fault
    else if e2.huge then
      Mapped(e2.address + va % HUGE_PAGE, writable && e2.writable, user && e2.user, e2.writeThrough && e2.cacheDisable)
    else
      WalkTable(m, e2, writable && e2.writable, user && e2.user, va)
  }

  function WalkTable(m: Tables, e2: Entry, writable: bool, user: bool, va: nat): Translation {
    var e1 := At(m, e2.address, SlotOf(va / PAGE));
    if !e1.present then
      Fault
    else
      Mapped(e1.address + va % PAGE, writable && e1.writable, user && e1.user, e1.writeThrough && e1.cacheDisable)
  }

  /** What a frame of the kernel's tables is: the root, the table of a 512 GiB range, or of a GiB. */
  datatype Role = Root | Pdpt(index: nat) | Directory(gib: nat)

  /** The kernel's mapping: which 2 MiB pages are mapped, whether uncached, and through which frames. */
  datatype Kernel = Kernel(
    root: nat, pdpts: map<nat, nat>, directories: map<nat, nat>, leaves: map<nat, bool>, roles: map<nat, Role>)
  {
    function EntryOf(role: Role, j: nat): Entry {
      match role
      case Root => if j in pdpts then Link(pdpts[j]) else ABSENT
      case Pdpt(i) =>
        var g := Number(i, j);
        if g in directories then Link(directories[g]) else ABSENT
      case Directory(g) =>
        var h := Number(g, j);
        if h in leaves then Leaf(h, leaves[h]) else ABSENT
    }

    ghost predicate Holds(frame: nat, role: Role) {
      match role
      case Root => frame == root
      case Pdpt(i) => i in pdpts && pdpts[i] == frame
      case Directory(g) => g in directories && directories[g] == frame
    }

    ghost predicate Reaches() {
      && root in roles && roles[root] == Root
      && (forall i | i in pdpts :: i < ENTRY_COUNT && pdpts[i] in roles && roles[pdpts[i]] == Pdpt(i))
      && (forall g | g in directories ::
            GibOf(g) in pdpts && directories[g] in roles && roles[directories[g]] == Directory(g))
      && (forall h | h in leaves :: GibOf(h) in directories)
    }

    ghost predicate Named() {
      forall f | f in roles :: Holds(f, roles[f])
    }

    ghost predicate Closed() {
      Reaches() && Named()
    }

    ghost predicate Shape(m: Tables) {
      && Closed()
      && forall f | f in roles :: f in m && Matches(m[f], roles[f])
    }

    ghost predicate Matches(t: Table, role: Role) {
      forall j | 0 <= j < ENTRY_COUNT :: t[j] == EntryOf(role, j)
    }

    function AddPdpt(i: nat, frame: nat): Kernel {
      this.(pdpts := pdpts[i := frame], roles := roles[frame := Pdpt(i)])
    }

    function AddDirectory(g: nat, frame: nat): Kernel {
      this.(directories := directories[g := frame], roles := roles[frame := Directory(g)])
    }

    function MapUncached(h: nat): Kernel {
      this.(leaves := leaves[h := true])
    }
  }

  lemma BlankMatches(k: Kernel, role: Role)
    requires k.Closed()
    requires role.Pdpt? ==> role.index !in k.pdpts
    requires role.Directory? ==> role.gib !in k.directories
    requires !role.Root?
    ensures k.Matches(BLANK, role)
  {
    forall j | 0 <= j < ENTRY_COUNT ensures BLANK[j] == k.EntryOf(role, j) {
      match role
      case Pdpt(i) =>
        var g := Number(i, j);
        Joined(i, j);
      case Directory(g) =>
        var h := Number(g, j);
        Joined(g, j);
    }
  }

  lemma PdptEntries(k: Kernel, i: nat, frame: nat, role: Role, j: nat)
    ensures k.AddPdpt(i, frame).EntryOf(role, j) == if role == Root && j == i then Link(frame) else k.EntryOf(role, j)
  {
  }

  lemma DirectoryEntries(k: Kernel, g: nat, frame: nat, role: Role, j: nat)
    requires j < ENTRY_COUNT
    ensures k.AddDirectory(g, frame).EntryOf(role, j) ==
      if role == Pdpt(GibOf(g)) && j == SlotOf(g) then Link(frame) else k.EntryOf(role, j)
  {
    hide GibOf, SlotOf, Number;
    Split(g);
    if role.Pdpt? {
      Joined(role.index, j);
    }
  }

  lemma LeafEntries(k: Kernel, h: nat, role: Role, j: nat)
    requires j < ENTRY_COUNT
    ensures k.MapUncached(h).EntryOf(role, j) ==
      if role == Directory(GibOf(h)) && j == SlotOf(h) then Leaf(h, true) else k.EntryOf(role, j)
  {
    hide GibOf, SlotOf, Number;
    Split(h);
    if role.Directory? {
      Joined(role.gib, j);
    }
  }

  lemma PdptClosed(k: Kernel, i: nat, frame: nat)
    requires k.Closed() && i < ENTRY_COUNT && i !in k.pdpts && frame !in k.roles
    ensures k.AddPdpt(i, frame).Closed()
  {
    hide GibOf, Kernel.Holds, Kernel.Named;
    var k' := k.AddPdpt(i, frame);
    forall j | j in k'.pdpts ensures j < ENTRY_COUNT && k'.pdpts[j] in k'.roles && k'.roles[k'.pdpts[j]] == Pdpt(j) {
    }
    forall g | g in k'.directories
      ensures GibOf(g) in k'.pdpts && k'.directories[g] in k'.roles && k'.roles[k'.directories[g]] == Directory(g)
    {
    }
    StillNamed(k, k', frame, Pdpt(i));
  }

  lemma DirectoryClosed(k: Kernel, g: nat, frame: nat)
    requires k.Closed() && GibOf(g) in k.pdpts && g !in k.directories && frame !in k.roles
    ensures k.AddDirectory(g, frame).Closed()
  {
    hide GibOf, Kernel.Holds, Kernel.Named;
    var k' := k.AddDirectory(g, frame);
    forall j | j in k'.pdpts ensures j < ENTRY_COUNT && k'.pdpts[j] in k'.roles && k'.roles[k'.pdpts[j]] == Pdpt(j) {
    }
    forall d | d in k'.directories
      ensures GibOf(d) in k'.pdpts && k'.directories[d] in k'.roles && k'.roles[k'.directories[d]] == Directory(d)
    {
    }
    StillNamed(k, k', frame, Directory(g));
  }

  lemma StillNamed(k: Kernel, k': Kernel, frame: nat, role: Role)
    requires k.Named() && k'.roles == k.roles[frame := role] && k'.root == k.root && !role.Root?
    requires role.Pdpt? ==> k'.pdpts == k.pdpts[role.index := frame] && k'.directories == k.directories && role.index !in k.pdpts
    requires role.Directory? ==>
      k'.directories == k.directories[role.gib := frame] && k'.pdpts == k.pdpts && role.gib !in k.directories
    ensures k'.Named()
  {
    forall f | f in k'.roles ensures k'.Holds(f, k'.roles[f]) {
      if f != frame {
        assert k.Holds(f, k.roles[f]);
      }
    }
  }

  lemma PdptAdded(m: Tables, k: Kernel, i: nat, frame: nat)
    requires k.Shape(m) && i < ENTRY_COUNT && i !in k.pdpts && frame !in k.roles
    ensures k.AddPdpt(i, frame).Shape(m[frame := BLANK][k.root := m[k.root][i := Link(frame)]])
  {
    PdptClosed(k, i, frame);
    hide Kernel.EntryOf, GibOf;
    var k' := k.AddPdpt(i, frame);
    var m' := m[frame := BLANK][k.root := m[k.root][i := Link(frame)]];
    BlankMatches(k, Pdpt(i));
    forall f | f in k'.roles ensures f in m' && k'.Matches(m'[f], k'.roles[f]) {
      assert f != frame ==> k.Matches(m[f], k.roles[f]) && k.Holds(f, k.roles[f]);
      forall j | 0 <= j < ENTRY_COUNT ensures m'[f][j] == k'.EntryOf(k'.roles[f], j) {
        PdptEntries(k, i, frame, k'.roles[f], j);
      }
    }
  }

  lemma DirectoryAdded(m: Tables, k: Kernel, g: nat, frame: nat)
    requires k.Shape(m) && GibOf(g) in k.pdpts && g !in k.directories && frame !in k.roles
    ensures var pdpt := k.pdpts[GibOf(g)];
      k.AddDirectory(g, frame).Shape(m[frame := BLANK][pdpt := m[pdpt][SlotOf(g) := Link(frame)]])
  {
    DirectoryClosed(k, g, frame);
    hide Kernel.EntryOf, GibOf, SlotOf;
    var pdpt := k.pdpts[GibOf(g)];
    var k' := k.AddDirectory(g, frame);
    var m' := m[frame := BLANK][pdpt := m[pdpt][SlotOf(g) := Link(frame)]];
    BlankMatches(k, Directory(g));
    forall f | f in k'.roles ensures f in m' && k'.Matches(m'[f], k'.roles[f]) {
      assert f != frame ==> k.Matches(m[f], k.roles[f]) && k.Holds(f, k.roles[f]);
      forall j | 0 <= j < ENTRY_COUNT ensures m'[f][j] == k'.EntryOf(k'.roles[f], j) {
        DirectoryEntries(k, g, frame, k'.roles[f], j);
      }
    }
  }

  lemma LeafMapped(m: Tables, k: Kernel, h: nat)
    requires k.Shape(m) && GibOf(h) in k.directories
    ensures var directory := k.directories[GibOf(h)];
      k.MapUncached(h).Shape(m[directory := m[directory][SlotOf(h) := Leaf(h, true)]])
  {
    hide Kernel.EntryOf, GibOf, SlotOf, Leaf;
    var directory := k.directories[GibOf(h)];
    var k' := k.MapUncached(h);
    var m' := m[directory := m[directory][SlotOf(h) := Leaf(h, true)]];
    forall f | f in k'.roles ensures f in m' && k'.Matches(m'[f], k'.roles[f]) {
      forall j | 0 <= j < ENTRY_COUNT ensures m'[f][j] == k'.EntryOf(k'.roles[f], j) {
        LeafEntries(k, h, k'.roles[f], j);
      }
    }
  }

  lemma ShapeKept(m: Tables, m': Tables, k: Kernel)
    requires k.Shape(m) && forall f | f in k.roles :: f in m' && m'[f] == m[f]
    ensures k.Shape(m')
  {
  }

  lemma RootEntry(m: Tables, k: Kernel, i: nat)
    requires k.Shape(m) && i < ENTRY_COUNT
    ensures k.root in k.roles && k.root in m && m[k.root][i] == if i in k.pdpts then Link(k.pdpts[i]) else ABSENT
  {
    assert k.Matches(m[k.root], Root);
  }

  lemma PdptEntry(m: Tables, k: Kernel, g: nat)
    requires k.Shape(m) && GibOf(g) in k.pdpts
    ensures var pdpt := k.pdpts[GibOf(g)];
      && pdpt in k.roles && pdpt in m
      && m[pdpt][SlotOf(g)] == if g in k.directories then Link(k.directories[g]) else ABSENT
  {
    hide GibOf, SlotOf, Number;
    Split(g);
    assert k.Matches(m[k.pdpts[GibOf(g)]], Pdpt(GibOf(g)));
  }

  lemma DirectoryEntry(m: Tables, k: Kernel, h: nat)
    requires k.Shape(m) && GibOf(h) in k.directories
    ensures var directory := k.directories[GibOf(h)];
      && directory in k.roles && directory in m
      && m[directory][SlotOf(h)] == if h in k.leaves then Leaf(h, k.leaves[h]) else ABSENT
  {
    hide GibOf, SlotOf, Number, Leaf;
    Split(h);
    assert k.Matches(m[k.directories[GibOf(h)]], Directory(GibOf(h)));
  }

  lemma LowerHalf(va: nat)
    requires va < LOWER_HALF
    ensures GibOf(GibOf(HugeOf(va))) < ENTRY_COUNT
  {
  }

  lemma HugeOffset(va: nat)
    ensures HugeOf(va) * HUGE_PAGE + va % HUGE_PAGE == va
  {
  }

  /** The processor translates through these tables exactly the mapped pages, each to itself. */
  lemma KernelWalk(m: Tables, k: Kernel, va: nat)
    requires k.Shape(m) && va < LOWER_HALF
    ensures Walk(m, k.root, va) ==
      if HugeOf(va) in k.leaves then Mapped(va, true, false, k.leaves[HugeOf(va)]) else Fault
  {
    hide GibOf, SlotOf, HugeOf, Kernel.Named, Kernel.Matches;
    var h := HugeOf(va);
    LowerHalf(va);
    HugeOffset(va);
    RootEntry(m, k, GibOf(GibOf(h)));
    if GibOf(GibOf(h)) in k.pdpts {
      PdptEntry(m, k, GibOf(h));
    }
    if GibOf(h) in k.directories {
      DirectoryEntry(m, k, h);
    }
  }
}
