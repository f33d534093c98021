/** Copying between the kernel and a process's memory, through the kernel's own record of the process's pages. */
module UserCopy {
  import opened Sizes
  import opened Wrappers
  import Frames
  import opened PageTables
  import opened KernelPaging
  import opened UserSpace
  import opened SharedMemory

  /** What the kernel records of a process's pages. */
  datatype UserMapping = UserMapping(space: AddressSpace, codeEnd: nat, sharedHandle: Option<Handle>, sharedFrame: nat) {
    ghost predicate Valid() {
      && space.Valid() && CODE_BASE <= codeEnd <= STACK_BASE
      && (forall i | 0 <= i < CODE_PAGES :: space.code[i] % PAGE == 0)
      && (forall i | 0 <= i < STACK_PAGES :: space.stack[i] % PAGE == 0)
      && (sharedHandle.Some? ==> sharedFrame % PAGE == 0 && sharedFrame !in space.AllFrames())
    }

    function Shared(): Option<nat> {
      if sharedHandle.Some? && sharedFrame != 0 then Some(sharedFrame) else None
    }
  }

  function Min(a: nat, b: nat): nat { if a < b then a else b }

  /** The physical address of a user byte and how many bytes follow it in the same page and segment. */
  function UserChunk(mapping: Option<UserMapping>, address: nat, maximum: nat, writable: bool): Option<(nat, nat)> {
    if mapping.None? then None
    else if maximum == 0 then Some((0, 0))
    else
      var m := mapping.value;
      if !writable && CODE_BASE <= address < m.codeEnd then
        var page, offset := (address - CODE_BASE) / PAGE, (address - CODE_BASE) % PAGE;
        if page >= |m.space.code| then None
        else Some((m.space.code[page] + offset, Min(Min(maximum, m.codeEnd - address), PAGE - offset)))
      else if SHARED_BASE <= address < SHARED_END then
        if m.sharedHandle.None? || m.sharedFrame == 0 then None
        else Some((m.sharedFrame + (address - SHARED_BASE), Min(maximum, PAGE - (address - SHARED_BASE))))
      else if address < STACK_BASE || address >= STACK_TOP then None
      else
        var page, offset := (address - STACK_BASE) / PAGE, (address - STACK_BASE) % PAGE;
        if page >= |m.space.stack| then None
        else Some((m.space.stack[page] + offset, Min(maximum, PAGE - offset)))
  }

  /** The physical address of one user byte, by its page; code ends with the segment. */
  function Translate(mapping: Option<UserMapping>, address: nat, writable: bool): Option<nat>
    requires mapping.Some? ==> |mapping.value.space.code| == CODE_PAGES && |mapping.value.space.stack| == STACK_PAGES
  {
    if mapping.None? || address < CODE_BASE then None
    else
      match mapping.value.space.PageAt(mapping.value.Shared(), IndexOf(address))
      case None => None
      case Some((frame, canWrite)) =>
        if (writable && !canWrite) || mapping.value.codeEnd <= address < STACK_BASE then None
        else Some(frame + address % PAGE)
  }

  /** The kernel's record and the processor agree: the same byte, reachable by the user, writable when asked. */
  lemma TranslateAgrees(m: Tables, k: Kernel, mapping: UserMapping, address: nat, writable: bool)
    requires mapping.Valid() && mapping.space.Shape(m, k, mapping.Shared()) && address < LOWER_HALF
    ensures var walk := Walk(m, mapping.space.root, address);
      var reachable := walk.Mapped? && walk.user && (writable ==> walk.writable);
      && (Translate(Some(mapping), address, writable).Some? <==> reachable && !(mapping.codeEnd <= address < STACK_BASE))
      && (Translate(Some(mapping), address, writable).Some? ==>
            Translate(Some(mapping), address, writable).value == walk.physical)
  {
    hide AddressSpace.Shape, Walk;
    UserReach(m, k, mapping.space, mapping.Shared(), address);
  }

  /** The physical address of the byte `i` places on. */
  function Nth(mapping: Option<UserMapping>, address: nat, i: nat, writable: bool): Option<nat>
    requires mapping.Some? ==> |mapping.value.space.code| == CODE_PAGES && |mapping.value.space.stack| == STACK_PAGES
  {
    Translate(mapping, address + i, writable)
  }

  lemma SamePage(address: nat, i: nat)
    requires CODE_BASE <= address && address % PAGE + i < PAGE
    ensures IndexOf(address + i) == IndexOf(address) && (address + i) % PAGE == address % PAGE + i
  {
  }

  /** A chunk is a run of consecutive bytes of one page, each translated as it would be alone. */
  lemma ChunkAgrees(mapping: UserMapping, address: nat, maximum: nat, writable: bool)
    requires mapping.Valid() && maximum > 0
    ensures var chunk := UserChunk(Some(mapping), address, maximum, writable);
      && (chunk.None? <==> Translate(Some(mapping), address, writable).None?)
      && (chunk.Some? ==>
            && 1 <= chunk.value.1 <= maximum && chunk.value.0 % PAGE + chunk.value.1 <= PAGE
            && forall i | 0 <= i < chunk.value.1 ::
                 Nth(Some(mapping), address, i, writable) == Some(chunk.value.0 + i))
  {
    var chunk := UserChunk(Some(mapping), address, maximum, writable);
    ChunkStart(mapping, address, maximum, writable);
    if chunk.Some? {
      TranslateOffset(mapping, address, writable);
      forall i | 0 <= i < chunk.value.1 ensures Nth(Some(mapping), address, i, writable) == Some(chunk.value.0 + i) {
        SamePage(address, i);
        hide IndexOf, UserChunk;
      }
    }
  }

  lemma ChunkStart(mapping: UserMapping, address: nat, maximum: nat, writable: bool)
    requires mapping.Valid() && maximum > 0
    ensures var chunk := UserChunk(Some(mapping), address, maximum, writable);
      && (chunk.None? <==> Translate(Some(mapping), address, writable).None?)
      && (chunk.Some? ==>
            && CODE_BASE <= address
            && 1 <= chunk.value.1 <= maximum && address % PAGE + chunk.value.1 <= PAGE
            && Translate(Some(mapping), address, writable) == Some(chunk.value.0)
            && (address < STACK_BASE ==> address + chunk.value.1 <= mapping.codeEnd))
  {
    if CODE_BASE <= address {
      Offset(0, address);
      Residue(address);
    }
    if STACK_BASE <= address {
      Offset(CODE_PAGES, address);
    }
    if SHARED_BASE <= address {
      Offset(CODE_PAGES + STACK_PAGES, address);
    }
    hide IndexOf;
  }

  lemma TranslateOffset(mapping: UserMapping, address: nat, writable: bool)
    requires mapping.Valid() && Translate(Some(mapping), address, writable).Some?
    ensures Translate(Some(mapping), address, writable).value % PAGE == address % PAGE
  {
    hide IndexOf;
  }

  lemma Residue(address: nat)
    requires CODE_BASE <= address
    ensures IndexOf(address) < CODE_PAGES <==> address < STACK_BASE
    ensures IndexOf(address) < CODE_PAGES + STACK_PAGES <==> address < STACK_TOP
    ensures IndexOf(address) <= CODE_PAGES + STACK_PAGES <==> address < SHARED_END
  {
  }

  lemma Offset(n: nat, address: nat)
    requires CODE_BASE + n * PAGE <= address
    ensures (address - CODE_BASE - n * PAGE) % PAGE == address % PAGE
    ensures (address - CODE_BASE - n * PAGE) / PAGE + n == IndexOf(address)
  {
  }

  function FrameOf(q: nat): nat { q - q % PAGE }

  function ByteAt(pages: map<nat, Page>, q: nat): bv8
    requires FrameOf(q) in pages
  {
    pages[FrameOf(q)][q % PAGE]
  }

  /** The process's pages hold bytes. */
  ghost predicate Backed(mapping: Option<UserMapping>, pages: map<nat, Page>) {
    mapping.Some? ==>
      && mapping.value.Valid()
      && (forall i | 0 <= i < CODE_PAGES :: mapping.value.space.code[i] in pages)
      && (forall i | 0 <= i < STACK_PAGES :: mapping.value.space.stack[i] in pages)
      && (mapping.value.Shared().Some? ==> mapping.value.Shared().value in pages)
  }

  lemma TranslateBacked(mapping: Option<UserMapping>, pages: map<nat, Page>, address: nat, writable: bool)
    requires Backed(mapping, pages) && Translate(mapping, address, writable).Some?
    ensures FrameOf(Translate(mapping, address, writable).value) in pages
  {
    hide IndexOf;
  }

  /** Different user addresses are different bytes. */
  lemma TranslateInjective(mapping: UserMapping, a: nat, b: nat, writable: bool)
    requires mapping.Valid() && a != b
    requires Translate(Some(mapping), a, writable).Some? && Translate(Some(mapping), b, writable).Some?
    ensures Translate(Some(mapping), a, writable) != Translate(Some(mapping), b, writable)
  {
    var (frameA, _) := mapping.space.PageAt(mapping.Shared(), IndexOf(a)).value;
    var (frameB, _) := mapping.space.PageAt(mapping.Shared(), IndexOf(b)).value;
    PageFrames(mapping, IndexOf(a), IndexOf(b));
    if IndexOf(a) == IndexOf(b) {
      assert a % PAGE != b % PAGE;
    } else {
      assert frameA % PAGE == 0 && frameB % PAGE == 0 && frameA != frameB;
    }
  }

  lemma PageFrames(mapping: UserMapping, i: nat, j: nat)
    requires mapping.Valid()
    requires mapping.space.PageAt(mapping.Shared(), i).Some? && mapping.space.PageAt(mapping.Shared(), j).Some?
    ensures mapping.space.PageAt(mapping.Shared(), i).value.0 % PAGE == 0
    ensures i != j ==> mapping.space.PageAt(mapping.Shared(), i).value.0 != mapping.space.PageAt(mapping.Shared(), j).value.0
  {
    PageFrame(mapping, i);
    PageFrame(mapping, j);
  }

  lemma PageFrame(mapping: UserMapping, i: nat)
    requires mapping.Valid() && mapping.space.PageAt(mapping.Shared(), i).Some?
    ensures i < 8 && mapping.space.PageAt(mapping.Shared(), i).value.0 % PAGE == 0
    ensures var frame := mapping.space.PageAt(mapping.Shared(), i).value.0;
      if i < 7 then frame == mapping.space.AllFrames()[4 + i] else frame !in mapping.space.AllFrames()
  {
  }

  /** Whether every byte of a range may be read, or written when asked. */
  ghost predicate Accessible(mapping: Option<UserMapping>, address: nat, length: nat, writable: bool)
    requires mapping.Some? ==> mapping.value.Valid()
  {
    address + length <= U64_MAX && forall i | 0 <= i < length :: Nth(mapping, address, i, writable).Some?
  }

  /** The bytes of an accessible range. */
  function Loaded(pages: map<nat, Page>, mapping: Option<UserMapping>, address: nat, length: nat): seq<bv8>
    requires Backed(mapping, pages) && Accessible(mapping, address, length, false)
  {
    seq(length, i requires 0 <= i < length =>
      assert Nth(mapping, address, i, false).Some?;
      TranslateBacked(mapping, pages, address + i, false);
      ByteAt(pages, Nth(mapping, address, i, false).value))
  }

  lemma ChunkStep(mapping: Option<UserMapping>, address: nat, done: nat, length: nat, writable: bool)
    requires mapping.Some? ==> mapping.value.Valid()
    requires done < length
    ensures var chunk := UserChunk(mapping, address + done, length - done, writable);
      && (chunk.None? <==> Nth(mapping, address, done, writable).None?)
      && (chunk.Some? ==>
            && 1 <= chunk.value.1 <= length - done && chunk.value.0 % PAGE + chunk.value.1 <= PAGE
            && forall i: nat | done <= i < done + chunk.value.1 ::
                 Nth(mapping, address, i, writable) == Some(chunk.value.0 + (i - done)))
  {
    hide UserChunk, Translate;
    if mapping.None? {
      NoMapping(address + done, length - done, writable);
    } else {
      ChunkAgrees(mapping.value, address + done, length - done, writable);
      var chunk := UserChunk(mapping, address + done, length - done, writable);
      if chunk.Some? {
        forall i: nat | done <= i < done + chunk.value.1
          ensures Nth(mapping, address, i, writable) == Some(chunk.value.0 + (i - done))
        {
          assert Nth(mapping, address + done, i - done, writable) == Some(chunk.value.0 + (i - done));
        }
      }
    }
  }

  lemma NoMapping(address: nat, length: nat, writable: bool)
    ensures UserChunk(None, address, length, writable) == None && Translate(None, address, writable) == None
  {
  }

  method ValidateUserRange(mapping: Option<UserMapping>, address: nat, length: nat, writable: bool) returns (ok: bool)
    requires mapping.Some? ==> mapping.value.Valid()
    ensures ok <==> Accessible(mapping, address, length, writable)
  {
    hide UserChunk, Nth;
    if address + length > U64_MAX {
      return false;
    }
    var checked := 0;
    while checked < length
      invariant checked <= length && forall i | 0 <= i < checked :: Nth(mapping, address, i, writable).Some?
    {
      ChunkStep(mapping, address, checked, length, writable);
      var chunk := UserChunk(mapping, address + checked, length - checked, writable);
      if chunk.None? {
        return false;
      }
      checked := checked + chunk.value.1;
    }
    return true;
  }

  /** Reads a range of the process's memory, or refuses and leaves the buffer alone. */
  method CopyFromUser(memory: Memory, mapping: Option<UserMapping>, address: nat, output: array<bv8>) returns (ok: bool)
    requires Backed(mapping, memory.pages)
    modifies output
    ensures ok <==> Accessible(mapping, address, output.Length, false)
    ensures ok ==> output[..] == Loaded(memory.pages, mapping, address, output.Length)
    ensures !ok ==> output[..] == old(output[..])
  {
    hide UserChunk, Nth;
    ok := ValidateUserRange(mapping, address, output.Length, false);
    if !ok {
      return;
    }
    ghost var expected := Loaded(memory.pages, mapping, address, output.Length);
    var copied := 0;
    while copied < output.Length
      invariant copied <= output.Length && output[..copied] == expected[..copied]
    {
      ChunkStep(mapping, address, copied, output.Length, false);
      var chunk := UserChunk(mapping, address + copied, output.Length - copied, false);
      var (pointer, length) := chunk.value;
      PointerBacked(mapping, memory.pages, address, copied, pointer);
      var page := memory.pages[FrameOf(pointer)];
      forall i | 0 <= i < length {
        output[copied + i] := page[pointer % PAGE + i];
      }
      forall i | copied <= i < copied + length ensures output[i] == expected[i] {
        WithinPage(pointer, i - copied);
      }
      copied := copied + length;
    }
  }

  lemma PointerBacked(mapping: Option<UserMapping>, pages: map<nat, Page>, address: nat, i: nat, pointer: nat)
    requires Backed(mapping, pages) && Nth(mapping, address, i, false) == Some(pointer)
    ensures FrameOf(pointer) in pages
  {
    TranslateBacked(mapping, pages, address + i, false);
  }

  lemma WithinPage(pointer: nat, i: nat)
    requires pointer % PAGE + i < PAGE
    ensures FrameOf(pointer + i) == FrameOf(pointer) && (pointer + i) % PAGE == pointer % PAGE + i
  {
  }

  /** The physical bytes a range occupies, below the first `length`. */
  ghost predicate Hit(mapping: Option<UserMapping>, address: nat, length: nat, q: nat)
    requires mapping.Some? ==> mapping.value.Valid()
  {
    exists i | 0 <= i < length :: Nth(mapping, address, i, true) == Some(q)
  }

  /** The first bytes of the range are stored, and every other byte of memory is as before. */
  ghost predicate Stored(pages: map<nat, Page>, pages': map<nat, Page>, mapping: Option<UserMapping>, address: nat,
                         bytes: seq<bv8>)
    requires mapping.Some? ==> mapping.value.Valid()
  {
    && pages'.Keys == pages.Keys
    && (forall i | 0 <= i < |bytes| :: HoldsByte(pages', Nth(mapping, address, i, true), bytes[i]))
    && forall q: nat | FrameOf(q) in pages && !Hit(mapping, address, |bytes|, q) :: ByteAt(pages', q) == ByteAt(pages, q)
  }

  ghost predicate HoldsByte(pages: map<nat, Page>, q: Option<nat>, b: bv8) {
    q.Some? && FrameOf(q.value) in pages && ByteAt(pages, q.value) == b
  }

  /** Storing a run of bytes inside one page. */
  function StoreRun(pages: map<nat, Page>, pointer: nat, bytes: seq<bv8>): map<nat, Page>
    requires FrameOf(pointer) in pages && pointer % PAGE + |bytes| <= PAGE
  {
    var page, offset := pages[FrameOf(pointer)], pointer % PAGE;
    pages[FrameOf(pointer) := page[..offset] + bytes + page[offset + |bytes|..]]
  }

  lemma StoreRunBytes(pages: map<nat, Page>, pointer: nat, bytes: seq<bv8>, q: nat)
    requires FrameOf(pointer) in pages && pointer % PAGE + |bytes| <= PAGE && FrameOf(q) in pages
    ensures ByteAt(StoreRun(pages, pointer, bytes), q) ==
      if pointer <= q < pointer + |bytes| then bytes[q - pointer] else ByteAt(pages, q)
  {
    if pointer <= q < pointer + |bytes| {
      WithinPage(pointer, q - pointer);
    } else if FrameOf(q) == FrameOf(pointer) {
      assert q - q % PAGE == pointer - pointer % PAGE;
    }
  }

  lemma StoredMore(pages: map<nat, Page>, pages': map<nat, Page>, mapping: Option<UserMapping>, address: nat,
                   bytes: seq<bv8>, run: seq<bv8>, pointer: nat)
    requires Backed(mapping, pages) && Stored(pages, pages', mapping, address, bytes)
    requires forall i: nat | |bytes| <= i < |bytes| + |run| ::
      Nth(mapping, address, i, true) == Some(pointer + (i - |bytes|))
    requires FrameOf(pointer) in pages' && pointer % PAGE + |run| <= PAGE
    ensures Stored(pages, StoreRun(pages', pointer, run), mapping, address, bytes + run)
  {
    hide Nth, StoreRun, FrameOf, ByteAt, HoldsByte;
    StoreRunKeys(pages', pointer, run);
    var all, pages'' := bytes + run, StoreRun(pages', pointer, run);
    forall i | 0 <= i < |all| ensures HoldsByte(pages'', Nth(mapping, address, i, true), all[i]) {
      if i < |bytes| {
        assert HoldsByte(pages', Nth(mapping, address, i, true), bytes[i]);
        EarlierKept(pages', mapping, address, |bytes|, run, pointer, i, bytes[i]);
      } else {
        assert Nth(mapping, address, i, true) == Some(pointer + (i - |bytes|));
        RunHolds(pages', pointer, run, i - |bytes|);
      }
    }
    forall q: nat | FrameOf(q) in pages && !Hit(mapping, address, |all|, q) ensures ByteAt(pages'', q) == ByteAt(pages, q) {
      assert !Hit(mapping, address, |bytes|, q);
      StoreRunBytes(pages', pointer, run, q);
      if pointer <= q < pointer + |run| {
        var i := q - pointer + |bytes|;
        assert Nth(mapping, address, i, true) == Some(q);
      }
    }
  }

  lemma StoreRunKeys(pages: map<nat, Page>, pointer: nat, bytes: seq<bv8>)
    requires FrameOf(pointer) in pages && pointer % PAGE + |bytes| <= PAGE
    ensures StoreRun(pages, pointer, bytes).Keys == pages.Keys
  {
  }

  lemma RunHolds(pages: map<nat, Page>, pointer: nat, run: seq<bv8>, i: nat)
    requires FrameOf(pointer) in pages && pointer % PAGE + |run| <= PAGE && i < |run|
    ensures HoldsByte(StoreRun(pages, pointer, run), Some(pointer + i), run[i])
  {
    WithinPage(pointer, i);
    StoreRunBytes(pages, pointer, run, pointer + i);
  }

  /** A byte stored earlier survives, because different addresses are different bytes. */
  lemma EarlierKept(pages: map<nat, Page>, mapping: Option<UserMapping>, address: nat, done: nat, run: seq<bv8>,
                    pointer: nat, i: nat, b: bv8)
    requires mapping.Some? ==> mapping.value.Valid()
    requires forall j: nat | done <= j < done + |run| :: Nth(mapping, address, j, true) == Some(pointer + (j - done))
    requires FrameOf(pointer) in pages && pointer % PAGE + |run| <= PAGE
    requires i < done && HoldsByte(pages, Nth(mapping, address, i, true), b)
    ensures HoldsByte(StoreRun(pages, pointer, run), Nth(mapping, address, i, true), b)
  {
    var q := Nth(mapping, address, i, true).value;
    StoreRunBytes(pages, pointer, run, q);
    StoreRunKeys(pages, pointer, run);
    if pointer <= q < pointer + |run| {
      var j := q - pointer + done;
      assert Nth(mapping, address, j, true) == Some(q);
      TranslateInjective(mapping.value, address + i, address + j, true);
    }
  }

  /** Writes a range of the process's memory, or refuses and leaves memory alone. */
  method CopyToUser(memory: Memory, mapping: Option<UserMapping>, address: nat, bytes: seq<bv8>) returns (ok: bool)
    requires Backed(mapping, memory.pages)
    modifies memory`pages
    ensures ok <==> Accessible(mapping, address, |bytes|, true)
    ensures ok ==> Stored(old(memory.pages), memory.pages, mapping, address, bytes)
    ensures !ok ==> memory.pages == old(memory.pages)
  {
    hide UserChunk, Nth, Stored, StoreRun;
    ok := ValidateUserRange(mapping, address, |bytes|, true);
    if !ok {
      return;
    }
    var copied := 0;
    StoredNothing(memory.pages, mapping, address);
    while copied < |bytes|
      invariant copied <= |bytes| && memory.pages.Keys == old(memory.pages).Keys
      invariant Stored(old(memory.pages), memory.pages, mapping, address, bytes[..copied])
    {
      ChunkStep(mapping, address, copied, |bytes|, true);
      var chunk := UserChunk(mapping, address + copied, |bytes| - copied, true);
      var (pointer, length) := chunk.value;
      WriteBacked(mapping, memory.pages, address, copied, pointer);
      var run := bytes[copied..copied + length];
      StoredMore(old(memory.pages), memory.pages, mapping, address, bytes[..copied], run, pointer);
      StoreRunKeys(memory.pages, pointer, run);
      memory.pages := StoreRun(memory.pages, pointer, run);
      assert bytes[..copied + length] == bytes[..copied] + run;
      copied := copied + length;
    }
    assert bytes[..copied] == bytes;
  }

  lemma StoredNothing(pages: map<nat, Page>, mapping: Option<UserMapping>, address: nat)
    requires Backed(mapping, pages)
    ensures Stored(pages, pages, mapping, address, [])
  {
  }

  lemma WriteBacked(mapping: Option<UserMapping>, pages: map<nat, Page>, address: nat, i: nat, pointer: nat)
    requires Backed(mapping, pages) && Nth(mapping, address, i, true) == Some(pointer)
    ensures FrameOf(pointer) in pages
  {
    TranslateBacked(mapping, pages, address + i, true);
  }

  /** What was written to a range is what is read from it. */
  lemma CopyRoundTrip(pages: map<nat, Page>, pages': map<nat, Page>, mapping: Option<UserMapping>, address: nat,
                      bytes: seq<bv8>)
    requires Backed(mapping, pages) && Accessible(mapping, address, |bytes|, true)
    requires Stored(pages, pages', mapping, address, bytes)
    ensures Backed(mapping, pages') && Accessible(mapping, address, |bytes|, false)
    ensures Loaded(pages', mapping, address, |bytes|) == bytes
  {
    hide Translate;
    forall i | 0 <= i < |bytes| ensures Nth(mapping, address, i, false) == Nth(mapping, address, i, true) {
      assert Nth(mapping, address, i, true).Some?;
      NoMapping(address + i, 0, true);
      WritableReadable(mapping.value, address + i);
    }
    forall i | 0 <= i < |bytes| ensures Loaded(pages', mapping, address, |bytes|)[i] == bytes[i] {
      assert HoldsByte(pages', Nth(mapping, address, i, true), bytes[i]);
    }
  }

  lemma WritableReadable(mapping: UserMapping, address: nat)
    requires mapping.Valid() && Translate(Some(mapping), address, true).Some?
    ensures Translate(Some(mapping), address, false) == Translate(Some(mapping), address, true)
  {
  }
}
