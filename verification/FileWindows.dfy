/** Reading and writing windows of a file through the block cache, as if the file were one flat array of bytes. */
module FileWindows {
  import opened Wrappers
  import opened Storage
  import opened Caching

  const BLOCK_SIZE: nat := 4096

  type Data = b: seq<bv8> | |b| == BLOCK_SIZE witness seq(BLOCK_SIZE, _ => 0)

  function Zeros(): Data { seq(BLOCK_SIZE, _ => 0) }

  /** A file: its size and, per block of it, where the block is; a hole is nowhere. */
  datatype File = File(size: nat, places: seq<Option<nat>>) {
    /** Blocks enough for the size, each its own place on the disk, none that the cache may hold stale. */
    ghost predicate Valid(blocks: nat, exempt: iset<nat>) {
      && size <= |places| * BLOCK_SIZE
      && (forall l | 0 <= l < |places| && places[l].Some? :: places[l].value < blocks && places[l].value !in exempt)
      && forall l, m | 0 <= l < m < |places| && places[l].Some? && places[m].Some? :: places[l].value != places[m].value
    }

    /** The block's bytes, zeros for a hole. */
    function BlockOf(d: seq<Data>, l: nat): Data
      requires l < |places| && forall k | 0 <= k < |places| && places[k].Some? :: places[k].value < |d|
    {
      if places[l].Some? then d[places[l].value] else Zeros()
    }

    predicate Placed(blocks: nat) {
      && size <= |places| * BLOCK_SIZE
      && forall k | 0 <= k < |places| && places[k].Some? :: places[k].value < blocks
    }
  }

  function LogicalOf(o: nat): nat { o / BLOCK_SIZE }

  function OffsetOf(o: nat): (j: nat)
    ensures j < BLOCK_SIZE
  {
    o % BLOCK_SIZE
  }

  lemma Inside(file: File, o: nat)
    requires file.size <= |file.places| * BLOCK_SIZE && o < file.size
    ensures LogicalOf(o) < |file.places|
  {
  }

  /** One byte of the file. */
  function ByteAt(d: seq<Data>, file: File, o: nat): bv8
    requires file.Placed(|d|) && o < file.size
  {
    if LogicalOf(o) < |file.places| then file.BlockOf(d, LogicalOf(o))[OffsetOf(o)] else 0
  }

  /** The whole file as a flat array. */
  function Content(d: seq<Data>, file: File): (s: seq<bv8>)
    requires file.Placed(|d|)
    ensures |s| == file.size
  {
    seq(file.size, o requires 0 <= o < file.size => ByteAt(d, file, o))
  }

  function Splice(s: seq<bv8>, offset: nat, bytes: seq<bv8>): (t: seq<bv8>)
    requires offset + |bytes| <= |s|
    ensures |t| == |s|
  {
    s[..offset] + bytes + s[offset + |bytes|..]
  }

  lemma Run1(o: nat, i: nat)
    requires OffsetOf(o) + i < BLOCK_SIZE
    ensures LogicalOf(o + i) == LogicalOf(o) && OffsetOf(o + i) == OffsetOf(o) + i
  {
  }

  /** A run of bytes inside one block is that part of the block. */
  lemma RunOf(d: seq<Data>, file: File, o: nat, n: nat)
    requires file.Placed(|d|) && o + n <= file.size && 0 < n <= BLOCK_SIZE - OffsetOf(o)
    ensures LogicalOf(o) < |file.places|
    ensures Content(d, file)[o..o + n] == file.BlockOf(d, LogicalOf(o))[OffsetOf(o)..OffsetOf(o) + n]
  {
    Inside(file, o);
    var part := Content(d, file)[o..o + n];
    forall i | 0 <= i < n ensures part[i] == file.BlockOf(d, LogicalOf(o))[OffsetOf(o)..OffsetOf(o) + n][i] {
      Run1(o, i);
      var q := o + i;
      hide LogicalOf, OffsetOf;
      assert part[i] == Content(d, file)[q] == ByteAt(d, file, q);
    }
  }

  /** Writing a run inside one block changes exactly those bytes of the file. */
  lemma WriteRun(d: seq<Data>, file: File, exempt: iset<nat>, o: nat, bytes: seq<bv8>)
    requires file.Valid(|d|, exempt) && file.Placed(|d|) && o + |bytes| <= file.size && 0 < |bytes| <= BLOCK_SIZE - OffsetOf(o)
    requires LogicalOf(o) < |file.places| && file.places[LogicalOf(o)].Some?
    ensures var p, j := file.places[LogicalOf(o)].value, OffsetOf(o);
      var block: Data := d[p][..j] + bytes + d[p][j + |bytes|..];
      Content(d[p := block], file) == Splice(Content(d, file), o, bytes)
  {
    var l, j := LogicalOf(o), OffsetOf(o);
    var p := file.places[l].value;
    var block: Data := d[p][..j] + bytes + d[p][j + |bytes|..];
    var e := d[p := block];
    forall q | 0 <= q < file.size ensures Content(e, file)[q] == Splice(Content(d, file), o, bytes)[q] {
      WriteByte(d, file, exempt, o, bytes, q);
    }
  }

  lemma WriteByte(d: seq<Data>, file: File, exempt: iset<nat>, o: nat, bytes: seq<bv8>, q: nat)
    requires file.Valid(|d|, exempt) && file.Placed(|d|) && o + |bytes| <= file.size && 0 < |bytes| <= BLOCK_SIZE - OffsetOf(o)
    requires LogicalOf(o) < |file.places| && file.places[LogicalOf(o)].Some? && q < file.size
    ensures var p, j := file.places[LogicalOf(o)].value, OffsetOf(o);
      var block: Data := d[p][..j] + bytes + d[p][j + |bytes|..];
      ByteAt(d[p := block], file, q) == if o <= q < o + |bytes| then bytes[q - o] else ByteAt(d, file, q)
  {
    Inside(file, q);
    if o <= q < o + |bytes| {
      Run1(o, q - o);
    } else {
      Elsewhere(o, q, |bytes|);
    }
    hide LogicalOf, OffsetOf;
  }

  lemma Elsewhere(o: nat, q: nat, n: nat)
    requires 0 < n <= BLOCK_SIZE - OffsetOf(o) && !(o <= q < o + n)
    ensures LogicalOf(q) != LogicalOf(o) || OffsetOf(q) < OffsetOf(o) || OffsetOf(o) + n <= OffsetOf(q)
  {
  }

  // ------------------------------------------------------------------ through the cache

  lemma ReadCoherent(before: seq<Entry<Data>>, after: seq<Entry<Data>>, d: seq<Data>, exempt: iset<nat>, block: nat)
    requires Coherent(before, d, exempt) && block < |d|
    requires Lookup(after, block) == Some(d[block])
    requires forall c | c != block :: Lookup(after, c) == Lookup(before, c) || Lookup(after, c).None?
    ensures Coherent(after, d, exempt)
  {
    forall b: nat | b !in exempt && Lookup(after, b).Some? ensures b < |d| && Lookup(after, b).value == d[b] {
      assert b != block ==> Lookup(after, b) == Lookup(before, b);
    }
  }

  lemma WriteCoherent(before: seq<Entry<Data>>, after: seq<Entry<Data>>, d: seq<Data>, exempt: iset<nat>, block: nat, data: Data)
    requires Coherent(before, d, exempt) && block < |d| && Lookup(after, block).None?
    requires forall c | c != block :: Lookup(after, c) == Lookup(before, c)
    ensures Coherent(after, d[block := data], exempt)
  {
    forall b: nat | b !in exempt && Lookup(after, b).Some? ensures b < |d| && Lookup(after, b).value == d[block := data][b] {
      assert b != block && Lookup(before, b) == Lookup(after, b);
    }
  }

  /** The part of a block of the file that lies inside the file. */
  method ReadFileBlock(device: BlockDevice<Data>, cache: BlockCache<Data>, ghost exempt: iset<nat>, file: File, l: nat)
    returns (bytes: seq<bv8>)
    requires device.Valid() && cache.Valid() && Coherent(cache.entries[..], device.View(), exempt)
    requires file.Valid(|device.media|, exempt) && l < |file.places| && l * BLOCK_SIZE < file.size
    modifies cache, cache.entries
    ensures cache.Valid() && Coherent(cache.entries[..], device.View(), exempt)
    ensures file.Placed(|device.View()|)
    ensures |bytes| == (if file.size - l * BLOCK_SIZE < BLOCK_SIZE then file.size - l * BLOCK_SIZE else BLOCK_SIZE)
    ensures bytes == file.BlockOf(device.View(), l)[..|bytes|]
  {
    hide Coherent, Unique, Lookup, Run, BlockDevice.Valid;
    var remaining := file.size - l * BLOCK_SIZE;
    var length := if remaining < BLOCK_SIZE then remaining else BLOCK_SIZE;
    if file.places[l].Some? {
      var block := file.places[l].value;
      ghost var before := cache.entries[..];
      ghost var d := device.View();
      CachedIsCurrent(before, d, exempt, block);
      var data := cache.ReadBlock(device, block);
      ReadCoherent(before, cache.entries[..], d, exempt, block);
      bytes := data[..length];
    } else {
      bytes := Zeros()[..length];
    }
  }

  lemma CachedIsCurrent(s: seq<Entry<Data>>, d: seq<Data>, exempt: iset<nat>, block: nat)
    requires Coherent(s, d, exempt) && block !in exempt
    ensures Lookup(s, block).Some? ==> block < |d| && Lookup(s, block).value == d[block]
  {
  }

  ghost predicate Apart(a: object, b: object) { a != b }

  /** Reads a window of the file: exactly those bytes of the flat array. */
  method ReadRange(device: BlockDevice<Data>, cache: BlockCache<Data>, ghost exempt: iset<nat>, file: File, offset: nat,
                   length: nat, output: array<bv8>)
    requires device.Valid() && cache.Valid() && Coherent(cache.entries[..], device.View(), exempt)
    requires file.Valid(|device.media|, exempt) && offset + length <= file.size && length <= output.Length
    requires Apart(output, cache.entries) && Apart(output, cache) && Apart(output, device)
    modifies cache, cache.entries, output
    ensures cache.Valid() && Coherent(cache.entries[..], device.View(), exempt)
    ensures file.Placed(|device.View()|)
    ensures output[..length] == Content(device.View(), file)[offset..offset + length]
    ensures output[length..] == old(output[length..])
  {
    hide Coherent, BlockCache.Valid, BlockDevice.Valid, BlockDevice.View, Content, File.BlockOf;
    ghost var d := device.View();
    ghost var whole := Content(d, file);
    var copied := 0;
    while copied < length
      invariant copied <= length && cache.Valid() && Coherent(cache.entries[..], d, exempt)
      invariant device.Valid() && device.View() == d && file.Valid(|device.media|, exempt)
      invariant output[..copied] == whole[offset..offset + copied]
      invariant output[length..] == old(output[length..])
    {
      var run := ReadRun(device, cache, exempt, file, offset + copied, length - copied);
      CopyInto(output, copied, run);
      assert whole[offset..offset + copied + |run|] == whole[offset..offset + copied] + run;
      copied := copied + |run|;
    }
  }

  /** The bytes from an offset on, as many as its block holds and are asked for. */
  method ReadRun(device: BlockDevice<Data>, cache: BlockCache<Data>, ghost exempt: iset<nat>, file: File, at: nat, most: nat)
    returns (run: seq<bv8>)
    requires device.Valid() && cache.Valid() && Coherent(cache.entries[..], device.View(), exempt)
    requires file.Valid(|device.media|, exempt) && at + most <= file.size && 0 < most
    modifies cache, cache.entries
    ensures cache.Valid() && Coherent(cache.entries[..], device.View(), exempt)
    ensures file.Placed(|device.View()|) && 0 < |run| <= most
    ensures run == Content(device.View(), file)[at..at + |run|]
  {
    hide Coherent, BlockCache.Valid, BlockDevice.Valid, BlockDevice.View, Content, File.BlockOf;
    Inside(file, at);
    StartsInside(file, at);
    var bytes := ReadFileBlock(device, cache, exempt, file, LogicalOf(at));
    BlockLength(file, at, |bytes|);
    var n := if most < |bytes| - OffsetOf(at) then most else |bytes| - OffsetOf(at);
    RunOf(device.View(), file, at, n);
    run := bytes[OffsetOf(at)..OffsetOf(at) + n];
    ghost var block := file.BlockOf(device.View(), LogicalOf(at));
    assert run == block[OffsetOf(at)..OffsetOf(at) + n];
  }

  method CopyInto(output: array<bv8>, at: nat, bytes: seq<bv8>)
    requires at + |bytes| <= output.Length
    modifies output
    ensures output[..at + |bytes|] == old(output[..at]) + bytes
    ensures output[at + |bytes|..] == old(output[at + |bytes|..])
    ensures forall k | at + |bytes| <= k <= output.Length :: output[k..] == old(output[k..])
  {
    forall i | 0 <= i < |bytes| {
      output[at + i] := bytes[i];
    }
  }

  lemma StartsInside(file: File, o: nat)
    requires o < file.size
    ensures LogicalOf(o) * BLOCK_SIZE < file.size
  {
  }

  lemma BlockLength(file: File, o: nat, n: nat)
    requires o < file.size && LogicalOf(o) * BLOCK_SIZE < file.size
    requires var rest := file.size - LogicalOf(o) * BLOCK_SIZE; n == if rest < BLOCK_SIZE then rest else BLOCK_SIZE
    ensures OffsetOf(o) < n
  {
  }

  /** Whether a byte lies in a whole block of the file that has a place: only there can it be overwritten. */
  predicate Writable(file: File, o: nat) {
    var l := LogicalOf(o);
    l < |file.places| && file.places[l].Some? && (l + 1) * BLOCK_SIZE <= file.size
  }

  ghost predicate Owns(file: File, b: nat) {
    exists l | 0 <= l < |file.places| :: file.places[l] == Some(b)
  }

  /** Overwrites a whole block in place, forces it out and drops the cached copy; refuses holes and a partial last block. */
  method OverwriteBlock(device: BlockDevice<Data>, cache: BlockCache<Data>, ghost exempt: iset<nat>, file: File, l: nat,
                        data: Data)
    returns (ok: bool)
    requires device.Valid() && cache.Valid() && Coherent(cache.entries[..], device.View(), exempt)
    requires file.Valid(|device.media|, exempt) && l < |file.places|
    modifies device, cache.entries
    ensures device.Valid() && cache.Valid() && Coherent(cache.entries[..], device.View(), exempt)
    ensures |device.View()| == |device.media| == old(|device.media|)
    ensures ok <==> (l + 1) * BLOCK_SIZE <= file.size && file.places[l].Some?
    ensures device.View() == if ok then old(device.View())[file.places[l].value := data] else old(device.View())
    ensures device.media == if ok then device.View() else old(device.media)
  {
    hide Coherent, Unique, BlockDevice.Valid, BlockDevice.View, Lookup;
    if (l + 1) * BLOCK_SIZE > file.size || file.places[l].None? {
      return false;
    }
    var block := file.places[l].value;
    ghost var before := cache.entries[..];
    ghost var d := device.View();
    device.Write(block, data);
    device.Flush();
    assert device.View() == d[block := data];
    assert cache.Valid() && cache.entries[..] == before;
    var found := cache.Invalidate(block);
    WriteCoherent(before, cache.entries[..], d, exempt, block, data);
    assert device.View() == d[block := data];
    return true;
  }

  /** Merges a run of input into its block and writes the block back; `n` is zero if the block cannot be overwritten. */
  method WriteRunAt(device: BlockDevice<Data>, cache: BlockCache<Data>, ghost exempt: iset<nat>, file: File, at: nat,
                    input: seq<bv8>)
    returns (n: nat)
    requires device.Valid() && cache.Valid() && Coherent(cache.entries[..], device.View(), exempt)
    requires file.Valid(|device.media|, exempt) && at + |input| <= file.size && input != []
    modifies device, cache, cache.entries
    ensures device.Valid() && cache.Valid() && Coherent(cache.entries[..], device.View(), exempt)
    ensures |device.View()| == |device.media| == old(|device.media|) && file.Placed(|device.media|)
    ensures n <= |input| && (n == 0 <==> !Writable(file, at)) && (forall o | at <= o < at + n :: Writable(file, o))
    ensures Content(device.View(), file) == Splice(Content(old(device.View()), file), at, input[..n])
    ensures forall b | 0 <= b < |device.media| && !Owns(file, b) :: device.View()[b] == old(device.View())[b]
    ensures device.media == if n > 0 then device.View() else old(device.media)
    ensures n == 0 ==> device.View() == old(device.View())
  {
    hide Coherent, BlockCache.Valid, BlockDevice.Valid, BlockDevice.View, Content, Splice;
    ghost var d := device.View();
    Inside(file, at);
    StartsInside(file, at);
    var l := LogicalOf(at);
    var bytes := ReadFileBlock(device, cache, exempt, file, l);
    SpliceNothing(Content(d, file), at, input);
    if |bytes| != BLOCK_SIZE {
      return 0;
    }
    var j := OffsetOf(at);
    n := if |input| < BLOCK_SIZE - j then |input| else BLOCK_SIZE - j;
    var buffer: Data := bytes[..j] + input[..n] + bytes[j + n..];
    var ok := OverwriteBlock(device, cache, exempt, file, l, buffer);
    if !ok {
      return 0;
    }
    WriteRun(d, file, exempt, at, input[..n]);
    assert bytes == d[file.places[l].value];
    forall o | at <= o < at + n ensures Writable(file, o) {
      Run1(at, o - at);
    }
    forall b | 0 <= b < |device.media| && !Owns(file, b) ensures device.View()[b] == d[b] {
      assert file.places[l] != Some(b);
    }
  }

  lemma SpliceNothing(s: seq<bv8>, at: nat, input: seq<bv8>)
    requires at <= |s|
    ensures Splice(s, at, input[..0]) == s
  {
  }

  lemma SpliceMore(s: seq<bv8>, at: nat, a: seq<bv8>, b: seq<bv8>)
    requires at + |a| + |b| <= |s|
    ensures Splice(Splice(s, at, a), at + |a|, b) == Splice(s, at, a + b)
  {
  }

  /**
   * Writes a window of the file. It stops, as the kernel does, at the first block that cannot be overwritten; what was
   * written by then is exactly the beginning of the input, on the medium, and nothing outside the file changed.
   */
  method WriteRange(device: BlockDevice<Data>, cache: BlockCache<Data>, ghost exempt: iset<nat>, file: File, offset: nat,
                    input: seq<bv8>)
    returns (copied: nat)
    requires device.Valid() && cache.Valid() && Coherent(cache.entries[..], device.View(), exempt)
    requires file.Valid(|device.media|, exempt) && offset + |input| <= file.size
    modifies device, cache, cache.entries
    ensures device.Valid() && cache.Valid() && Coherent(cache.entries[..], device.View(), exempt)
    ensures |device.View()| == |device.media| == old(|device.media|) && file.Placed(|device.media|)
    ensures copied <= |input| && (forall o | offset <= o < offset + copied :: Writable(file, o))
    ensures copied < |input| ==> !Writable(file, offset + copied)
    ensures Content(device.View(), file) == Splice(Content(old(device.View()), file), offset, input[..copied])
    ensures forall b | 0 <= b < |device.media| && !Owns(file, b) :: device.View()[b] == old(device.View())[b]
    ensures copied > 0 ==> device.media == device.View()
  {
    hide Coherent, BlockCache.Valid, BlockDevice.Valid, BlockDevice.View, Content, Splice, Writable, Owns;
    ghost var d := device.View();
    ghost var whole := Content(d, file);
    copied := 0;
    SpliceNothing(whole, offset, input);
    while copied < |input|
      invariant copied <= |input| && device.Valid() && cache.Valid() && Coherent(cache.entries[..], device.View(), exempt)
      invariant |device.View()| == |device.media| == |d| && file.Placed(|d|)
      invariant forall o | offset <= o < offset + copied :: Writable(file, o)
      invariant Content(device.View(), file) == Splice(whole, offset, input[..copied])
      invariant forall b | 0 <= b < |d| && !Owns(file, b) :: device.View()[b] == d[b]
      invariant copied > 0 ==> device.media == device.View()
    {
      ghost var written := Content(device.View(), file);
      var n := WriteRunAt(device, cache, exempt, file, offset + copied, input[copied..]);
      if n == 0 {
        SpliceNothing(written, offset + copied, input[copied..]);
        return;
      }
      var run := input[copied..][..n];
      SpliceMore(whole, offset, input[..copied], run);
      assert input[..copied + n] == input[..copied] + run;
      copied := copied + n;
    }
  }
}
