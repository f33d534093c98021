/**
 What a 4096-byte block can hold as far as the ext4 and JBD2 parsers can tell.
 */
module Blocks {
  import Storage

  const MAX_SEQUENCE := 0xFFFF_FFFF

  /** A JBD2 sequence number (`u32`). */
  type Sequence = n: nat | n <= MAX_SEQUENCE

  datatype Tag = Tag(target: nat, escaped: bool)

  datatype Body =
    | Blank
    | Descriptor(descriptorSequence: Sequence, tags: seq<Tag>)
    | Commit(commitSequence: Sequence)
    | JournalSuper(sequence: Sequence, start: nat)
    | FsSuper(recover: bool, image: int)
    | Plain(data: int)

  /** `magic` says whether the first four bytes are the JBD2 magic; `body` is the rest. */
  datatype Block = Block(magic: bool, body: Body)

  const ZERO := Block(false, Blank)

  type Disk = seq<Block>
  type Op = Storage.Request<Block>
}
