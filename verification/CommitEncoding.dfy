/** The bytes of a commit in the log: descriptor blocks with their tags, and a reader
    of them. */
module CommitEncoding {
  type byte = b: int | 0 <= b < 256

  type Block = seq<byte>

  const MAGIC: nat := 0xc03b3998
  const DESCRIPTOR_BLOCK: nat := 1
  const FLAG_ESCAPE: nat := 1
  const FLAG_SAME_UUID: nat := 2
  const FLAG_LAST_TAG: nat := 8
  const HEADER_SIZE: nat := 12
  const UUID_SIZE: nat := 16

  /** What of journal_t the encoding depends on. */
  datatype Config = Config(blockSize: nat, csumV2: bool, wide: bool, uuid: seq<byte>) {
    /** Any block size ext4 has; wide stands for the feature 64BIT. */
    predicate Legal() {
      1024 <= blockSize && |uuid| == UUID_SIZE
    }

    /** journal_tag_bytes. */
    function TagBytes(): nat {
      (if csumV2 then 2 else 0) + (if wide then 12 else 8)
    }

    function CsumSize(): nat {
      if csumV2 then 4 else 0
    }

    /** j_wbufsize. */
    function WbufSize(): nat {
      blockSize / 12
    }

    predicate BlocknrOk(blocknr: nat) {
      blocknr < if wide then 0x1_0000_0000_0000_0000 else 0x1_0000_0000
    }
  }

  function Be16(x: nat): (s: seq<byte>)
    requires x < 0x1_0000
    ensures |s| == 2
  {
    [x / 0x100, x % 0x100]
  }

  function Be32(x: nat): (s: seq<byte>)
    requires x < 0x1_0000_0000
    ensures |s| == 4
  {
    Be16(x / 0x1_0000) + Be16(x % 0x1_0000)
  }

  function Val16(s: seq<byte>, at: nat): nat
    requires at + 2 <= |s|
  {
    (s[at] as nat) * 0x100 + s[at + 1] as nat
  }

  function Val32(s: seq<byte>, at: nat): nat
    requires at + 4 <= |s|
  {
    Val16(s, at) * 0x1_0000 + Val16(s, at + 2)
  }

  function Low(blocknr: nat): (x: nat)
    ensures x < 0x1_0000_0000
  {
    blocknr % 0x1_0000_0000
  }

  /** (block >> 31) >> 1 in 32 bits. */
  function High(blocknr: nat): (x: nat)
    ensures x < 0x1_0000_0000
  {
    (blocknr / 0x1_0000_0000) % 0x1_0000_0000
  }

  function Zeros(n: nat): (z: seq<byte>)
    ensures |z| == n
  {
    seq(n, i => 0)
  }

  /** memcpy of bytes into a block. */
  function Put(block: Block, at: nat, bytes: seq<byte>): (b: Block)
    requires at + |bytes| <= |block|
    ensures |b| == |block|
  {
    block[..at] + bytes + block[at + |bytes|..]
  }

  predicate StartsWithMagic(block: Block) {
    |block| >= 4 && Val32(block, 0) == MAGIC
  }

  /** What is written to the log for the contents of a buffer. */
  function Escaped(block: Block): (b: Block)
    ensures |b| == |block|
  {
    if StartsWithMagic(block) then Put(block, 0, Zeros(4)) else block
  }

  function Unescaped(block: Block, escape: bool): Block {
    if escape && |block| >= 4 then Put(block, 0, Be32(MAGIC)) else block
  }

  lemma Be16RoundTrip(x: nat, s: seq<byte>, at: nat)
    requires x < 0x1_0000 && at + 2 <= |s| && s[at..at + 2] == Be16(x)
    ensures Val16(s, at) == x
  {
    assert s[at] == s[at..at + 2][0] && s[at + 1] == s[at..at + 2][1];
  }

  lemma Be32RoundTrip(x: nat, s: seq<byte>, at: nat)
    requires x < 0x1_0000_0000 && at + 4 <= |s| && s[at..at + 4] == Be32(x)
    ensures Val32(s, at) == x
  {
    assert s[at..at + 2] == s[at..at + 4][..2] == Be16(x / 0x1_0000);
    assert s[at + 2..at + 4] == s[at..at + 4][2..] == Be16(x % 0x1_0000);
    Be16RoundTrip(x / 0x1_0000, s, at);
    Be16RoundTrip(x % 0x1_0000, s, at + 2);
  }

  lemma Val16Inverse(s: seq<byte>, at: nat)
    requires at + 2 <= |s|
    ensures Val16(s, at) < 0x1_0000 && Be16(Val16(s, at)) == s[at..at + 2]
  {
  }

  lemma Val32Inverse(s: seq<byte>, at: nat)
    requires at + 4 <= |s|
    ensures Val32(s, at) < 0x1_0000_0000 && Be32(Val32(s, at)) == s[at..at + 4]
  {
    Val16Inverse(s, at);
    Val16Inverse(s, at + 2);
    assert s[at..at + 4] == s[at..at + 2] + s[at + 2..at + 4];
  }

  /** An escaped block never looks like a descriptor, and nothing of it is lost. */
  lemma EscapeIsSafe(block: Block)
    ensures !StartsWithMagic(Escaped(block))
    ensures Unescaped(Escaped(block), StartsWithMagic(block)) == block
  {
    if StartsWithMagic(block) {
      Val32Inverse(block, 0);
      var e := Escaped(block);
      assert e[0] == 0 && e[1] == 0 && e[2] == 0 && e[3] == 0;
      assert Unescaped(e, true) == block[0..4] + block[4..];
    }
  }

  // ------------------------------------------------------------------- what is written

  /** A metadata buffer: where it belongs and what is in it. */
  datatype Buf = Buf(blocknr: nat, data: Block)

  /** A buffer with the checksum that its tag gets. */
  datatype Tag = Tag(buf: Buf, check: seq<byte>)

  predicate TagOk(c: Config, t: Tag) {
    c.BlocknrOk(t.buf.blocknr) && |t.buf.data| == c.blockSize && |t.check| == 2
  }

  function Flags(t: Tag, first: bool, last: bool): (f: nat)
    ensures f < 0x100
  {
    (if StartsWithMagic(t.buf.data) then FLAG_ESCAPE else 0) + (if first then 0 else FLAG_SAME_UUID)
    + (if last then FLAG_LAST_TAG else 0)
  }

  /** A tag in a descriptor block, and the UUID behind the first one. */
  function Field(c: Config, t: Tag, first: bool, last: bool): (f: seq<byte>)
    requires c.Legal() && |t.check| == 2
    ensures |f| == c.TagBytes() + if first then UUID_SIZE else 0
  {
    Be32(Low(t.buf.blocknr)) + t.check + Be16(Flags(t, first, last))
    + (if c.wide then Be32(High(t.buf.blocknr)) else []) + (if c.csumV2 then Zeros(2) else [])
    + (if first then c.uuid else [])
  }

  predicate TagsOk(c: Config, ts: seq<Tag>) {
    forall i :: 0 <= i < |ts| ==> TagOk(c, ts[i])
  }

  /** The tags of a descriptor block, up to its last one if `last`. */
  function Fields(c: Config, ts: seq<Tag>, first: bool, last: bool): (f: seq<byte>)
    requires c.Legal() && TagsOk(c, ts)
  {
    if ts == [] then []
    else Field(c, ts[0], first, last && |ts| == 1) + Fields(c, ts[1..], false, last)
  }

  function Header(tid: nat): (h: seq<byte>)
    requires tid < 0x1_0000_0000
    ensures |h| == HEADER_SIZE
  {
    Be32(MAGIC) + Be32(DESCRIPTOR_BLOCK) + Be32(tid)
  }

  /** A descriptor block and the blocks it describes; `tail` is its checksum. */
  datatype Group = Group(tags: seq<Tag>, tail: seq<byte>)

  predicate GroupOk(c: Config, g: Group) {
    && c.Legal() && g.tags != [] && TagsOk(c, g.tags) && |g.tail| == c.CsumSize()
    && HEADER_SIZE + |Fields(c, g.tags, true, true)| + c.CsumSize() <= c.blockSize
  }

  function Descriptor(c: Config, tid: nat, g: Group): (b: Block)
    requires GroupOk(c, g) && tid < 0x1_0000_0000
    ensures |b| == c.blockSize
  {
    var f := Fields(c, g.tags, true, true);
    Header(tid) + f + Zeros(c.blockSize - HEADER_SIZE - |f| - c.CsumSize()) + g.tail
  }

  function DataBlocks(ts: seq<Tag>): (bs: seq<Block>)
    ensures |bs| == |ts|
  {
    seq(|ts|, i requires 0 <= i < |ts| => Escaped(ts[i].buf.data))
  }

  function Bufs(ts: seq<Tag>): (bs: seq<Buf>)
    ensures |bs| == |ts|
  {
    seq(|ts|, i requires 0 <= i < |ts| => ts[i].buf)
  }

  predicate GroupsOk(c: Config, gs: seq<Group>) {
    forall i :: 0 <= i < |gs| ==> GroupOk(c, gs[i])
  }

  /** All blocks of a commit, in the order they are written. */
  function LogBlocks(c: Config, tid: nat, gs: seq<Group>): seq<Block>
    requires GroupsOk(c, gs) && tid < 0x1_0000_0000
  {
    if gs == [] then []
    else [Descriptor(c, tid, gs[0])] + DataBlocks(gs[0].tags) + LogBlocks(c, tid, gs[1..])
  }

  function AllBufs(gs: seq<Group>): seq<Buf> {
    if gs == [] then [] else Bufs(gs[0].tags) + AllBufs(gs[1..])
  }

  // -------------------------------------------------------------------- how it is read

  datatype Option<T> = None | Some(value: T)

  /** A tag that was read, with the UUID it has or shares. */
  datatype Entry = Entry(blocknr: nat, escape: bool, uuid: seq<byte>)

  /** One bit of the flags of the tag at an offset. */
  predicate HasFlag(block: Block, at: nat, flag: nat)
    requires at + 8 <= |block| && flag > 0
  {
    Val16(block, at + 6) / flag % 2 == 1
  }

  /** The tag at an offset; high tells whether the reader takes it to have an upper word. */
  function ReadEntry(c: Config, high: bool, block: Block, at: nat, uuid: seq<byte>): Entry
    requires at + c.TagBytes() <= |block| && (high ==> at + 12 <= |block|)
  {
    Entry(Val32(block, at) + (if high then Val32(block, at + 8) * 0x1_0000_0000 else 0),
          HasFlag(block, at, FLAG_ESCAPE),
          if HasFlag(block, at, FLAG_SAME_UUID) then uuid
          else if at + c.TagBytes() + UUID_SIZE <= |block| then block[at + c.TagBytes()..at + c.TagBytes() + UUID_SIZE]
          else [])
  }

  /** The tags from an offset on, up to the last one. */
  function ReadTags(c: Config, high: bool, block: Block, at: nat, uuid: seq<byte>): seq<Entry>
    requires high ==> c.wide || c.csumV2
    decreases |block| - at
  {
    if at + c.TagBytes() + c.CsumSize() > |block| then []
    else
      var e := ReadEntry(c, high, block, at, uuid);
      if HasFlag(block, at, FLAG_LAST_TAG) then [e]
      else [e] + ReadTags(c, high, block, at + c.TagBytes() + (if HasFlag(block, at, FLAG_SAME_UUID) then 0 else UUID_SIZE),
                          e.uuid)
  }

  predicate IsDescriptor(block: Block, tid: nat) {
    |block| >= HEADER_SIZE && Val32(block, 0) == MAGIC && Val32(block, 4) == DESCRIPTOR_BLOCK && Val32(block, 8) == tid
  }

  /** Reads the buffers of the first descriptor block; None when it is not a well formed
      one of this transaction and file system, or blocks are missing behind it. */
  function ReadGroup(c: Config, tid: nat, log: seq<Block>): (g: Option<seq<Buf>>)
    requires log != []
    ensures g.Some? ==> 0 < |g.value| < |log|
  {
    if !IsDescriptor(log[0], tid) then None
    else
      var es := ReadTags(c, c.wide, log[0], HEADER_SIZE, []);
      if |es| == 0 || |es| >= |log| || exists i :: 0 <= i < |es| && es[i].uuid != c.uuid then None
      else Some(seq(|es|, i requires 0 <= i < |es| => Buf(es[i].blocknr, Unescaped(log[1 + i], es[i].escape))))
  }

  /** Reads the blocks of a commit back. */
  function Decode(c: Config, tid: nat, log: seq<Block>): Option<seq<Buf>>
    decreases |log|
  {
    if log == [] then Some([])
    else
      match ReadGroup(c, tid, log)
      case None => None
      case Some(bufs) =>
        match Decode(c, tid, log[1 + |bufs|..])
        case None => None
        case Some(more) => Some(bufs + more)
  }

  // ------------------------------------------------------------------------- round trip

  function Entries(c: Config, ts: seq<Tag>): (es: seq<Entry>)
    ensures |es| == |ts|
  {
    seq(|ts|, i requires 0 <= i < |ts| => Entry(ts[i].buf.blocknr, StartsWithMagic(ts[i].buf.data), c.uuid))
  }

  /** The bytes f are in the block from an offset on. */
  predicate Holds(block: Block, at: nat, f: seq<byte>) {
    at + |f| <= |block| && block[at..at + |f|] == f
  }

  /** A part of what a block holds. */
  lemma Within(block: Block, at: nat, f: seq<byte>, i: nat, j: nat)
    requires Holds(block, at, f) && i <= j <= |f|
    ensures Holds(block, at + i, f[i..j]) && at + i + |f[i..j]| == at + j
  {
    var a, b := block[at + i..at + j], f[i..j];
    forall k | 0 <= k < |a|
      ensures a[k] == b[k]
    {
      assert block[at..at + |f|][i + k] == block[at + (i + k)];
    }
  }

  lemma BothHold(block: Block, at: nat, f: seq<byte>, g: seq<byte>)
    requires Holds(block, at, f + g)
    ensures Holds(block, at, f) && Holds(block, at + |f|, g)
  {
    Within(block, at, f + g, 0, |f|);
    Within(block, at, f + g, |f|, |f + g|);
    assert (f + g)[0..|f|] == f && (f + g)[|f|..|f + g|] == g;
  }

  lemma SliceLeft(a: seq<byte>, b: seq<byte>, i: nat, j: nat)
    requires i <= j <= |a|
    ensures (a + b)[i..j] == a[i..j]
  {
  }

  lemma SliceRight(a: seq<byte>, b: seq<byte>, j: nat)
    requires j <= |b|
    ensures (a + b)[|a|..|a| + j] == b[..j]
  {
  }

  /** The parts of a tag, in their order. */
  lemma FieldParts(c: Config, t: Tag, first: bool, last: bool)
    requires c.Legal() && |t.check| == 2
    ensures var f := Field(c, t, first, last);
            && f[0..4] == Be32(Low(t.buf.blocknr)) && f[6..8] == Be16(Flags(t, first, last))
            && (c.wide ==> f[8..12] == Be32(High(t.buf.blocknr)))
            && (first ==> f[c.TagBytes()..c.TagBytes() + UUID_SIZE] == c.uuid)
  {
    var low, fl := Be32(Low(t.buf.blocknr)), Be16(Flags(t, first, last));
    var high := if c.wide then Be32(High(t.buf.blocknr)) else [];
    var pad := if c.csumV2 then Zeros(2) else [];
    var uuid := if first then c.uuid else [];
    var head := low + t.check + fl;
    SliceLeft(low + t.check, fl, 0, 4);
    SliceLeft(low, t.check, 0, 4);
    SliceRight(low + t.check, fl, 2);
    var tag := head + high + pad;
    assert Field(c, t, first, last) == tag + uuid;
    SliceLeft(tag, uuid, 0, 4);
    SliceLeft(tag, uuid, 6, 8);
    SliceLeft(head + high, pad, 0, 4);
    SliceLeft(head + high, pad, 6, 8);
    SliceLeft(head, high, 0, 4);
    SliceLeft(head, high, 6, 8);
    if c.wide {
      SliceLeft(tag, uuid, 8, 12);
      SliceLeft(head + high, pad, 8, 12);
      SliceRight(head, high, 4);
    }
    if first {
      SliceRight(tag, uuid, UUID_SIZE);
    }
  }

  lemma HighLow(c: Config, blocknr: nat)
    requires c.BlocknrOk(blocknr)
    ensures blocknr == Low(blocknr) + if c.wide then High(blocknr) * 0x1_0000_0000 else 0
  {
  }

  lemma FlagBits(t: Tag, first: bool, last: bool)
    ensures var f := Flags(t, first, last);
            && f % 2 == (if StartsWithMagic(t.buf.data) then 1 else 0)
            && f / 2 % 2 == (if first then 0 else 1)
            && f / 8 % 2 == (if last then 1 else 0)
  {
  }

  /** One tag is read as it was written. */
  lemma ReadField(c: Config, t: Tag, first: bool, last: bool, block: Block, at: nat, uuid: seq<byte>)
    requires c.Legal() && TagOk(c, t) && (!first ==> uuid == c.uuid)
    requires Holds(block, at, Field(c, t, first, last))
    ensures ReadEntry(c, c.wide, block, at, uuid) == Entry(t.buf.blocknr, StartsWithMagic(t.buf.data), c.uuid)
    ensures HasFlag(block, at, FLAG_LAST_TAG) == last && HasFlag(block, at, FLAG_SAME_UUID) == !first
  {
    var f := Field(c, t, first, last);
    FieldParts(c, t, first, last);
    Within(block, at, f, 0, 4);
    Be32RoundTrip(Low(t.buf.blocknr), block, at);
    Within(block, at, f, 6, 8);
    Be16RoundTrip(Flags(t, first, last), block, at + 6);
    FlagBits(t, first, last);
    if c.wide {
      Within(block, at, f, 8, 12);
      Be32RoundTrip(High(t.buf.blocknr), block, at + 8);
    }
    if first {
      Within(block, at, f, c.TagBytes(), c.TagBytes() + UUID_SIZE);
    }
    HighLow(c, t.buf.blocknr);
  }

  lemma EntriesFrom(c: Config, ts: seq<Tag>)
    requires ts != []
    ensures Entries(c, ts) == [Entry(ts[0].buf.blocknr, StartsWithMagic(ts[0].buf.data), c.uuid)]
                              + if |ts| == 1 then [] else Entries(c, ts[1..])
  {
  }

  /** Tags are in the block from an offset on, with room for the checksum behind them. */
  predicate HasTags(c: Config, ts: seq<Tag>, first: bool, block: Block, at: nat, uuid: seq<byte>) {
    && c.Legal() && ts != [] && TagsOk(c, ts) && (!first ==> uuid == c.uuid)
    && var f := Fields(c, ts, first, true); Holds(block, at, f) && at + |f| + c.CsumSize() <= |block|
  }

  /** One tag is read, and others behind it. */
  lemma ReadNext(c: Config, ts: seq<Tag>, first: bool, block: Block, at: nat, uuid: seq<byte>)
    requires HasTags(c, ts, first, block, at, uuid)
    ensures var next := at + |Field(c, ts[0], first, |ts| == 1)|;
            var rest := if |ts| == 1 then [] else ReadTags(c, c.wide, block, next, c.uuid);
            && (|ts| > 1 ==> var there := HasTags(c, ts[1..], false, block, next, c.uuid); there)
            && ReadTags(c, c.wide, block, at, uuid) == [Entries(c, ts)[0]] + rest
  {
    BothHold(block, at, Field(c, ts[0], first, |ts| == 1), Fields(c, ts[1..], false, true));
    ReadField(c, ts[0], first, |ts| == 1, block, at, uuid);
  }

  lemma {:induction false} ReadFields(c: Config, ts: seq<Tag>, first: bool, block: Block, at: nat, uuid: seq<byte>)
    requires var there := HasTags(c, ts, first, block, at, uuid); there
    ensures ReadTags(c, c.wide, block, at, uuid) == Entries(c, ts)
    decreases |ts|
  {
    ReadNext(c, ts, first, block, at, uuid);
    EntriesFrom(c, ts);
    if |ts| > 1 {
      ReadFields(c, ts[1..], false, block, at + |Field(c, ts[0], first, false)|, c.uuid);
    }
  }

  lemma DescriptorIsRead(c: Config, tid: nat, g: Group)
    requires GroupOk(c, g) && tid < 0x1_0000_0000
    ensures IsDescriptor(Descriptor(c, tid, g), tid)
    ensures ReadTags(c, c.wide, Descriptor(c, tid, g), HEADER_SIZE, []) == Entries(c, g.tags)
  {
    var b, h, f := Descriptor(c, tid, g), Header(tid), Fields(c, g.tags, true, true);
    assert b[0..HEADER_SIZE] == h;
    assert Holds(b, 0, h);
    assert h[0..4] == Be32(MAGIC) && h[4..8] == Be32(DESCRIPTOR_BLOCK) && h[8..12] == Be32(tid);
    Within(b, 0, h, 0, 4);
    Be32RoundTrip(MAGIC, b, 0);
    Within(b, 0, h, 4, 8);
    Be32RoundTrip(DESCRIPTOR_BLOCK, b, 4);
    Within(b, 0, h, 8, 12);
    Be32RoundTrip(tid, b, 8);
    assert Holds(b, HEADER_SIZE, f);
    ReadFields(c, g.tags, true, b, HEADER_SIZE, []);
  }

  lemma GroupInLog(b: Block, ts: seq<Tag>, more: seq<Block>, i: nat)
    requires i < |ts|
    ensures ([b] + DataBlocks(ts) + more)[1 + i] == Escaped(ts[i].buf.data)
  {
    assert ([b] + DataBlocks(ts) + more)[1 + i] == DataBlocks(ts)[i];
  }

  lemma GroupIsRead(c: Config, tid: nat, g: Group, more: seq<Block>)
    requires GroupOk(c, g) && tid < 0x1_0000_0000
    ensures ReadGroup(c, tid, [Descriptor(c, tid, g)] + DataBlocks(g.tags) + more) == Some(Bufs(g.tags))
  {
    var ts, es := g.tags, Entries(c, g.tags);
    var log := [Descriptor(c, tid, g)] + DataBlocks(ts) + more;
    DescriptorIsRead(c, tid, g);
    assert log[0] == Descriptor(c, tid, g) && |log| > |ts|;
    var bufs := ReadGroup(c, tid, log).value;
    forall i | 0 <= i < |ts|
      ensures bufs[i] == Bufs(ts)[i]
    {
      GroupInLog(log[0], ts, more, i);
      EscapeIsSafe(ts[i].buf.data);
    }
    assert bufs == Bufs(ts);
  }

  /** Reading what a commit writes gives its buffers, in order, with their contents. */
  lemma {:induction false} RoundTrip(c: Config, tid: nat, gs: seq<Group>)
    requires c.Legal() && GroupsOk(c, gs) && tid < 0x1_0000_0000
    ensures Decode(c, tid, LogBlocks(c, tid, gs)) == Some(AllBufs(gs))
    decreases |gs|
  {
    if gs != [] {
      var more := LogBlocks(c, tid, gs[1..]);
      var log := [Descriptor(c, tid, gs[0])] + DataBlocks(gs[0].tags) + more;
      GroupIsRead(c, tid, gs[0], more);
      assert log[1 + |gs[0].tags|..] == more;
      RoundTrip(c, tid, gs[1..]);
    }
  }

  /** In the log of a commit only descriptor blocks start with the magic number. */
  lemma {:induction false} MagicMarksDescriptors(c: Config, tid: nat, gs: seq<Group>, i: nat)
    requires c.Legal() && GroupsOk(c, gs) && tid < 0x1_0000_0000 && i < |LogBlocks(c, tid, gs)|
    ensures StartsWithMagic(LogBlocks(c, tid, gs)[i]) <==> IsDescriptor(LogBlocks(c, tid, gs)[i], tid)
    decreases |gs|
  {
    var ts, more := gs[0].tags, LogBlocks(c, tid, gs[1..]);
    var d := Descriptor(c, tid, gs[0]);
    assert LogBlocks(c, tid, gs) == [d] + DataBlocks(ts) + more;
    if i == 0 {
      DescriptorIsRead(c, tid, gs[0]);
    } else if i <= |ts| {
      GroupInLog(d, ts, more, i - 1);
      EscapeIsSafe(ts[i - 1].buf.data);
    } else {
      assert LogBlocks(c, tid, gs)[i] == more[i - 1 - |ts|];
      MagicMarksDescriptors(c, tid, gs[1..], i - 1 - |ts|);
    }
  }

  // -------------------------------------------------------------------- byte by byte

  /** The four bytes of a number, the highest first. */
  predicate IsBe32(s: seq<byte>, at: nat, x: nat) {
    && at + 4 <= |s|
    && x == (s[at] as nat) * 0x100_0000 + (s[at + 1] as nat) * 0x1_0000 + (s[at + 2] as nat) * 0x100 + s[at + 3] as nat
  }

  lemma Be32Bytes(x: nat)
    requires x < 0x1_0000_0000
    ensures IsBe32(Be32(x), 0, x)
  {
    var h, l := x / 0x1_0000, x % 0x1_0000;
    assert Be32(x) == [h / 0x100, h % 0x100, l / 0x100, l % 0x100];
  }

  lemma Be32Within(s: seq<byte>, at: nat, x: nat)
    requires x < 0x1_0000_0000 && at + 4 <= |s| && s[at..at + 4] == Be32(x)
    ensures IsBe32(s, at, x)
  {
    Be32Bytes(x);
    var b := s[at..at + 4];
    assert b[0] == s[at] && b[1] == s[at + 1] && b[2] == s[at + 2] && b[3] == s[at + 3];
  }

  /** A block is escaped if its first bytes are c0 3b 39 98, which are zeroed then. */
  lemma EscapeBytes(block: Block)
    ensures StartsWithMagic(block) <==> |block| >= 4 && block[..4] == [0xc0, 0x3b, 0x39, 0x98]
    ensures forall i :: 0 <= i < |block| ==> Escaped(block)[i] == if StartsWithMagic(block) && i < 4 then 0 else block[i]
  {
    if |block| >= 4 {
      assert block[..4] == [block[0], block[1], block[2], block[3]];
    }
  }

  lemma HeaderBytes(tid: nat)
    requires tid < 0x1_0000_0000
    ensures Header(tid)[..8] == [0xc0, 0x3b, 0x39, 0x98, 0, 0, 0, 1] && IsBe32(Header(tid), 8, tid)
  {
    assert Header(tid)[..8] == Be32(MAGIC) + Be32(DESCRIPTOR_BLOCK);
    assert Header(tid)[8..12] == Be32(tid);
    Be32Within(Header(tid), 8, tid);
  }

  /** A tag on disk: the low half of the block number, the checksum, the flags ESCAPE = 1,
      SAME_UUID = 2 and LAST_TAG = 8, the high half for 64-bit numbers, two bytes of
      padding with checksums, and the UUID behind the first one. */
  lemma FieldBytes(c: Config, t: Tag, first: bool, last: bool)
    requires c.Legal() && TagOk(c, t)
    ensures var f := Field(c, t, first, last);
            var size := (if c.wide then 12 else 8) + if c.csumV2 then 2 else 0;
            && |f| == size + (if first then 16 else 0) && (first ==> f[size..] == c.uuid)
            && IsBe32(f, 0, t.buf.blocknr % 0x1_0000_0000) && f[4] == t.check[0] && f[5] == t.check[1] && f[6] == 0
            && f[7] == (if StartsWithMagic(t.buf.data) then 1 else 0) + (if first then 0 else 2) + (if last then 8 else 0)
            && (c.wide ==> IsBe32(f, 8, t.buf.blocknr / 0x1_0000_0000))
  {
    var f := Field(c, t, first, last);
    FieldParts(c, t, first, last);
    Be32Within(f, 0, Low(t.buf.blocknr));
    if c.wide {
      Be32Within(f, 8, High(t.buf.blocknr));
    }
    FieldByte(c, t, first, last, 4);
    FieldByte(c, t, first, last, 5);
    FieldByte(c, t, first, last, 6);
    FieldByte(c, t, first, last, 7);
  }

  /** Where the i-th tag of a descriptor is: one behind the other, with the UUID behind the
      first. */
  predicate PlacedAt(c: Config, ts: seq<Tag>, first: bool, last: bool, i: nat)
    requires c.Legal() && TagsOk(c, ts) && i < |ts|
  {
    Holds(Fields(c, ts, first, last), i * c.TagBytes() + if first && i > 0 then UUID_SIZE else 0,
          Field(c, ts[i], first && i == 0, last && i == |ts| - 1))
  }

  lemma {:induction false} FieldAt(c: Config, ts: seq<Tag>, first: bool, last: bool, i: nat)
    requires c.Legal() && TagsOk(c, ts) && i < |ts|
    ensures PlacedAt(c, ts, first, last, i)
    decreases |ts|
  {
    if i == 0 {
      FirstPlaced(c, ts, first, last);
    } else {
      FieldAt(c, ts[1..], false, last, i - 1);
      NextPlaced(c, ts, first, last, i);
    }
  }

  lemma FirstPlaced(c: Config, ts: seq<Tag>, first: bool, last: bool)
    requires c.Legal() && TagsOk(c, ts) && ts != []
    ensures PlacedAt(c, ts, first, last, 0)
  {
    var f, more := Field(c, ts[0], first, last && |ts| == 1), Fields(c, ts[1..], false, last);
    assert (f + more)[0..|f|] == f;
  }

  lemma NextPlaced(c: Config, ts: seq<Tag>, first: bool, last: bool, i: nat)
    requires c.Legal() && TagsOk(c, ts) && 0 < i < |ts|
    requires var placed := PlacedAt(c, ts[1..], false, last, i - 1); placed
    ensures var placed := PlacedAt(c, ts, first, last, i); placed
  {
    var size, f, more := c.TagBytes(), Field(c, ts[0], first, last && |ts| == 1), Fields(c, ts[1..], false, last);
    NextPlace(size, i);
    HoldsFurther(f, more, (i - 1) * size, Field(c, ts[i], false, last && i == |ts| - 1));
  }

  lemma NextPlace(size: nat, i: nat)
    requires i > 0
    ensures 0 <= (i - 1) * size && i * size == size + (i - 1) * size
  {
  }

  lemma HoldsFurther(a: seq<byte>, b: seq<byte>, at: nat, f: seq<byte>)
    requires Holds(b, at, f)
    ensures Holds(a + b, |a| + at, f)
  {
    assert (a + b)[|a| + at..|a| + at + |f|] == b[at..at + |f|];
  }

  /** A group in the log: its descriptor, and the data blocks in the order of its tags;
      then the others. */
  lemma LogStarts(c: Config, tid: nat, gs: seq<Group>)
    requires c.Legal() && GroupsOk(c, gs) && gs != [] && tid < 0x1_0000_0000
    ensures var log, n := LogBlocks(c, tid, gs), |gs[0].tags|;
            && |log| >= 1 + n && log[0] == Descriptor(c, tid, gs[0])
            && (forall i :: 0 <= i < n ==> log[1 + i] == Escaped(gs[0].tags[i].buf.data))
            && log[1 + n..] == LogBlocks(c, tid, gs[1..])
  {
    var log, ts, more := LogBlocks(c, tid, gs), gs[0].tags, LogBlocks(c, tid, gs[1..]);
    assert log == [Descriptor(c, tid, gs[0])] + DataBlocks(ts) + more;
    forall i | 0 <= i < |ts|
      ensures log[1 + i] == Escaped(ts[i].buf.data)
    {
      GroupInLog(log[0], ts, more, i);
    }
  }

  // ------------------------------------------------------------------ tags of ten bytes

  /** Two bytes of a block are zero. */
  predicate ZeroAt(block: Block, at: nat)
    requires at + 2 <= |block|
  {
    block[at] == 0 && block[at + 1] == 0
  }

  /** A tag of ten bytes (checksums but 32-bit block numbers) is written like a wide
      one, and what is written next falls on its upper half: a reader that goes by the
      size of the tag, as the writer does, and not by the feature gets the block number
      exactly when the two bytes behind the tag are zero. */
  lemma TenByteTag(c: Config, t: Tag, first: bool, last: bool, block: Block, at: nat, uuid: seq<byte>)
    requires c.Legal() && TagOk(c, t) && c.csumV2 && !c.wide && at + 14 <= |block| && (!first ==> uuid == c.uuid)
    requires Holds(block, at, Field(c, t, first, last))
    ensures var e := Entry(t.buf.blocknr, StartsWithMagic(t.buf.data), c.uuid);
            var r := ReadEntry(c, true, block, at, uuid);
            r.uuid == c.uuid && (r == e <==> ZeroAt(block, at + 10))
    ensures first ==> (ZeroAt(block, at + 10) <==> c.uuid[0] == 0 && c.uuid[1] == 0)
  {
    var f := Field(c, t, first, last);
    ReadField(c, t, first, last, block, at, uuid);
    assert f[8] == 0 && f[9] == 0;
    Within(block, at, f, 8, 10);
    assert block[at + 8] == f[8..10][0] && block[at + 9] == f[8..10][1];
    if first {
      Within(block, at, f, 10, 12);
      assert block[at + 10] == f[10..12][0] == c.uuid[0] && block[at + 11] == f[10..12][1] == c.uuid[1];
    }
  }

  /** What is behind each tag but the last leaves its upper half alone: the UUID behind
      the first, the upper half of the next block number behind any other. */
  predicate SparedWithin(c: Config, ts: seq<Tag>, first: bool)
    requires |c.uuid| == UUID_SIZE
  {
    && (first ==> c.uuid[0] == 0 && c.uuid[1] == 0)
    && forall i :: (if first then 2 else 1) <= i < |ts| ==> ts[i].buf.blocknr < 0x1_0000
  }

  /** Tags of ten bytes are in the block from an offset to an end, which leaves room for
      the checksum. */
  predicate TenByteTags(c: Config, ts: seq<Tag>, first: bool, block: Block, at: nat, uuid: seq<byte>, end: nat) {
    && c.Legal() && ts != [] && TagsOk(c, ts) && c.csumV2 && !c.wide && (!first ==> uuid == c.uuid)
    && var f := Fields(c, ts, first, true); Holds(block, at, f) && end == at + |f| && end + c.CsumSize() <= |block|
  }

  /** One tag is read, with others behind it. */
  lemma TenByteNext(c: Config, ts: seq<Tag>, first: bool, block: Block, at: nat, uuid: seq<byte>, end: nat)
    requires TenByteTags(c, ts, first, block, at, uuid, end) && |ts| > 1
    ensures var next := at + |Field(c, ts[0], first, false)|;
            var r := ReadEntry(c, true, block, at, uuid);
            && (var there := TenByteTags(c, ts[1..], false, block, next, c.uuid, end); there)
            && ReadTags(c, true, block, at, uuid) == [r] + ReadTags(c, true, block, next, c.uuid)
            && (r == Entries(c, ts)[0] <==>
                if first then c.uuid[0] == 0 && c.uuid[1] == 0 else ts[1].buf.blocknr < 0x1_0000)
  {
    var t := ts[0];
    var f, more := Field(c, t, first, false), Fields(c, ts[1..], false, true);
    BothHold(block, at, f, more);
    ReadField(c, t, first, false, block, at, uuid);
    TenByteTag(c, t, first, false, block, at, uuid);
    if !first {
      NextBlocknr(c, ts[1], false, |ts| == 2, block, at + |f|, Fields(c, ts[2..], false, true));
    }
  }

  /** The last tag is read. */
  lemma TenByteLast(c: Config, ts: seq<Tag>, first: bool, block: Block, at: nat, uuid: seq<byte>, end: nat)
    requires TenByteTags(c, ts, first, block, at, uuid, end) && |ts| == 1
    ensures var iff := TenByteIff(c, ts, first, block, end, ReadTags(c, true, block, at, uuid)); iff
  {
    BothHold(block, at, Field(c, ts[0], first, true), Fields(c, ts[1..], false, true));
    ReadField(c, ts[0], first, true, block, at, uuid);
    TenByteTag(c, ts[0], first, true, block, at, uuid);
    HeadsEqual(ReadEntry(c, true, block, at, uuid), Entries(c, ts)[0], [], []);
    assert Entries(c, ts) == [Entries(c, ts)[0]] + [];
  }

  /** What TenByteFields says, for tags that are read as rs. */
  predicate TenByteIff(c: Config, ts: seq<Tag>, first: bool, block: Block, end: nat, rs: seq<Entry>) {
    && |c.uuid| == UUID_SIZE && end + 2 <= |block| && |rs| == |ts|
    && (rs == Entries(c, ts) <==> SparedWithin(c, ts, first) && ((first && |ts| == 1) || ZeroAt(block, end)))
  }

  lemma TenByteStep(c: Config, ts: seq<Tag>, first: bool, block: Block, end: nat, r: Entry, rs: seq<Entry>)
    requires |ts| > 1 && (var iff := TenByteIff(c, ts[1..], false, block, end, rs); iff)
    requires r == Entries(c, ts)[0] <==>
             if first then c.uuid[0] == 0 && c.uuid[1] == 0 else ts[1].buf.blocknr < 0x1_0000
    ensures TenByteIff(c, ts, first, block, end, [r] + rs)
  {
    SparedNext(c, ts, first);
    EntriesFrom(c, ts);
    HeadsEqual(r, Entries(c, ts)[0], rs, Entries(c, ts[1..]));
  }

  lemma {:induction false} TenByteFields(c: Config, ts: seq<Tag>, first: bool, block: Block, at: nat, uuid: seq<byte>,
                                         end: nat)
    requires var there := TenByteTags(c, ts, first, block, at, uuid, end); there
    ensures var iff := TenByteIff(c, ts, first, block, end, ReadTags(c, true, block, at, uuid)); iff
    decreases |ts|
  {
    if |ts| == 1 {
      TenByteLast(c, ts, first, block, at, uuid, end);
    } else {
      var next := at + |Field(c, ts[0], first, false)|;
      TenByteNext(c, ts, first, block, at, uuid, end);
      TenByteFields(c, ts[1..], false, block, next, c.uuid, end);
      TenByteStep(c, ts, first, block, end, ReadEntry(c, true, block, at, uuid), ReadTags(c, true, block, next, c.uuid));
    }
  }

  lemma HeadsEqual(r: Entry, e: Entry, rs: seq<Entry>, es: seq<Entry>)
    ensures [r] + rs == [e] + es <==> r == e && rs == es
  {
    if [r] + rs == [e] + es {
      assert ([r] + rs)[0] == ([e] + es)[0] && ([r] + rs)[1..] == ([e] + es)[1..];
    }
  }

  lemma SparedNext(c: Config, ts: seq<Tag>, first: bool)
    requires |c.uuid| == UUID_SIZE && |ts| > 1
    ensures SparedWithin(c, ts, first) <==>
            (if first then c.uuid[0] == 0 && c.uuid[1] == 0 else ts[1].buf.blocknr < 0x1_0000)
            && SparedWithin(c, ts[1..], false)
  {
    assert forall i :: 1 <= i < |ts| ==> ts[i] == ts[1..][i - 1];
  }

  /** The first two bytes of a tag. */
  lemma NextBlocknr(c: Config, t: Tag, first: bool, last: bool, block: Block, at: nat, more: seq<byte>)
    requires c.Legal() && TagOk(c, t) && !c.wide && Holds(block, at, Field(c, t, first, last) + more)
    ensures ZeroAt(block, at) <==> t.buf.blocknr < 0x1_0000
  {
    var f := Field(c, t, first, last);
    BothHold(block, at, f, more);
    Within(block, at, f, 0, 4);
    FieldParts(c, t, first, last);
    var b := Be32(Low(t.buf.blocknr));
    assert block[at] == block[at..at + 4][0] == b[0] && block[at + 1] == block[at..at + 4][1] == b[1];
  }

  /** The two bytes behind the last tag: padding if there is any, then the checksum. */
  predicate SparedLast(c: Config, g: Group)
    requires GroupOk(c, g) && c.csumV2
  {
    var padding := c.blockSize - HEADER_SIZE - |Fields(c, g.tags, true, true)| - c.CsumSize();
    && (padding == 0 ==> g.tail[0] == 0 && g.tail[1] == 0)
    && (padding == 1 ==> g.tail[0] == 0)
  }

  /** A reader that goes by the size of the tags gets the entries of a descriptor back if
      and only if the UUID starts with two zero bytes, all block numbers from the third
      on are below 2^16, and padding or a checksum of zeros is behind the last tag. */
  lemma TenByteDescriptor(c: Config, tid: nat, g: Group)
    requires GroupOk(c, g) && tid < 0x1_0000_0000 && c.csumV2 && !c.wide
    ensures ReadTags(c, true, Descriptor(c, tid, g), HEADER_SIZE, []) == Entries(c, g.tags) <==>
            SparedWithin(c, g.tags, true) && (|g.tags| == 1 || SparedLast(c, g))
  {
    DescriptorTags(c, tid, g);
    DescriptorEnd(c, tid, g);
    TenByteFields(c, g.tags, true, Descriptor(c, tid, g), HEADER_SIZE, [], HEADER_SIZE + |Fields(c, g.tags, true, true)|);
  }

  lemma DescriptorTags(c: Config, tid: nat, g: Group)
    requires GroupOk(c, g) && tid < 0x1_0000_0000 && c.csumV2 && !c.wide
    ensures var b, end := Descriptor(c, tid, g), HEADER_SIZE + |Fields(c, g.tags, true, true)|;
            var there := TenByteTags(c, g.tags, true, b, HEADER_SIZE, [], end); there
  {
    var h, f := Header(tid), Fields(c, g.tags, true, true);
    DescriptorParts(h, f, Zeros(c.blockSize - HEADER_SIZE - |f| - c.CsumSize()), g.tail);
  }

  lemma DescriptorParts(h: seq<byte>, f: seq<byte>, padding: seq<byte>, tail: seq<byte>)
    ensures var holds := Holds(h + f + padding + tail, |h|, f); holds
  {
    Glue(h + f, padding, tail);
    Glue(h, f, padding + tail);
    HoldsBehind(h, f, padding + tail);
  }

  lemma DescriptorEnd(c: Config, tid: nat, g: Group)
    requires GroupOk(c, g) && tid < 0x1_0000_0000 && c.csumV2
    ensures ZeroAt(Descriptor(c, tid, g), HEADER_SIZE + |Fields(c, g.tags, true, true)|) <==> SparedLast(c, g)
  {
    var h, f := Header(tid), Fields(c, g.tags, true, true);
    ZeroBehind(h + f, Zeros(c.blockSize - HEADER_SIZE - |f| - c.CsumSize()), g.tail);
  }

  lemma ZeroBehind(front: seq<byte>, padding: seq<byte>, tail: seq<byte>)
    requires padding == Zeros(|padding|) && |tail| >= 2
    ensures ZeroAt(front + padding + tail, |front|) <==>
            (|padding| == 0 ==> tail[0] == 0 && tail[1] == 0) && (|padding| == 1 ==> tail[0] == 0)
  {
    Glue(front, padding, tail);
    IndexBehind(front, padding + tail, 0);
    IndexBehind(front, padding + tail, 1);
  }

  lemma HoldsBehind(h: seq<byte>, f: seq<byte>, more: seq<byte>)
    ensures Holds(h + (f + more), |h|, f)
  {
    assert (h + (f + more))[|h|..|h| + |f|] == f;
  }

  lemma IndexBehind(a: seq<byte>, b: seq<byte>, k: nat)
    requires k < |b|
    ensures (a + b)[|a| + k] == b[k]
  {
  }

  /** So a UUID that does not start with two zero bytes makes such a reader miss every
      descriptor. */
  lemma UuidHidesBlocks(c: Config, tid: nat, g: Group)
    requires GroupOk(c, g) && tid < 0x1_0000_0000 && c.csumV2 && !c.wide
    requires c.uuid == seq(UUID_SIZE, i => 0x5a)
    ensures ReadTags(c, true, Descriptor(c, tid, g), HEADER_SIZE, []) != Entries(c, g.tags)
  {
    TenByteDescriptor(c, tid, g);
  }

  // -------------------------------------------------------------- writing step by step

  lemma PutBehind(p: seq<byte>, z: seq<byte>, k: nat, b: seq<byte>)
    requires k + |b| <= |z|
    ensures Put(p + z, |p| + k, b) == p + Put(z, k, b)
  {
    assert (p + z)[..|p| + k] == p + z[..k];
    assert (p + z)[|p| + k + |b|..] == z[k + |b|..];
  }

  lemma PutOnZeros(n: nat, b: seq<byte>)
    requires |b| <= n
    ensures Put(Zeros(n), 0, b) == b + Zeros(n - |b|)
  {
  }

  /** The header of a descriptor, stored word by word. */
  lemma HeaderWritten(tid: nat, n: nat)
    requires tid < 0x1_0000_0000 && n >= HEADER_SIZE
    ensures Put(Put(Put(Zeros(n), 0, Be32(MAGIC)), 4, Be32(DESCRIPTOR_BLOCK)), 8, Be32(tid))
            == Header(tid) + Zeros(n - HEADER_SIZE)
  {
    var m, d, t := Be32(MAGIC), Be32(DESCRIPTOR_BLOCK), Be32(tid);
    PutOnZeros(n, m);
    PutBehind(m, Zeros(n - 4), 0, d);
    PutOnZeros(n - 4, d);
    assert m + (d + Zeros(n - 8)) == (m + d) + Zeros(n - 8);
    PutBehind(m + d, Zeros(n - 8), 0, t);
    PutOnZeros(n - 8, t);
    assert (m + d) + (t + Zeros(n - 12)) == Header(tid) + Zeros(n - 12);
  }

  /** write_tag_block and the stores around it, for a tag at an offset. */
  function TagWritten(c: Config, t: Tag, first: bool, at: nat, z: seq<byte>): (r: seq<byte>)
    requires c.Legal() && TagOk(c, t) && |z| >= at + c.TagBytes() + UUID_SIZE
    ensures |r| == |z|
  {
    var z1 := Put(z, at, Be32(Low(t.buf.blocknr)));
    var z2 := if c.TagBytes() > 8 then Put(z1, at + 8, Be32(High(t.buf.blocknr))) else z1;
    var z3 := Put(z2, at + 6, Be16(Flags(t, first, false)));
    var z4 := if c.csumV2 then Put(z3, at + 4, t.check) else z3;
    if first then Put(z4, at + c.TagBytes(), c.uuid) else z4
  }

  lemma TagBehind(c: Config, t: Tag, first: bool, p: seq<byte>, z: seq<byte>)
    requires c.Legal() && TagOk(c, t) && |z| >= c.TagBytes() + UUID_SIZE
    ensures TagWritten(c, t, first, |p|, p + z) == p + TagWritten(c, t, first, 0, z)
  {
    var low, high, flags := Be32(Low(t.buf.blocknr)), Be32(High(t.buf.blocknr)), Be16(Flags(t, first, false));
    var z1 := Put(z, 0, low);
    PutBehind(p, z, 0, low);
    var z2 := if c.TagBytes() > 8 then Put(z1, 8, high) else z1;
    PutBehind(p, z1, 8, high);
    assert (if c.TagBytes() > 8 then Put(p + z1, |p| + 8, high) else p + z1) == p + z2;
    var z3 := Put(z2, 6, flags);
    PutBehind(p, z2, 6, flags);
    var z4 := if c.csumV2 then Put(z3, 4, t.check) else z3;
    PutBehind(p, z3, 4, t.check);
    assert (if c.csumV2 then Put(p + z3, |p| + 4, t.check) else p + z3) == p + z4;
    if first {
      PutBehind(p, z4, c.TagBytes(), c.uuid);
    }
  }

  lemma PutAt(block: Block, at: nat, bytes: seq<byte>, k: nat)
    requires at + |bytes| <= |block| && k < |block|
    ensures Put(block, at, bytes)[k] == if at <= k < at + |bytes| then bytes[k - at] else block[k]
  {
  }

  lemma TagByte(c: Config, t: Tag, first: bool, z: seq<byte>, k: nat)
    requires c.Legal() && TagOk(c, t) && |z| >= c.TagBytes() + UUID_SIZE && k < |z|
    ensures TagWritten(c, t, first, 0, z)[k] ==
            if first && c.TagBytes() <= k < c.TagBytes() + UUID_SIZE then c.uuid[k - c.TagBytes()]
            else if c.csumV2 && 4 <= k < 6 then t.check[k - 4]
            else if 6 <= k < 8 then Be16(Flags(t, first, false))[k - 6]
            else if c.TagBytes() > 8 && 8 <= k < 12 then Be32(High(t.buf.blocknr))[k - 8]
            else if k < 4 then Be32(Low(t.buf.blocknr))[k]
            else z[k]
  {
    var z1 := Put(z, 0, Be32(Low(t.buf.blocknr)));
    PutAt(z, 0, Be32(Low(t.buf.blocknr)), k);
    var z2 := if c.TagBytes() > 8 then Put(z1, 8, Be32(High(t.buf.blocknr))) else z1;
    PutAt(z1, 8, Be32(High(t.buf.blocknr)), k);
    var z3 := Put(z2, 6, Be16(Flags(t, first, false)));
    PutAt(z2, 6, Be16(Flags(t, first, false)), k);
    var z4 := if c.csumV2 then Put(z3, 4, t.check) else z3;
    PutAt(z3, 4, t.check, k);
    if first {
      PutAt(z4, c.TagBytes(), c.uuid, k);
    }
  }

  lemma FieldByte(c: Config, t: Tag, first: bool, last: bool, k: nat)
    requires c.Legal() && TagOk(c, t) && k < |Field(c, t, first, last)|
    ensures Field(c, t, first, last)[k] ==
            if k >= c.TagBytes() then c.uuid[k - c.TagBytes()]
            else if k < 4 then Be32(Low(t.buf.blocknr))[k]
            else if k < 6 then t.check[k - 4]
            else if k < 8 then Be16(Flags(t, first, last))[k - 6]
            else if c.wide && k < 12 then Be32(High(t.buf.blocknr))[k - 8]
            else 0
  {
  }

  lemma NarrowHigh(c: Config, blocknr: nat)
    requires c.BlocknrOk(blocknr) && !c.wide
    ensures High(blocknr) == 0 && Be32(0) == Zeros(4)
  {
  }

  lemma TagIsField(c: Config, t: Tag, first: bool, n: nat)
    requires c.Legal() && TagOk(c, t) && n >= c.TagBytes() + UUID_SIZE && (c.csumV2 || t.check == Zeros(2))
    ensures TagWritten(c, t, first, 0, Zeros(n))
            == Field(c, t, first, false) + Zeros(n - |Field(c, t, first, false)|)
  {
    var r, f := TagWritten(c, t, first, 0, Zeros(n)), Field(c, t, first, false);
    var e := f + Zeros(n - |f|);
    if !c.wide {
      NarrowHigh(c, t.buf.blocknr);
    }
    forall k | 0 <= k < n
      ensures r[k] == e[k]
    {
      TagByte(c, t, first, Zeros(n), k);
      if k < |f| {
        FieldByte(c, t, first, false, k);
      }
    }
  }

  /** Setting the flag of the last tag. */
  lemma LastFlagSet(c: Config, t: Tag, first: bool, p: seq<byte>, r: seq<byte>)
    requires c.Legal() && TagOk(c, t)
    ensures var b := p + Field(c, t, first, false) + r;
            && Val16(b, |p| + 6) == Flags(t, first, false)
            && Put(b, |p| + 6, Be16(Flags(t, first, true))) == p + Field(c, t, first, true) + r
  {
    var f, l := Field(c, t, first, false), Field(c, t, first, true);
    var b, fl := p + f + r, Be16(Flags(t, first, true));
    FieldParts(c, t, first, false);
    assert b[|p| + 6..|p| + 8] == f[6..8];
    Be16RoundTrip(Flags(t, first, false), b, |p| + 6);
    FlagInField(c, t, first);
    Glue(p, f, r);
    Glue(p, l, r);
    PutBehind(p, f + r, 6, fl);
    PutBefore(f, r, 6, fl);
  }

  lemma FlagInField(c: Config, t: Tag, first: bool)
    requires c.Legal() && TagOk(c, t)
    ensures Put(Field(c, t, first, false), 6, Be16(Flags(t, first, true))) == Field(c, t, first, true)
  {
    var f, l, fl := Field(c, t, first, false), Field(c, t, first, true), Be16(Flags(t, first, true));
    forall k | 0 <= k < |f|
      ensures Put(f, 6, fl)[k] == l[k]
    {
      PutAt(f, 6, fl, k);
      FieldByte(c, t, first, false, k);
      FieldByte(c, t, first, true, k);
    }
  }

  lemma PutBefore(f: seq<byte>, r: seq<byte>, k: nat, b: seq<byte>)
    requires k + |b| <= |f|
    ensures Put(f + r, k, b) == Put(f, k, b) + r
  {
  }

  /** A tag behind others. */
  lemma {:induction false} FieldsSnoc(c: Config, ts: seq<Tag>, t: Tag, first: bool, last: bool)
    requires c.Legal() && TagsOk(c, ts) && TagOk(c, t)
    ensures Fields(c, ts + [t], first, last) == Fields(c, ts, first, false) + Field(c, t, first && ts == [], last)
    decreases |ts|
  {
    var all := ts + [t];
    if ts == [] {
      assert all[1..] == [];
    } else {
      assert all[1..] == ts[1..] + [t];
      FieldsSnoc(c, ts[1..], t, false, last);
    }
  }

  lemma {:induction false} LogSnoc(c: Config, tid: nat, gs: seq<Group>, g: Group)
    requires c.Legal() && GroupsOk(c, gs) && GroupOk(c, g) && tid < 0x1_0000_0000
    ensures GroupsOk(c, gs + [g])
    ensures LogBlocks(c, tid, gs + [g]) == LogBlocks(c, tid, gs) + ([Descriptor(c, tid, g)] + DataBlocks(g.tags))
    ensures AllBufs(gs + [g]) == AllBufs(gs) + Bufs(g.tags)
    decreases |gs|
  {
    var all := gs + [g];
    if gs == [] {
      assert all[1..] == [];
    } else {
      assert all[1..] == gs[1..] + [g];
      LogSnoc(c, tid, gs[1..], g);
    }
  }

  /** The flag on the last tag of a descriptor block, at offset `tag`. */
  lemma Marked(c: Config, tid: nat, ts: seq<Tag>, t: Tag, space: nat)
    requires c.Legal() && TagsOk(c, ts) && TagOk(c, t) && tid < 0x1_0000_0000
    ensures |Fields(c, ts + [t], true, true)| == |Fields(c, ts + [t], true, false)|
    ensures var b := Header(tid) + Fields(c, ts + [t], true, false) + Zeros(space);
            var tag := |Header(tid) + Fields(c, ts, true, false)|;
            && tag + 8 <= |b| && Val16(b, tag + 6) + FLAG_LAST_TAG < 0x100
            && Put(b, tag + 6, Be16(Val16(b, tag + 6) + FLAG_LAST_TAG))
               == Header(tid) + Fields(c, ts + [t], true, true) + Zeros(space)
  {
    var first, h, f := ts == [], Header(tid), Fields(c, ts, true, false);
    var was, now := Field(c, t, first, false), Field(c, t, first, true);
    FieldsSnoc(c, ts, t, true, false);
    FieldsSnoc(c, ts, t, true, true);
    Glue(h, f, was);
    Glue(h, f, now);
    LastFlagSet(c, t, first, h + f, Zeros(space));
  }

  lemma Glue(p: seq<byte>, f: seq<byte>, z: seq<byte>)
    ensures p + (f + z) == (p + f) + z
  {
  }

  lemma TailWritten(h: seq<byte>, space: nat, tail: seq<byte>)
    requires |tail| <= space
    ensures Put(h + Zeros(space), |h| + space - |tail|, tail) == h + Zeros(space - |tail|) + tail
  {
    var b := h + Zeros(space);
    var k := |h| + space - |tail|;
    assert b[..k] == h + Zeros(space - |tail|);
    assert b[k + |tail|..] == [];
  }

  /** And the checksum in its last bytes. */
  lemma Finished(c: Config, tid: nat, ts: seq<Tag>, space: nat, tail: seq<byte>)
    requires c.Legal() && ts != [] && TagsOk(c, ts) && tid < 0x1_0000_0000 && |tail| == c.CsumSize() <= space
    requires HEADER_SIZE + |Fields(c, ts, true, true)| + space == c.blockSize
    ensures GroupOk(c, Group(ts, tail))
    ensures Put(Header(tid) + Fields(c, ts, true, true) + Zeros(space), c.blockSize - |tail|, tail)
            == Descriptor(c, tid, Group(ts, tail))
  {
    TailWritten(Header(tid) + Fields(c, ts, true, true), space, tail);
  }
}
