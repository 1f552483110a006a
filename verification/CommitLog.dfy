/** The loop of jbd2_journal_commit_transaction that writes the metadata buffers to the
    log, and jbd2_journal_write_metadata_buffer. */
module CommitLog {
  import opened CommitEncoding

  /** struct journal_head with its buffer. */
  class JournalHead {
    const blocknr: nat            // b_blocknr
    var data: Block               // b_data
    var frozen: Option<Block>     // b_frozen_data

    constructor (blocknr: nat, data: Block)
      ensures this.blocknr == blocknr && this.data == data && frozen == None
    {
      this.blocknr, this.data, frozen := blocknr, data, None;
    }

    /** The contents that the committing transaction has of the buffer. */
    function Current(): Block
      reads this
    {
      if frozen.Some? then frozen.value else data
    }

    /** do_get_write_access and a write by the running transaction: the committing one
        keeps its contents in a frozen copy. */
    method RunningWrite(newData: Block)
      modifies this`data, this`frozen
      ensures data == newData && frozen == Some(if old(frozen).Some? then old(frozen).value else old(data))
    {
      if frozen == None {
        frozen := Some(data);
      }
      data := newData;
    }

    /** jbd2_journal_write_metadata_buffer: what to write, or None without memory; it is
        the frozen copy if there is one.  The copy is of the same data when another
        thread makes it while the buffer is not locked. */
    method WriteMetadataBuffer(faults: bool) returns (out: Option<Block>, escape: bool)
      modifies this`frozen
      ensures var contents := if old(frozen).Some? then old(frozen).value else old(data);
              out.Some? ==> out.value == Escaped(contents) && escape == StartsWithMagic(contents)
      ensures out.Some? ==> frozen == if escape then out else old(frozen)
      ensures out == None ==> frozen == old(frozen) == None && faults && StartsWithMagic(data)
    {
      var done := frozen.Some?;
      escape := StartsWithMagic(Current());
      if escape && !done {
        var noMemory: bool := *;
        if faults && noMemory {
          return None, escape;
        }
        frozen := Some(data);
      }
      if escape {
        frozen := Some(Put(frozen.value, 0, Zeros(4)));
      }
      out := Some(Current());
    }
  }

  predicate Distinct(hs: seq<JournalHead>) {
    forall i, j :: 0 <= i < j < |hs| ==> hs[i] != hs[j]
  }

  /** From k on the buffers have these numbers and contents. */
  predicate Listed(hs: seq<JournalHead>, bufs: seq<Buf>, k: nat)
    reads hs
  {
    |hs| == |bufs| && forall i :: k <= i < |hs| ==> hs[i].blocknr == bufs[i].blocknr && hs[i].Current() == bufs[i].data
  }

  predicate BufsOk(c: Config, bufs: seq<Buf>) {
    forall i :: 0 <= i < |bufs| ==> c.BlocknrOk(bufs[i].blocknr) && |bufs[i].data| == c.blockSize
  }

  /** The bytes of a descriptor before its tags end. */
  function Begun(c: Config, tid: nat, ts: seq<Tag>): seq<byte>
    requires c.Legal() && tid < 0x1_0000_0000 && TagsOk(c, ts)
  {
    Header(tid) + Fields(c, ts, true, false)
  }

  /** A descriptor whose tags are written: the offsets behind the tags and of the last
      one, and the bytes that are left. */
  predicate DescriptorOk(c: Config, tid: nat, ts: seq<Tag>, block: Block, tagp: nat, tag: nat, space: nat) {
    && c.Legal() && tid < 0x1_0000_0000 && TagsOk(c, ts)
    && tagp == |Begun(c, tid, ts)| && tagp + space == c.blockSize && c.CsumSize() <= space
    && block == Begun(c, tid, ts) + Zeros(space)
    && (ts != [] ==> tagp == tag + c.TagBytes() + if |ts| == 1 then UUID_SIZE else 0)
  }

  predicate LogOk(c: Config, tid: nat, log: seq<Block>, groups: seq<Group>) {
    && c.Legal() && tid < 0x1_0000_0000 && GroupsOk(c, groups)
    && log == LogBlocks(c, tid, groups)
  }

  lemma GrownBytes(c: Config, tid: nat, ts: seq<Tag>, space: nat, t: Tag)
    requires c.Legal() && tid < 0x1_0000_0000 && TagsOk(c, ts) && TagOk(c, t) && (c.csumV2 || t.check == Zeros(2))
    requires space >= c.TagBytes() + UUID_SIZE + c.CsumSize()
    ensures var p, f := Begun(c, tid, ts), Field(c, t, ts == [], false);
            && |f| <= space - c.CsumSize() && Begun(c, tid, ts + [t]) == p + f
            && TagWritten(c, t, ts == [], |p|, p + Zeros(space)) == Begun(c, tid, ts + [t]) + Zeros(space - |f|)
  {
    var f := Field(c, t, ts == [], false);
    var p := Begun(c, tid, ts);
    TagIsField(c, t, ts == [], space);
    TagBehind(c, t, ts == [], p, Zeros(space));
    FieldsSnoc(c, ts, t, true, false);
    Glue(Header(tid), Fields(c, ts, true, false), f);
    Glue(p, f, Zeros(space - |f|));
  }

  lemma DescriptorGrows(c: Config, tid: nat, ts: seq<Tag>, block: Block, tagp: nat, tag: nat, space: nat, t: Tag)
    requires DescriptorOk(c, tid, ts, block, tagp, tag, space) && TagOk(c, t) && (c.csumV2 || t.check == Zeros(2))
    requires space >= c.TagBytes() + UUID_SIZE + c.CsumSize()
    ensures var n := c.TagBytes() + if ts == [] then UUID_SIZE else 0;
            n <= space && DescriptorOk(c, tid, ts + [t], TagWritten(c, t, ts == [], tagp, block), tagp + n, tagp, space - n)
  {
    GrownBytes(c, tid, ts, space, t);
  }

  lemma NextBuffer<T, U>(all: seq<T>, want: seq<U>, k: nat)
    requires k < |all| == |want|
    ensures all[k..][1..] == all[k + 1..] && want[..k] + [want[k]] == want[..k + 1]
  {
  }

  lemma Transitive(a: seq<Buf>, b: seq<Buf>, c: seq<Buf>)
    ensures a <= b <= c ==> a <= c
  {
  }

  class Commit {
    const c: Config
    const tid: nat
    const faults: bool            // whether memory or blocks may run out, or others abort the journal
    var aborted: bool             // is_journal_aborted
    var buffers: seq<JournalHead> // t_buffers
    var open: bool                // descriptor != NULL
    var descriptor: Block         // its block, which is also the first of j_wbuf
    var wbuf: seq<Block>          // the other entries of j_wbuf
    var tagp: nat                 // tagp and tag, as offsets into the descriptor
    var tag: nat
    var spaceLeft: nat
    var firstTag: bool
    var log: seq<Block>           // what was submitted, in complete groups
    var partial: seq<Block>       // and what was submitted in an abort, last
    ghost var tags: seq<Tag>      // of the open descriptor
    ghost var groups: seq<Group>  // that were submitted

    constructor (c: Config, tid: nat, faults: bool, buffers: seq<JournalHead>)
      requires c.Legal() && tid < 0x1_0000_0000
      ensures Valid() && this.buffers == buffers && Written() == [] && this.c == c && this.tid == tid
      ensures partial == [] && groups == [] && !aborted && this.faults == faults
    {
      this.c, this.tid, this.faults, this.buffers := c, tid, faults, buffers;
      aborted, open, descriptor, wbuf, tagp, tag, spaceLeft, firstTag := false, false, [], [], 0, 0, 0, true;
      log, tags, groups, partial := [], [], [], [];
    }

    /** bufs: how many blocks wait for submission. */
    function Queued(): nat
      reads this
    {
      if open then 1 + |wbuf| else |wbuf|
    }

    ghost predicate Valid()
      reads this
    {
      && LogOk(c, tid, log, groups)
      && wbuf == DataBlocks(tags) && Queued() <= c.WbufSize()
      && if open then firstTag == (tags == []) && DescriptorOk(c, tid, tags, descriptor, tagp, tag, spaceLeft)
         else tags == []
    }

    /** There is room for another tag and for its data block. */
    predicate Room()
      reads this
    {
      spaceLeft >= c.TagBytes() + UUID_SIZE + c.CsumSize()
    }

    /** What holds between the turns of the loop. */
    ghost predicate Ready()
      reads this
    {
      Valid() && Queued() < c.WbufSize() && (open ==> Room())
    }

    /** The buffers that have a tag. */
    ghost function Written(): seq<Buf>
      reads this
    {
      AllBufs(groups) + Bufs(tags)
    }

    /** A new descriptor block: zeroed, then given its header. */
    method GetDescriptor()
      requires Valid() && !open
      modifies this`open, this`descriptor, this`tagp, this`spaceLeft, this`firstTag
      ensures Valid() && open && Room() && tags == [] && firstTag
    {
      var h := Zeros(c.blockSize);
      h := Put(h, 0, Be32(MAGIC));
      h := Put(h, 4, Be32(DESCRIPTOR_BLOCK));
      h := Put(h, 8, Be32(tid));
      open, tagp, spaceLeft, firstTag := true, HEADER_SIZE, c.blockSize - HEADER_SIZE, true;
      descriptor := h;
      HeaderWritten(tid, c.blockSize);
      assert Header(tid) + Fields(c, [], true, false) == Header(tid);
    }

    /** The tag of a data block, written into the descriptor, with the UUID behind the
        first one. */
    method WriteTag(ghost t: Tag, blocknr: nat, escape: bool, check: seq<byte>)
      requires DescriptorOk(c, tid, tags, descriptor, tagp, tag, spaceLeft) && Room()
      requires firstTag == (tags == []) && TagOk(c, t) && (c.csumV2 || check == Zeros(2))
      requires blocknr == t.buf.blocknr && escape == StartsWithMagic(t.buf.data) && check == t.check
      modifies this`descriptor, this`tag, this`tagp, this`spaceLeft, this`firstTag, this`tags
      ensures DescriptorOk(c, tid, tags, descriptor, tagp, tag, spaceLeft)
      ensures !firstTag && tags == old(tags) + [t]
      ensures spaceLeft == old(spaceLeft) - c.TagBytes() - if old(tags) == [] then UUID_SIZE else 0
    {
      descriptor := StoreTag(c, tid, descriptor, tagp, tags, tag, spaceLeft, t, blocknr, escape, firstTag, check);
      tag := tagp;
      tagp, spaceLeft := tagp + c.TagBytes(), spaceLeft - c.TagBytes();
      if firstTag {
        tagp, spaceLeft, firstTag := tagp + UUID_SIZE, spaceLeft - UUID_SIZE, false;
      }
      tags := tags + [t];
    }

    /** Queue the data block of a buffer and write its tag. */
    method WriteBuffer(jh: JournalHead, ghost buf: Buf) returns (ok: bool)
      requires Ready() && open
      requires jh.blocknr == buf.blocknr && jh.Current() == buf.data
      requires c.BlocknrOk(buf.blocknr) && |buf.data| == c.blockSize
      modifies this`descriptor, this`wbuf, this`tag, this`tagp, this`spaceLeft, this`firstTag, this`tags, jh`frozen
      ensures Valid() && open
      ensures ok ==> tags != [] && Written() == old(Written()) + [buf]
      ensures ok ==> Queued() == old(Queued()) + 1
      ensures ok ==> spaceLeft == old(spaceLeft) - c.TagBytes() - if old(tags) == [] then UUID_SIZE else 0
      ensures !ok ==> Ready() && tags == old(tags) && jh.frozen == old(jh.frozen) && faults
    {
      var out, escape := jh.WriteMetadataBuffer(faults);
      if out == None {
        return false;
      }
      var check: seq<byte> :| |check| == 2 && (c.csumV2 || check == Zeros(2));
      ghost var t := Tag(buf, check);
      assert DataBlocks(tags + [t]) == DataBlocks(tags) + [out.value];
      assert Bufs(tags + [t]) == Bufs(tags) + [buf];
      wbuf := wbuf + [out.value];
      WriteTag(t, jh.blocknr, escape, check);
      return true;
    }

    /** The end of a descriptor: mark its last tag, add the checksum, submit all. */
    method CloseDescriptor()
      requires Valid() && open && tags != []
      modifies this`open, this`descriptor, this`wbuf, this`log, this`tags, this`groups
      ensures Valid() && !open && Written() == old(Written())
    {
      var tail: seq<byte> :| |tail| == c.CsumSize();
      assert tags == tags[..|tags| - 1] + [tags[|tags| - 1]];
      descriptor := Finish(c, tid, descriptor, tag, tail, spaceLeft, tags[..|tags| - 1], tags[|tags| - 1]);
      Submit(Group(tags, tail));
    }

    /** start_journal_io, for a complete group. */
    method Submit(ghost g: Group)
      requires c.Legal() && tid < 0x1_0000_0000 && GroupsOk(c, groups) && GroupOk(c, g) && g.tags == tags
      requires log == LogBlocks(c, tid, groups)
      requires descriptor == Descriptor(c, tid, g) && wbuf == DataBlocks(tags)
      modifies this`open, this`wbuf, this`log, this`tags, this`groups
      ensures Valid() && !open && Written() == old(Written())
    {
      LogSnoc(c, tid, groups, g);
      log := log + ([descriptor] + wbuf);
      groups, tags := groups + [g], [];
      open, wbuf := false, [];
      assert Bufs([]) == [];
    }

    /** A buffer of an aborted journal is dropped; with the last one goes what is queued. */
    method DropBuffer()
      requires (var ready := Ready(); ready) && aborted && buffers != []
      modifies this`buffers, this`open, this`wbuf, this`tags, this`partial
      ensures var ready := Ready(); ready && aborted && buffers == old(buffers)[1..]
      ensures Written() <= old(Written()) && (buffers == [] ==> !open)
      ensures partial == if buffers != [] then old(partial)
                         else if old(open) then [old(descriptor)] + old(wbuf) else old(wbuf)
    {
      buffers := buffers[1..];
      if buffers == [] {
        if open {
          wbuf := [descriptor] + wbuf;
        }
        partial := wbuf;
        open, wbuf, tags := false, [], [];
      }
    }

    /** A buffer goes to the log; the group is submitted when nothing is left, or when
        another tag or block would not fit. */
    method LogBuffer(jh: JournalHead, ghost buf: Buf)
      requires (var ready := Ready(); ready) && open && buffers != [] && jh == buffers[0]
      requires jh.blocknr == buf.blocknr && jh.Current() == buf.data
      requires c.BlocknrOk(buf.blocknr) && |buf.data| == c.blockSize
      modifies this`aborted, this`buffers, this`open, this`descriptor, this`wbuf, this`tag, this`tagp, this`spaceLeft,
               this`firstTag, this`log, this`tags, this`groups, jh`frozen
      ensures var ready := Ready(); ready && (buffers == [] ==> !open)
      ensures if aborted then faults && buffers == old(buffers) && Written() == old(Written()) && jh.Current() == buf.data
              else buffers == old(buffers)[1..] && Written() == old(Written()) + [buf]
      ensures !aborted ==>
                var left := old(spaceLeft) - c.TagBytes() - if old(tags) == [] then UUID_SIZE else 0;
                open <==> buffers != [] && old(Queued()) + 1 < c.WbufSize()
                          && left >= c.TagBytes() + UUID_SIZE + c.CsumSize()
    {
      var ok := WriteBuffer(jh, buf);
      aborted := !ok;
      if !ok {
        return;
      }
      buffers := buffers[1..];
      if Queued() == c.WbufSize() || buffers == [] || spaceLeft < c.TagBytes() + UUID_SIZE + c.CsumSize() {
        CloseDescriptor();
      }
    }

    /** A descriptor, and a block of the log for the buffer. */
    method Prepare() returns (ok: bool)
      requires (var ready := Ready(); ready) && !aborted
      modifies this`aborted, this`open, this`descriptor, this`tagp, this`spaceLeft, this`firstTag
      ensures var ready := Ready(); ready && ok == !aborted && (ok ==> open) && (!ok ==> faults) && Written() == old(Written())
    {
      if !open {
        var noBlock: bool := *;
        if faults && noBlock {
          aborted := true;
          return false;
        }
        GetDescriptor();
      }
      var noBlock: bool := *;
      aborted := faults && noBlock;
      return !aborted;
    }

    /** One turn of the loop over t_buffers, while the journal is not aborted. */
    method Turn(jh: JournalHead, ghost buf: Buf)
      requires (var ready := Ready(); ready) && !aborted && buffers != [] && jh == buffers[0]
      requires jh.blocknr == buf.blocknr && jh.Current() == buf.data
      requires c.BlocknrOk(buf.blocknr) && |buf.data| == c.blockSize
      modifies this`aborted, this`buffers, this`open, this`descriptor, this`wbuf, this`tag, this`tagp, this`spaceLeft, this`firstTag,
               this`log, this`tags, this`groups, jh`frozen
      ensures var ready := Ready(); ready && (buffers == [] ==> !open)
      ensures if aborted then faults && buffers == old(buffers) && Written() == old(Written()) && jh.Current() == buf.data
              else buffers == old(buffers)[1..] && Written() == old(Written()) + [buf]
    {
      var ok := Prepare();
      if ok {
        LogBuffer(jh, buf);
      }
    }

    /** The loop over t_buffers: what is in the log can be read back, and unless the
        journal is aborted, by a fault here or by others at any time, it is all the
        buffers, in order, with the contents that they had for this transaction at the
        start, whatever the running transaction writes to them meanwhile. */
    method Run(ghost want: seq<Buf>)
      requires (var ready := Ready(); ready) && !open && groups == [] && partial == []
      requires Distinct(buffers) && BufsOk(c, want) && |want| == |buffers|
      requires forall i :: 0 <= i < |buffers| ==>
                 && want[i].blocknr == buffers[i].blocknr
                 && want[i].data == if buffers[i].frozen.Some? then buffers[i].frozen.value else buffers[i].data
      modifies this, buffers
      ensures var valid := Valid(); valid && buffers == [] && !open && AllBufs(groups) <= want
      ensures Decode(c, tid, log) == Some(AllBufs(groups)) && (!aborted ==> AllBufs(groups) == want)
      ensures aborted ==> old(aborted) || faults
    {
      Loop(want);
      RoundTrip(c, tid, groups);
    }

    /** One turn, aborted or not, with other threads that may abort the journal. */
    method Step(jh: JournalHead, ghost buf: Buf)
      requires (var ready := Ready(); ready) && buffers != [] && jh == buffers[0]
      requires jh.blocknr == buf.blocknr && jh.Current() == buf.data
      requires c.BlocknrOk(buf.blocknr) && |buf.data| == c.blockSize
      modifies this, jh`frozen
      ensures var ready := Ready(); ready && (buffers == [] ==> !open)
      ensures buffers == old(buffers)[1..]
              || (buffers == old(buffers) && aborted && !old(aborted) && jh.Current() == buf.data)
      ensures (old(aborted) ==> aborted && Written() <= old(Written())) && (aborted ==> old(aborted) || faults)
      ensures !old(aborted) ==> partial == old(partial) && Written() == if buffers == old(buffers) then old(Written()) else old(Written()) + [buf]
    {
      if aborted {
        DropBuffer();
      } else {
        Turn(jh, buf);
        OthersAbort();
      }
    }

    /** Another thread may abort the journal. */
    method OthersAbort()
      requires var ready := Ready(); ready
      modifies this`aborted
      ensures (var ready := Ready(); ready) && Written() == old(Written())
      ensures aborted == old(aborted) || (aborted && faults)
    {
      var abort: bool := *;
      aborted := aborted || (faults && abort);
    }

    /** The first k of all buffers are dealt with. */
    ghost predicate Looping(all: seq<JournalHead>, want: seq<Buf>, k: nat)
      reads this, all
    {
      && Ready() && (buffers == [] ==> !open)
      && k <= |all| && buffers == all[k..] && Listed(all, want, k)
      && Written() <= want && (!aborted ==> Written() == want[..k] && partial == [])
    }

    /** What the running transaction may do to the buffers at any time. */
    method OthersWrite(ghost all: seq<JournalHead>, ghost want: seq<Buf>, ghost k: nat)
      requires Distinct(all) && var at := Looping(all, want, k); at
      modifies all`data, all`frozen
      ensures var at := Looping(all, want, k); at
    {
      for i := 0 to |buffers|
        invariant var at := Looping(all, want, k); at
      {
        var write: bool := *;
        if write {
          var newData: Block := *;
          assert buffers[i] == all[k + i];
          buffers[i].RunningWrite(newData);
        }
      }
    }

    method LoopTurn(ghost all: seq<JournalHead>, ghost want: seq<Buf>, ghost k: nat) returns (ghost next: nat)
      requires Distinct(all) && BufsOk(c, want) && buffers != [] && var at := Looping(all, want, k); at
      modifies this, all
      ensures var at := Looping(all, want, next); at
      ensures |buffers| < |old(buffers)| || (buffers == old(buffers) && aborted && !old(aborted))
      ensures aborted ==> old(aborted) || faults
    {
      OthersWrite(all, want, k);
      next := BufferTurn(all, want, k);
    }

    method BufferTurn(ghost all: seq<JournalHead>, ghost want: seq<Buf>, ghost k: nat) returns (ghost next: nat)
      requires Distinct(all) && BufsOk(c, want) && buffers != [] && var at := Looping(all, want, k); at
      modifies this, all`frozen
      ensures var at := Looping(all, want, next); at
      ensures |buffers| < |old(buffers)| || (buffers == old(buffers) && aborted && !old(aborted))
      ensures aborted ==> old(aborted) || faults
    {
      ghost var written := Written();
      NextBuffer(all, want, k);
      Step(buffers[0], want[k]);
      Transitive(Written(), written, want);
      next := if buffers == all[k..] then k else k + 1;
    }

    method Loop(ghost want: seq<Buf>)
      requires (var ready := Ready(); ready) && !open && groups == [] && partial == []
      requires Distinct(buffers) && Listed(buffers, want, 0) && BufsOk(c, want)
      modifies this, buffers
      ensures var valid := Valid(); valid && buffers == [] && !open && AllBufs(groups) <= want
      ensures (!aborted ==> partial == [] && AllBufs(groups) == want) && (aborted ==> old(aborted) || faults)
    {
      ghost var all, k := buffers, 0;
      while buffers != []
        invariant (var at := Looping(all, want, k); at) && (aborted ==> old(aborted) || faults)
        decreases |buffers|, if aborted then 0 else 1
      {
        k := LoopTurn(all, want, k);
      }
      Transitive(AllBufs(groups), Written(), want);
    }
  }

  lemma TagOffset(c: Config, tid: nat, ts: seq<Tag>, t: Tag, size: nat, tag: nat, space: nat)
    requires c.Legal() && tid < 0x1_0000_0000 && TagsOk(c, ts) && TagOk(c, t)
    requires size == |Header(tid) + Fields(c, ts + [t], true, false)| + space
    requires size == tag + c.TagBytes() + (if ts == [] then UUID_SIZE else 0) + space
    ensures tag == |Header(tid) + Fields(c, ts, true, false)|
    ensures HEADER_SIZE + |Fields(c, ts + [t], true, false)| + space == size
  {
    FieldsSnoc(c, ts, t, true, false);
  }

  lemma PutNothing(b: Block, at: nat, bytes: seq<byte>)
    requires bytes == [] && at <= |b|
    ensures Put(b, at, bytes) == b
  {
  }

  /** The flag on the last tag, at its offset, and the checksum of the descriptor. */
  method Finish(c: Config, ghost tid: nat, block: Block, tag: nat, tail: seq<byte>,
                ghost space: nat, ghost ts: seq<Tag>, ghost t: Tag) returns (b: Block)
    requires c.Legal() && tid < 0x1_0000_0000 && TagsOk(c, ts) && TagOk(c, t) && |tail| == c.CsumSize() <= space
    requires block == Header(tid) + Fields(c, ts + [t], true, false) + Zeros(space) && |block| == c.blockSize
    requires |block| == tag + c.TagBytes() + (if ts == [] then UUID_SIZE else 0) + space
    ensures GroupOk(c, Group(ts + [t], tail)) && b == Descriptor(c, tid, Group(ts + [t], tail))
  {
    b := MarkLast(c, tid, block, tag, space, ts, t);
    Finished(c, tid, ts + [t], space, tail);
    if c.csumV2 {
      b := Put(b, c.blockSize - 4, tail);
    } else {
      PutNothing(b, c.blockSize, tail);
    }
  }

  /** The flag on the last tag. */
  method MarkLast(c: Config, ghost tid: nat, block: Block, tag: nat, ghost space: nat, ghost ts: seq<Tag>, ghost t: Tag)
    returns (b: Block)
    requires c.Legal() && tid < 0x1_0000_0000 && TagsOk(c, ts) && TagOk(c, t)
    requires block == Header(tid) + Fields(c, ts + [t], true, false) + Zeros(space) && |block| == c.blockSize
    requires |block| == tag + c.TagBytes() + (if ts == [] then UUID_SIZE else 0) + space
    ensures b == Header(tid) + Fields(c, ts + [t], true, true) + Zeros(space)
    ensures HEADER_SIZE + |Fields(c, ts + [t], true, true)| + space == c.blockSize
  {
    TagOffset(c, tid, ts, t, |block|, tag, space);
    Marked(c, tid, ts, t, space);
    b := Put(block, tag + 6, Be16(Val16(block, tag + 6) + FLAG_LAST_TAG));
  }

  /** A tag is stored behind the others of a descriptor. */
  method StoreTag(c: Config, ghost tid: nat, block: Block, tagp: nat, ghost ts: seq<Tag>, ghost tag: nat, ghost space: nat,
                  ghost t: Tag, blocknr: nat, escape: bool, firstTag: bool, check: seq<byte>) returns (b: Block)
    requires DescriptorOk(c, tid, ts, block, tagp, tag, space) && TagOk(c, t) && (c.csumV2 || t.check == Zeros(2))
    requires space >= c.TagBytes() + UUID_SIZE + c.CsumSize() && firstTag == (ts == [])
    requires blocknr == t.buf.blocknr && escape == StartsWithMagic(t.buf.data) && check == t.check
    ensures var n := c.TagBytes() + if firstTag then UUID_SIZE else 0;
            DescriptorOk(c, tid, ts + [t], b, tagp + n, tagp, space - n)
  {
    DescriptorGrows(c, tid, ts, block, tagp, tag, space, t);
    b := StoreBytes(c, block, tagp, t, blocknr, escape, firstTag, check);
  }

  /** The stores for one tag, at its offset. */
  method StoreBytes(c: Config, block: Block, tagp: nat, ghost t: Tag, blocknr: nat, escape: bool,
                    firstTag: bool, check: seq<byte>) returns (b: Block)
    requires c.Legal() && TagOk(c, t) && |block| >= tagp + c.TagBytes() + UUID_SIZE
    requires blocknr == t.buf.blocknr && escape == StartsWithMagic(t.buf.data) && check == t.check
    ensures b == TagWritten(c, t, firstTag, tagp, block)
  {
    var tagFlag := if escape then FLAG_ESCAPE else 0;
    if !firstTag {
      tagFlag := tagFlag + FLAG_SAME_UUID;
    }
    b := Put(block, tagp, Be32(Low(blocknr)));
    if c.TagBytes() > 8 {
      b := Put(b, tagp + 8, Be32(High(blocknr)));
    }
    b := Put(b, tagp + 6, Be16(tagFlag));
    if c.csumV2 {
      b := Put(b, tagp + 4, check);
    }
    if firstTag {
      b := Put(b, tagp + c.TagBytes(), c.uuid);
    }
  }
}
