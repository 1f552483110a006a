/** Blocks and buffers under a punched hole. */
module HoleBlocks {
  import opened Units

  type Bytes = seq<int>

  function Zeros(n: nat): (z: Bytes)
    ensures |z| == n
  {
    seq(n, i => 0)
  }

  /** zero_user on a block. */
  function Zeroed(data: Bytes, lo: nat, hi: nat): (z: Bytes)
    requires lo <= hi <= |data|
    ensures |z| == |data|
    ensures forall j :: 0 <= j < |z| ==> z[j] == if lo <= j < hi then 0 else data[j]
  {
    data[..lo] + Zeros(hi - lo) + data[hi..]
  }

  /** A buffer head with its part of the page. */
  datatype Buf = Buf(data: Bytes, mapped: bool, uptodate: bool, pageUptodate: bool, dirty: bool)

  datatype Option<T> = None | Some(value: T)

  /** The data in the page is what a read gets. */
  predicate Current(b: Buf) {
    b.uptodate || b.pageUptodate
  }

  function OnDisk(disk: Option<Bytes>, size: nat): Bytes {
    if disk.Some? then disk.value else Zeros(size)
  }

  /** What a read of a block gets, from the cache or from the disk. */
  function Visible(c: Option<Buf>, disk: Option<Bytes>, size: nat): Bytes {
    if c.Some? && Current(c.value) then c.value.data else OnDisk(disk, size)
  }

  /** The two agree on the bytes below n. */
  predicate Same(a: Bytes, b: Bytes, n: nat) {
    |a| == |b| && forall j :: 0 <= j < |a| && j < n ==> a[j] == b[j]
  }

  /** A buffer and its disk block fit together, in the n bytes below i_size: what is not
      dirty is on disk, and what is mapped but not read has a block to read. */
  predicate Coherent(c: Option<Buf>, disk: Option<Bytes>, size: nat, n: nat) {
    && (disk.Some? ==> |disk.value| == size)
    && (c.Some? ==>
          var b := c.value;
          && |b.data| == size
          && (b.dirty ==> b.uptodate && b.mapped)
          && (b.mapped && !Current(b) ==> disk.Some?)
          && (!b.dirty && Current(b) ==> Same(b.data, OnDisk(disk, size), n)))
  }

  /** What ext4_discard_partial_page_buffers_no_lock does to the part [lo, hi) of a
      block: a whole block is forgotten, a part is zeroed in the page and dirtied,
      unless the block is a hole. */
  function Discarded(b: Buf, disk: Option<Bytes>, size: nat, lo: nat, hi: nat): Buf
    requires lo < hi <= size && |b.data| == size && (disk.Some? ==> |disk.value| == size)
  {
    if hi - lo == size then Buf(Zeros(size), false, false, b.pageUptodate, false)
    else if !b.mapped && disk == None then b
    else
      var data := if Current(b) then b.data else OnDisk(disk, size);
      Buf(Zeroed(data, lo, hi), true, true, b.pageUptodate, true)
  }

  /** A part of a block reads as zeros afterwards and the rest as before. */
  lemma DiscardPart(b: Buf, disk: Option<Bytes>, size: nat, n: nat, lo: nat, hi: nat)
    requires Coherent(Some(b), disk, size, n) && lo < hi <= size && hi - lo < size
    ensures var d := Some(Discarded(b, disk, size, lo, hi));
            && Coherent(d, disk, size, n)
            && Same(Visible(d, disk, size), Zeroed(Visible(Some(b), disk, size), lo, hi), n)
  {
  }

  /** A whole block is forgotten for good once its disk block is freed. */
  lemma DiscardWhole(b: Buf, disk: Option<Bytes>, size: nat, n: nat)
    requires Coherent(Some(b), disk, size, n) && size > 0
    ensures var d := Some(Discarded(b, disk, size, 0, size));
            Coherent(d, None, size, n) && Visible(d, None, size) == Zeros(size)
  {
  }

  /** Blocks past i_size only have to stay well formed. */
  lemma DiscardBeyond(b: Buf, disk: Option<Bytes>, size: nat, lo: nat, hi: nat)
    requires Coherent(Some(b), disk, size, 0) && lo < hi <= size
    ensures Coherent(Some(Discarded(b, disk, size, lo, hi)), disk, size, 0)
  {
  }

  function At<T>(m: map<nat, T>, b: nat): Option<T> {
    if b in m then Some(m[b]) else None
  }

  /** A buffer head of a new page. */
  function Empty(size: nat): Buf {
    Buf(Zeros(size), false, false, false, false)
  }

  function Opened(c: Option<Buf>, size: nat): Buf {
    if c.Some? then c.value else Empty(size)
  }

  /** A page that is brought into the cache changes nothing that is read. */
  lemma OpenedSame(c: Option<Buf>, disk: Option<Bytes>, size: nat, n: nat)
    requires Coherent(c, disk, size, n)
    ensures Coherent(Some(Opened(c, size)), disk, size, n)
    ensures Visible(Some(Opened(c, size)), disk, size) == Visible(c, disk, size)
  {
  }

  // ----------------------------------------------------- ranges of bytes within blocks

  /** The range [from, to) has bytes of the block that starts at s. */
  predicate Hit(s: nat, size: nat, from: nat, to: nat) {
    from < s + size && s < to
  }

  function Lo(s: nat, from: nat): nat {
    if from > s then from - s else 0
  }

  function Hi(s: nat, size: nat, to: nat): nat {
    if to < s + size then (if to > s then to - s else 0) else size
  }

  lemma HitPart(s: nat, size: nat, from: nat, to: nat)
    requires from < to && size > 0 && Hit(s, size, from, to)
    ensures Lo(s, from) < Hi(s, size, to) <= size
    ensures Hi(s, size, to) - Lo(s, from) == size <==> from <= s && s + size <= to
  {
  }

  /** Buffers after the range [from, to) has been discarded: those of a page that was
      not cached may have come in. */
  predicate DiscardedAt(before: Option<Buf>, after: Option<Buf>, disk: Option<Bytes>, s: nat, size: nat, from: nat, to: nat)
    requires from < to && size > 0 && |Opened(before, size).data| == size && (disk.Some? ==> |disk.value| == size)
  {
    if Hit(s, size, from, to) then
      HitPart(s, size, from, to);
      after == Some(Discarded(Opened(before, size), disk, size, Lo(s, from), Hi(s, size, to)))
    else after == before || after == Some(Opened(before, size))
  }
}

/** What becomes of one block of size bytes, n of them below i_size, when the bytes from
    `from` to `to` are punched out; s is where it starts. */
module HoleFate {
  import opened HoleBlocks

  predicate WholeAt(s: nat, size: nat, from: nat, to: nat) {
    from <= s && s + size <= to
  }

  /** Zeros in the hole, the rest as it was. */
  predicate Punched(before: Bytes, after: Bytes, s: nat, n: nat, from: nat, to: nat) {
    && |after| == |before|
    && forall j :: 0 <= j < |after| && j < n ==> after[j] == if from <= s + j < to then 0 else before[j]
  }

  /** The buffer when the ends of the hole are discarded; inside: its page is dropped. */
  predicate EdgeDone(c0: Option<Buf>, c: Option<Buf>, disk: Option<Bytes>, s: nat, size: nat, from: nat, to: nat, inside: bool)
    requires from < to && size > 0 && |Opened(c0, size).data| == size && (disk.Some? ==> |disk.value| == size)
  {
    if inside then c == None || c == Some(Empty(size))
    else DiscardedAt(c0, c, disk, s, size, from, to)
  }

  /** A block within the hole: its disk block goes, and so do its bytes. */
  lemma WholeFate(c0: Option<Buf>, c: Option<Buf>, disk: Option<Bytes>, s: nat, size: nat, n: nat,
                  from: nat, to: nat, inside: bool)
    requires from < to && size > 0 && Coherent(c0, disk, size, n) && WholeAt(s, size, from, to)
    requires EdgeDone(c0, c, disk, s, size, from, to, inside)
    ensures Coherent(c, None, size, n) && Visible(c, None, size) == Zeros(size)
    ensures Punched(Visible(c0, disk, size), Visible(c, None, size), s, n, from, to)
  {
    if !inside {
      OpenedSame(c0, disk, size, n);
      DiscardWhole(Opened(c0, size), disk, size, n);
    }
  }

  /** Any other block keeps its disk block, and loses the bytes that are in the hole. */
  lemma PartFate(c0: Option<Buf>, c: Option<Buf>, disk: Option<Bytes>, s: nat, size: nat, n: nat, from: nat, to: nat)
    requires from < to && size > 0 && Coherent(c0, disk, size, n) && !WholeAt(s, size, from, to)
    requires EdgeDone(c0, c, disk, s, size, from, to, false)
    ensures Coherent(c, disk, size, n)
    ensures Punched(Visible(c0, disk, size), Visible(c, disk, size), s, n, from, to)
  {
    OpenedSame(c0, disk, size, n);
    if Hit(s, size, from, to) {
      HitPart(s, size, from, to);
      DiscardPart(Opened(c0, size), disk, size, n, Lo(s, from), Hi(s, size, to));
    }
  }

  /** Discarding from i_size on changes nothing below it. */
  lemma TailFate(c0: Option<Buf>, c: Option<Buf>, disk: Option<Bytes>, s: nat, size: nat, iSize: nat, to: nat)
    requires iSize < to && size > 0
    requires var n := if s < iSize then iSize - s else 0; Coherent(c0, disk, size, n)
    requires DiscardedAt(c0, c, disk, s, size, iSize, to)
    ensures var n := if s < iSize then iSize - s else 0;
            Coherent(c, disk, size, n) && Same(Visible(c, disk, size), Visible(c0, disk, size), n)
  {
    var n := if s < iSize then iSize - s else 0;
    OpenedSame(c0, disk, size, n);
    if Hit(s, size, iSize, to) {
      HitPart(s, size, iSize, to);
      if n == 0 {
        DiscardBeyond(Opened(c0, size), disk, size, Lo(s, iSize), Hi(s, size, to));
      } else {
        DiscardPart(Opened(c0, size), disk, size, n, Lo(s, iSize), Hi(s, size, to));
      }
    }
  }
}

/** Punching a hole (fs/ext4/inode.c). */
module PunchHole {
  import opened Units
  import opened HoleBlocks
  import opened HoleFate

  class Inode {
    const bs: nat                 // i_sb->s_blocksize
    const k: nat                  // blocks of a page
    const iSize: nat              // i_size
    var disk: map<nat, Bytes>     // the blocks that are mapped
    var cache: map<nat, Buf>      // the buffers of the pages that are cached

    constructor (bs: nat, k: nat, iSize: nat)
      requires bs > 0 && k > 0
      ensures Valid() && this.bs == bs && this.k == k && this.iSize == iSize
    {
      this.bs, this.k, this.iSize := bs, k, iSize;
      disk, cache := map[], map[];
    }

    function PageSize(): nat {
      Times(k, bs)
    }

    function Start(b: nat): nat {
      Times(b, bs)
    }

    /** How many bytes from the start of a block on are below i_size. */
    function Below(b: nat): nat {
      if Start(b) < iSize then iSize - Start(b) else 0
    }

    ghost predicate CoherentAt(b: nat)
      reads this
    {
      Coherent(At(cache, b), At(disk, b), bs, Below(b))
    }

    ghost predicate Valid()
      reads this
    {
      bs > 0 && k > 0 && forall b :: CoherentAt(b)
    }

    function Read(b: nat): Bytes
      reads this
    {
      Visible(At(cache, b), At(disk, b), bs)
    }

    /** find_or_create_page. */
    method FindOrCreatePage(index: nat)
      modifies this`cache
      ensures var there := PageOpened(old(cache), Times(index, k)); there
    {
      var first := Times(index, k);
      cache := cache + map b | first <= b < first + k && b !in cache :: Empty(bs);
    }

    /** The turn of the discard loop for one buffer. */
    method DiscardBlock(b: nat, lo: nat, hi: nat)
      requires b in cache && lo < hi <= bs && |cache[b].data| == bs
      requires b in disk ==> |disk[b]| == bs
      requires cache[b].mapped && !Current(cache[b]) ==> b in disk
      modifies this`cache
      ensures cache == old(cache)[b := Discarded(old(cache[b]), At(disk, b), bs, lo, hi)]
    {
      var bh := cache[b];
      if hi - lo == bs {
        bh := bh.(dirty := false, mapped := false, uptodate := false);
        bh := bh.(data := Zeroed(bh.data, lo, hi));
        assert bh.data == Zeros(bs);
        cache := cache[b := bh];
        return;
      }
      if !bh.mapped {
        if b !in disk {
          assert cache == cache[b := bh];
          return;
        }
        bh := bh.(mapped := true);
      }
      if bh.pageUptodate {
        bh := bh.(uptodate := true);
      }
      if !bh.uptodate {
        bh := bh.(data := disk[b], uptodate := true);
      }
      bh := bh.(data := Zeroed(bh.data, lo, hi));
      bh := bh.(dirty := true);
      cache := cache[b := bh];
    }
  
    /** Where a discard from a byte on ends: not behind its page. */
    function DiscardEnd(from: nat, length: nat): nat
      requires bs > 0 && k > 0
    {
      var max := PageSize() - Mod(from, PageSize());
      from + if length > max then max else length
    }

    /** The sizes of block b are right. */
    ghost predicate SizesOk(c: map<nat, Buf>, b: nat)
      reads this`disk
    {
      && bs > 0 && |Opened(At(c, b), bs).data| == bs && (b in disk ==> |disk[b]| == bs)
      && (b in c && c[b].mapped && !Current(c[b]) ==> b in disk)
    }

    /** The range [from, to) has been discarded. */
    ghost predicate DiscardedFrom(c0: map<nat, Buf>, c: map<nat, Buf>, from: nat, to: nat)
      requires from < to
      reads this`disk
    {
      forall b: nat :: DiscardedBlock(c0, c, b, from, to)
    }

    ghost predicate DiscardedBlock(c0: map<nat, Buf>, c: map<nat, Buf>, b: nat, from: nat, to: nat)
      requires from < to
      reads this`disk
    {
      SizesOk(c0, b) && DiscardedAt(At(c0, b), At(c, b), At(disk, b), Start(b), bs, from, to)
    }

    ghost predicate AllSized(c: map<nat, Buf>)
      reads this`disk
    {
      forall b: nat :: SizesOk(c, b)
    }

    ghost predicate Sized()
      reads this
    {
      bs > 0 && k > 0 && AllSized(cache)
    }

    /** The page is in the cache, which was c0 before. */
    ghost predicate PageOpened(c0: map<nat, Buf>, first: nat)
      reads this`cache
    {
      forall b: nat :: OpenedBlock(c0, b, first)
    }

    ghost predicate OpenedBlock(c0: map<nat, Buf>, b: nat, first: nat)
      reads this`cache
    {
      At(cache, b) == if first <= b < first + k then Some(Opened(At(c0, b), bs)) else At(c0, b)
    }

    /** A buffer while a discard that started with c0 has come to the byte at. */
    ghost function Progress(c0: map<nat, Buf>, b: nat, first: nat, from: nat, to: nat, at: nat): Option<Buf>
      requires from < to && SizesOk(c0, b)
      reads this`disk
    {
      if first <= b < first + k then
        if Hit(Start(b), bs, from, to) && from < at && Start(b) < at then
          HitPart(Start(b), bs, from, to);
          Some(Discarded(Opened(At(c0, b), bs), At(disk, b), bs, Lo(Start(b), from), Hi(Start(b), bs, to)))
        else Some(Opened(At(c0, b), bs))
      else At(c0, b)
    }

    ghost predicate Discarding(c: map<nat, Buf>, c0: map<nat, Buf>, first: nat, from: nat, to: nat, at: nat)
      requires from < to
      reads this`disk
    {
      forall b: nat :: DiscardingBlock(c, c0, b, first, from, to, at)
    }

    ghost predicate DiscardingBlock(c: map<nat, Buf>, c0: map<nat, Buf>, b: nat, first: nat, from: nat, to: nat, at: nat)
      requires from < to
      reads this`disk
    {
      SizesOk(c0, b) && At(c, b) == Progress(c0, b, first, from, to, at)
    }

    /** The buffer of a page that contains offset. */
    method FindBuffer(first: nat, offset: nat) returns (iblock: nat, ghost m: nat)
      requires bs > 0 && offset < PageSize()
      ensures iblock == first + m && m < k && Times(m, bs) <= offset < Times(m + 1, bs)
    {
      iblock, m := first, 0;
      var pos := bs;
      while offset >= pos
        invariant iblock == first + m && pos == Times(m + 1, bs) && Times(m, bs) <= offset && m < k
        decreases k - m
      {
        TimesMono(m + 1, k, bs);
        if m + 1 >= k {
          assert false;
        }
        iblock, pos, m := iblock + 1, pos + bs, m + 1;
      }
      TimesMono(0, 1, bs);
    }

    /** A turn of the loop, for the m-th buffer of the page. */
    method DiscardTurn(iblock: nat, pos: nat, end: nat, ghost m: nat, ghost c0: map<nat, Buf>, ghost first: nat,
                       ghost from: nat, ghost to: nat)
      returns (range: nat)
      requires bs > 0 && iblock == first + m && m < k && Times(m, bs) <= pos < Times(m + 1, bs) && pos < end
      requires from < to == Start(first) + end && (Start(first) + pos == from || pos == Times(m, bs))
      requires from <= Start(first) + pos
      requires var discarding := Discarding(cache, c0, first, from, to, Start(first) + pos); discarding
      modifies this`cache
      ensures range > 0 && pos + range <= end
      ensures pos + range == end || pos + range == Times(m + 1, bs)
      ensures var discarding := Discarding(cache, c0, first, from, to, Start(first) + pos + range); discarding
    {
      range := end - pos;
      var endOfBlock := bs - Mod(pos, bs);
      if range > endOfBlock {
        range := endOfBlock;
      }
      var lo := Mod(pos, bs);
      TurnRange(pos, end, range, m, first, from, to);
      assert DiscardingBlock(cache, c0, iblock, first, from, to, Start(first) + pos);
      ghost var c := cache;
      DiscardBlock(iblock, lo, lo + range);
      TurnDone(c, c0, first, from, to, iblock, Start(first) + pos, Start(first) + pos + range);
    }

    /** What a turn discards of its block. */
    lemma TurnRange(pos: nat, end: nat, range: nat, m: nat, first: nat, from: nat, to: nat)
      requires bs > 0 && m < k && Times(m, bs) <= pos < Times(m + 1, bs) && pos < end
      requires from < to == Start(first) + end && (Start(first) + pos == from || pos == Times(m, bs))
      requires from <= Start(first) + pos
      requires range == if end - pos > bs - Mod(pos, bs) then bs - Mod(pos, bs) else end - pos
      ensures range > 0 && pos + range <= end && (pos + range == end || pos + range == Times(m + 1, bs))
      ensures var s, at, lo := Start(first + m), Start(first) + pos, Mod(pos, bs);
              && Hit(s, bs, from, to) && lo == Lo(s, from) && lo + range == Hi(s, bs, to)
              && s <= at && at + range <= s + bs && (at == from || at == s) && (at + range == to || at + range == s + bs)
    {
      DivUnique(pos, bs, m);
      TimesAdd(first, m, bs);
    }

    /** A block more is discarded. */
    lemma TurnDone(c: map<nat, Buf>, c0: map<nat, Buf>, first: nat, from: nat, to: nat, iblock: nat, at: nat, next: nat)
      requires bs > 0 && from < to && first <= iblock < first + k && from <= at < next <= to
      requires Start(iblock) <= at && next <= Start(iblock) + bs && (at == from || at == Start(iblock))
      requires next == to || next == Start(iblock) + bs
      requires var discarding := Discarding(c, c0, first, from, to, at); discarding
      requires SizesOk(c0, iblock) && Hit(Start(iblock), bs, from, to)
      requires cache == c[iblock := Discarded(Opened(At(c0, iblock), bs), At(disk, iblock), bs,
                                              Lo(Start(iblock), from), Hi(Start(iblock), bs, to))]
      ensures var discarding := Discarding(cache, c0, first, from, to, next); discarding
    {
      forall b: nat
        ensures DiscardingBlock(cache, c0, b, first, from, to, next)
      {
        assert DiscardingBlock(c, c0, b, first, from, to, at);
        if b < iblock {
          TimesMono(b, iblock, bs);
        } else if b > iblock {
          TimesMono(iblock, b, bs);
        }
      }
    }

    /** The loop over the buffers of a page. */
    method DiscardBuffers(first: nat, offset: nat, len: nat, ghost c0: map<nat, Buf>)
      requires bs > 0 && len > 0 && offset + len <= PageSize()
      requires var from := Start(first) + offset;
               var discarding := Discarding(cache, c0, first, from, from + len, from); discarding
      modifies this`cache
      ensures var from := Start(first) + offset;
              var discarding := Discarding(cache, c0, first, from, from + len, from + len); discarding
    {
      ghost var from, to := Start(first) + offset, Start(first) + offset + len;
      var iblock: nat;
      ghost var m: nat;
      iblock, m := FindBuffer(first, offset);
      var pos := offset;
      while pos < offset + len
        invariant iblock == first + m && var at := AtBuffer(offset, pos, offset + len, m); at
        invariant var discarding := Discarding(cache, c0, first, from, to, Start(first) + pos); discarding
        decreases offset + len - pos
      {
        var range := DiscardTurn(iblock, pos, offset + len, m, c0, first, from, to);
        WithinPage(offset, pos + range, offset + len, m + 1);
        iblock, pos, m := iblock + 1, pos + range, m + 1;
      }
    }

    /** At the part of a page from offset to end the byte pos is next, in its m-th
        buffer. */
    predicate AtBuffer(offset: nat, pos: nat, end: nat, m: nat) {
      && offset <= pos <= end && (pos < end ==> m < k && Times(m, bs) <= pos < Times(m + 1, bs))
      && (pos == offset || pos == end || pos == Times(m, bs))
    }

    lemma WithinPage(offset: nat, pos: nat, end: nat, m: nat)
      requires bs > 0 && end <= PageSize() && (pos == end || pos == Times(m, bs)) && offset <= pos <= end
      ensures var at := AtBuffer(offset, pos, end, m); at
    {
      if pos < end && m >= k {
        TimesMono(k, m, bs);
      }
    }

    /** A part of a page that is in the cache. */
    method DiscardPage(first: nat, offset: nat, len: nat, ghost c0: map<nat, Buf>)
      requires bs > 0 && k > 0 && len > 0 && offset + len <= PageSize()
      requires var sized, there := AllSized(c0), PageOpened(c0, first); sized && there
      modifies this`cache
      ensures var from := Start(first) + offset;
              var sized, discarded := Sized(), DiscardedFrom(c0, cache, from, from + len);
              sized && discarded
    {
      ghost var from := Start(first) + offset;
      NothingYet(c0, first, from, from + len);
      DiscardBuffers(first, offset, len, c0);
      AllDiscarded(c0, first, from, from + len);
      StillSized(c0, from, from + len);
    }

    /** ext4_discard_partial_page_buffers: from a byte on, to the end of its page at
        most. */
    method DiscardPartial(from: nat, length: nat)
      requires (var sized := Sized(); sized) && length > 0
      modifies this`cache
      ensures var sized, discarded := Sized(), DiscardedFrom(old(cache), cache, from, DiscardEnd(from, length));
              sized && discarded
    {
      var index := Div(from, PageSize());
      var first := Times(index, k);
      ghost var c0 := cache;
      FindOrCreatePage(index);
      var offset := Mod(from, PageSize());
      var max := PageSize() - offset;
      var len := if length > max then max else length;
      DivMod(from, PageSize());
      TimesTwice(index, k, bs);
      DiscardPage(first, offset, len, c0);
    }

    lemma StillSized(c0: map<nat, Buf>, from: nat, to: nat)
      requires bs > 0 && k > 0 && from < to
      requires var discarded := DiscardedFrom(c0, cache, from, to); discarded
      ensures var sized := Sized(); sized
    {
      forall b: nat
        ensures SizesOk(cache, b)
      {
        assert DiscardedBlock(c0, cache, b, from, to);
      }
    }

    lemma AllSizesOk()
      requires Valid()
      ensures Sized()
    {
      forall b: nat
        ensures SizesOk(cache, b)
      {
        assert CoherentAt(b);
      }
    }

    lemma NothingYet(c0: map<nat, Buf>, first: nat, from: nat, to: nat)
      requires bs > 0 && from < to
      requires var sized, there := AllSized(c0), PageOpened(c0, first); sized && there
      ensures var discarding := Discarding(cache, c0, first, from, to, from); discarding
    {
      forall b: nat
        ensures DiscardingBlock(cache, c0, b, first, from, to, from)
      {
        assert SizesOk(c0, b) && OpenedBlock(c0, b, first);
      }
    }

    lemma AllDiscarded(c0: map<nat, Buf>, first: nat, from: nat, to: nat)
      requires bs > 0 && from < to && Start(first) <= from && to <= Start(first) + PageSize()
      requires var discarding := Discarding(cache, c0, first, from, to, to); discarding
      ensures var discarded := DiscardedFrom(c0, cache, from, to); discarded
    {
      forall b: nat
        ensures DiscardedBlock(c0, cache, b, from, to)
      {
        assert DiscardingBlock(cache, c0, b, first, from, to, to);
        TimesAdd(first, k, bs);
        if b < first {
          TimesMono(b, first, bs);
        } else if b >= first + k {
          TimesMono(first + k, b, bs);
        }
      }
    }

    // ------------------------------------------------------------------------ the hole

    /** Block b is within the range. */
    predicate Whole(b: nat, from: nat, to: nat) {
      WholeAt(Start(b), bs, from, to)
    }

    /** truncate_pagecache_range of whole pages. */
    method TruncatePages(first: nat, last: nat)
      modifies this`cache
      ensures forall b: nat :: At(cache, b) == (if Times(first, k) <= b < Times(last, k) then None else At(old(cache), b))
    {
      var from, to := Times(first, k), Times(last, k);
      cache := map b | b in cache && !(from <= b < to) :: cache[b];
    }

    /** ext4_ext_remove_space. */
    method RemoveSpace(first: nat, stop: nat)
      modifies this`disk
      ensures forall b: nat :: At(disk, b) == (if first <= b < stop then None else At(old(disk), b))
    {
      disk := map b | b in disk && !(first <= b < stop) :: disk[b];
    }

    /** The buffers when the pages within the hole are gone and its ends discarded. */
    ghost predicate EdgesAt(c0: map<nat, Buf>, c: map<nat, Buf>, b: nat, from: nat, to: nat, firstPage: nat, lastPage: nat)
      requires from < to
      reads this`disk
    {
      && SizesOk(c0, b)
      && if Times(firstPage, k) <= b < Times(lastPage, k)
         then At(c, b) == At(c0, b) || At(c, b) == Some(Opened(At(c0, b), bs))
         else DiscardedAt(At(c0, b), At(c, b), At(disk, b), Start(b), bs, from, to)
    }

    ghost predicate Edges(c0: map<nat, Buf>, c: map<nat, Buf>, from: nat, to: nat, firstPage: nat, lastPage: nat)
      requires from < to
      reads this`disk
    {
      forall b: nat :: EdgesAt(c0, c, b, from, to, firstPage, lastPage)
    }

    /** The partial pages at the ends of the hole. */
    method DiscardEdges(offset: nat, length: nat, firstPage: nat, lastPage: nat)
      requires (var sized := Sized(); sized) && length > 0
      requires firstPage == Div(offset + PageSize() - 1, PageSize()) && lastPage == Div(offset + length, PageSize())
      modifies this`cache
      ensures var sized, edges := Sized(), Edges(old(cache), cache, offset, offset + length, firstPage, lastPage);
              sized && edges
    {
      var firstOffset, lastOffset := Times(firstPage, PageSize()), Times(lastPage, PageSize());
      ghost var c0 := cache;
      PageBounds(offset, length, firstPage, lastPage);
      if firstPage > lastPage {
        DiscardPartial(offset, length);
        OneEdge(c0, cache, offset, offset + length, firstPage, lastPage);
      } else {
        DiscardBoth(offset, length, firstOffset, lastOffset, firstPage, lastPage);
      }
    }

    /** The end of the first page, then the start of the last one. */
    method DiscardBoth(offset: nat, length: nat, firstOffset: nat, lastOffset: nat, ghost firstPage: nat, ghost lastPage: nat)
      requires (var sized := Sized(); sized) && length > 0 && offset <= firstOffset <= lastOffset <= offset + length
      requires firstOffset == Start(Times(firstPage, k)) && lastOffset == Start(Times(lastPage, k))
      requires firstOffset > offset ==> DiscardEnd(offset, firstOffset - offset) == firstOffset
      requires offset + length > lastOffset ==> DiscardEnd(lastOffset, offset + length - lastOffset) == offset + length
      modifies this`cache
      ensures var sized, edges := Sized(), Edges(old(cache), cache, offset, offset + length, firstPage, lastPage);
              sized && edges
    {
      ghost var c0 := cache;
      var pageLen := firstOffset - offset;
      if pageLen > 0 {
        DiscardPartial(offset, pageLen);
      }
      ghost var c1 := cache;
      DiscardRest(lastOffset, offset + length - lastOffset);
      BothEdges(c0, c1, cache, offset, offset + length, firstPage, lastPage);
    }

    method DiscardRest(from: nat, pageLen: nat)
      requires var sized := Sized(); sized
      modifies this`cache
      ensures var sized := Sized(); sized
      ensures if pageLen > 0 then var discarded := DiscardedFrom(old(cache), cache, from, DiscardEnd(from, pageLen)); discarded
              else cache == old(cache)
    {
      if pageLen > 0 {
        DiscardPartial(from, pageLen);
      }
    }

    lemma PageBounds(offset: nat, length: nat, firstPage: nat, lastPage: nat)
      requires bs > 0 && k > 0 && length > 0
      requires firstPage == Div(offset + PageSize() - 1, PageSize()) && lastPage == Div(offset + length, PageSize())
      ensures var ps := PageSize();
              && ps > 0 && offset <= Times(firstPage, ps) < offset + ps
              && Times(lastPage, ps) <= offset + length < Times(lastPage, ps) + ps
              && (firstPage <= lastPage ==> Times(firstPage, ps) <= Times(lastPage, ps))
              && (firstPage > lastPage ==> DiscardEnd(offset, length) == offset + length)
              && (Times(firstPage, ps) > offset ==> DiscardEnd(offset, Times(firstPage, ps) - offset) == Times(firstPage, ps))
              && (offset + length > Times(lastPage, ps) ==>
                    DiscardEnd(Times(lastPage, ps), offset + length - Times(lastPage, ps)) == offset + length)
              && Times(firstPage, ps) == Start(Times(firstPage, k)) && Times(lastPage, ps) == Start(Times(lastPage, k))
    {
      var ps := PageSize();
      TimesTwice(firstPage, k, bs);
      TimesTwice(lastPage, k, bs);
      DivMod(offset + length, ps);
      DivUnique(Times(lastPage, ps), ps, lastPage);
      FirstBound(offset, ps, firstPage);
      if firstPage <= lastPage {
        TimesMono(firstPage, lastPage, ps);
      } else {
        TimesMono(lastPage, firstPage, ps);
        RoundDown(offset + length, ps, Div(offset, ps));
      }
    }

    /** The first whole page behind a byte, and the end of the page of the byte. */
    lemma FirstBound(offset: nat, ps: nat, firstPage: nat)
      requires ps > 0 && firstPage == Div(offset + ps - 1, ps)
      ensures offset <= Times(firstPage, ps) < offset + ps
      ensures Times(firstPage, ps) == offset || Times(firstPage, ps) == offset + ps - Mod(offset, ps)
      ensures Times(Div(offset, ps), ps) + Mod(offset, ps) == offset
      ensures firstPage == Div(offset, ps) || firstPage == Div(offset, ps) + 1
      ensures firstPage == Div(offset, ps) ==> Mod(offset, ps) == 0
    {
      DivMod(offset + ps - 1, ps);
      DivMod(offset, ps);
      RoundUp(offset, ps, Div(offset, ps));
      RoundUp(offset, ps, Div(offset, ps) + 1);
    }

    lemma OneEdge(c0: map<nat, Buf>, c: map<nat, Buf>, from: nat, to: nat, firstPage: nat, lastPage: nat)
      requires bs > 0 && from < to && firstPage > lastPage && (var discarded := DiscardedFrom(c0, c, from, to); discarded)
      ensures var edges := Edges(c0, c, from, to, firstPage, lastPage); edges
    {
      TimesMono(lastPage, firstPage, k);
      forall b: nat
        ensures EdgesAt(c0, c, b, from, to, firstPage, lastPage)
      {
        assert DiscardedBlock(c0, c, b, from, to);
      }
    }

    lemma BothEdges(c0: map<nat, Buf>, c1: map<nat, Buf>, c: map<nat, Buf>, from: nat, to: nat,
                    firstPage: nat, lastPage: nat)
      requires bs > 0 && from < to && (var sized := AllSized(c0); sized)
      requires var head, tail := Start(Times(firstPage, k)), Start(Times(lastPage, k));
               && from <= head <= tail <= to
               && (if from < head then var discarded := DiscardedFrom(c0, c1, from, head); discarded else c1 == c0)
               && (if tail < to then var discarded := DiscardedFrom(c1, c, tail, to); discarded else c == c1)
      ensures var edges := Edges(c0, c, from, to, firstPage, lastPage); edges
    {
      var head, tail := Start(Times(firstPage, k)), Start(Times(lastPage, k));
      forall b: nat
        ensures EdgesAt(c0, c, b, from, to, firstPage, lastPage)
      {
        assert SizesOk(c0, b);
        if from < head {
          assert DiscardedBlock(c0, c1, b, from, head);
        }
        if tail < to {
          assert DiscardedBlock(c1, c, b, tail, to);
        }
        EdgeOf(c0, c1, c, b, from, to, firstPage, lastPage);
      }
    }

    /** A block at an end of the hole is in one of the two partial pages, and all of its
        bytes that are in the hole are. */
    lemma EdgeOf(c0: map<nat, Buf>, c1: map<nat, Buf>, c: map<nat, Buf>, b: nat, from: nat, to: nat,
                 firstPage: nat, lastPage: nat)
      requires bs > 0 && from < to && SizesOk(c0, b)
      requires var head, tail := Start(Times(firstPage, k)), Start(Times(lastPage, k));
               && from <= head <= tail <= to
               && (if from < head then DiscardedBlock(c0, c1, b, from, head) else c1 == c0)
               && (if tail < to then DiscardedBlock(c1, c, b, tail, to) else c == c1)
      ensures EdgesAt(c0, c, b, from, to, firstPage, lastPage)
    {
      var first, last := Times(firstPage, k), Times(lastPage, k);
      if b < first {
        TimesMono(b, first, bs);
      } else {
        TimesMono(first, b, bs);
      }
      if b < last {
        TimesMono(b, last, bs);
      } else {
        TimesMono(last, b, bs);
      }
    }
  
    /** The end of the hole that is punched: a hole across i_size ends with the page of
        i_size. */
    function HoleEnd(offset: nat, length: nat): nat
      requires bs > 0 && k > 0
    {
      if offset + length > iSize then iSize + PageSize() - Mod(iSize, PageSize()) else offset + length
    }

    /** Discard the rest of the page of i_size when the hole ends in that page. */
    method DiscardTail(lastPage: nat)
      requires var sized := Sized(); sized
      modifies this`cache
      ensures if Div(iSize, PageSize()) == lastPage && Mod(iSize, PageSize()) != 0
              then var to := iSize + PageSize() - Mod(iSize, PageSize());
                   var discarded := DiscardedFrom(old(cache), cache, iSize, to); discarded
              else cache == old(cache)
    {
      if Div(iSize, PageSize()) == lastPage && Mod(iSize, PageSize()) != 0 {
        var pageLen := PageSize() - Mod(iSize, PageSize());
        DiscardPartial(iSize, pageLen);
      }
    }

    /** The caches that the steps of a punch leave. */
    ghost predicate Steps(c0: map<nat, Buf>, c1: map<nat, Buf>, c2: map<nat, Buf>, c3: map<nat, Buf>,
                          from: nat, to: nat, firstPage: nat, lastPage: nat, tail: nat)
      requires from < to
      reads this`disk
    {
      && (forall b: nat :: At(c1, b) == (if Times(firstPage, k) <= b < Times(lastPage, k) then None else At(c0, b)))
      && Edges(c1, c2, from, to, firstPage, lastPage)
      && (if tail > iSize then to <= iSize && DiscardedFrom(c2, c3, iSize, tail) else c3 == c2)
    }

    /** What becomes of a block when the blocks within the hole are freed. */
    ghost predicate FateOf(c0: map<nat, Buf>, disk0: map<nat, Bytes>, c: map<nat, Buf>, b: nat, from: nat, to: nat) {
      var d := if Whole(b, from, to) then None else At(disk0, b);
      && Coherent(At(c, b), d, bs, Below(b))
      && Punched(Visible(At(c0, b), At(disk0, b), bs), Visible(At(c, b), d, bs), Start(b), Below(b), from, to)
    }

    /** What the steps do to a block. */
    lemma BlockFate(c0: map<nat, Buf>, c1: map<nat, Buf>, c2: map<nat, Buf>, c3: map<nat, Buf>, b: nat,
                    from: nat, to: nat, firstPage: nat, lastPage: nat, tail: nat)
      requires bs > 0 && from < to && Steps(c0, c1, c2, c3, from, to, firstPage, lastPage, tail)
      requires from <= Start(Times(firstPage, k)) && Start(Times(lastPage, k)) <= to
      requires Coherent(At(c0, b), At(disk, b), bs, Below(b))
      ensures FateOf(c0, disk, c3, b, from, to)
    {
      var s, n := Start(b), Below(b);
      var inside := Times(firstPage, k) <= b < Times(lastPage, k);
      assert EdgesAt(c1, c2, b, from, to, firstPage, lastPage);
      if inside {
        TimesMono(Times(firstPage, k), b, bs);
        TimesMono(b, Times(lastPage, k), bs);
      }
      if tail > iSize {
        assert DiscardedBlock(c2, c3, b, iSize, tail);
      }
      if Whole(b, from, to) {
        WholeFate(At(c0, b), At(c2, b), At(disk, b), s, bs, n, from, to, inside);
        OpenedSame(At(c2, b), None, bs, n);
      } else {
        PartFate(At(c0, b), At(c2, b), At(disk, b), s, bs, n, from, to);
        if tail > iSize {
          TailFate(At(c2, b), At(c3, b), At(disk, b), s, bs, iSize, tail);
        }
      }
    }

    /** Below i_size the hole is what was asked for. */
    lemma HoleEndBelow(offset: nat, length: nat)
      requires bs > 0 && k > 0 && length > 0 && offset < iSize
      ensures var to := HoleEnd(offset, length);
              && offset < to
              && (to == offset + length || (iSize <= to && iSize <= offset + length))
              && (Div(iSize, PageSize()) == Div(to, PageSize()) && Mod(iSize, PageSize()) != 0 ==> to <= iSize)
    {
      var ps := PageSize();
      DivMod(iSize, ps);
      if offset + length > iSize {
        DivUnique(HoleEnd(offset, length), ps, Div(iSize, ps) + 1);
      }
    }

    /** The pages within the hole go. */
    method DropPages(firstPage: nat, lastPage: nat)
      requires var sized := Sized(); sized
      modifies this`cache
      ensures var sized := Sized(); sized
      ensures forall b: nat :: At(cache, b) ==
                (if Times(firstPage, k) <= b < Times(lastPage, k) then None else At(old(cache), b))
    {
      if Times(lastPage, PageSize()) > Times(firstPage, PageSize()) {
        TruncatePages(firstPage, lastPage);
        forall b: nat
          ensures SizesOk(cache, b)
        {
          assert SizesOk(old(cache), b);
        }
      } else {
        if firstPage < lastPage {
          TimesMono(firstPage, lastPage, PageSize());
        } else {
          TimesMono(lastPage, firstPage, k);
        }
      }
    }

    /** The steps of a punch in the page cache. */
    method PunchCache(offset: nat, length: nat, firstPage: nat, lastPage: nat)
      returns (ghost c1: map<nat, Buf>, ghost c2: map<nat, Buf>, ghost tail: nat)
      requires (var sized := Sized(); sized) && length > 0
      requires firstPage == Div(offset + PageSize() - 1, PageSize()) && lastPage == Div(offset + length, PageSize())
      requires Div(iSize, PageSize()) == lastPage && Mod(iSize, PageSize()) != 0 ==> offset + length <= iSize
      modifies this`cache
      ensures var steps := Steps(old(cache), c1, c2, cache, offset, offset + length, firstPage, lastPage, tail); steps
    {
      DropPages(firstPage, lastPage);
      c1 := cache;
      DiscardEdges(offset, length, firstPage, lastPage);
      c2 := cache;
      DiscardTail(lastPage);
      tail := if Div(iSize, PageSize()) == lastPage && Mod(iSize, PageSize()) != 0
              then iSize + PageSize() - Mod(iSize, PageSize()) else 0;
    }

    lemma AllFates(c0: map<nat, Buf>, c1: map<nat, Buf>, c2: map<nat, Buf>, c3: map<nat, Buf>,
                   from: nat, to: nat, firstPage: nat, lastPage: nat, tail: nat)
      requires bs > 0 && from < to && Steps(c0, c1, c2, c3, from, to, firstPage, lastPage, tail)
      requires from <= Start(Times(firstPage, k)) && Start(Times(lastPage, k)) <= to
      requires forall b: nat :: Coherent(At(c0, b), At(disk, b), bs, Below(b))
      ensures var fates := Fates(c0, disk, c3, from, to); fates
    {
      forall b: nat
        ensures FateOf(c0, disk, c3, b, from, to)
      {
        BlockFate(c0, c1, c2, c3, b, from, to, firstPage, lastPage, tail);
      }
    }

    /** The blocks within the hole are freed. */
    method FreeBlocks(offset: nat, length: nat)
      requires bs > 0
      modifies this`disk
      ensures forall b: nat :: At(disk, b) == (if Whole(b, offset, offset + length) then None else At(old(disk), b))
    {
      var firstBlock := Div(offset + bs - 1, bs);
      var stopBlock := Div(offset + length, bs);
      ghost var disk0 := disk;
      if firstBlock < stopBlock {
        RemoveSpace(firstBlock, stopBlock);
      }
      forall b: nat
        ensures At(disk, b) == (if Whole(b, offset, offset + length) then None else At(disk0, b))
      {
        RoundUp(offset, bs, b);
        RoundDown(offset + length, bs, b);
      }
    }

    /** The part of ext4_punch_hole under i_mutex, without errors: what is in the hole
        reads as zeros, all else below i_size as before, and the blocks that are freed
        are those within the hole. */
    method PunchLocked(offset: nat, length0: nat)
      requires Valid() && length0 > 0
      modifies this`cache, this`disk
      ensures var valid := Valid(); valid
      ensures forall b: nat :: Punched(old(Read(b)), Read(b), Start(b), Below(b), offset, offset + length0)
      ensures forall b: nat :: At(disk, b) ==
                (if offset < iSize && Whole(b, offset, HoleEnd(offset, length0)) then None else At(old(disk), b))
    {
      // Nothing to punch beyond i_size.
      if offset >= iSize {
        return;
      }
      HoleEndBelow(offset, length0);
      PunchTo(offset, HoleEnd(offset, length0) - offset, offset + length0);
    }

    /** The rest of it, for a hole that starts below i_size. */
    method PunchTo(offset: nat, length: nat, ghost asked: nat)
      requires Valid() && length > 0
      requires offset + length == asked || (iSize <= offset + length && iSize <= asked)
      requires Div(iSize, PageSize()) == Div(offset + length, PageSize()) && Mod(iSize, PageSize()) != 0 ==>
                 offset + length <= iSize
      modifies this`cache, this`disk
      ensures var valid := Valid(); valid
      ensures forall b: nat :: Punched(old(Read(b)), Read(b), Start(b), Below(b), offset, asked)
      ensures forall b: nat :: At(disk, b) == (if Whole(b, offset, offset + length) then None else At(old(disk), b))
    {
      var firstPage := Div(offset + PageSize() - 1, PageSize());
      var lastPage := Div(offset + length, PageSize());
      ghost var c0, disk0 := cache, disk;
      PunchPages(offset, length, firstPage, lastPage);
      FreeBlocks(offset, length);
      PunchDone(c0, disk0, offset, offset + length, asked);
    }

    /** All that is done to the pages. */
    method PunchPages(offset: nat, length: nat, firstPage: nat, lastPage: nat)
      requires Valid() && length > 0
      requires firstPage == Div(offset + PageSize() - 1, PageSize()) && lastPage == Div(offset + length, PageSize())
      requires Div(iSize, PageSize()) == lastPage && Mod(iSize, PageSize()) != 0 ==> offset + length <= iSize
      modifies this`cache
      ensures var fates := Fates(old(cache), disk, cache, offset, offset + length); fates
    {
      PageBounds(offset, length, firstPage, lastPage);
      AllSizesOk();
      CoherentNow();
      ghost var c0 := cache;
      ghost var c1, c2, tail;
      c1, c2, tail := PunchCache(offset, length, firstPage, lastPage);
      AllFates(c0, c1, c2, cache, offset, offset + length, firstPage, lastPage, tail);
    }

    ghost predicate Fates(c0: map<nat, Buf>, disk0: map<nat, Bytes>, c: map<nat, Buf>, from: nat, to: nat) {
      forall b: nat :: FateOf(c0, disk0, c, b, from, to)
    }

    lemma CoherentNow()
      requires Valid()
      ensures forall b: nat :: Coherent(At(cache, b), At(disk, b), bs, Below(b))
    {
      forall b: nat
        ensures Coherent(At(cache, b), At(disk, b), bs, Below(b))
      {
        assert CoherentAt(b);
      }
    }

    lemma PunchDone(c0: map<nat, Buf>, disk0: map<nat, Bytes>, from: nat, to: nat, asked: nat)
      requires bs > 0 && k > 0 && (to == asked || (iSize <= to && iSize <= asked))
      requires Fates(c0, disk0, cache, from, to)
      requires forall b: nat :: At(disk, b) == (if Whole(b, from, to) then None else At(disk0, b))
      ensures var valid := Valid(); valid
      ensures forall b: nat :: Punched(Visible(At(c0, b), At(disk0, b), bs), Read(b), Start(b), Below(b), from, asked)
    {
      forall b: nat
        ensures CoherentAt(b)
        ensures Punched(Visible(At(c0, b), At(disk0, b), bs), Read(b), Start(b), Below(b), from, asked)
      {
        assert FateOf(c0, disk0, cache, b, from, to);
      }
    }
  
    /** filemap_write_and_wait_range, on the blocks from first up to stop: what is dirty is
        written, into a new block if there is none yet. */
    method WriteAndWait(first: nat, stop: nat)
      requires Valid()
      modifies this`cache, this`disk
      ensures var valid := Valid(); valid
      ensures forall b: nat :: Read(b) == old(Read(b))
      ensures forall b :: b in cache <==> b in old(cache)
      ensures forall b :: b in cache && first <= b < stop ==> !cache[b].dirty
      ensures forall b :: b in disk <==> b in old(disk) || (b in old(cache) && old(cache)[b].dirty && first <= b < stop)
    {
      ghost var c0, d0 := cache, disk;
      disk := disk + map b | b in cache && cache[b].dirty && first <= b < stop :: cache[b].data;
      cache := map b | b in cache :: if first <= b < stop then cache[b].(dirty := false) else cache[b];
      forall b: nat
        ensures CoherentAt(b) && Read(b) == Visible(At(c0, b), At(d0, b), bs)
      {
        assert old(CoherentAt(b));
      }
    }

    lemma ReadSize(b: nat)
      requires Valid()
      ensures |Read(b)| == bs
    {
      assert CoherentAt(b);
    }

    /** A byte of the file. */
    ghost function ReadByte(i: nat): int
      requires Valid()
      reads this
    {
      ReadSize(Div(i, bs));
      Read(Div(i, bs))[Mod(i, bs)]
    }

    /** Where the byte is read: in the page cache if it is there, else on the disk, and a
        block that is in neither reads as zeros. */
    lemma ReadByteIs(i: nat)
      requires Valid()
      ensures var b, j := i / bs, i % bs;
              && (b in cache ==> |cache[b].data| == bs) && (b in disk ==> |disk[b]| == bs)
              && ReadByte(i) == if b in cache && (cache[b].uptodate || cache[b].pageUptodate) then cache[b].data[j]
                                else if b in disk then disk[b][j] else 0
    {
      DivModAreBuiltIn(i, bs);
      assert CoherentAt(i / bs);
    }

    /** What is not dirty in the cache is on the disk too. */
    lemma CleanIsOnDisk(i: nat)
      requires Valid() && i < iSize && (i / bs in cache ==> !cache[i / bs].dirty)
      ensures var b, j := i / bs, i % bs;
              (b in disk ==> |disk[b]| == bs) && ReadByte(i) == if b in disk then disk[b][j] else 0
    {
      DivModAreBuiltIn(i, bs);
      DivMod(i, bs);
      assert CoherentAt(i / bs);
    }

    lemma WholeIs(b: nat, from: nat, to: nat)
      requires bs > 0
      ensures Whole(b, from, to) <==> from <= b * bs && b * bs + bs <= to
    {
      TimesIsProduct(b, bs);
    }

    /** The page boundary behind i_size, and another page if i_size is one. */
    lemma HoleEndIs(offset: nat, length: nat)
      requires bs > 0 && k > 0
      ensures var to, ps := HoleEnd(offset, length), k * bs;
              && (offset + length <= iSize ==> to == offset + length)
              && (offset + length > iSize ==> ps > 0 && to % ps == 0 && iSize < to <= iSize + ps)
    {
      var ps := PageSize();
      TimesIsProduct(k, bs);
      if offset + length > iSize {
        DivMod(iSize, ps);
        DivUnique(HoleEnd(offset, length), ps, Div(iSize, ps) + 1);
        DivModAreBuiltIn(HoleEnd(offset, length), ps);
      }
    }

    /** ext4_punch_hole, without errors: every byte of the hole reads as zero and every
        other byte of the file as before; of the blocks on disk those within the hole go. */
    method Punch(offset: nat, length: nat)
      requires Valid() && length > 0
      modifies this`cache, this`disk
      ensures var valid := Valid(); valid
      ensures forall i: nat :: i < iSize ==>
                ReadByte(i) == (if offset <= i < offset + length then 0 else old(ReadByte(i)))
      ensures forall b: nat :: offset < iSize && Whole(b, offset, HoleEnd(offset, length)) ==> b !in disk
      ensures forall b: nat :: b in old(disk) && !(offset < iSize && Whole(b, offset, HoleEnd(offset, length))) ==> b in disk
    {
      var first, last := Div(offset, PageSize()), Div(offset + length - 1, PageSize());
      WriteAndWait(Times(first, k), Times(last + 1, k));
      label Written:
      ghost var written := disk;
      PunchLocked(offset, length);
      assert forall b: nat :: At(disk, b) == None <==> b !in disk;
      assert forall b: nat :: At(written, b) == None <==> b !in written;
      forall i: nat | i < iSize
        ensures ReadByte(i) == (if offset <= i < offset + length then 0 else old(ReadByte(i)))
      {
        var b := Div(i, bs);
        DivMod(i, bs);
        ReadSize(b);
        assert Punched(old@Written(Read(b)), Read(b), Start(b), Below(b), offset, offset + length);
      }
    }
  }
}
