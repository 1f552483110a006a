/** blk_update_request of both kernels, on bios that are changed in place. */
module BlkCore {
  import opened RequestUpdate

  datatype Option<T> = None | Some(value: T)

  /** struct bio.  `endio` is the error of the call of bi_end_io, once it came. */
  class Bio {
    var size: nat                 // bi_size
    var sector: nat               // bi_sector
    var idx: nat                  // bi_idx
    var vecs: seq<Vec>            // bi_io_vec, bi_vcnt of them
    var uptodate: bool            // BIO_UPTODATE
    var endio: Option<int>

    predicate Valid()
      reads this
    {
      idx <= |vecs| && size == Total(vecs[idx..])
    }

    function View(): BioView
      requires Valid()
      reads this
    {
      BioView(vecs[idx..], sector, uptodate)
    }

    /** Skip whole vectors and a part of the one behind them. */
    method Cut(next: nat, shift: nat)
      requires idx + next < |vecs| && shift <= vecs[idx + next].len
      modifies this`idx, this`vecs
      ensures idx < |vecs|
      ensures var vs := old(vecs[idx..]);
              vecs[idx..] == [vs[next].(offset := vs[next].offset + shift, len := vs[next].len - shift)]
                             + vs[next + 1..]
    {
      ghost var vs := vecs[idx..];
      idx := idx + next;
      ghost var rest := vecs[idx + 1..];
      assert rest == vs[next + 1..] && vecs[idx] == vs[next];
      var bv := vecs[idx];
      vecs := vecs[idx := bv.(offset := bv.offset + shift, len := bv.len - shift)];
      assert vecs[idx..] == [vecs[idx]] + rest;
    }

    /** The loop of bio_advance: from vector to vector. */
    method AdvanceVectors(nbytes: nat)
      requires idx <= |vecs| && nbytes <= Total(vecs[idx..])
      modifies this`idx, this`vecs
      ensures idx <= |vecs| && vecs[idx..] == AdvanceVecs(old(vecs[idx..]), nbytes)
    {
      ghost var vs := vecs[idx..];
      var bytes: nat := nbytes;
      while bytes > 0
        invariant idx <= |vecs| && bytes <= Total(vecs[idx..])
        invariant AdvanceVecs(vecs[idx..], bytes) == AdvanceVecs(vs, nbytes)
        decreases |vecs| - idx, bytes
      {
        var len := vecs[idx].len;
        if bytes >= len {
          assert vecs[idx..][1..] == vecs[idx + 1..];
          idx := idx + 1;
          bytes := bytes - len;
        } else {
          Cut(0, bytes);
          bytes := 0;
        }
      }
    }

    /** bio_advance: by bytes. */
    method Advance(nbytes: nat)
      requires Valid() && nbytes <= size
      modifies this`idx, this`vecs, this`sector, this`size
      ensures Valid() && vecs[idx..] == AdvanceVecs(old(vecs[idx..]), nbytes)
      ensures sector == old(sector) + nbytes / SECTOR && size == old(size) - nbytes
    {
      AdvanceTotal(vecs[idx..], nbytes);
      sector := sector + nbytes / SECTOR;
      size := size - nbytes;
      AdvanceVectors(nbytes);
    }

    /** req_bio_endio of the g4 kernel. */
    method EndBytes(nbytes: nat, error: int, flushSeq: bool)
      requires Valid() && nbytes <= size
      modifies this
      ensures Valid() && View() == AdvanceBio(old(View()), error, nbytes)
      ensures size == old(size) - nbytes
      ensures uptodate == (old(uptodate) && error == 0) && sector == old(sector) + nbytes / SECTOR
      ensures endio == if size == 0 && !flushSeq
                       then Some(if error == 0 && !old(uptodate) then -EIO else error) else old(endio)
    {
      var e := error;
      if error != 0 {
        uptodate := false;
      } else if !uptodate {
        e := -EIO;
      }
      Advance(nbytes);
      if size == 0 && !flushSeq {
        endio := Some(e);
      }
    }

    /** req_bio_endio of the nexus5 kernel: it leaves the vectors alone. */
    method EndSize(nbytes: nat, error: int, flushSeq: bool)
      modifies this
      ensures idx == old(idx) && vecs == old(vecs)
      ensures size == (if nbytes > old(size) then 0 else old(size) - nbytes)
      ensures sector == old(sector) + (if nbytes > old(size) then old(size) else nbytes) / SECTOR
      ensures uptodate == (old(uptodate) && error == 0)
      ensures endio == if size == 0 && !flushSeq
                       then Some(if error == 0 && !old(uptodate) then -EIO else error) else old(endio)
    {
      var e, n := error, nbytes;
      if error != 0 {
        uptodate := false;
      } else if !uptodate {
        e := -EIO;
      }
      if n > size {
        n := size;
      }
      size := size - n;
      sector := sector + n / SECTOR;
      if size == 0 && !flushSeq {
        endio := Some(e);
      }
    }

    /** The end of the vector walk within a bio: done bytes complete, which are next
        vectors and shift bytes of the one behind them. */
    method EndPart(done: nat, next: nat, shift: nat, error: int, flushSeq: bool)
      requires Valid() && done < size && WithinBio(View().rest, next, shift, done)
      modifies this
      ensures Valid() && View() == AdvanceBio(old(View()), error, done)
      ensures size == old(size) - done && endio == old(endio)
    {
      CutVectors(View().rest, next, shift, done);
      AdvanceTotal(View().rest, done);
      EndSize(done, error, flushSeq);
      Cut(next, shift);
    }
  }

  /** The vector walk, done bytes into the first bio of v with n to go, will make p. */
  predicate Walking(p: Progress, errors: seq<int>, v: seq<BioView>, error: int, next: nat, done: nat, n: nat) {
    && p == Behind(errors, if v == [] then Progress([], []) else Complete(v, error, done + n, false))
    && (v == [] || Walked(v[0].rest, next, done, n))
  }

  /** The vector walk is over, done bytes into the first bio of v. */
  predicate WalkOver(p: Progress, errors: seq<int>, v: seq<BioView>, error: int, next: nat, done: nat, shift: nat) {
    && p == Behind(errors, Progress([], if v == [] then [] else Inside(v, error, done)))
    && (v == [] || done == 0 || (done < Size(v[0]) && WithinBio(v[0].rest, next, shift, done)))
  }

  lemma BioEnds(p: Progress, errors: seq<int>, v: seq<BioView>, error: int, next: nat, done: nat, n: nat)
    requires Walking(p, errors, v, error, next, done, n) && v != [] && n >= Size(v[0])
    ensures var e := errors + [EndError(v[0], error)];
            if n > Size(v[0]) || v[1..] == [] then Walking(p, e, v[1..], error, 0, 0, n - Size(v[0]))
            else WalkOver(p, e, v[1..], error, 0, 0, 0)
  {
    FirstEnds(errors, v, error, n, false);
  }

  lemma VectorPassed(p: Progress, errors: seq<int>, v: seq<BioView>, error: int, next: nat, done: nat, n: nat)
    requires Walking(p, errors, v, error, next, done, n) && v != [] && n < Size(v[0])
    ensures next < |v[0].rest|
    ensures var len := v[0].rest[next].len;
            if n < len then WalkOver(p, errors, v, error, next, done + n, n)
            else if n > len then Walking(p, errors, v, error, next + 1, done + len, n - len)
            else WalkOver(p, errors, v, error, next + 1, done + len, 0)
  {
    NextVector(v[0].rest, next, done, n);
  }

  /** The bios of a chain are well formed, not ended, and look like v. */
  predicate Shows(c: seq<Bio>, v: seq<BioView>)
    reads c
  {
    |c| == |v| && forall i :: 0 <= i < |c| ==> c[i].Valid() && c[i].View() == v[i] && c[i].endio == None
  }

  predicate Distinct(c: seq<Bio>) {
    forall i, j :: 0 <= i < j < |c| ==> c[i] != c[j]
  }

  /** The chain after the vector walk, n bytes into its first bio. */
  function Inside(c: seq<BioView>, error: int, n: nat): seq<BioView>
    requires c != []
  {
    if n > 0 then [AdvanceBio(c[0], error, n)] + c[1..] else c
  }

  /** The vector walk has passed the first next vectors, done bytes, and n more bytes
      are to complete within the same bio. */
  predicate Walked(vs: seq<Vec>, next: nat, done: nat, n: nat) {
    && next <= |vs| && done == Total(vs[..next])
    && (next > 0 ==> done + n < Total(vs))
    && (n == 0 ==> done == 0)
  }

  /** Where the walk ends: done bytes are the first next vectors and shift bytes of
      the one behind them. */
  predicate WithinBio(vs: seq<Vec>, next: nat, shift: nat, done: nat) {
    && next < |vs| && done == Total(vs[..next]) + shift && shift <= vs[next].len
    && (if shift > 0 then shift < vs[next].len else next > 0 && vs[next - 1].len > 0)
  }

  lemma {:induction false} TotalOfPrefix(vs: seq<Vec>, k: nat)
    requires k <= |vs|
    ensures Total(vs[..k]) + Total(vs[k..]) == Total(vs)
    ensures k < |vs| ==> Total(vs[..k + 1]) == Total(vs[..k]) + vs[k].len
    ensures k == |vs| ==> Total(vs[..k]) == Total(vs)
  {
    if k > 0 {
      TotalOfPrefix(vs[1..], k - 1);
      assert vs[..k][1..] == vs[1..][..k - 1] && vs[k..] == vs[1..][k - 1..];
      if k < |vs| {
        assert vs[..k + 1][1..] == vs[1..][..k];
      }
    } else {
      assert vs[k..] == vs;
      if vs != [] {
        assert vs[..1][1..] == [];
      }
    }
  }

  /** One turn of the walk within a bio of more than done + n bytes. */
  lemma NextVector(vs: seq<Vec>, next: nat, done: nat, n: nat)
    requires Walked(vs, next, done, n) && done + n < Total(vs)
    ensures next < |vs|
    ensures var len := vs[next].len;
            if n < len then done + n > 0 ==> WithinBio(vs, next, n, done + n)
            else if len < n then Walked(vs, next + 1, done + len, n - len)
            else done + n > 0 ==> WithinBio(vs, next + 1, 0, done + n)
  {
    TotalOfPrefix(vs, next);
    TotalOfPrefix(vs, next + 1);
  }

  /** Changing bi_idx and one vector is bio_advance by the bytes walked over. */
  lemma {:induction false} CutVectors(vs: seq<Vec>, next: nat, shift: nat, done: nat)
    requires WithinBio(vs, next, shift, done)
    ensures 0 < done
    ensures done <= Total(vs)
    ensures AdvanceVecs(vs, done)
            == [vs[next].(offset := vs[next].offset + shift, len := vs[next].len - shift)] + vs[next + 1..]
  {
    if next > 0 {
      assert vs[..next][1..] == vs[1..][..next - 1];
      if next > 1 || shift > 0 {
        CutVectors(vs[1..], next - 1, shift, done - vs[0].len);
        assert vs[1..][next..] == vs[next + 1..];
      } else {
        assert vs[..1][1..] == [] && Total(vs[..1]) == vs[0].len;
        assert AdvanceVecs(vs, done) == AdvanceVecs(vs[1..], 0) == vs[1..];
        assert vs[1..] == [vs[1]] + vs[2..];
      }
    }
  }

  /** Update, put together from what the loop did and what follows it. */
  lemma UpdateFrom(r: ReqView, error: int, n: nat, touch: bool)
    requires LengthOk(r) && r.chain != []
    ensures var p := Complete(r.chain, error, n, touch);
            if p.rest == [] then Update(r, error, n, touch) == Outcome(p.errors, ReqView([], 0, r.sector), false)
            else
              && n <= r.dataLen && r.dataLen - n == ChainSize(p.rest)
              && Update(r, error, n, touch)
                 == Outcome(p.errors, ReqView(p.rest, r.dataLen - n, r.sector + n / SECTOR), true)
  {
    CompleteDropsBytes(r.chain, error, n, touch);
    if n > r.dataLen {
      AllComplete(r.chain, error, n, touch);
    }
  }

  /** The bios of a request are updated as Complete says, total bytes of them unless the
      request is finished. */
  predicate Completed(was: ReqView, error: int, n: nat, touch: bool, total: nat, errors: seq<int>, v: seq<BioView>) {
    && was.chain != [] && LengthOk(was)
    && Complete(was.chain, error, n, touch) == Progress(errors, v) && (v != [] ==> total == n)
  }

  /** struct request, an FS request without BIO_DONTFREE and not a discard. */
  class Request {
    var chain: seq<Bio>           // req->bio and what follows by bi_next
    var dataLen: nat              // __data_len
    var sector: nat               // __sector
    var flushSeq: bool            // REQ_FLUSH_SEQ
    ghost var view: ReqView

    predicate Finished(bio: Bio, error: int)
      reads this`flushSeq, bio
    {
      bio.size == 0 && bio.endio == if flushSeq then None else Some(error)
    }

    ghost predicate Valid()
      reads this, chain
    {
      && Distinct(chain) && Shows(chain, view.chain)
      && dataLen == view.dataLen && sector == view.sector
      && LengthOk(view)
    }

    /** What a completion leaves of the chain c: as many bios as there are errors are
        finished and unlinked; each was ended with its error, unless the request
        belongs to a flush. */
    ghost predicate Ended(c: seq<Bio>, errors: seq<int>)
      reads this`chain, this`flushSeq, c
    {
      && |errors| <= |c| && chain == c[|errors|..]
      && forall i :: 0 <= i < |errors| ==> Finished(c[i], errors[i])
    }

    /** A completion under way: what of c is left is not ended and looks like v. */
    ghost predicate Going(c: seq<Bio>, errors: seq<int>, v: seq<BioView>)
      reads this`chain, this`flushSeq, c
    {
      Ended(c, errors) && |chain| == |v|
      && forall i :: |errors| <= i < |c| ==> c[i].Valid() && c[i].View() == v[i - |errors|] && c[i].endio == None
    }

    lemma Left(c: seq<Bio>, errors: seq<int>, v: seq<BioView>)
      requires Distinct(c) && Going(c, errors, v)
      ensures Distinct(chain) && Shows(chain, v)
      ensures chain != [] ==> chain[0] == c[|errors|]
    {
      forall i | 0 <= i < |chain|
        ensures chain[i].Valid() && chain[i].View() == v[i] && chain[i].endio == None
      {
        assert chain[i] == c[i + |errors|];
      }
      forall i, j | 0 <= i < j < |chain|
        ensures chain[i] != chain[j]
      {
        assert chain[i] == c[i + |errors|] && chain[j] == c[j + |errors|];
      }
    }

    /** Bytes of the first segment (blk_rq_cur_bytes). */
    function CurBytes(): nat
      requires chain != []
      reads this, chain
    {
      if chain[0].idx < |chain[0].vecs| then chain[0].vecs[chain[0].idx].len else 0
    }

    /** A request with bios is valid. */
    lemma Starts()
      requires Valid() && chain != []
      ensures var going := Going(chain, [], view.chain); going
      ensures Distinct(chain) && view.chain != [] && LengthOk(view) && dataLen == view.dataLen && sector == view.sector
    {
      assert chain[0..] == chain;
    }

    /** The bios that are ended are those taken off the chain, and none of them while a
        flush is going on. */
    lemma EndsAre(c: seq<Bio>, errors: seq<int>)
      requires var valid, ended := Valid(), Ended(c, errors); valid && ended
      ensures |errors| <= |c| && |c| - |chain| == |errors| && chain == c[|errors|..]
      ensures forall i :: 0 <= i < |errors| ==> c[i].endio == if flushSeq then None else Some(errors[i])
      ensures forall i :: |errors| <= i < |c| ==> c[i].endio == None
    {
      assert forall i :: 0 <= i < |errors| ==> Finished(c[i], errors[i]);
      forall i | |errors| <= i < |c|
        ensures c[i].endio == None
      {
        assert c[i] == chain[i - |errors|];
      }
    }

    lemma ShownUptodate()
      requires Valid()
      ensures |view.chain| == |chain| && LengthOk(view) && dataLen == view.dataLen && sector == view.sector
      ensures forall i :: 0 <= i < |chain| ==> view.chain[i].uptodate == chain[i].uptodate
    {
      assert forall i :: 0 <= i < |chain| ==> chain[i].View() == view.chain[i];
    }

    /** What both kernels do once the bios are updated: a request without bios has
        length 0, any other gets shorter and starts later.  Their repair of a
        botched request, for a length below that of the first segment, is never
        needed. */
    method Shorten(total: nat, ghost error: int, ghost n: nat, ghost touch: bool,
                   ghost c: seq<Bio>, ghost errors: seq<int>, ghost v: seq<BioView>) returns (more: bool)
      requires Distinct(c) && (var going := Going(c, errors, v); going)
      requires dataLen == view.dataLen && sector == view.sector
      requires var done := Completed(view, error, n, touch, total, errors, v); done
      modifies this`dataLen, this`sector, this`view
      ensures var valid, ended := Valid(), Ended(c, errors); valid && ended
      ensures Update(old(view), error, n, touch) == Outcome(errors, view, more)
      ensures more ==> CurBytes() <= dataLen
    {
      Left(c, errors, v);
      UpdateFrom(view, error, n, touch);
      if chain == [] {
        dataLen := 0;
        view := ReqView([], 0, sector);
        return false;
      }
      dataLen := dataLen - total;
      sector := sector + total / SECTOR;
      view := ReqView(v, dataLen, sector);
      assert CurBytes() <= Size(chain[0].View()) == Size(v[0]);
      return true;
    }

    /** One turn of the loop of the g4 kernel. */
    method EndFirst(error: int, n: nat, ghost c: seq<Bio>, ghost errors: seq<int>, ghost v: seq<BioView>)
      returns (done: nat)
      requires Distinct(c) && (var going := Going(c, errors, v); going) && chain != []
      modifies this`chain, chain[0]
      ensures done == if Size(v[0]) <= n then Size(v[0]) else n
      ensures if Size(v[0]) <= n then var going := Going(c, errors + [EndError(v[0], error)], v[1..]); going
              else var going := Going(c, errors, [AdvanceBio(v[0], error, n)] + v[1..]); going
    {
      var bio := chain[0];
      assert bio == c[|errors|];
      done := if bio.size <= n then bio.size else n;
      if done == bio.size {
        chain := chain[1..];
      }
      bio.EndBytes(done, error, flushSeq);
    }

    /** The loop of the g4 kernel. */
    method EndBios(error: int, nrBytes: nat, ghost c: seq<Bio>, ghost was: ReqView)
      returns (totalBytes: nat, ghost errors: seq<int>, ghost v: seq<BioView>)
      requires Distinct(c) && c == chain != [] && LengthOk(was) && (var going := Going(c, [], was.chain); going)
      modifies this`chain, chain
      ensures var going := Going(c, errors, v); going
      ensures var done := Completed(was, error, nrBytes, true, totalBytes, errors, v); done
    {
      errors, v := [], was.chain;
      var n := nrBytes;
      totalBytes := 0;
      ghost var p := Complete(v, error, nrBytes, true);
      while chain != []
        invariant 0 <= n && (var going := Going(c, errors, v); going)
        invariant Behind(errors, if v == [] then Progress([], []) else Complete(v, error, n, true)) == p
        invariant totalBytes + n == nrBytes
        decreases |v|
      {
        var done := EndFirst(error, n, c, errors, v);
        totalBytes := totalBytes + done;
        if Size(v[0]) <= n {
          FirstEnds(errors, v, error, n, true);
          errors := errors + [EndError(v[0], error)];
          v := v[1..];
        } else {
          v := [AdvanceBio(v[0], error, n)] + v[1..];
        }
        n := n - done;
        if n == 0 {
          break;
        }
      }
    }

    /** blk_update_request of the g4 kernel: bio by bio, by bytes. */
    method UpdateBytes(error: int, nrBytes: nat) returns (more: bool)
      requires Valid()
      modifies this`chain, this`dataLen, this`sector, this`view, chain
      ensures var valid := Valid(); valid
      ensures var o := Update(old(view), error, nrBytes, true);
              view == o.req && more == o.more && var ended := Ended(old(chain), o.errors); ended
      ensures var c, done := old(chain), |old(chain)| - |chain|;
              && flushSeq == old(flushSeq) && 0 <= done && chain == c[done..]
              && forall i :: 0 <= i < |c| ==>
                   c[i].endio == if flushSeq || i >= done then None
                                 else Some(if error == 0 && !old(c[i].uptodate) then -EIO else error)
      ensures more <==> chain != []
      ensures more ==> dataLen == old(dataLen) - nrBytes && sector == old(sector) + nrBytes / SECTOR
      ensures !more ==> dataLen == 0 && sector == old(sector)
    {
      ghost var c, was := chain, view;
      ShownUptodate();
      UpdateMeans(was, error, nrBytes, true);
      more := CompleteBytes(error, nrBytes);
      EndsAre(c, Update(was, error, nrBytes, true).errors);
    }

    method CompleteBytes(error: int, nrBytes: nat) returns (more: bool)
      requires Valid()
      modifies this`chain, this`dataLen, this`sector, this`view, chain
      ensures var valid := Valid(); valid
      ensures var o := Update(old(view), error, nrBytes, true);
              view == o.req && more == o.more && var ended := Ended(old(chain), o.errors); ended
    {
      if chain == [] {
        return false;
      }
      Starts();
      ghost var c := chain;
      var totalBytes;
      ghost var errors, v;
      totalBytes, errors, v := EndBios(error, nrBytes, c, view);
      more := Shorten(totalBytes, error, nrBytes, true, c, errors, v);
    }

    /** The completed first bio of the vector walk. */
    method EndWhole(error: int, n: nat, ghost c: seq<Bio>, ghost errors: seq<int>, ghost v: seq<BioView>)
      returns (nbytes: nat)
      requires Distinct(c) && (var going := Going(c, errors, v); going) && chain != [] && Size(v[0]) <= n
      modifies this`chain, chain[0]
      ensures nbytes == Size(v[0])
      ensures var going := Going(c, errors + [EndError(v[0], error)], v[1..]); going
    {
      var bio := chain[0];
      assert bio == c[|errors|];
      chain := chain[1..];
      nbytes := bio.size;
      bio.EndSize(nbytes, error, flushSeq);
    }

    /** After the vector walk: the first bio loses done bytes, which are its first
        next vectors and shift bytes of the one behind them. */
    method CutFirst(error: int, done: nat, next: nat, shift: nat,
                    ghost c: seq<Bio>, ghost errors: seq<int>, ghost v: seq<BioView>)
      requires Distinct(c) && (var going := Going(c, errors, v); going) && chain != [] && done > 0
      requires done < Size(v[0]) && WithinBio(v[0].rest, next, shift, done)
      modifies chain[0]
      ensures var going := Going(c, errors, [AdvanceBio(v[0], error, done)] + v[1..]); going
    {
      var bio := chain[0];
      assert bio == c[|errors|];
      bio.EndPart(done, next, shift, error, flushSeq);
    }

    function FirstSize(ghost c: seq<Bio>, ghost errors: seq<int>, ghost v: seq<BioView>): (size: nat)
      requires Going(c, errors, v) && chain != []
      reads this, chain, c
      ensures size == Size(v[0])
    {
      assert chain[0] == c[|errors|];
      chain[0].size
    }

    /** The branch of the nexus5 loop for a bio that nr_bytes does not cover: pass its
        next vector, or stop inside it.  The test for a missing vector never fires. */
    method PassVector(n: nat, next: nat, ghost p: Progress, ghost done: nat, ghost error: int,
                      ghost c: seq<Bio>, ghost errors: seq<int>, ghost v: seq<BioView>)
      returns (nbytes: nat, ok: bool)
      requires Going(c, errors, v) && chain != []
      requires Walking(p, errors, v, error, next, done, n) && n < Size(v[0])
      ensures next < |v[0].rest| && ok == (nbytes <= n)
      ensures if n < nbytes then WalkOver(p, errors, v, error, next, done + n, n)
              else if nbytes < n then Walking(p, errors, v, error, next + 1, done + nbytes, n - nbytes)
              else WalkOver(p, errors, v, error, next + 1, done + nbytes, 0)
    {
      VectorPassed(p, errors, v, error, next, done, n);
      assert chain[0] == c[|errors|] && chain[0].View() == v[0];
      nbytes := chain[0].vecs[chain[0].idx + next].len;
      ok := nbytes <= n;
    }

    /** One turn of the loop of the nexus5 kernel, which completes nbytes; it is the
        last one if it is over. */
    method WalkOnce(n: nat, next: nat, done: nat, error: int,
                    ghost p: Progress, ghost c: seq<Bio>, ghost errors: seq<int>, ghost v: seq<BioView>)
      returns (nbytes: nat, next': nat, done': nat, shift: nat, over: bool,
               ghost errors': seq<int>, ghost v': seq<BioView>)
      requires Distinct(c) && (var going := Going(c, errors, v); going) && chain != []
      requires Walking(p, errors, v, error, next, done, n)
      modifies this`chain, chain[0]
      ensures (var going := Going(c, errors', v'); going) && nbytes <= n
      ensures if over then WalkOver(p, errors', v', error, next', done', shift)
              else Walking(p, errors', v', error, next', done', n - nbytes)
      ensures over ==> nbytes == n && chain != []
      ensures over || |chain| < |old(chain)| || (chain == old(chain) && v' == v && next < next' <= |v[0].rest|)
    {
      if n >= FirstSize(c, errors, v) {
        BioEnds(p, errors, v, error, next, done, n);
        nbytes := EndWhole(error, n, c, errors, v);
        errors', v' := errors + [EndError(v[0], error)], v[1..];
        next', done', shift, over := 0, 0, 0, chain != [] && n == nbytes;
      } else {
        var ok;
        errors', v' := errors, v;
        nbytes, ok := PassVector(n, next, p, done, error, c, errors, v);
        if !ok {
          return n, next, done + n, n, true, errors, v;
        }
        next', done', shift, over := next + 1, done + nbytes, 0, n == nbytes;
      }
    }

    /** The loop of the nexus5 kernel. */
    method WalkVectors(error: int, nrBytes: nat, ghost c: seq<Bio>, ghost v0: seq<BioView>)
      returns (totalBytes: nat, bioBytes: nat, next: nat, shift: nat, ghost errors: seq<int>, ghost v: seq<BioView>)
      requires Distinct(c) && c == chain != [] && (var going := Going(c, [], v0); going)
      modifies this`chain, chain
      ensures var going := Going(c, errors, v); going
      ensures WalkOver(Complete(v0, error, nrBytes, false), errors, v, error, next, bioBytes, shift)
      ensures chain != [] ==> totalBytes == nrBytes
    {
      errors, v := [], v0;
      var n := nrBytes;
      totalBytes, bioBytes, next, shift := 0, 0, 0, 0;
      ghost var p := Complete(v, error, nrBytes, false);
      while chain != []
        invariant 0 <= n && (var going := Going(c, errors, v); going)
        invariant Walking(p, errors, v, error, next, bioBytes, n)
        invariant totalBytes + n == nrBytes
        decreases |chain|, if v == [] then 0 else |v[0].rest| - next
      {
        var nbytes, over;
        nbytes, next, bioBytes, shift, over, errors, v := WalkOnce(n, next, bioBytes, error, p, c, errors, v);
        totalBytes, n := totalBytes + nbytes, n - nbytes;
        if over {
          break;
        }
      }
    }

    /** The loop, and the cut of the bio in which it stopped. */
    method WalkAndCut(error: int, nrBytes: nat, ghost c: seq<Bio>, ghost was: ReqView)
      returns (totalBytes: nat, ghost errors: seq<int>, ghost v: seq<BioView>)
      requires Distinct(c) && c == chain != [] && LengthOk(was) && (var going := Going(c, [], was.chain); going)
      modifies this`chain, chain
      ensures var going := Going(c, errors, v); going
      ensures var done := Completed(was, error, nrBytes, false, totalBytes, errors, v); done
    {
      var bioBytes, next, shift;
      totalBytes, bioBytes, next, shift, errors, v := WalkVectors(error, nrBytes, c, was.chain);
      if chain != [] && bioBytes > 0 {
        CutFirst(error, bioBytes, next, shift, c, errors, v);
        v := [AdvanceBio(v[0], error, bioBytes)] + v[1..];
      }
    }

    /** blk_update_request of the nexus5 kernel: vector by vector. */
    method UpdateVectors(error: int, nrBytes: nat) returns (more: bool)
      requires Valid()
      modifies this`chain, this`dataLen, this`sector, this`view, chain
      ensures var valid := Valid(); valid
      ensures var o := Update(old(view), error, nrBytes, false);
              view == o.req && more == o.more && var ended := Ended(old(chain), o.errors); ended
      ensures var c, done := old(chain), |old(chain)| - |chain|;
              && flushSeq == old(flushSeq) && 0 <= done && chain == c[done..]
              && forall i :: 0 <= i < |c| ==>
                   c[i].endio == if flushSeq || i >= done then None
                                 else Some(if error == 0 && !old(c[i].uptodate) then -EIO else error)
      ensures more <==> chain != []
      ensures more ==> dataLen == old(dataLen) - nrBytes && sector == old(sector) + nrBytes / SECTOR
      ensures !more ==> dataLen == 0 && sector == old(sector)
    {
      ghost var c, was := chain, view;
      ShownUptodate();
      UpdateMeans(was, error, nrBytes, false);
      more := CompleteVectors(error, nrBytes);
      EndsAre(c, Update(was, error, nrBytes, false).errors);
    }

    method CompleteVectors(error: int, nrBytes: nat) returns (more: bool)
      requires Valid()
      modifies this`chain, this`dataLen, this`sector, this`view, chain
      ensures var valid := Valid(); valid
      ensures var o := Update(old(view), error, nrBytes, false);
              view == o.req && more == o.more && var ended := Ended(old(chain), o.errors); ended
    {
      if chain == [] {
        return false;
      }
      Starts();
      ghost var c := chain;
      var totalBytes;
      ghost var errors, v;
      totalBytes, errors, v := WalkAndCut(error, nrBytes, c, view);
      more := Shorten(totalBytes, error, nrBytes, false, c, errors, v);
    }
  }
}
