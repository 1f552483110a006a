/** What completing some bytes of a request means: the specification that both
    kernels' blk_update_request are measured against. */
module RequestUpdate {
  const EIO: int := 5
  const SECTOR: nat := 512

  /** A bio_vec: len bytes of a page from offset on. */
  datatype Vec = Vec(page: nat, offset: nat, len: nat)

  /** What is left of a bio: its remaining vectors, the sector they start at, and
      BIO_UPTODATE. */
  datatype BioView = BioView(rest: seq<Vec>, sector: nat, uptodate: bool)

  function Total(vs: seq<Vec>): nat {
    if vs == [] then 0 else vs[0].len + Total(vs[1..])
  }

  function Size(b: BioView): nat {
    Total(b.rest)
  }

  function ChainSize(c: seq<BioView>): nat {
    if c == [] then 0 else Size(c[0]) + ChainSize(c[1..])
  }

  /** bio_advance on the vector array. */
  function AdvanceVecs(vs: seq<Vec>, n: nat): seq<Vec> {
    if n == 0 || vs == [] then vs
    else if n >= vs[0].len then AdvanceVecs(vs[1..], n - vs[0].len)
    else [vs[0].(offset := vs[0].offset + n, len := vs[0].len - n)] + vs[1..]
  }

  /** req_bio_endio on n bytes of a bio. */
  function AdvanceBio(b: BioView, error: int, n: nat): BioView {
    BioView(AdvanceVecs(b.rest, n), b.sector + n / SECTOR, b.uptodate && error == 0)
  }

  /** The error that a finished bio is ended with. */
  function EndError(b: BioView, error: int): int {
    if error == 0 && !b.uptodate then -EIO else error
  }

  /** The bios that n bytes finish, by the errors they are ended with, and the chain
      that remains.  `touch` tells whether a bio of which nothing completes is
      still run through req_bio_endio. */
  datatype Progress = Progress(errors: seq<int>, rest: seq<BioView>)

  function Complete(c: seq<BioView>, error: int, n: nat, touch: bool): (p: Progress)
    ensures |p.errors| <= |c|
  {
    if c == [] then Progress([], [])
    else if n >= Size(c[0]) then
      var e := EndError(c[0], error);
      if n == Size(c[0]) then Progress([e], c[1..])
      else
        var p := Complete(c[1..], error, n - Size(c[0]), touch);
        Progress([e] + p.errors, p.rest)
    else Progress([], [if touch || n > 0 then AdvanceBio(c[0], error, n) else c[0]] + c[1..])
  }

  /** Progress that follows on bios already ended with these errors. */
  function Behind(errors: seq<int>, p: Progress): Progress {
    Progress(errors + p.errors, p.rest)
  }

  lemma FirstEnds(errors: seq<int>, c: seq<BioView>, error: int, n: nat, touch: bool)
    requires c != [] && n >= Size(c[0])
    ensures var e := errors + [EndError(c[0], error)];
            Behind(errors, Complete(c, error, n, touch)) ==
            if n == Size(c[0]) || c[1..] == [] then Behind(e, Progress([], c[1..]))
            else Behind(e, Complete(c[1..], error, n - Size(c[0]), touch))
  {
    if n != Size(c[0]) && c[1..] != [] {
      var p := Complete(c[1..], error, n - Size(c[0]), touch);
      assert errors + ([EndError(c[0], error)] + p.errors) == (errors + [EndError(c[0], error)]) + p.errors;
    }
  }

  datatype ReqView = ReqView(chain: seq<BioView>, dataLen: nat, sector: nat)

  datatype Outcome = Outcome(errors: seq<int>, req: ReqView, more: bool)

  /** blk_update_request on a request whose length agrees with its chain. */
  function Update(r: ReqView, error: int, n: nat, touch: bool): Outcome {
    var p := Complete(r.chain, error, n, touch);
    if r.chain == [] then Outcome([], r, false)
    else if p.rest == [] then Outcome(p.errors, ReqView([], 0, r.sector), false)
    else Outcome(p.errors,
                 ReqView(p.rest, if n <= r.dataLen then r.dataLen - n else 0, r.sector + n / SECTOR), true)
  }

  predicate LengthOk(r: ReqView) {
    r.dataLen == ChainSize(r.chain)
  }

  // ------------------------------------------------- bytes still to be transferred

  /** One byte of memory: a page and an offset into it. */
  datatype Byte = Byte(page: nat, at: nat)

  function VecBytes(page: nat, offset: nat, len: nat): (s: seq<Byte>)
    ensures |s| == len
  {
    seq(len, i requires 0 <= i < len => Byte(page, offset + i))
  }

  function Bytes(vs: seq<Vec>): seq<Byte> {
    if vs == [] then [] else VecBytes(vs[0].page, vs[0].offset, vs[0].len) + Bytes(vs[1..])
  }

  /** The bytes of a request in the order of the transfer. */
  function Stream(c: seq<BioView>): seq<Byte> {
    if c == [] then [] else Bytes(c[0].rest) + Stream(c[1..])
  }

  lemma {:induction false} BytesLength(vs: seq<Vec>)
    ensures |Bytes(vs)| == Total(vs)
  {
    if vs != [] {
      BytesLength(vs[1..]);
    }
  }

  lemma {:induction false} StreamLength(c: seq<BioView>)
    ensures |Stream(c)| == ChainSize(c)
  {
    if c != [] {
      BytesLength(c[0].rest);
      StreamLength(c[1..]);
    }
  }

  lemma {:induction false} AdvanceTotal(vs: seq<Vec>, n: nat)
    requires n <= Total(vs)
    ensures Total(AdvanceVecs(vs, n)) == Total(vs) - n
  {
    if n > 0 && vs != [] {
      if n >= vs[0].len {
        AdvanceTotal(vs[1..], n - vs[0].len);
      } else {
        var v := vs[0].(offset := vs[0].offset + n, len := vs[0].len - n);
        assert ([v] + vs[1..])[1..] == vs[1..];
      }
    }
  }

  lemma {:induction false} AdvanceDropsBytes(vs: seq<Vec>, n: nat)
    requires n <= Total(vs)
    ensures Total(AdvanceVecs(vs, n)) == Total(vs) - n
    ensures |Bytes(vs)| == Total(vs) && Bytes(AdvanceVecs(vs, n)) == Bytes(vs)[n..]
  {
    BytesLength(vs);
    if n == 0 || vs == [] {
    } else if n >= vs[0].len {
      AdvanceDropsBytes(vs[1..], n - vs[0].len);
      BytesLength(vs[1..]);
    } else {
      var v := vs[0].(offset := vs[0].offset + n, len := vs[0].len - n);
      assert VecBytes(v.page, v.offset, v.len) == VecBytes(vs[0].page, vs[0].offset, vs[0].len)[n..];
      assert ([v] + vs[1..])[1..] == vs[1..];
    }
  }

  lemma DropFromSum<T>(a: seq<T>, b: seq<T>, n: nat)
    requires n <= |a + b|
    ensures (a + b)[n..] == if n <= |a| then a[n..] + b else b[n - |a|..]
  {
  }

  /** Completing n bytes takes exactly the first n bytes off the transfer, in either
      kernel, whatever the boundaries of vectors and bios. */
  lemma {:induction false} CompleteDropsBytes(c: seq<BioView>, error: int, n: nat, touch: bool)
    ensures var k := if n <= ChainSize(c) then n else ChainSize(c);
            && |Stream(c)| == ChainSize(c)
            && Stream(Complete(c, error, n, touch).rest) == Stream(c)[k..]
            && ChainSize(Complete(c, error, n, touch).rest) == ChainSize(c) - k
  {
    StreamLength(c);
    if c != [] {
      var k := if n <= ChainSize(c) then n else ChainSize(c);
      BytesLength(c[0].rest);
      StreamLength(c[1..]);
      DropFromSum(Bytes(c[0].rest), Stream(c[1..]), k);
      if n > Size(c[0]) {
        CompleteDropsBytes(c[1..], error, n - Size(c[0]), touch);
      } else if n < Size(c[0]) {
        StopsInFirst(c, error, n, touch);
      }
    }
  }

  lemma StopsInFirst(c: seq<BioView>, error: int, n: nat, touch: bool)
    requires c != [] && n < Size(c[0])
    ensures Stream(Complete(c, error, n, touch).rest) == Bytes(AdvanceVecs(c[0].rest, n)) + Stream(c[1..])
    ensures |Bytes(c[0].rest)| == Size(c[0]) && Bytes(AdvanceVecs(c[0].rest, n)) == Bytes(c[0].rest)[n..]
    ensures ChainSize(Complete(c, error, n, touch).rest) == ChainSize(c) - n
  {
    var b := if touch || n > 0 then AdvanceBio(c[0], error, n) else c[0];
    AdvanceDropsBytes(c[0].rest, n);
    assert ([b] + c[1..])[1..] == c[1..];
  }

  /** __data_len stays the number of bytes left in the chain; the request has more
      to do exactly while bios are left, and asking for all of it finishes it. */
  lemma UpdateKeepsLength(r: ReqView, error: int, n: nat, touch: bool)
    requires LengthOk(r)
    ensures var o := Update(r, error, n, touch);
            && LengthOk(o.req)
            && (o.more <==> o.req.chain != [])
            && (n < r.dataLen ==> o.more && o.req.dataLen == r.dataLen - n)
            && (o.more ==> n <= r.dataLen && o.req.dataLen == r.dataLen - n && o.req.sector == r.sector + n / SECTOR)
            && (!o.more ==> o.req.dataLen == 0 && o.req.sector == r.sector)
    ensures n <= |Stream(r.chain)| ==> Stream(Update(r, error, n, touch).req.chain) == Stream(r.chain)[n..]
  {
    StreamLength(r.chain);
    CompleteDropsBytes(r.chain, error, n, touch);
    if n > r.dataLen {
      AllComplete(r.chain, error, n, touch);
    }
  }

  lemma {:induction false} AllComplete(c: seq<BioView>, error: int, n: nat, touch: bool)
    requires n > ChainSize(c)
    ensures Complete(c, error, n, touch).rest == []
    ensures |Complete(c, error, n, touch).errors| == |c|
  {
    if c != [] {
      AllComplete(c[1..], error, n - Size(c[0]), touch);
    }
  }

  /** Exactly the bios that n bytes cover are ended, each with its error; of the next one
      what is covered is gone and its sector moves along; the others are as before. */
  predicate EndsExactly(c: seq<BioView>, error: int, n: nat, p: Progress) {
    var k := |p.errors|;
    && k <= |c| && ChainSize(c[..k]) <= n && |p.rest| == |c| - k
    && (forall i :: 0 <= i < k ==> p.errors[i] == if error == 0 && !c[i].uptodate then -EIO else error)
    && (k < |c| ==>
          && (n < ChainSize(c[..k + 1]) || (k > 0 && n == ChainSize(c[..k])))
          && p.rest[1..] == c[k + 1..] && PartEnds(c[k], p.rest[0], error, n - ChainSize(c[..k]), k > 0))
  }

  predicate PartEnds(was: BioView, b: BioView, error: int, done: nat, untouched: bool) {
    && b.sector == was.sector + done / SECTOR && Size(b) + done == Size(was)
    && (done > 0 ==> b.uptodate == (was.uptodate && error == 0))
    && (done == 0 && untouched ==> b == was)
  }

  lemma {:induction false} CompleteEnds(c: seq<BioView>, error: int, n: nat, touch: bool)
    ensures var ends := EndsExactly(c, error, n, Complete(c, error, n, touch)); ends
    decreases |c|
  {
    if c != [] {
      var s := Size(c[0]);
      if n > s {
        var p := Complete(c[1..], error, n - s, touch);
        CompleteEnds(c[1..], error, n - s, touch);
        EndsBehind(c, error, n, p);
        assert Complete(c, error, n, touch) == Progress([EndError(c[0], error)] + p.errors, p.rest);
      } else {
        EndsHere(c, error, n, touch);
      }
    }
  }

  /** A bio is ended in front of the others. */
  lemma EndsBehind(c: seq<BioView>, error: int, n: nat, p: Progress)
    requires c != [] && n > Size(c[0]) && (var ends := EndsExactly(c[1..], error, n - Size(c[0]), p); ends)
    ensures var ends := EndsExactly(c, error, n, Progress([EndError(c[0], error)] + p.errors, p.rest)); ends
  {
    var k := |p.errors|;
    PrefixSize(c, k + 1);
    if k < |c| - 1 {
      assert c[1..][k] == c[k + 1] && c[1..][k + 1..] == c[k + 2..];
    }
  }

  lemma EndsHere(c: seq<BioView>, error: int, n: nat, touch: bool)
    requires c != [] && n <= Size(c[0])
    ensures var ends := EndsExactly(c, error, n, Complete(c, error, n, touch)); ends
  {
    assert c[..1] == [c[0]] && ChainSize(c[..1]) == Size(c[0]) && c[..0] == [];
    if n == Size(c[0]) {
      if |c| > 1 {
        PrefixSize(c, 1);
      }
    } else {
      AdvanceTotal(c[0].rest, n);
      var b := if touch || n > 0 then AdvanceBio(c[0], error, n) else c[0];
      assert ([b] + c[1..])[1..] == c[1..];
    }
  }

  lemma PrefixSize(c: seq<BioView>, k: nat)
    requires 0 < k <= |c|
    ensures ChainSize(c[..k]) == Size(c[0]) + ChainSize(c[1..][..k - 1])
    ensures k < |c| ==> ChainSize(c[..k + 1]) == Size(c[0]) + ChainSize(c[1..][..k])
  {
    assert c[..k][1..] == c[1..][..k - 1];
    if k < |c| {
      assert c[..k + 1][1..] == c[1..][..k];
    }
  }

  /** What an update comes to for the fields of the request and the bios that are ended. */
  lemma UpdateMeans(r: ReqView, error: int, n: nat, touch: bool)
    requires LengthOk(r)
    ensures var o := Update(r, error, n, touch);
            && |o.errors| + |o.req.chain| == |r.chain| && (o.more <==> o.req.chain != [])
            && (forall i :: 0 <= i < |o.errors| ==>
                  o.errors[i] == if error == 0 && !r.chain[i].uptodate then -EIO else error)
            && (o.more ==> n <= r.dataLen && o.req.dataLen == r.dataLen - n && o.req.sector == r.sector + n / SECTOR)
            && (!o.more ==> o.req.dataLen == 0 && o.req.sector == r.sector)
  {
    UpdateKeepsLength(r, error, n, touch);
    CompleteEnds(r.chain, error, n, touch);
  }

  // ---------------------------------------------------------- the two kernels agree

  /** The single case in which it matters that g4 runs req_bio_endio on a bio of
      which nothing completes: no bytes, an error, and data left in the first bio. */
  predicate ZeroByteError(r: ReqView, error: int, n: nat) {
    n == 0 && error != 0 && r.chain != [] && Size(r.chain[0]) > 0 && r.chain[0].uptodate
  }

  lemma {:induction false} CompleteSame(c: seq<BioView>, error: int, n: nat)
    requires n > 0 || c == [] || Size(c[0]) == 0 || error == 0 || !c[0].uptodate
    ensures Complete(c, error, n, true) == Complete(c, error, n, false)
  {
    if c != [] {
      if n > Size(c[0]) {
        CompleteSame(c[1..], error, n - Size(c[0]));
      } else if n < Size(c[0]) && n == 0 {
        assert AdvanceBio(c[0], error, 0) == c[0];
      }
    }
  }

  /** Both kernels do the same to every request, except for BIO_UPTODATE of the
      first bio when zero bytes are completed with an error. */
  lemma KernelsAgreeIff(r: ReqView, error: int, n: nat)
    ensures Update(r, error, n, true) == Update(r, error, n, false) <==> !ZeroByteError(r, error, n)
    ensures ZeroByteError(r, error, n) ==>
      Update(r, error, n, true) ==
      Update(r.(chain := [r.chain[0].(uptodate := false)] + r.chain[1..]), error, n, false)
  {
    if ZeroByteError(r, error, n) {
      assert Update(r, error, n, true).req.chain[0] != Update(r, error, n, false).req.chain[0];
    } else {
      CompleteSame(r.chain, error, n);
    }
  }

  /** A request of one bio, zero bytes and an error: only one kernel notes the error. */
  lemma ZeroBytesWithAnError()
    ensures var r := ReqView([BioView([Vec(0, 0, 512)], 0, true)], 512, 0);
            Update(r, -5, 0, true) != Update(r, -5, 0, false)
  {
    var r := ReqView([BioView([Vec(0, 0, 512)], 0, true)], 512, 0);
    assert Size(r.chain[0]) == 512;
    KernelsAgreeIff(r, -5, 0);
  }

  // ------------------------------------------------------------ piece by piece

  lemma {:induction false} AdvanceTwice(vs: seq<Vec>, n1: nat, n2: nat)
    requires n2 > 0
    ensures AdvanceVecs(AdvanceVecs(vs, n1), n2) == AdvanceVecs(vs, n1 + n2)
  {
    if n1 == 0 || vs == [] {
    } else if n1 >= vs[0].len {
      AdvanceTwice(vs[1..], n1 - vs[0].len, n2);
    } else {
      var v := vs[0].(offset := vs[0].offset + n1, len := vs[0].len - n1);
      assert ([v] + vs[1..])[1..] == vs[1..];
    }
  }

  predicate SectorSized(c: seq<BioView>) {
    forall i :: 0 <= i < |c| ==> Size(c[i]) % SECTOR == 0
  }

  /** Completing n1 and then n2 bytes is completing n1 + n2 bytes. */
  predicate Twice(c: seq<BioView>, error: int, n1: nat, n2: nat, touch: bool) {
    var p := Complete(c, error, n1, touch);
    var q := Complete(p.rest, error, n2, touch);
    Complete(c, error, n1 + n2, touch) == Progress(p.errors + q.errors, q.rest)
  }

  lemma {:induction false} CompleteTwice(c: seq<BioView>, error: int, n1: nat, n2: nat, touch: bool)
    requires SectorSized(c) && n1 % SECTOR == 0 && n2 > 0
    ensures var twice := Twice(c, error, n1, n2, touch); twice
  {
    if c != [] {
      var s := Size(c[0]);
      if n1 < s {
        CompleteWithinBio(c, error, n1, n2, touch);
      } else {
        if n1 > s {
          CompleteTwice(c[1..], error, n1 - s, n2, touch);
        }
        CompletePastBio(c, error, n1, n2, touch);
      }
    }
  }

  lemma CompletePastBio(c: seq<BioView>, error: int, n1: nat, n2: nat, touch: bool)
    requires c != [] && n1 >= Size(c[0]) && n2 > 0
    requires n1 > Size(c[0]) ==> var twice := Twice(c[1..], error, n1 - Size(c[0]), n2, touch); twice
    ensures Twice(c, error, n1, n2, touch)
  {
    var s, e := Size(c[0]), EndError(c[0], error);
    if n1 > s {
      var p := Complete(c[1..], error, n1 - s, touch);
      var q := Complete(p.rest, error, n2, touch);
      assert [e] + (p.errors + q.errors) == ([e] + p.errors) + q.errors;
    }
  }

  lemma CompleteWithinBio(c: seq<BioView>, error: int, n1: nat, n2: nat, touch: bool)
    requires c != [] && n1 < Size(c[0]) && Size(c[0]) % SECTOR == 0 && n1 % SECTOR == 0 && n2 > 0
    ensures Twice(c, error, n1, n2, touch)
  {
    var b := if touch || n1 > 0 then AdvanceBio(c[0], error, n1) else c[0];
    var d := [b] + c[1..];
    assert d[1..] == c[1..];
    AdvanceDropsBytes(c[0].rest, n1);
    AdvanceTwice(c[0].rest, n1, n2);
    assert (n1 + n2) / SECTOR == n1 / SECTOR + n2 / SECTOR;
    assert Size(b) == Size(c[0]) - n1;
    if n2 > Size(b) {
      assert n1 + n2 - Size(c[0]) == n2 - Size(b);
    }
  }

  /** Completing n1 and then n2 bytes is completing n1 + n2 bytes, as long as data
      remains after both: same bios ended with the same errors, same rest, same
      length and sector. */
  lemma UpdateTwice(r: ReqView, error: int, n1: nat, n2: nat, touch: bool)
    requires LengthOk(r) && SectorSized(r.chain) && n1 % SECTOR == 0 && n2 > 0
    requires n1 + n2 < r.dataLen
    ensures var o1 := Update(r, error, n1, touch);
            var o2 := Update(o1.req, error, n2, touch);
            Update(r, error, n1 + n2, touch) == Outcome(o1.errors + o2.errors, o2.req, true)
  {
    CompleteTwice(r.chain, error, n1, n2, touch);
    UpdateKeepsLength(r, error, n1, touch);
    UpdateKeepsLength(Update(r, error, n1, touch).req, error, n2, touch);
    UpdateKeepsLength(r, error, n1 + n2, touch);
    assert (n1 + n2) / SECTOR == n1 / SECTOR + n2 / SECTOR;
  }

  /** When the second piece finishes the request the result is the same but for
      __sector, which only an unfinished completion advances. */
  lemma UpdateTwiceToTheEnd(r: ReqView, error: int, n1: nat, n2: nat, touch: bool)
    requires LengthOk(r) && SectorSized(r.chain) && n1 % SECTOR == 0 && n2 > 0
    requires n1 < r.dataLen && Complete(r.chain, error, n1 + n2, touch).rest == []
    ensures var o1 := Update(r, error, n1, touch);
            var o2 := Update(o1.req, error, n2, touch);
            && o2 == Outcome(o2.errors, ReqView([], 0, r.sector + n1 / SECTOR), false)
            && Update(r, error, n1 + n2, touch) == Outcome(o1.errors + o2.errors, ReqView([], 0, r.sector), false)
  {
    CompleteTwice(r.chain, error, n1, n2, touch);
    UpdateKeepsLength(r, error, n1, touch);
  }
}
