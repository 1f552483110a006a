/** The records of the trace, their bytes, and the parser that reads them back. */
module TraceRecords {
  type byte = b: int | 0 <= b < 256

  const TRACE_IO: nat := 1
  const TRACE_SUSPEND: nat := 4
  const HEADER_SIZE: nat := 10
  const UIO_SIZE: nat := 14
  const UIO_WS_SIZE: nat := 7
  const PNAME_MAX: nat := 16
  const PARSER_FNAME: nat := 100        // fname of io_parser

  /** A record: date is what the header holds besides type and size, uio the structure
      without its last field pname_len, and ws the extra structure of synchronous
      writes, which bit 3 of the second byte of uio announces. */
  datatype Record =
    | Io(date: seq<byte>, uio: seq<byte>, pname: seq<byte>, fname: seq<byte>, ws: seq<byte>)
    | Suspend(date: seq<byte>, message: byte)

  predicate WsInfo(uio: seq<byte>)
    requires |uio| == UIO_SIZE - 1
  {
    uio[1] / 8 % 2 == 1
  }

  /** log_size, of which the header keeps a byte. */
  function LogSize(r: Record): nat {
    match r
    case Io(_, _, pname, fname, ws) => UIO_SIZE + |ws| + |pname| + 1 + |fname|
    case Suspend(_, _) => 1
  }

  /** What the structures and their length bytes can hold. */
  predicate Storable(r: Record) {
    && |r.date| == HEADER_SIZE - 2
    && (r.Io? ==>
          && |r.uio| == UIO_SIZE - 1 && |r.pname| < PNAME_MAX && |r.fname| < 256
          && |r.ws| == if WsInfo(r.uio) then UIO_WS_SIZE else 0)
  }

  /** Also a log_size that the guard of the ring can add its 20 to within a byte. */
  predicate RecordOk(r: Record) {
    Storable(r) && LogSize(r) <= 235
  }

  function Header(r: Record): (h: seq<byte>)
    requires RecordOk(r)
    ensures |h| == HEADER_SIZE
  {
    [if r.Io? then TRACE_IO else TRACE_SUSPEND, if r.Io? then LogSize(r) else 0] + r.date
  }

  function Bytes(r: Record): (s: seq<byte>)
    requires RecordOk(r)
    ensures |s| == HEADER_SIZE + LogSize(r)
  {
    match r
    case Io(_, uio, pname, fname, ws) => Header(r) + uio + [|pname|] + pname + [|fname|] + fname + ws
    case Suspend(_, message) => Header(r) + [message]
  }

  /** Where the parts of a record are, byte by byte. */
  lemma RecordLayout(r: Record)
    requires RecordOk(r)
    ensures var s := Bytes(r);
            && |s| >= 11 && s[2..10] == r.date
            && (r.Suspend? ==> |s| == 11 && s[0] == 4 && s[1] == 0 && s[10] == r.message)
            && (r.Io? ==>
                  var p, f := |r.pname|, |r.fname|;
                  && |s| == 10 + 14 + p + 1 + f + |r.ws| && s[0] == 1 && s[1] == 14 + p + 1 + f + |r.ws|
                  && s[10..23] == r.uio && s[23] == p && s[24..24 + p] == r.pname
                  && s[24 + p] == f && s[25 + p..25 + p + f] == r.fname && s[25 + p + f..] == r.ws)
  {
    if r.Io? {
      IoLayout(Header(r), r.uio, [|r.pname|], r.pname, [|r.fname|], r.fname, r.ws);
    }
    assert Header(r)[2..] == r.date;
    assert Bytes(r)[2..10] == Header(r)[2..];
  }

  lemma IoLayout(h: seq<byte>, uio: seq<byte>, p: seq<byte>, pname: seq<byte>, f: seq<byte>, fname: seq<byte>, ws: seq<byte>)
    requires |h| == 10 && |uio| == 13 && |p| == 1 && |f| == 1
    ensures var s, n, m := h + uio + p + pname + f + fname + ws, |pname|, |fname|;
            && s[..10] == h && s[10..23] == uio && s[23] == p[0] && s[24..24 + n] == pname
            && s[24 + n] == f[0] && s[25 + n..25 + n + m] == fname && s[25 + n + m..] == ws
  {
  }

  predicate RecordsOk(rs: seq<Record>) {
    forall i :: 0 <= i < |rs| ==> RecordOk(rs[i])
  }

  lemma Glue(a: seq<byte>, b: seq<byte>, c: seq<byte>)
    ensures (a + b) + c == a + (b + c)
  {
  }

  function Encode(rs: seq<Record>): seq<byte>
    requires RecordsOk(rs)
  {
    if rs == [] then [] else Bytes(rs[0]) + Encode(rs[1..])
  }

  /** The length of the encoding. */
  function Size(rs: seq<Record>): nat {
    if rs == [] then 0 else HEADER_SIZE + LogSize(rs[0]) + Size(rs[1..])
  }

  lemma {:induction false} EncodeSize(rs: seq<Record>)
    requires RecordsOk(rs)
    ensures |Encode(rs)| == Size(rs)
  {
    if rs != [] {
      EncodeSize(rs[1..]);
    }
  }

  lemma {:induction false} SizeBoth(rs: seq<Record>, ss: seq<Record>)
    ensures Size(rs + ss) == Size(rs) + Size(ss)
  {
    if rs == [] {
      assert rs + ss == ss;
    } else {
      SizeBoth(rs[1..], ss);
      assert (rs + ss)[1..] == rs[1..] + ss;
    }
  }

  lemma {:induction false} EncodeBoth(rs: seq<Record>, ss: seq<Record>)
    requires RecordsOk(rs) && RecordsOk(ss)
    ensures RecordsOk(rs + ss) && Encode(rs + ss) == Encode(rs) + Encode(ss)
  {
    if rs == [] {
      assert rs + ss == ss;
    } else {
      var a, b, c := Bytes(rs[0]), Encode(rs[1..]), Encode(ss);
      EncodeBoth(rs[1..], ss);
      EncodeFirst(rs[0], rs[1..] + ss);
      EncodeFirst(rs[0], rs[1..]);
      Regroup(rs[0], rs[1..], ss, rs);
      Glue(a, b, c);
    }
  }

  lemma Regroup(r: Record, rs: seq<Record>, ss: seq<Record>, all: seq<Record>)
    requires all == [r] + rs
    ensures all + ss == [r] + (rs + ss)
  {
  }

  lemma EncodeFirst(r: Record, rs: seq<Record>)
    requires RecordOk(r) && RecordsOk(rs)
    ensures RecordsOk([r] + rs) && Encode([r] + rs) == Bytes(r) + Encode(rs)
  {
    assert ([r] + rs)[1..] == rs;
  }

  lemma NothingEncoded(rs: seq<Record>)
    requires RecordsOk(rs)
    ensures Encode(rs) == [] <==> rs == []
  {
  }

  lemma EncodeOne(r: Record)
    requires RecordOk(r)
    ensures RecordsOk([r]) && Encode([r]) == Bytes(r)
  {
    assert [r][1..] == [];
  }

  // ------------------------------------------------------------------------ the parser

  datatype Option<T> = None | Some(value: T)

  /** fread of n bytes at a position: fewer at the end of the file. */
  function Fread(file: seq<byte>, pos: nat, n: nat): (s: seq<byte>)
    ensures |s| <= n
  {
    if pos + n <= |file| then file[pos..pos + n] else if pos <= |file| then file[pos..] else []
  }

  /** Reading what comes next. */
  lemma Piece(file: seq<byte>, pos: nat, a: seq<byte>, b: seq<byte>)
    requires pos <= |file| && file[pos..] == a + b
    ensures pos + |a| <= |file| && Fread(file, pos, |a|) == a && file[pos + |a|..] == b
  {
    assert |file| - pos == |a| + |b|;
    assert file[pos..pos + |a|] == file[pos..][..|a|] == a;
    assert file[pos + |a|..] == file[pos..][|a|..] == b;
  }

  lemma IoInPieces(r: Record, more: seq<byte>)
    requires RecordOk(r) && r.Io?
    ensures Bytes(r) + more
            == Header(r) + ((r.uio + [|r.pname|]) + (r.pname + ([|r.fname|] + (r.fname + (r.ws + more)))))
  {
    var a := Header(r) + r.uio + [|r.pname|] + r.pname + [|r.fname|] + r.fname;
    Glue(a, r.ws, more);
    Glue(Header(r) + r.uio + [|r.pname|] + r.pname + [|r.fname|], r.fname, r.ws + more);
    Glue(Header(r) + r.uio + [|r.pname|] + r.pname, [|r.fname|], r.fname + (r.ws + more));
    Glue(Header(r) + r.uio + [|r.pname|], r.pname, [|r.fname|] + (r.fname + (r.ws + more)));
    Glue(Header(r), r.uio + [|r.pname|], r.pname + ([|r.fname|] + (r.fname + (r.ws + more))));
    Glue(Header(r), r.uio, [|r.pname|]);
  }

  /** The parser has room for the file name. */
  predicate Fits(r: Record) {
    r.Io? ==> |r.fname| <= PARSER_FNAME
  }

  predicate AllFit(rs: seq<Record>) {
    forall i :: 0 <= i < |rs| ==> Fits(rs[i])
  }

  /** The records before the first one that does not fit. */
  function Fitting(rs: seq<Record>): (f: seq<Record>)
    ensures f <= rs && AllFit(f) && (f == rs <==> AllFit(rs))
    ensures |f| < |rs| ==> !Fits(rs[|f|])
  {
    if rs == [] || !Fits(rs[0]) then [] else [rs[0]] + Fitting(rs[1..])
  }

  /** The body of the loop of io_parser: a record and the position behind it; None for
      a record that is cut off or of another type, or whose names are longer than the
      arrays they are read into. */
  method ReadRecord(file: seq<byte>, start: nat, ghost r: Record, ghost more: seq<byte>)
    returns (found: Option<Record>, pos: nat)
    requires RecordOk(r) && start <= |file| && file[start..] == Bytes(r) + more
    ensures found == if Fits(r) then Some(r) else None
    ensures Fits(r) ==> pos == start + |Bytes(r)| <= |file| && file[pos..] == more
  {
    pos := start;
    if r.Io? {
      IoInPieces(r, more);
      Piece(file, pos, Header(r), (r.uio + [|r.pname|]) + (r.pname + ([|r.fname|] + (r.fname + (r.ws + more)))));
    } else {
      Glue(Header(r), [r.message], more);
      Piece(file, pos, Header(r), [r.message] + more);
    }
    var header := Fread(file, pos, HEADER_SIZE);
    pos := pos + HEADER_SIZE;
    assert header[2..] == r.date;
    if |header| < HEADER_SIZE {
      return None, pos;
    }
    if header[0] == TRACE_IO {
      found, pos := ReadIo(file, pos, header, r, more);
    } else if header[0] == TRACE_SUSPEND {
      Piece(file, pos, [r.message], more);
      var message := Fread(file, pos, 1);
      pos := pos + 1;
      found := Some(Suspend(header[2..], message[0]));
    } else {
      return None, pos;
    }
  }

  method ReadIo(file: seq<byte>, start: nat, header: seq<byte>, ghost r: Record, ghost more: seq<byte>)
    returns (found: Option<Record>, pos: nat)
    requires RecordOk(r) && r.Io? && start <= |file| && header == Header(r)
    requires file[start..] == (r.uio + [|r.pname|]) + (r.pname + ([|r.fname|] + (r.fname + (r.ws + more))))
    ensures found == if Fits(r) then Some(r) else None
    ensures Fits(r) ==> pos == start + LogSize(r) <= |file| && file[pos..] == more
  {
    pos := start;
    ghost var log0 := r.uio + [|r.pname|];
    Piece(file, pos, log0, r.pname + ([|r.fname|] + (r.fname + (r.ws + more))));
    var log := Fread(file, pos, UIO_SIZE);
    pos := pos + UIO_SIZE;
    assert log[..UIO_SIZE - 1] == r.uio && log[1] == r.uio[1];
    if log[UIO_SIZE - 1] > PNAME_MAX {
      return None, pos;
    }
    Piece(file, pos, r.pname, [|r.fname|] + (r.fname + (r.ws + more)));
    var pname := Fread(file, pos, log[UIO_SIZE - 1]);
    pos := pos + log[UIO_SIZE - 1];
    Piece(file, pos, [|r.fname|], r.fname + (r.ws + more));
    var fnameLen := Fread(file, pos, 1);
    pos := pos + 1;
    if fnameLen[0] > PARSER_FNAME {
      return None, pos;
    }
    Piece(file, pos, r.fname, r.ws + more);
    var fname := Fread(file, pos, fnameLen[0]);
    pos := pos + fnameLen[0];
    Piece(file, pos, r.ws, more);
    var ws := [];
    if log[1] / 8 % 2 == 1 {
      ws := Fread(file, pos, UIO_WS_SIZE);
      pos := pos + UIO_WS_SIZE;
    }
    assert header[2..] == r.date;
    found := Some(Io(header[2..], log[..UIO_SIZE - 1], pname, fname, ws));
  }

  /** io_parser: one record after the other, until the file is used up or a name does not
      fit. */
  method IoParser(file: seq<byte>, ghost rs: seq<Record>) returns (found: seq<Record>, ok: bool)
    requires RecordsOk(rs) && file == Encode(rs)
    ensures found == Fitting(rs)
    ensures ok <==> AllFit(rs)
  {
    var pos: nat := 0;
    found, ok := [], true;
    ghost var rest := rs;
    assert file[0..] == file;
    while pos < |file|
      invariant pos <= |file| && RecordsOk(rest) && |found| + |rest| == |rs| && found + Fitting(rest) == Fitting(rs)
      invariant file[pos..] == Encode(rest)
      decreases |file| - pos
    {
      var next, behind := ReadRecord(file, pos, rest[0], Encode(rest[1..]));
      if next == None {
        return found, false;
      }
      GlueNext(found, rest[0], Fitting(rest[1..]), Fitting(rest));
      found, rest, pos := found + [next.value], rest[1..], behind;
    }
    NothingEncoded(rest);
    return found, true;
  }

  lemma GlueNext(found: seq<Record>, r: Record, more: seq<Record>, rest: seq<Record>)
    requires rest == [r] + more
    ensures found + [r] + more == found + rest
  {
  }

  /** A file name of 150 bytes is within every limit of the tracer, but not the parser's. */
  lemma LongName() returns (r: Record)
    ensures RecordOk(r) && r.Io? && |r.fname| == 150 && LogSize(r) == 165
    ensures !AllFit([r]) && Fitting([r]) == []
  {
    r := Io(seq(8, i => 0), seq(13, i => 0), [], seq(150, i => 97), []);
    assert [r][0] == r;
  }
}
