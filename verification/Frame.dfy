/** The framing layer of the archive (backup/sqldump/frame.go): length-prefixed
    blocks, and one chunk-framed stream per table that ends in a zero length.

    The pure functions say what a byte stream means (Block, Framed) and how it is
    read (TakeBlock, TakeTable); the classes are the stateful writer and reader. */
module Frame {
  import opened Bytes
  import opened Seqs

  /** maxBlock: 256 MiB. */
  const MAX_BLOCK := 0x1000_0000

  datatype IoError = EOF | UnexpectedEOF | TooLarge

  // ---------------------------------------------------------------- streams

  /** An io.Writer that keeps everything written to it. */
  class Sink {
    var data: bytes

    constructor ()
      ensures data == []
    {
      data := [];
    }

    method Write(b: bytes)
      modifies this
      ensures data == old(data) + b
    {
      data := data + b;
    }
  }

  /** An io.Reader over a fixed byte string with a cursor. */
  class Source {
    const data: bytes
    var pos: nat

    ghost predicate Valid()
      reads this
    {
      pos <= |data|
    }

    /** What is still unread. */
    ghost function Rest(): bytes
      requires Valid()
      reads this
    {
      data[pos..]
    }

    constructor (data: bytes)
      ensures Valid() && Rest() == data
    {
      this.data := data;
      pos := 0;
    }

    /** io.ReadFull: n bytes, or EOF when nothing was left, or UnexpectedEOF when
        less than n was left (and is then consumed). */
    method ReadFull(n: nat) returns (b: bytes, err: Option<IoError>)
      requires Valid()
      modifies this
      ensures Valid()
      ensures n <= |old(Rest())| ==> err == None && b == old(Rest())[..n] && Rest() == old(Rest())[n..]
      ensures n > |old(Rest())| ==> b == old(Rest()) && Rest() == []
      ensures n > |old(Rest())| ==> err == Some(if old(Rest()) == [] then EOF else UnexpectedEOF)
    {
      if n <= |data| - pos {
        b, err := data[pos..pos + n], None;
        pos := pos + n;
      } else {
        b := data[pos..];
        err := Some(if b == [] then EOF else UnexpectedEOF);
        pos := |data|;
      }
    }
  }

  // ----------------------------------------------------------------- blocks

  /** What writeBlock puts on the wire. */
  function Block(b: bytes): bytes {
    U32(|b|) + b
  }

  datatype BlockScan = Got(data: bytes, rest: bytes) | NoBlock(err: IoError)

  function ShortRead(available: bytes): IoError {
    if available == [] then EOF else UnexpectedEOF
  }

  /** What readBlock makes of a stream. */
  function TakeBlock(s: bytes): BlockScan {
    if |s| < 4 then NoBlock(ShortRead(s))
    else
      var n := FromU32(s[..4]);
      if n > MAX_BLOCK then NoBlock(TooLarge)
      else if |s| - 4 < n then NoBlock(ShortRead(s[4..]))
      else Got(s[4..4 + n], s[4 + n..])
  }

  method WriteBlock(w: Sink, b: bytes)
    modifies w
    ensures w.data == old(w.data) + Block(b)
  {
    w.Write(U32(|b|));
    w.Write(b);
  }

  method ReadBlock(r: Source) returns (b: bytes, err: Option<IoError>)
    requires r.Valid()
    modifies r
    ensures r.Valid()
    ensures match TakeBlock(old(r.Rest()))
            case Got(data, rest) => err == None && b == data && r.Rest() == rest
            case NoBlock(e) => err == Some(e)
  {
    var head, e := r.ReadFull(4);
    if e != None {
      return [], e;
    }
    var n := FromU32(head);
    if n > MAX_BLOCK {
      return [], Some(TooLarge);
    }
    b, err := r.ReadFull(n);
  }

  /** A block survives the round trip exactly when it is no longer than maxBlock:
      the writer does not check, so a longer one (or one whose length wraps around
      2^32) is written without complaint and never read back. */
  lemma BlockRoundTrip(b: bytes, rest: bytes)
    ensures TakeBlock(Block(b) + rest) == Got(b, rest) <==> |b| <= MAX_BLOCK
  {
    var s := Block(b) + rest;
    assert s[..4] == U32(|b|) && s[4..] == b + rest;
    var n := |b| % TWO_32;
    if |b| <= MAX_BLOCK {
      assert n == |b|;
      assert s[4..4 + n] == b && s[4 + n..] == rest;
    } else if n <= MAX_BLOCK {
      assert n < |b|;
      assert |s[4..4 + n]| == n;
    }
  }

  /** What a block reader accepts: a length within maxBlock and that many bytes. */
  lemma BlockReads(s: bytes, b: bytes, rest: bytes)
    ensures TakeBlock(s) == Got(b, rest) <==> s == U32(|b|) + b + rest && |b| <= MAX_BLOCK
  {
    if s == U32(|b|) + b + rest && |b| <= MAX_BLOCK {
      assert s == Block(b) + rest;
      BlockRoundTrip(b, rest);
    }
    if TakeBlock(s) == Got(b, rest) {
      U32Unique(s[..4]);
      assert s == s[..4] + s[4..4 + |b|] + s[4 + |b|..];
    }
  }

  lemma LongBlock(b: bytes, rest: bytes)
    requires MAX_BLOCK < |b| < TWO_32
    ensures TakeBlock(Block(b) + rest) == NoBlock(TooLarge)
  {
    assert (Block(b) + rest)[..4] == U32(|b|);
  }

  // ----------------------------------------------------------- table streams

  /** One chunkWriter.Write: nothing for an empty slice. */
  function Chunk(p: bytes): bytes {
    if p == [] then [] else U32(|p|) + p
  }

  /** A table's stream: the Writes in order, then the zero-length terminator. */
  function Framed(writes: seq<bytes>): bytes {
    if writes == [] then U32(0) else Chunk(writes[0]) + Framed(writes[1..])
  }

  predicate Fits(writes: seq<bytes>) {
    forall i :: 0 <= i < |writes| ==> |writes[i]| <= MAX_BLOCK
  }

  /** What a table reader delivers before it stops: `data` and then a clean end of
      table with `rest` unread, or `data` and then an error. */
  datatype Scan = Ended(data: bytes, rest: bytes) | Broken(data: bytes, err: IoError)

  function Prepend(p: bytes, scan: Scan): Scan {
    scan.(data := p + scan.data)
  }

  lemma PrependTwice(p: bytes, q: bytes, scan: Scan)
    ensures Prepend(p, Prepend(q, scan)) == Prepend(p + q, scan)
  {
  }

  /** What chunkReader makes of a stream. io.EOF passes through from both reads, so
      a stream that stops before a length, or between a length and its data, looks
      like the end of the table. */
  function TakeTable(s: bytes): Scan {
    if s == [] then Ended([], [])
    else if |s| < 4 then Broken([], UnexpectedEOF)
    else
      var n := FromU32(s[..4]);
      if n == 0 then Ended([], s[4..])
      else if n > MAX_BLOCK then Broken([], TooLarge)
      else if |s| == 4 then Ended([], [])
      else if |s| - 4 < n then Broken([], UnexpectedEOF)
      else Prepend(s[4..4 + n], TakeTable(s[4 + n..]))
  }

  class ChunkWriter {
    const w: Sink

    constructor (w: Sink)
      ensures this.w == w
    {
      this.w := w;
    }

    method Write(p: bytes)
      modifies w
      ensures w.data == old(w.data) + Chunk(p)
    {
      if |p| == 0 {
        return;
      }
      w.Write(U32(|p|));
      w.Write(p);
    }

    method Close()
      modifies w
      ensures w.data == old(w.data) + U32(0)
    {
      w.Write(U32(0));
    }
  }

  class ChunkReader {
    const r: Source
    var buf: bytes
    var eof: bool

    ghost predicate Valid()
      reads this, r
    {
      r.Valid() && (eof ==> buf == [])
    }

    /** Everything this reader has yet to deliver. */
    ghost function Pending(): Scan
      requires Valid()
      reads this, r
    {
      if eof then Ended([], r.Rest()) else Prepend(buf, TakeTable(r.Rest()))
    }

    /** Unread bytes plus buffered bytes. */
    ghost function Measure(): nat
      requires Valid()
      reads this, r
    {
      |r.Rest()| + |buf|
    }

    constructor (r: Source)
      requires r.Valid()
      ensures Valid() && this.r == r
      ensures Pending() == TakeTable(r.Rest())
    {
      this.r := r;
      buf := [];
      eof := false;
    }

    /** The first half of Read, with an empty buffer: fetches the next chunk, or
        stops exactly as Pending does. */
    method Fetch() returns (err: Option<IoError>)
      requires Valid() && buf == []
      modifies this, r
      ensures Valid()
      ensures err == None ==> buf != [] && Pending() == old(Pending()) && Measure() <= old(Measure())
      ensures err == Some(EOF) ==> old(Pending()) == Ended([], r.Rest())
      ensures err.Some? && err != Some(EOF) ==> old(Pending()) == Broken([], err.value)
    {
      ghost var rest := r.Rest();
      if eof {
        return Some(EOF);
      }
      var head, e := r.ReadFull(4);
      if e != None {
        return e;
      }
      var n := FromU32(head);
      if n == 0 {
        eof := true;
        return Some(EOF);
      }
      if n > MAX_BLOCK {
        return Some(TooLarge);
      }
      var got, e2 := r.ReadFull(n);
      // The buffer was allocated before the read: what did not arrive is zero.
      buf := got + seq(n - |got|, _ => 0);
      if e2 == None {
        assert buf == got;
        assert buf == rest[4..4 + n] by { SliceOfRest(rest, 4, 0, n); }
        assert r.Rest() == rest[4 + n..] by { SliceOfRest(rest, 4, n, n); }
        assert TakeTable(rest) == Prepend(rest[4..4 + n], TakeTable(rest[4 + n..]));
      }
      return e2;
    }

    /** Fills a prefix of p. On success exactly the delivered bytes leave Pending;
        EOF and errors come exactly when Pending starts with them. */
    method Read(p: array<byte>) returns (k: nat, err: Option<IoError>)
      requires Valid()
      modifies this, r, p
      ensures Valid()
      ensures k <= p.Length && p[k..] == old(p[k..])
      ensures err == None ==> old(Pending()) == Prepend(p[..k], Pending())
      ensures err == None && p.Length > 0 ==> k > 0
      ensures err == None ==> Measure() + k <= old(Measure())
      ensures err == Some(EOF) ==> k == 0 && old(Pending()) == Ended([], r.Rest())
      ensures err.Some? && err != Some(EOF) ==> k == 0 && old(Pending()) == Broken([], err.value)
    {
      if |buf| == 0 {
        err := Fetch();
        if err != None {
          return 0, err;
        }
      }
      k := if |buf| < p.Length then |buf| else p.Length;
      forall i | 0 <= i < k {
        p[i] := buf[i];
      }
      assert p[..k] == buf[..k] && buf == buf[..k] + buf[k..];
      PrependTwice(buf[..k], buf[k..], TakeTable(r.Rest()));
      buf := buf[k..];
      err := None;
    }

    /** Reads with the given buffer sizes, empty ones included, until they run out
        or the reader stops. */
    method ReadWith(sizes: seq<nat>) returns (out: bytes, err: Option<IoError>)
      requires Valid()
      modifies this, r
      ensures Valid()
      ensures err == None ==> old(Pending()) == Prepend(out, Pending())
      ensures err == Some(EOF) ==> old(Pending()) == Ended(out, r.Rest())
      ensures err.Some? && err != Some(EOF) ==> old(Pending()) == Broken(out, err.value)
    {
      out, err := [], None;
      for i := 0 to |sizes|
        invariant Valid()
        invariant err == None && old(Pending()) == Prepend(out, Pending())
      {
        var p := new byte[sizes[i]];
        var k;
        k, err := Read(p);
        if err != None {
          return;
        }
        PrependTwice(out, p[..k], Pending());
        out := out + p[..k];
      }
    }

    /** The consumer loop of CopyFrom: non-empty buffers of any sizes until the
        reader stops. */
    method ReadAll() returns (out: bytes, err: IoError)
      requires Valid()
      modifies this, r
      ensures Valid()
      ensures old(Pending()) == if err == EOF then Ended(out, r.Rest()) else Broken(out, err)
    {
      out := [];
      while true
        invariant Valid()
        invariant old(Pending()) == Prepend(out, Pending())
        decreases Measure()
      {
        var size: nat :| size > 0;
        var p := new byte[size];
        var k, e := Read(p);
        if e.Some? {
          return out, e.value;
        }
        PrependTwice(out, p[..k], Pending());
        out := out + p[..k];
      }
    }

    /** Skips the table: same stopping point as ReadAll, nothing kept. */
    method Drain() returns (err: Option<IoError>)
      requires Valid()
      modifies this, r
      ensures Valid()
      ensures match old(Pending())
              case Ended(_, rest) => err == None && r.Rest() == rest
              case Broken(_, e) => err == Some(e)
    {
      var p := new byte[32 * 1024];
      ghost var skipped: bytes := [];
      while true
        invariant Valid()
        invariant old(Pending()) == Prepend(skipped, Pending())
        decreases Measure()
      {
        var k, e := Read(p);
        if e == Some(EOF) {
          return None;
        }
        if e != None {
          return e;
        }
        PrependTwice(skipped, p[..k], Pending());
        skipped := skipped + p[..k];
      }
    }
  }

  lemma TakeChunk(p: bytes, s: bytes)
    requires |p| <= MAX_BLOCK
    ensures TakeTable(Chunk(p) + s) == Prepend(p, TakeTable(s))
  {
    var t := Chunk(p) + s;
    if p == [] {
      assert t == s && Prepend(p, TakeTable(s)).data == TakeTable(s).data;
    } else {
      ChunkParts(p, s);
      assert TakeTable(t) == Prepend(t[4..4 + |p|], TakeTable(t[4 + |p|..]));
    }
  }

  lemma ChunkParts(p: bytes, s: bytes)
    requires 0 < |p| <= MAX_BLOCK
    ensures var t := Chunk(p) + s;
            |t| == 4 + |p| + |s| && FromU32(t[..4]) == |p| && t[4..4 + |p|] == p && t[4 + |p|..] == s
  {
    var t, n := Chunk(p) + s, |p|;
    assert t[..4] == U32(n);
    assert n % TWO_32 == n;
  }

  lemma TakeTerminator(s: bytes)
    ensures TakeTable(U32(0) + s) == Ended([], s)
  {
  }

  /** The writer does not look at the length; the reader does. */
  lemma LongChunk(p: bytes, s: bytes)
    requires MAX_BLOCK < |p| < TWO_32
    ensures TakeTable(Chunk(p) + s) == Broken([], TooLarge)
  {
    var t, n := Chunk(p) + s, |p|;
    assert t[..4] == U32(n);
    assert n % TWO_32 == n;
  }

  /** Every length fits its 32-bit prefix (a PostgreSQL message is shorter still). */
  predicate LengthsFit(writes: seq<bytes>) {
    forall i :: 0 <= i < |writes| ==> |writes[i]| < TWO_32
  }

  /** The Writes in front of the first one above maxBlock. */
  function BeforeLong(writes: seq<bytes>): (front: seq<bytes>)
    ensures front <= writes
  {
    if writes == [] || |writes[0]| > MAX_BLOCK then [] else [writes[0]] + BeforeLong(writes[1..])
  }

  /** What reading makes of writing, however the data was cut into Writes: all of it,
      stopping right after the terminator, or an error at the first Write above maxBlock. */
  function ReadBack(writes: seq<bytes>, rest: bytes): Scan {
    if Fits(writes) then Ended(Flatten(writes), rest) else Broken(Flatten(BeforeLong(writes)), TooLarge)
  }

  lemma {:induction false} FramedReads(writes: seq<bytes>, rest: bytes)
    requires LengthsFit(writes)
    ensures TakeTable(Framed(writes) + rest) == ReadBack(writes, rest)
  {
    if writes == [] {
      TakeTerminator(rest);
    } else {
      var p, more := writes[0], writes[1..];
      var tail := Framed(more) + rest;
      assert Framed(writes) + rest == Chunk(p) + tail;
      assert Fits(writes) <==> |p| <= MAX_BLOCK && Fits(more);
      if |p| > MAX_BLOCK {
        LongChunk(p, tail);
      } else {
        assert TakeTable(Chunk(p) + tail) == Prepend(p, TakeTable(tail)) by { TakeChunk(p, tail); }
        assert TakeTable(tail) == ReadBack(more, rest) by { FramedReads(more, rest); }
        assert BeforeLong(writes)[1..] == BeforeLong(more);
      }
    }
  }

  /** Reading inverts writing, and stops right after the terminator, exactly when no Write
      is longer than maxBlock; otherwise the reader refuses the first one that is. */
  lemma FramedRoundTrip(writes: seq<bytes>, rest: bytes)
    requires LengthsFit(writes)
    ensures TakeTable(Framed(writes) + rest) == Ended(Flatten(writes), rest) <==> Fits(writes)
    ensures !Fits(writes) ==> TakeTable(Framed(writes) + rest) == Broken(Flatten(BeforeLong(writes)), TooLarge)
  {
    FramedReads(writes, rest);
  }

  /** One table's data through a ChunkWriter, with its terminator. */
  method WriteAll(w: Sink, writes: seq<bytes>)
    modifies w
    ensures w.data == old(w.data) + Framed(writes)
  {
    var cw := new ChunkWriter(w);
    for i := 0 to |writes|
      invariant w.data + Framed(writes[i..]) == old(w.data) + Framed(writes)
    {
      cw.Write(writes[i]);
      assert writes[i..][1..] == writes[i + 1..];
    }
    cw.Close();
  }

  /** End to end over the stateful objects: any Writes, then any Read sizes. */
  method WriteThenRead(writes: seq<bytes>, after: bytes, sizes: seq<nat>)
    returns (out: bytes, err: Option<IoError>, more: bytes)
    requires LengthsFit(writes)
    ensures err == None ==> out <= Flatten(if Fits(writes) then writes else BeforeLong(writes))
    ensures err != None && Fits(writes) ==> err == Some(EOF) && out == Flatten(writes) && more == after
    ensures err != None && !Fits(writes) ==> err == Some(TooLarge) && out == Flatten(BeforeLong(writes))
  {
    var w := new Sink();
    WriteAll(w, writes);
    assert w.data == Framed(writes);
    w.Write(after);
    FramedReads(writes, after);
    var r := new Source(w.data);
    var cr := new ChunkReader(r);
    out, err := cr.ReadWith(sizes);
    more := r.data[r.pos..];
  }

  // -------------------------------------------------------------- truncation

  /** A whole chunk at the front of s, and s cut somewhere. */
  lemma CutFirstChunk(s: bytes, n: nat, cut: nat)
    requires |s| > 4 && n == FromU32(s[..4]) && 0 < n <= MAX_BLOCK && n <= |s| - 4 && cut <= |s|
    ensures var part := TakeTable(s[..cut]);
            if cut < 4 + n then part.Broken? || part == Ended([], [])
            else part == Prepend(s[4..4 + n], TakeTable(s[4 + n..][..cut - 4 - n]))
  {
    var t := s[..cut];
    if cut >= 4 {
      assert t[..4] == s[..4];
      if cut >= 4 + n {
        assert t[4..4 + n] == s[4..4 + n];
        assert t[4 + n..] == s[4 + n..][..cut - 4 - n];
      }
    }
  }

  lemma CutLastLength(s: bytes, cut: nat)
    requires cut <= |s| && TakeTable(s).Ended? && (|s| <= 4 || FromU32(s[..4]) == 0)
    ensures var whole := TakeTable(s); var part := TakeTable(s[..cut]);
            var used := |s| - |whole.rest|;
            && used >= 0 && whole.rest == s[used..]
            && (cut >= used ==> part == Ended(whole.data, s[used..cut]))
            && (cut < used ==> part.Broken? || part.rest == [])
  {
    if cut >= 4 { assert s[..cut][..4] == s[..4] && s[..cut][4..] == s[4..cut]; }
  }

  /** part is what a table reader makes of s cut short: a later cut is invisible, an
      earlier one is an error or a clean-looking end with nothing unread. */
  ghost predicate CutScanned(s: bytes, cut: nat, whole: Scan, part: Scan)
    requires whole.Ended?
  {
    var used := |s| - |whole.rest|;
    && used >= 0 && cut <= |s| && whole.rest == s[used..]
    && (cut >= used ==> part == Ended(whole.data, s[used..cut]))
    && (cut < used ==> part.Broken? || part.rest == [])
  }

  /** The same of a chunk and what follows it. */
  lemma CutBehindChunk(s: bytes, from: nat, cut: nat, p: bytes, whole: Scan, part: Scan)
    requires from <= cut <= |s| && whole.Ended? && CutScanned(s[from..], cut - from, whole, part)
    ensures CutScanned(s, cut, Prepend(p, whole), Prepend(p, part))
  {
    var used := |s| - from - |whole.rest|;
    SliceOfRest(s, from, used, |s| - from);
    if cut - from >= used {
      SliceOfRest(s, from, used, cut - from);
    }
  }

  /** Cutting a stream anywhere, inside a table or behind it. */
  lemma {:induction false} CutTable(s: bytes, cut: nat)
    requires cut <= |s| && TakeTable(s).Ended?
    ensures CutScanned(s, cut, TakeTable(s), TakeTable(s[..cut]))
    decreases |s|
  {
    if |s| <= 4 || FromU32(s[..4]) == 0 {
      CutLastLength(s, cut);
    } else {
      var n := FromU32(s[..4]);
      var p, next := s[4..4 + n], s[4 + n..];
      assert TakeTable(s) == Prepend(p, TakeTable(next));
      if cut >= 4 + n {
        CutTable(next, cut - 4 - n);
        assert TakeTable(s[..cut]) == Prepend(p, TakeTable(next[..cut - 4 - n])) by { CutFirstChunk(s, n, cut); }
        CutBehindChunk(s, 4 + n, cut, p, TakeTable(next), TakeTable(next[..cut - 4 - n]));
      } else {
        CutTable(next, 0);
        CutFirstChunk(s, n, cut);
        SliceOfRest(s, 4 + n, |next| - |TakeTable(next).rest|, |next|);
      }
    }
  }

  lemma CutBlock(s: bytes, cut: nat)
    requires cut <= |s| && TakeBlock(s).Got?
    ensures var whole := TakeBlock(s); var part := TakeBlock(s[..cut]);
            var used := |s| - |whole.rest|;
            && used >= 4 && whole.rest == s[used..]
            && (cut >= used ==> part == Got(whole.data, s[used..cut]))
            && (cut < used ==> part == NoBlock(if cut == 0 || cut == 4 then EOF else UnexpectedEOF))
  {
    var n := FromU32(s[..4]);
    var t := s[..cut];
    if cut >= 4 {
      assert t[..4] == s[..4];
      if cut >= 4 + n {
        assert t[4..4 + n] == s[4..4 + n];
        assert t[4 + n..] == s[4 + n..cut];
      }
    }
  }

  /** The cuts that a table reader cannot tell from the end of a table: before a
      length, or between a length and its data. */
  predicate Seam(writes: seq<bytes>, cut: nat) {
    if writes == [] then cut == 0 || cut == 4
    else if writes[0] == [] then Seam(writes[1..], cut)
    else
      || cut == 0 || cut == 4
      || (cut >= 4 + |writes[0]| && Seam(writes[1..], cut - 4 - |writes[0]|))
  }

  lemma CutChunk(p: bytes, tail: bytes, cut: nat)
    requires 0 < |p| <= MAX_BLOCK && cut <= |Chunk(p) + tail|
    ensures var scan := TakeTable((Chunk(p) + tail)[..cut]);
            if cut == 0 || cut == 4 then scan == Ended([], [])
            else if cut < 4 + |p| then scan == Broken([], UnexpectedEOF)
            else scan == Prepend(p, TakeTable(tail[..cut - 4 - |p|]))
  {
    var t := (Chunk(p) + tail)[..cut];
    if cut >= 4 + |p| {
      assert t == Chunk(p) + tail[..cut - 4 - |p|];
      TakeChunk(p, tail[..cut - 4 - |p|]);
    } else if cut >= 4 {
      assert t[..4] == U32(|p|);
    }
  }

  lemma CutTerminator(cut: nat)
    requires cut <= 4
    ensures TakeTable(U32(0)[..cut]) == if cut == 0 || cut == 4 then Ended([], []) else Broken([], UnexpectedEOF)
  {
    TakeTerminator([]);
    assert U32(0) + [] == U32(0) && U32(0)[..4] == U32(0);
  }

  /** How far a reader gets in a framed table cut short. */
  function CutScan(writes: seq<bytes>, cut: nat): Scan {
    if writes == [] || writes[0] != [] then
      if cut == 0 || cut == 4 then Ended([], [])
      else if writes == [] || cut < 4 + |writes[0]| then Broken([], UnexpectedEOF)
      else Prepend(writes[0], CutScan(writes[1..], cut - 4 - |writes[0]|))
    else CutScan(writes[1..], cut)
  }

  lemma {:induction false} CutScanReads(writes: seq<bytes>, cut: nat)
    requires Fits(writes) && cut <= |Framed(writes)|
    ensures TakeTable(Framed(writes)[..cut]) == CutScan(writes, cut)
  {
    if writes == [] {
      CutTerminator(cut);
    } else if writes[0] == [] {
      CutScanReads(writes[1..], cut);
      assert Framed(writes) == Framed(writes[1..]);
    } else {
      CutChunk(writes[0], Framed(writes[1..]), cut);
      if cut >= 4 + |writes[0]| {
        CutScanReads(writes[1..], cut - 4 - |writes[0]|);
      }
    }
  }

  /** The Writes that lie wholly before the cut. */
  function Delivered(writes: seq<bytes>, cut: nat): (whole: seq<bytes>)
    ensures whole <= writes
  {
    if writes == [] then []
    else if writes[0] == [] then [writes[0]] + Delivered(writes[1..], cut)
    else if cut >= 4 + |writes[0]| then [writes[0]] + Delivered(writes[1..], cut - 4 - |writes[0]|)
    else []
  }

  lemma {:induction false} CutScanAtSeams(writes: seq<bytes>, cut: nat)
    ensures CutScan(writes, cut).Ended? <==> Seam(writes, cut)
    ensures Seam(writes, cut) ==> CutScan(writes, cut) == Ended(Flatten(Delivered(writes, cut)), [])
  {
    if writes != [] && (writes[0] == [] || cut >= 4 + |writes[0]|) {
      var c := if writes[0] == [] then cut else cut - 4 - |writes[0]|;
      CutScanAtSeams(writes[1..], c);
      assert Delivered(writes, cut)[1..] == Delivered(writes[1..], c);
    }
  }

  /** A cut inside (or at the end of) a framed table reads cleanly exactly at a
      seam, and then delivers exactly the Writes wholly before it. */
  lemma CutFramed(writes: seq<bytes>, cut: nat)
    requires Fits(writes) && cut <= |Framed(writes)|
    ensures TakeTable(Framed(writes)[..cut]).Ended? <==> Seam(writes, cut)
    ensures Seam(writes, cut) ==> TakeTable(Framed(writes)[..cut]) == Ended(Flatten(Delivered(writes, cut)), [])
  {
    CutScanReads(writes, cut);
    CutScanAtSeams(writes, cut);
  }
}
