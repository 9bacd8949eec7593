/**
  Loading a blktrace file, after `blktrace.c`: trace records are read through a fifo that is refilled in large steps,
  each record is followed by a payload that is skipped, and the records become queued I/O pieces.
 */
module Blktrace {
  import opened Bits
  import opened Common
  import opened Fifo

  const TRACE_SIZE: nat := 48          // sizeof(struct blk_io_trace)

  // ----- Records

  /** The fields of `struct blk_io_trace` that are used. */
  datatype Trace = Trace(magic: nat, time: nat, sector: nat, bytes: nat, action: nat, cpu: nat, pduLen: nat)

  function LittleEndian(b: seq<Byte>): nat {
    if b == [] then 0 else b[0] + 256 * LittleEndian(b[1..])
  }

  function BigEndian(b: seq<Byte>): nat {
    if b == [] then 0 else 256 * BigEndian(b[..|b| - 1]) + b[|b| - 1]
  }

  /** One field on a little-endian machine; `byteswap_trace` makes a big-endian file readable. */
  function Field(b: seq<Byte>, at: nat, len: nat, swap: bool): nat {
    if at + len > |b| then 0
    else if swap then BigEndian(b[at..at + len]) else LittleEndian(b[at..at + len])
  }

  /** How the bytes of a record are understood. */
  type Parser = seq<Byte> -> Trace

  function Parse(swap: bool): Parser {
    (b: seq<Byte>) =>
    Trace(Field(b, 0, 4, swap), Field(b, 8, 8, swap), Field(b, 16, 8, swap), Field(b, 24, 4, swap),
          Field(b, 28, 4, swap), Field(b, 40, 4, swap), Field(b, 46, 2, swap))
  }

  /** Signature and version. */
  predicate Recognized(t: Trace) {
    t.magic / 256 == 0x656174 && t.magic % 256 == 7
  }

  // ----- The direct walk

  datatype Outcome = Loaded | Failed

  /**
    The records of a file and how reading it ends, when payloads of at most `limit` bytes can be skipped: well, at the
    end of the file or at a fragment of a record; badly, at an unknown signature or a payload that cannot be skipped.
   */
  function Walk(file: seq<Byte>, parse: Parser, limit: nat): (seq<Trace>, Outcome)
    decreases |file|
  {
    if |file| < TRACE_SIZE then ([], Loaded)
    else
      var t := parse(file[..TRACE_SIZE]);
      var rest := file[TRACE_SIZE..];
      if !Recognized(t) || t.pduLen > |rest| || t.pduLen > limit then ([], Failed)
      else
        var (ts, o) := Walk(rest[t.pduLen..], parse, limit);
        ([t] + ts, o)
  }

  /** The walk with no limit on payloads. */
  function DirectWalk(file: seq<Byte>, parse: Parser): (seq<Trace>, Outcome) {
    Walk(file, parse, |file|)
  }

  lemma {:induction false} HigherLimit(file: seq<Byte>, parse: Parser, low: nat, high: nat)
    requires low <= high
    ensures Walk(file, parse, low) == Walk(file, parse, high) <==>
      forall t :: t in Walk(file, parse, high).0 ==> t.pduLen <= low
    ensures |Walk(file, parse, low).0| <= |Walk(file, parse, high).0|
    decreases |file|
  {
    if |file| >= TRACE_SIZE {
      var t := parse(file[..TRACE_SIZE]);
      var rest := file[TRACE_SIZE..];
      if Recognized(t) && t.pduLen <= |rest| && t.pduLen <= high {
        assert t in Walk(file, parse, high).0;
        if t.pduLen <= low {
          HigherLimit(rest[t.pduLen..], parse, low, high);
          SameTail(t, Walk(rest[t.pduLen..], parse, low).0, Walk(rest[t.pduLen..], parse, high).0);
        }
      }
    }
  }

  lemma SameTail(t: Trace, a: seq<Trace>, b: seq<Trace>)
    ensures [t] + a == [t] + b <==> a == b
  {
    assert ([t] + a)[1..] == a && ([t] + b)[1..] == b;
  }

  /** The walk through the fifo finds what the direct walk finds exactly when no payload is longer than 8192 bytes. */
  lemma FifoWalkIsDirectIff(file: seq<Byte>, parse: Parser)
    ensures Walk(file, parse, 8192) == DirectWalk(file, parse) <==>
      forall t :: t in DirectWalk(file, parse).0 ==> t.pduLen <= 8192
  {
    if |file| <= 8192 {
      ShortPayloads(file, parse, 8192);
    } else {
      HigherLimit(file, parse, 8192, |file|);
    }
  }

  /** No payload is longer than what is left of the file. */
  lemma {:induction false} ShortPayloads(file: seq<Byte>, parse: Parser, limit: nat)
    requires limit >= |file|
    ensures forall t :: t in Walk(file, parse, limit).0 ==> t.pduLen <= |file|
    ensures Walk(file, parse, limit) == Walk(file, parse, |file|)
    decreases |file|
  {
    if |file| >= TRACE_SIZE {
      var t := parse(file[..TRACE_SIZE]);
      var rest := file[TRACE_SIZE..];
      if Recognized(t) && t.pduLen <= |rest| {
        ShortPayloads(rest[t.pduLen..], parse, limit);
        ShortPayloads(rest[t.pduLen..], parse, |file|);
      }
    }
  }

  // ----- What becomes of a record

  datatype Dir = Read | Write | Trim

  /** `struct io_piece`. */
  datatype Piece = Piece(offset: nat, len: nat, delay: nat, dir: Dir)

  datatype Options = Options(noStall: bool, readOnly: bool)

  /** What `load_blktrace` keeps between records. */
  datatype Load = Load(
    ttime: nat, cpu: nat,
    nrReads: nat, nrWrites: nat,       // ios[]
    readBs: nat, writeBs: nat,     // rw_bs[]
    skippedWrites: nat,
    size: nat,                     // td->o.size
    totalIo: nat,                  // td->total_io_size
    pieces: seq<Piece>             // td->io_log_list
  )

  // bits of the action word: categories are shifted by 16
  predicate IsQueue(t: Trace) { t.action % 0x1_0000 == 1 }
  predicate IsWrite(t: Trace) { Bit(t.action, 17) }
  predicate IsPc(t: Trace) { Bit(t.action, 25) }
  predicate IsNotify(t: Trace) { Bit(t.action, 26) }
  predicate IsDiscard(t: Trace) { Bit(t.action, 29) }

  /** `queue_io_piece`, and the size accounting that goes with it. */
  function Queue(l: Load, p: Piece): Load {
    l.(pieces := l.pieces + [p], totalIo := Wrap64(l.totalIo + p.len), size := Wrap64(l.size + p.len))
  }

  /** `handle_trace`. */
  function Handle(l: Load, t: Trace, delay: nat): Load {
    var offset := Wrap64(t.sector * 512);
    if !IsQueue(t) || IsPc(t) || IsNotify(t) then l
    else if IsDiscard(t) then
      Queue(l.(nrWrites := l.nrWrites + 1), Piece(offset, t.bytes, delay / 1000, Trim))
    else if IsWrite(t) then
      Queue(l.(nrWrites := l.nrWrites + 1, writeBs := Max(t.bytes, l.writeBs)),
            Piece(offset, t.bytes, delay / 1000, Write))
    else
      Queue(l.(nrReads := l.nrReads + 1, readBs := Max(t.bytes, l.readBs)), Piece(offset, t.bytes, delay / 1000, Read))
  }

  /** The body of the record loop. */
  function Process(l: Load, t: Trace, o: Options): Load {
    if IsNotify(t) then Handle(l, t, 0)
    else
      var ttime := if l.ttime == 0 then t.time else l.ttime;
      var cpu := if l.ttime == 0 then t.cpu else l.cpu;
      var delay := if cpu == t.cpu && !o.noStall then Wrap64(t.time - ttime) else 0;
      var handled := if IsWrite(t) && o.readOnly then l.(skippedWrites := l.skippedWrites + 1) else Handle(l, t, delay);
      handled.(ttime := t.time, cpu := t.cpu)
  }

  /** The state after a series of records, each of which is handed to `step`. */
  function Fold(step: (Load, Trace) -> Load, l: Load, ts: seq<Trace>): Load
    decreases ts
  {
    if ts == [] then l else Fold(step, step(l, ts[0]), ts[1..])
  }

  lemma FoldCons(step: (Load, Trace) -> Load, l: Load, t: Trace, ts: seq<Trace>)
    ensures Fold(step, l, [t] + ts) == Fold(step, step(l, t), ts)
  {
    assert ([t] + ts)[1..] == ts;
  }

  function Processor(o: Options): (Load, Trace) -> Load {
    (l, t) => Process(l, t, o)
  }

  function Start(totalIo: nat): Load {
    Load(0, 0, 0, 0, 0, 0, 0, 0, totalIo, [])
  }

  // ----- Conservation

  function SumLen(ps: seq<Piece>): nat {
    if ps == [] then 0 else SumLen(ps[..|ps| - 1]) + ps[|ps| - 1].len
  }

  function MaxLen(ps: seq<Piece>, dir: Dir): nat {
    if ps == [] then 0
    else
      var p := ps[|ps| - 1];
      if p.dir == dir then Max(p.len, MaxLen(ps[..|ps| - 1], dir)) else MaxLen(ps[..|ps| - 1], dir)
  }

  /** The totals describe the queued pieces. */
  ghost predicate Balanced(l: Load, totalIo: nat) {
    && l.size == Wrap64(SumLen(l.pieces))
    && l.totalIo == Wrap64(totalIo + SumLen(l.pieces))
    && l.nrReads + l.nrWrites == |l.pieces|
    && l.readBs == MaxLen(l.pieces, Read)
    && l.writeBs == MaxLen(l.pieces, Write)
  }

  lemma Wrap64Add(a: nat, b: nat)
    ensures Wrap64(Wrap64(a) + b) == Wrap64(a + b)
  {
    var m := 0x1_0000_0000_0000_0000;
    var q, r := a / m, a % m;
    var q', r' := (r + b) / m, (r + b) % m;
    assert a == m * q + r && r + b == m * q' + r';
    assert a + b == m * (q + q') + r';
    DivOf(m, q + q', r');
  }

  lemma QueueBalances(l: Load, t: Trace, o: Options, totalIo: nat)
    requires Balanced(l, totalIo)
    ensures Balanced(Process(l, t, o), totalIo)
  {
    var after := Process(l, t, o);
    if after.pieces != l.pieces {
      var p := after.pieces[|after.pieces| - 1];
      assert after.pieces[..|after.pieces| - 1] == l.pieces;
      Wrap64Add(SumLen(l.pieces), p.len);
      Wrap64Add(totalIo + SumLen(l.pieces), p.len);
    }
  }

  /** The size of the job is the sum of the lengths of its pieces, and the block sizes are the largest ones queued. */
  lemma {:induction false} FoldBalances(l: Load, ts: seq<Trace>, o: Options, totalIo: nat)
    requires Balanced(l, totalIo)
    ensures Balanced(Fold(Processor(o), l, ts), totalIo)
    decreases ts
  {
    if ts != [] {
      QueueBalances(l, ts[0], o, totalIo);
      FoldBalances(Process(l, ts[0], o), ts[1..], o, totalIo);
    }
  }

  // ----- Reading through the fifo

  /** A trace file that is read in full whenever it is read, and the fifo in front of it. */
  class TraceFile {
    const bytes: seq<Byte>
    var pos: nat
    const fifo: Fifo

    ghost predicate Valid()
      reads this, fifo, fifo.buffer
    {
      && fifo.Valid() && fifo.size == 8192
      && |fifo.Contents| <= pos <= |bytes|
      && fifo.Contents == bytes[pos - |fifo.Contents|..pos]
    }

    /** The bytes not yet handed out. */
    ghost function Rest(): seq<Byte>
      requires Valid()
      reads this, fifo, fifo.buffer
    {
      bytes[pos - |fifo.Contents|..]
    }

    constructor (bytes: seq<Byte>)
      ensures Valid() && this.bytes == bytes && Rest() == bytes && fresh(fifo) && fresh(fifo.buffer)
    {
      assert IsPow2(8192) by { assert Pow2(4) == 16; assert Pow2(8) == 256; assert Pow2(13) == 8192; }
      this.bytes, pos := bytes, 0;
      fifo := new Fifo(8192);
    }

    /** `refill_fifo`. */
    method Refill()
      requires Valid()
      modifies this, fifo, fifo.buffer
      ensures Valid() && Rest() == old(Rest()) && |fifo.Contents| == Min(8192, |old(Rest())|)
    {
      var total := Min(8192, fifo.Room());
      var data := bytes[pos..pos + Min(total, |bytes| - pos)];
      ghost var from := pos - |fifo.Contents|;
      assert bytes[from..pos] + data == bytes[from..pos + |data|];
      pos := pos + |data|;
      if |data| > 0 {
        var n := fifo.Put(data);
        assert data[..n] == data;
      }
    }

    /** `trace_fifo_get`: up to len bytes, as far as the file and one fill of the fifo allow. */
    method TraceFifoGet(len: nat, wanted: bool) returns (n: nat, data: seq<Byte>)
      requires Valid()
      modifies this, fifo, fifo.buffer
      ensures Valid() && n == Min(len, Min(8192, |old(Rest())|))
      ensures Rest() == old(Rest())[n..] && (wanted ==> data == old(Rest())[..n])
    {
      if fifo.Len() < len {
        Refill();
      }
      n, data := TakeBytes(len, wanted);
    }

    /** What the fifo holds is the beginning of the rest. */
    method TakeBytes(len: nat, wanted: bool) returns (n: nat, data: seq<Byte>)
      requires Valid()
      modifies fifo
      ensures Valid() && n == Min(len, |old(fifo.Contents)|)
      ensures Rest() == old(Rest())[n..] && (wanted ==> data == old(Rest())[..n])
    {
      ghost var rest := Rest();
      assert fifo.Contents <= rest;
      n, data := fifo.Get(len, wanted);
    }
  }

  /**
    One turn of the record loop up to the record's processing: the next record, whose payload has been skipped, or how
    reading ends.
   */
  method NextRecord(f: TraceFile, parse: Parser) returns (more: bool, t: Trace, outcome: Outcome)
    requires f.Valid()
    modifies f, f.fifo, f.fifo.buffer
    ensures f.Valid()
    ensures !more ==> Walk(old(f.Rest()), parse, 8192) == ([], outcome)
    ensures more ==> |f.Rest()| < |old(f.Rest())|
    ensures more ==> Walk(old(f.Rest()), parse, 8192).0 == [t] + Walk(f.Rest(), parse, 8192).0
    ensures more ==> Walk(old(f.Rest()), parse, 8192).1 == Walk(f.Rest(), parse, 8192).1
  {
    t := Trace(0, 0, 0, 0, 0, 0, 0);
    var n, data := f.TraceFifoGet(TRACE_SIZE, true);
    if n == 0 || n < TRACE_SIZE {
      return false, t, Loaded;
    }
    t := parse(data);
    if !Recognized(t) {
      return false, t, Failed;
    }
    // discard_pdu
    var skipped := 0;
    if t.pduLen != 0 {
      skipped, data := f.TraceFifoGet(t.pduLen, false);
    }
    return skipped == t.pduLen, t, Failed;
  }

  /** The record loop of `load_blktrace`, whatever is done with a record. */
  method ReadRecords(file: seq<Byte>, parse: Parser, step: (Load, Trace) -> Load, start: Load)
    returns (l: Load, outcome: Outcome)
    ensures l == Fold(step, start, Walk(file, parse, 8192).0)
    ensures outcome == Walk(file, parse, 8192).1
  {
    var f := new TraceFile(file);
    l := start;
    var more, t := true, Trace(0, 0, 0, 0, 0, 0, 0);
    outcome := Loaded;
    while more
      invariant f.Valid() && fresh(f) && fresh(f.fifo) && fresh(f.fifo.buffer)
      invariant Fold(step, start, Walk(file, parse, 8192).0) ==
        if more then Fold(step, l, Walk(f.Rest(), parse, 8192).0) else l
      invariant Walk(file, parse, 8192).1 == if more then Walk(f.Rest(), parse, 8192).1 else outcome
      decreases more, |f.Rest()|
    {
      more, t, outcome := NextRecord(f, parse);
      if more {
        FoldCons(step, l, t, Walk(f.Rest(), parse, 8192).0);
        l := step(l, t);
      }
    }
  }

  /** `load_blktrace`, up to closing the file: the records of the walk, each processed in turn. */
  method LoadTrace(file: seq<Byte>, swap: bool, o: Options, totalIo: nat) returns (l: Load, outcome: Outcome)
    requires totalIo < 0x1_0000_0000_0000_0000
    ensures l == Fold(Processor(o), Start(totalIo), Walk(file, Parse(swap), 8192).0) && Balanced(l, totalIo)
    ensures outcome == Walk(file, Parse(swap), 8192).1
  {
    l, outcome := ReadRecords(file, Parse(swap), Processor(o), Start(totalIo));
    FoldBalances(Start(totalIo), Walk(file, Parse(swap), 8192).0, o, totalIo);
  }
}
