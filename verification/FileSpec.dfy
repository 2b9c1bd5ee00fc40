/**
 What reading and writing a file through file_descriptor.c means: a file is a
 partial map from page numbers to pages of bytes, and a run of descriptor
 operations is compared with a log of the bytes written.
 */
module FileSpec {
  import opened Machine

  type u8 = x: int | 0 <= x < 256

  type View = map<nat, seq<u8>>

  function ZeroPage(): (page: seq<u8>)
    ensures |page| == PAGE_SIZE && forall k :: 0 <= k < PAGE_SIZE ==> page[k] == 0
  {
    seq(PAGE_SIZE, i => 0)
  }

  ghost predicate FullPages(v: View) {
    forall p :: p in v ==> |v[p]| == PAGE_SIZE
  }

  /** `page` with `bytes` written from `at` on. */
  function Splice(page: seq<u8>, at: nat, bytes: seq<u8>): (out: seq<u8>)
    requires at + |bytes| <= |page|
    ensures |out| == |page|
  {
    page[..at] + bytes + page[at + |bytes|..]
  }

  function Min(a: nat, b: nat): nat {
    if a < b then a else b
  }

  function Max(a: nat, b: nat): nat {
    if a > b then a else b
  }

  /** Bytes left in the page of `offset`, at most `left`. */
  function Chunk(offset: u64, left: nat): (n: nat)
    ensures n <= left && offset % PAGE_SIZE + n <= PAGE_SIZE && (left > 0 ==> n > 0)
  {
    Min(left, PAGE_SIZE - offset % PAGE_SIZE)
  }

  /** find_page_start: a missing page is added, unless the file is already said to
      reach past the offset. */
  function Touch(v: View, offset: u64, fileSize: u64): Outcome<View> {
    if offset / PAGE_SIZE in v then Done(v)
    else if offset >= fileSize then Done(v[offset / PAGE_SIZE := ZeroPage()])
    else Halt
  }

  /** The file with `bytes` written into one existing page. */
  function Put(v: View, page: nat, at: nat, bytes: seq<u8>): View {
    if page in v && at + |bytes| <= |v[page]| then v[page := Splice(v[page], at, bytes)] else v
  }

  /** `count` bytes of one existing page. */
  function Cut(v: View, page: nat, at: nat, count: nat): seq<u8> {
    if page in v && at + count <= |v[page]| then v[page][at..at + count] else []
  }

  /** A write, page by page. */
  function WriteRun(v: View, offset: u64, bytes: seq<u8>, fileSize: u64): Outcome<View>
    decreases |bytes|
  {
    if bytes == [] then Done(v)
    else if Touch(v, offset, fileSize).Halt? then Halt
    else
      WriteRun(Put(Touch(v, offset, fileSize).value, offset / PAGE_SIZE, offset % PAGE_SIZE, bytes[..Chunk(offset, |bytes|)]),
               Add64(offset, Chunk(offset, |bytes|)), bytes[Chunk(offset, |bytes|)..], fileSize)
  }

  /** A read, page by page; a page it needs must be there. */
  function ReadRun(v: View, offset: u64, left: nat): Outcome<seq<u8>>
    decreases left
  {
    if left == 0 then Done([])
    else if offset / PAGE_SIZE !in v then Halt
    else
      match ReadRun(v, Add64(offset, Chunk(offset, left)), left - Chunk(offset, left))
      case Halt => Halt
      case Done(rest) => Done(Cut(v, offset / PAGE_SIZE, offset % PAGE_SIZE, Chunk(offset, left)) + rest)
  }

  // ---- what they come to, byte by byte ----

  /** The byte at an offset; 0 where there is no page. */
  function ByteAt(v: View, offset: u64): u8 {
    if offset / PAGE_SIZE in v && offset % PAGE_SIZE < |v[offset / PAGE_SIZE]|
    then v[offset / PAGE_SIZE][offset % PAGE_SIZE] else 0
  }

  /** Distance from one offset up to another, around the end of the range. */
  function Ahead(from: u64, to: u64): u64 {
    Sub64(to, from)
  }

  /** The outcome of a write of `bytes` at `offset`: the written offsets hold the
      bytes, all other bytes are as before, and a byte of a page that the write
      added is zero. */
  ghost predicate WrittenAt(v: View, w: View, offset: u64, bytes: seq<u8>) {
    && FullPages(v) && FullPages(w) && v.Keys <= w.Keys
    && (forall o: u64 :: Ahead(offset, o) < |bytes| ==> o / PAGE_SIZE in w && ByteAt(w, o) == bytes[Ahead(offset, o)])
    && (forall o: u64 :: Ahead(offset, o) >= |bytes| && o / PAGE_SIZE in v ==> ByteAt(w, o) == ByteAt(v, o))
    && (forall o: u64 :: Ahead(offset, o) >= |bytes| && o / PAGE_SIZE in w && o / PAGE_SIZE !in v ==> ByteAt(w, o) == 0)
  }

  /** Offsets of one chunk. */
  lemma ChunkOffsets(offset: u64, n: nat, o: u64)
    requires offset % PAGE_SIZE + n <= PAGE_SIZE
    ensures Ahead(offset, o) < n <==>
            o / PAGE_SIZE == offset / PAGE_SIZE && offset % PAGE_SIZE <= o % PAGE_SIZE < offset % PAGE_SIZE + n
    ensures Ahead(offset, o) < n ==> Ahead(offset, o) == o % PAGE_SIZE - offset % PAGE_SIZE
  {
    var p, a := offset / PAGE_SIZE, offset % PAGE_SIZE;
    var q, b := o / PAGE_SIZE, o % PAGE_SIZE;
    assert offset == p * PAGE_SIZE + a && o == q * PAGE_SIZE + b;
    assert p < 0x10_0000_0000_0000 && q < 0x10_0000_0000_0000;
    if o >= offset {
      assert Ahead(offset, o) == o - offset;
    } else {
      assert Ahead(offset, o) == o - offset + TWO_TO_64;
    }
  }

  /** The offsets after the first `n` of a range. */
  lemma AheadShift(offset: u64, n: nat, o: u64)
    requires n < TWO_TO_64
    ensures Ahead(Add64(offset, n), o) == if Ahead(offset, o) >= n then Ahead(offset, o) - n else Ahead(offset, o) - n + TWO_TO_64
  {
    assert Ahead(offset, o) == if o >= offset then o - offset else o - offset + TWO_TO_64;
    assert Add64(offset, n) == if offset + n < TWO_TO_64 then offset + n else offset + n - TWO_TO_64;
  }

  /** One chunk of a write. */
  lemma ChunkWritten(v: View, offset: u64, bytes: seq<u8>, fileSize: u64)
    requires FullPages(v) && offset % PAGE_SIZE + |bytes| <= PAGE_SIZE
    requires Touch(v, offset, fileSize).Done?
    ensures WrittenAt(v, Put(Touch(v, offset, fileSize).value, offset / PAGE_SIZE, offset % PAGE_SIZE, bytes), offset, bytes)
  {
    var w := Put(Touch(v, offset, fileSize).value, offset / PAGE_SIZE, offset % PAGE_SIZE, bytes);
    forall o: u64
      ensures Ahead(offset, o) < |bytes| ==> o / PAGE_SIZE in w && ByteAt(w, o) == bytes[Ahead(offset, o)]
      ensures Ahead(offset, o) >= |bytes| && o / PAGE_SIZE in v ==> ByteAt(w, o) == ByteAt(v, o)
      ensures Ahead(offset, o) >= |bytes| && o / PAGE_SIZE in w && o / PAGE_SIZE !in v ==> ByteAt(w, o) == 0
    {
      ChunkOffsets(offset, |bytes|, o);
    }
  }

  /** Two writes one after the other are one write of both. */
  lemma WrittenTwice(v: View, w: View, x: View, offset: u64, bytes: seq<u8>, n: nat)
    requires n <= |bytes| <= TWO_TO_64 && n < TWO_TO_64
    requires WrittenAt(v, w, offset, bytes[..n]) && WrittenAt(w, x, Add64(offset, n), bytes[n..])
    ensures WrittenAt(v, x, offset, bytes)
  {
    forall o: u64
      ensures Ahead(offset, o) < |bytes| ==> o / PAGE_SIZE in x && ByteAt(x, o) == bytes[Ahead(offset, o)]
      ensures Ahead(offset, o) >= |bytes| && o / PAGE_SIZE in v ==> ByteAt(x, o) == ByteAt(v, o)
      ensures Ahead(offset, o) >= |bytes| && o / PAGE_SIZE in x && o / PAGE_SIZE !in v ==> ByteAt(x, o) == 0
    {
      AheadShift(offset, n, o);
    }
  }

  /** A write that does not halt stores exactly its bytes at exactly its offsets. */
  lemma {:induction false} WriteStores(v: View, offset: u64, bytes: seq<u8>, fileSize: u64)
    requires FullPages(v) && |bytes| <= TWO_TO_64
    requires WriteRun(v, offset, bytes, fileSize).Done?
    ensures WrittenAt(v, WriteRun(v, offset, bytes, fileSize).value, offset, bytes)
    decreases |bytes|
  {
    if bytes != [] {
      var n := Chunk(offset, |bytes|);
      var w := Put(Touch(v, offset, fileSize).value, offset / PAGE_SIZE, offset % PAGE_SIZE, bytes[..n]);
      ChunkWritten(v, offset, bytes[..n], fileSize);
      WriteStores(w, Add64(offset, n), bytes[n..], fileSize);
      WrittenTwice(v, w, WriteRun(v, offset, bytes, fileSize).value, offset, bytes, n);
    }
  }

  // ---- when a write halts ----

  /** The offset of the i-th byte of a run. */
  function At(offset: u64, i: nat): u64 {
    (offset + i) % TWO_TO_64
  }

  /** The i-th byte of a run is the first the run has in its page. */
  ghost predicate FirstInPage(offset: u64, i: nat) {
    forall j: nat :: j < i ==> At(offset, j) / PAGE_SIZE != At(offset, i) / PAGE_SIZE
  }

  /** Some byte of a run lies in a page that does not exist. */
  ghost predicate Missing(v: View, offset: u64, count: nat) {
    exists i: nat :: i < count && At(offset, i) / PAGE_SIZE !in v
  }

  lemma MissingSplit(v: View, offset: u64, n: nat, count: nat)
    requires 0 < n <= count && offset % PAGE_SIZE + n <= PAGE_SIZE
    ensures Missing(v, offset, count) <==> offset / PAGE_SIZE !in v || Missing(v, Add64(offset, n), count - n)
  {
    assert At(offset, 0) == offset;
    if Missing(v, offset, count) {
      var i: nat :| i < count && At(offset, i) / PAGE_SIZE !in v;
      if i < n {
        SamePage(offset, i);
      } else {
        AtShift(offset, n, i);
        assert At(Add64(offset, n), i - n) / PAGE_SIZE !in v;
      }
    }
    if Missing(v, Add64(offset, n), count - n) {
      var i: nat :| i < count - n && At(Add64(offset, n), i) / PAGE_SIZE !in v;
      AtShift(offset, n, i + n);
      assert At(offset, i + n) / PAGE_SIZE !in v;
    }
  }

  /** A read halts exactly when a page it needs is missing. */
  lemma {:induction false} ReadHalts(v: View, offset: u64, left: nat)
    ensures ReadRun(v, offset, left).Halt? <==> Missing(v, offset, left)
    decreases left
  {
    if left > 0 {
      var n := Chunk(offset, left);
      ReadHalts(v, Add64(offset, n), left - n);
      MissingSplit(v, offset, n, left);
    }
  }

  /** The bytes are those at the offsets of a run. */
  ghost predicate BytesAt(v: View, offset: u64, bytes: seq<u8>) {
    forall i :: 0 <= i < |bytes| ==> bytes[i] == ByteAt(v, At(offset, i))
  }

  /** A read of existing pages returns exactly the bytes at its offsets. */
  lemma {:induction false} ReadReturns(v: View, offset: u64, left: nat)
    requires FullPages(v) && ReadRun(v, offset, left).Done?
    ensures |ReadRun(v, offset, left).value| == left
    ensures BytesAt(v, offset, ReadRun(v, offset, left).value)
    decreases left
  {
    if left > 0 {
      var n := Chunk(offset, left);
      ReadReturns(v, Add64(offset, n), left - n);
      var rest := ReadRun(v, Add64(offset, n), left - n).value;
      ReadChunk(v, offset, n, rest);
      assert ReadRun(v, offset, left).value == Cut(v, offset / PAGE_SIZE, offset % PAGE_SIZE, n) + rest;
    }
  }

  lemma ReadChunk(v: View, offset: u64, n: nat, rest: seq<u8>)
    requires FullPages(v) && offset / PAGE_SIZE in v && offset % PAGE_SIZE + n <= PAGE_SIZE
    requires BytesAt(v, Add64(offset, n), rest)
    ensures |Cut(v, offset / PAGE_SIZE, offset % PAGE_SIZE, n)| == n
    ensures BytesAt(v, offset, Cut(v, offset / PAGE_SIZE, offset % PAGE_SIZE, n) + rest)
  {
    var head := Cut(v, offset / PAGE_SIZE, offset % PAGE_SIZE, n);
    forall i | 0 <= i < n + |rest|
      ensures (head + rest)[i] == ByteAt(v, At(offset, i))
    {
      if i < n {
        SamePage(offset, i);
      } else {
        AtShift(offset, n, i);
      }
    }
  }

  lemma SamePage(offset: u64, i: nat)
    requires offset % PAGE_SIZE + i < PAGE_SIZE
    ensures At(offset, i) / PAGE_SIZE == offset / PAGE_SIZE && At(offset, i) % PAGE_SIZE == offset % PAGE_SIZE + i
  {
    var p, a := offset / PAGE_SIZE, offset % PAGE_SIZE;
    assert offset == p * PAGE_SIZE + a && p < 0x10_0000_0000_0000;
    assert offset + i == p * PAGE_SIZE + (a + i) < TWO_TO_64;
  }

  lemma AtShift(offset: u64, n: nat, i: nat)
    requires n <= i && n < TWO_TO_64
    ensures At(offset, i) == At(Add64(offset, n), i - n)
  {
  }

  /** The i-th byte of a write stops it: it opens a page that does not exist, at an
      offset below the recorded size. */
  ghost predicate Blocked(v: View, offset: u64, fileSize: u64, i: nat) {
    FirstInPage(offset, i) && At(offset, i) / PAGE_SIZE !in v && At(offset, i) < fileSize
  }

  /** A write halts exactly when some page it opens is missing although the file is
      said to reach past that point. */
  lemma {:induction false} WriteHalts(v: View, offset: u64, bytes: seq<u8>, fileSize: u64)
    requires FullPages(v)
    ensures WriteRun(v, offset, bytes, fileSize).Halt? <==> exists i: nat :: i < |bytes| && Blocked(v, offset, fileSize, i)
    decreases |bytes|
  {
    if bytes != [] {
      var n := Chunk(offset, |bytes|);
      assert At(offset, 0) == offset && FirstInPage(offset, 0);
      if Touch(v, offset, fileSize).Halt? {
        assert Blocked(v, offset, fileSize, 0);
      } else {
        var w := Put(Touch(v, offset, fileSize).value, offset / PAGE_SIZE, offset % PAGE_SIZE, bytes[..n]);
        assert w.Keys == v.Keys + {offset / PAGE_SIZE};
        WriteHalts(w, Add64(offset, n), bytes[n..], fileSize);
        forall i: nat | i < |bytes|
          ensures i < n ==> !Blocked(v, offset, fileSize, i)
          ensures i >= n ==> (Blocked(v, offset, fileSize, i) <==> Blocked(w, Add64(offset, n), fileSize, i - n))
        {
          if i < n {
            SamePage(offset, i);
          } else {
            BlockedShift(v, w, offset, fileSize, n, i);
          }
        }
        if WriteRun(w, Add64(offset, n), bytes[n..], fileSize).Halt? {
          var i: nat :| i < |bytes| - n && Blocked(w, Add64(offset, n), fileSize, i);
          assert Blocked(v, offset, fileSize, i + n);
        }
      }
    }
  }

  lemma BlockedShift(v: View, w: View, offset: u64, fileSize: u64, n: nat, i: nat)
    requires 0 < n <= i && offset % PAGE_SIZE + n <= PAGE_SIZE
    requires w.Keys == v.Keys + {offset / PAGE_SIZE}
    ensures Blocked(v, offset, fileSize, i) <==> Blocked(w, Add64(offset, n), fileSize, i - n)
  {
    AtShift(offset, n, i);
    assert At(offset, 0) == offset;
    forall j: nat | j < i
      ensures j < n ==> At(offset, j) / PAGE_SIZE == offset / PAGE_SIZE
      ensures j >= n ==> At(offset, j) == At(Add64(offset, n), j - n)
    {
      if j < n {
        SamePage(offset, j);
      } else {
        AtShift(offset, n, j);
      }
    }
    forall j: nat | j < i - n
      ensures At(Add64(offset, n), j) == At(offset, j + n)
    {
      AtShift(offset, n, j + n);
    }
  }

  /** A write adds exactly the pages its bytes lie in. */
  ghost predicate Reaches(offset: u64, count: nat, page: nat) {
    exists i: nat :: i < count && At(offset, i) / PAGE_SIZE == page
  }

  lemma {:induction false} WritePages(v: View, offset: u64, bytes: seq<u8>, fileSize: u64, page: nat)
    requires FullPages(v) && WriteRun(v, offset, bytes, fileSize).Done?
    ensures page in WriteRun(v, offset, bytes, fileSize).value <==> page in v || Reaches(offset, |bytes|, page)
    decreases |bytes|
  {
    if bytes != [] {
      var n := Chunk(offset, |bytes|);
      var w := Put(Touch(v, offset, fileSize).value, offset / PAGE_SIZE, offset % PAGE_SIZE, bytes[..n]);
      assert w.Keys == v.Keys + {offset / PAGE_SIZE};
      WritePages(w, Add64(offset, n), bytes[n..], fileSize, page);
      ReachSplit(offset, n, |bytes|, page);
    }
  }

  lemma ReachSplit(offset: u64, n: nat, count: nat, page: nat)
    requires 0 < n <= count && offset % PAGE_SIZE + n <= PAGE_SIZE
    ensures Reaches(offset, count, page) <==> page == offset / PAGE_SIZE || Reaches(Add64(offset, n), count - n, page)
  {
    assert At(offset, 0) == offset;
    if Reaches(offset, count, page) {
      var i: nat :| i < count && At(offset, i) / PAGE_SIZE == page;
      if i < n {
        SamePage(offset, i);
      } else {
        AtShift(offset, n, i);
        assert At(Add64(offset, n), i - n) / PAGE_SIZE == page;
      }
    }
    if Reaches(Add64(offset, n), count - n, page) {
      var i: nat :| i < count - n && At(Add64(offset, n), i) / PAGE_SIZE == page;
      AtShift(offset, n, i + n);
      assert At(offset, i + n) / PAGE_SIZE == page;
    }
  }

  // ---- runs of descriptor operations ----

  /** A file and the seek positions of its descriptors. */
  datatype State = State(view: View, size: u64, seeks: map<nat, u64>)

  datatype Op =
    | Seek(desc: nat, pos: u64)
    | Write(desc: nat, bytes: seq<u8>)
    | Read(desc: nat, count: u64)

  predicate OpOk(s: State, op: Op) {
    op.desc in s.seeks && (op.Write? ==> |op.bytes| < TWO_TO_64)
  }

  /** Bytes a read of `count` may return: none past the recorded size. */
  function ReadSize(size: u64, seek: u64, count: u64): u64 {
    if seek > size then 0 else Min(count, size - seek)
  }

  /** file_descriptor_seek, _write and _read: the new state and the bytes read. */
  function Step(s: State, op: Op): Outcome<(State, seq<u8>)>
    requires OpOk(s, op)
  {
    match op
    case Seek(d, pos) => Done((s.(seeks := s.seeks[d := pos]), []))
    case Write(d, bytes) =>
      (match WriteRun(s.view, s.seeks[d], bytes, s.size)
       case Halt => Halt
       case Done(v) =>
         Done((State(v, Max(s.size, Add64(|bytes|, Add64(s.seeks[d], |bytes|))),
                     s.seeks[d := Add64(s.seeks[d], |bytes|)]), [])))
    case Read(d, count) =>
      (match ReadRun(s.view, s.seeks[d], ReadSize(s.size, s.seeks[d], count))
       case Halt => Halt
       case Done(out) =>
         Done((s.(seeks := s.seeks[d := Add64(s.seeks[d], ReadSize(s.size, s.seeks[d], count))]), out)))
  }

  /** The log of a run: for every offset ever written, the last byte written. */
  type Log = map<u64, u8>

  function Logged(log: Log, o: u64): u8 {
    if o in log then log[o] else 0
  }

  /** The log after `bytes` were written from `seek` on. */
  function LogWrite(log: Log, seek: u64, bytes: seq<u8>): Log {
    map o: u64 | o in log || Ahead(seek, o) < |bytes| ::
      if Ahead(seek, o) < |bytes| then bytes[Ahead(seek, o)] else log[o]
  }

  function LogStep(log: Log, s: State, op: Op): Log
    requires OpOk(s, op)
  {
    match op
    case Write(d, bytes) => LogWrite(log, s.seeks[d], bytes)
    case _ => log
  }

  /** The file holds what the log says, and zero where the log says nothing; every
      logged offset has a page. */
  ghost predicate Agrees(v: View, log: Log) {
    && FullPages(v)
    && (forall o :: o in log ==> o / PAGE_SIZE in v)
    && (forall o: u64 :: o / PAGE_SIZE in v ==> ByteAt(v, o) == Logged(log, o))
  }

  /** The bytes are what the log says about the offsets from `seek` on. */
  ghost predicate AsLogged(out: seq<u8>, log: Log, seek: u64) {
    seek + |out| <= TWO_TO_64 && forall i :: 0 <= i < |out| ==> out[i] == Logged(log, seek + i)
  }

  lemma WriteAgrees(v: View, w: View, log: Log, seek: u64, bytes: seq<u8>)
    requires Agrees(v, log) && WrittenAt(v, w, seek, bytes)
    ensures Agrees(w, LogWrite(log, seek, bytes))
  {
    var after := LogWrite(log, seek, bytes);
    forall o: u64 | o / PAGE_SIZE in w
      ensures ByteAt(w, o) == Logged(after, o)
    {
      if Ahead(seek, o) >= |bytes| && o / PAGE_SIZE !in v {
        assert o !in log;
      }
    }
  }

  lemma PagesThere(v: View, seek: u64, n: nat, i: nat)
    requires !Missing(v, seek, n) && i < n && seek + i < TWO_TO_64
    ensures At(seek, i) == seek + i && (seek + i) / PAGE_SIZE in v
  {
    NoWrap(seek, i);
    assert !(At(seek, i) / PAGE_SIZE !in v);
  }

  lemma ReadAgrees(v: View, log: Log, seek: u64, n: nat)
    requires Agrees(v, log) && seek + n < TWO_TO_64 && ReadRun(v, seek, n).Done?
    ensures |ReadRun(v, seek, n).value| == n && AsLogged(ReadRun(v, seek, n).value, log, seek)
  {
    ReadReturns(v, seek, n);
    ReadHalts(v, seek, n);
    BytesLogged(v, log, seek, ReadRun(v, seek, n).value);
  }

  lemma BytesLogged(v: View, log: Log, seek: u64, out: seq<u8>)
    requires Agrees(v, log) && seek + |out| < TWO_TO_64 && BytesAt(v, seek, out) && !Missing(v, seek, |out|)
    ensures AsLogged(out, log, seek)
  {
    forall i | 0 <= i < |out|
      ensures out[i] == Logged(log, seek + i)
    {
      PagesThere(v, seek, |out|, i);
    }
  }

  /** One operation: the file keeps agreeing with the log; a read returns, for the
      offsets from the seek position on, exactly what the log says, as many bytes
      as asked for and recorded, and moves the seek position by that many. */
  lemma StepAgrees(s: State, op: Op, log: Log)
    requires OpOk(s, op) && Agrees(s.view, log) && Step(s, op).Done?
    ensures Agrees(Step(s, op).value.0.view, LogStep(log, s, op))
    ensures op.Read? ==>
              var out, seek := Step(s, op).value.1, s.seeks[op.desc];
              && |out| == ReadSize(s.size, seek, op.count)
              && Step(s, op).value.0.seeks[op.desc] == seek + |out|
              && AsLogged(out, log, seek)
  {
    match op
    case Seek(_, _) =>
    case Write(d, bytes) =>
      var w := WriteRun(s.view, s.seeks[d], bytes, s.size).value;
      WriteStores(s.view, s.seeks[d], bytes, s.size);
      WriteAgrees(s.view, w, log, s.seeks[d], bytes);
    case Read(d, count) =>
      ReadAgrees(s.view, log, s.seeks[d], ReadSize(s.size, s.seeks[d], count));
  }

  /** One step of a run. */
  ghost predicate Goes(s: State, op: Op, t: State, out: seq<u8>) {
    OpOk(s, op) && Step(s, op) == Done((t, out))
  }

  /** A run that no operation halted: the states passed through and the bytes each
      operation returned. */
  ghost predicate IsRun(ops: seq<Op>, states: seq<State>, outs: seq<seq<u8>>) {
    && |states| == |ops| + 1 && |outs| == |ops|
    && forall k :: 0 <= k < |ops| ==> Goes(states[k], ops[k], states[k + 1], outs[k])
  }

  ghost function LogAfter(ops: seq<Op>, states: seq<State>, k: nat): Log
    requires k <= |ops| <= |states|
    requires forall j :: 0 <= j < k ==> OpOk(states[j], ops[j])
  {
    if k == 0 then map[] else LogStep(LogAfter(ops, states, k - 1), states[k - 1], ops[k - 1])
  }

  /** Over every run from an empty file the file agrees with the log. */
  lemma {:induction false} RunAgrees(ops: seq<Op>, states: seq<State>, outs: seq<seq<u8>>, k: nat)
    requires IsRun(ops, states, outs) && k <= |ops| && states[0].view == map[]
    ensures forall j :: 0 <= j < k ==> OpOk(states[j], ops[j])
    ensures Agrees(states[k].view, LogAfter(ops, states, k))
  {
    forall j | 0 <= j < k
      ensures OpOk(states[j], ops[j])
    {
      assert Goes(states[j], ops[j], states[j + 1], outs[j]);
    }
    if k > 0 {
      RunAgrees(ops, states, outs, k - 1);
      assert Goes(states[k - 1], ops[k - 1], states[k], outs[k - 1]);
      StepAgrees(states[k - 1], ops[k - 1], LogAfter(ops, states, k - 1));
    }
  }

  /** Over every run from an empty file, through any number of descriptors, every
      byte read is the last byte written at its offset, or zero if that offset was
      never written. */
  lemma RunReads(ops: seq<Op>, states: seq<State>, outs: seq<seq<u8>>, k: nat)
    requires IsRun(ops, states, outs) && k < |ops| && states[0].view == map[] && ops[k].Read?
    ensures forall j :: 0 <= j < k ==> OpOk(states[j], ops[j])
    ensures ops[k].desc in states[k].seeks
    ensures var seek := states[k].seeks[ops[k].desc];
            && |outs[k]| == ReadSize(states[k].size, seek, ops[k].count)
            && AsLogged(outs[k], LogAfter(ops, states, k), seek)
  {
    RunAgrees(ops, states, outs, k);
    assert Goes(states[k], ops[k], states[k + 1], outs[k]);
    StepAgrees(states[k], ops[k], LogAfter(ops, states, k));
  }

  // ---- the recorded size ----

  /** A write from `seek` records the end of its data exactly when it is empty or
      the file was already recorded to be that much longer: the source adds the
      count to a seek position that has already moved. */
  lemma RecordedSize(s: State, d: nat, bytes: seq<u8>)
    requires OpOk(s, Write(d, bytes)) && Step(s, Write(d, bytes)).Done?
    requires s.seeks[d] + 2 * |bytes| < TWO_TO_64
    ensures var after := Step(s, Write(d, bytes)).value.0;
            after.size == Max(s.size, s.seeks[d] + |bytes|) <==> bytes == [] || s.size >= s.seeks[d] + 2 * |bytes|
  {
    assert Add64(s.seeks[d], |bytes|) == s.seeks[d] + |bytes|;
    assert Add64(|bytes|, s.seeks[d] + |bytes|) == s.seeks[d] + 2 * |bytes|;
  }

  function PageUp(n: nat): nat {
    (n + PAGE_SIZE - 1) / PAGE_SIZE * PAGE_SIZE
  }

  lemma NoWrap(offset: u64, i: nat)
    requires offset + i < TWO_TO_64
    ensures At(offset, i) == offset + i
  {
  }

  lemma ReachesFromZero(n: nat, page: nat)
    requires n < TWO_TO_64
    ensures Reaches(0, n, page) <==> page * PAGE_SIZE < n
  {
    if page * PAGE_SIZE < n {
      NoWrap(0, page * PAGE_SIZE);
      assert At(0, page * PAGE_SIZE) / PAGE_SIZE == page;
    }
    if Reaches(0, n, page) {
      var j: nat :| j < n && At(0, j) / PAGE_SIZE == page;
      NoWrap(0, j);
    }
  }

  lemma PageStart(x: nat)
    requires x > 0
    ensures x % PAGE_SIZE == 0 ==> (x - 1) / PAGE_SIZE < x / PAGE_SIZE
    ensures x % PAGE_SIZE != 0 ==> (x - 1) / PAGE_SIZE == x / PAGE_SIZE
  {
  }

  lemma FirstPlain(offset: u64, i: nat)
    requires offset + i < TWO_TO_64
    ensures FirstInPage(offset, i) <==> i == 0 || (offset + i) % PAGE_SIZE == 0
  {
    NoWrap(offset, i);
    if i > 0 {
      NoWrap(offset, i - 1);
      PageStart(offset + i);
      if (offset + i) % PAGE_SIZE == 0 {
        forall j: nat | j < i
          ensures At(offset, j) / PAGE_SIZE != At(offset, i) / PAGE_SIZE
        {
          NoWrap(offset, j);
          assert (offset + j) / PAGE_SIZE <= (offset + i - 1) / PAGE_SIZE;
        }
      }
    }
  }

  /** The bytes that stop a second write: those that start a page within the
      doubled size. */
  lemma AppendBlocked(v: View, n: nat, i: nat)
    requires 0 < n < 0x1_0000_0000 && i < 0x1_0000_0000
    requires forall page: nat :: page in v <==> Reaches(0, n, page)
    ensures Blocked(v, n, 2 * n, i) <==> (n + i) % PAGE_SIZE == 0 && i < n
  {
    NoWrap(n, i);
    FirstPlain(n, i);
    ReachesFromZero(n, (n + i) / PAGE_SIZE);
    var page := (n + i) / PAGE_SIZE;
    assert n + i == page * PAGE_SIZE + (n + i) % PAGE_SIZE;
  }

  lemma NextPage(n: nat, i: nat)
    ensures PageUp(n) >= n && PageUp(n) % PAGE_SIZE == 0
    ensures (n + i) % PAGE_SIZE == 0 ==> n + i >= PageUp(n)
  {
    var q := (n + PAGE_SIZE - 1) / PAGE_SIZE;
    if (n + i) % PAGE_SIZE == 0 {
      assert (n + i) / PAGE_SIZE >= q;
    }
  }

  lemma BlockedEarly(v: View, n: nat, m: nat, i: nat)
    requires 0 < n < 0x1_0000_0000 && i < m < 0x1_0000_0000
    requires forall page: nat :: page in v <==> Reaches(0, n, page)
    requires Blocked(v, n, 2 * n, i)
    ensures n + m > PageUp(n) && PageUp(n) < 2 * n
  {
    AppendBlocked(v, n, i);
    NextPage(n, i);
  }

  lemma BlockedAtPageUp(v: View, n: nat, m: nat)
    requires 0 < n < 0x1_0000_0000 && m < 0x1_0000_0000
    requires forall page: nat :: page in v <==> Reaches(0, n, page)
    requires n + m > PageUp(n) && PageUp(n) < 2 * n
    ensures PageUp(n) >= n && PageUp(n) - n < m && Blocked(v, n, 2 * n, PageUp(n) - n)
  {
    NextPage(n, 0);
    AppendBlocked(v, n, PageUp(n) - n);
  }

  lemma AppendHaltsAt(v: View, n: nat, second: seq<u8>)
    requires 0 < n < 0x1_0000_0000 && |second| < 0x1_0000_0000
    requires FullPages(v) && forall page: nat :: page in v <==> Reaches(0, n, page)
    ensures WriteRun(v, n, second, 2 * n).Halt? <==> n + |second| > PageUp(n) && PageUp(n) < 2 * n
  {
    WriteHalts(v, n, second, 2 * n);
    if WriteRun(v, n, second, 2 * n).Halt? {
      var i: nat :| i < |second| && Blocked(v, n, 2 * n, i);
      BlockedEarly(v, n, |second|, i);
    }
    if n + |second| > PageUp(n) && PageUp(n) < 2 * n {
      BlockedAtPageUp(v, n, |second|);
    }
  }

  /** Consequently two writes in a row to a new file can halt: the second one does
      exactly when it opens a page that the recorded size already claims. */
  lemma AppendHalts(v: View, first: seq<u8>, second: seq<u8>)
    requires 0 < |first| < 0x1_0000_0000 && |second| < 0x1_0000_0000
    requires WriteRun(map[], 0, first, 0) == Done(v)
    ensures WriteRun(v, |first|, second, 2 * |first|).Halt? <==>
            |first| + |second| > PageUp(|first|) && PageUp(|first|) < 2 * |first|
  {
    WriteStores(map[], 0, first, 0);
    forall page: nat
      ensures page in v <==> Reaches(0, |first|, page)
    {
      WritePages(map[], 0, first, 0, page);
    }
    AppendHaltsAt(v, |first|, second);
  }

  /** The first write to a file recorded as empty never halts. */
  lemma FirstWrite(v: View, offset: u64, bytes: seq<u8>, fileSize: u64)
    requires FullPages(v) && fileSize == 0
    ensures WriteRun(v, offset, bytes, fileSize).Done?
  {
    WriteHalts(v, offset, bytes, fileSize);
  }

  /** A page written to a new file, then one byte appended: the kernel stops. */
  lemma AppendAfterPageHalts(s: State, d: nat, first: seq<u8>, b: u8)
    requires s.view == map[] && s.size == 0 && d in s.seeks && s.seeks[d] == 0 && |first| == PAGE_SIZE
    ensures Step(s, Write(d, first)).Done?
    ensures Step(Step(s, Write(d, first)).value.0, Write(d, [b])).Halt?
  {
    FirstWrite(s.view, s.seeks[d], first, s.size);
    AppendHalts(WriteRun(s.view, s.seeks[d], first, s.size).value, first, [b]);
  }
}
