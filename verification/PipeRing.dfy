/**
 The ring buffer of a pipe (TPJOS/lib/pipe.c:104-172): one environment in devpipe_read and
 one in devpipe_write, without a lock, one load or store of shared memory at a time.

 p_rpos and p_wpos are off_t; positions stay below 2^31.
 */
module PipeRing {
  const PIPEBUFSIZ: nat := 32
  const LIMIT: nat := 0x8000_0000

  type Byte = b: nat | b < 256

  /** The page that the two environments share. */
  datatype Pipe = Pipe(rpos: nat, wpos: nat, buf: seq<Byte>)

  /** devpipe_read(n) after `i` bytes; ReaderOut has what the last call returned. A letter stands for a
      value that has been loaded. */
  datatype Reader =
    | ReaderOut(result: nat)
    | ReadTestR(n: nat, i: nat)              // load p_rpos, line 118
    | ReadTestW(n: nat, i: nat, r: nat)      // load p_wpos, line 118
    | ReadEmpty(n: nat, i: nat)              // lines 121-129
    | ReadIndex(n: nat, i: nat)              // load p_rpos, line 133
    | ReadByte(n: nat, i: nat, r: nat)       // load p_buf[r % 32], line 133
    | ReadNext(n: nat, i: nat)               // load p_rpos, line 134
    | ReadDone(n: nat, i: nat, r: nat)       // store p_rpos, line 134

  /** devpipe_write(data) after `i` bytes. */
  datatype Writer =
    | WriterOut(result: nat)
    | WriteTestW(data: seq<Byte>, i: nat)            // load p_wpos, line 153
    | WriteTestR(data: seq<Byte>, i: nat, w: nat)    // load p_rpos, line 153
    | WriteFull(data: seq<Byte>, i: nat)             // lines 158-163
    | WriteIndex(data: seq<Byte>, i: nat)            // load p_wpos, line 167
    | WriteByte(data: seq<Byte>, i: nat, w: nat)     // store p_buf[w % 32], line 167
    | WriteNext(data: seq<Byte>, i: nat)             // load p_wpos, line 168
    | WriteDone(data: seq<Byte>, i: nat, w: nat)     // store p_wpos, line 168

  /** `got` is what the reader has taken and `sent` what the writer has put in, over all calls;
      `readFrom` and `wroteFrom` are their lengths when the present calls began. */
  datatype State = State(pipe: Pipe, reader: Reader, writer: Writer, got: seq<Byte>, sent: seq<Byte>, readFrom: nat, wroteFrom: nat)

  /** `closed` is what _pipeisclosed answers, if it is asked. */
  datatype Event = StartRead(n: nat) | StartWrite(data: seq<Byte>) | ReaderStep(closed: bool) | WriterStep(closed: bool)

  predicate Enabled(s: State, ev: Event) {
    match ev
    case StartRead(_) => s.reader.ReaderOut?
    case StartWrite(_) => s.writer.WriterOut?
    case ReaderStep(_) => !s.reader.ReaderOut? && (s.reader.ReadByte? ==> |s.pipe.buf| == PIPEBUFSIZ)
    case WriterStep(_) =>
      && !s.writer.WriterOut? && (s.writer.WriteByte? ==> s.writer.i < |s.writer.data| && |s.pipe.buf| == PIPEBUFSIZ)
      && (s.writer.WriteDone? ==> s.writer.i < |s.writer.data| && s.writer.w + 1 < LIMIT)
  }

  function ReadLoop(n: nat, i: nat): Reader {
    if i < n then ReadTestR(n, i) else ReaderOut(i)
  }

  function WriteLoop(data: seq<Byte>, i: nat): Writer {
    if i < |data| then WriteTestW(data, i) else WriterOut(i)
  }

  function ReaderNext(s: State, closed: bool): State
    requires Enabled(s, ReaderStep(closed))
  {
    var p := s.pipe;
    match s.reader
    case ReadTestR(n, i) => s.(reader := ReadTestW(n, i, p.rpos))
    case ReadTestW(n, i, r) => s.(reader := if r == p.wpos then ReadEmpty(n, i) else ReadIndex(n, i))
    case ReadEmpty(n, i) => s.(reader := if i > 0 then ReaderOut(i) else if closed then ReaderOut(0) else ReadTestR(n, i))
    case ReadIndex(n, i) => s.(reader := ReadByte(n, i, p.rpos))
    case ReadByte(n, i, r) => s.(reader := ReadNext(n, i), got := s.got + [p.buf[r % PIPEBUFSIZ]])
    case ReadNext(n, i) => s.(reader := ReadDone(n, i, p.rpos))
    case ReadDone(n, i, r) => s.(reader := ReadLoop(n, i + 1), pipe := p.(rpos := r + 1))
  }

  function WriterNext(s: State, closed: bool): State
    requires Enabled(s, WriterStep(closed))
  {
    var p := s.pipe;
    match s.writer
    case WriteTestW(data, i) => s.(writer := WriteTestR(data, i, p.wpos))
    case WriteTestR(data, i, w) => s.(writer := if w >= p.rpos + PIPEBUFSIZ then WriteFull(data, i) else WriteIndex(data, i))
    case WriteFull(data, i) => s.(writer := if closed then WriterOut(0) else WriteTestW(data, i))
    case WriteIndex(data, i) => s.(writer := WriteByte(data, i, p.wpos))
    case WriteByte(data, i, w) => s.(writer := WriteNext(data, i), pipe := p.(buf := p.buf[w % PIPEBUFSIZ := data[i]]))
    case WriteNext(data, i) => s.(writer := WriteDone(data, i, p.wpos))
    case WriteDone(data, i, w) =>
      s.(writer := WriteLoop(data, i + 1), pipe := p.(wpos := w + 1), sent := s.sent + [data[i]])
  }

  function Next(s: State, ev: Event): State
    requires Enabled(s, ev)
  {
    match ev
    case StartRead(n) => s.(reader := ReadLoop(n, 0), readFrom := |s.got|)
    case StartWrite(data) => s.(writer := WriteLoop(data, 0), wroteFrom := |s.sent|)
    case ReaderStep(closed) => ReaderNext(s, closed)
    case WriterStep(closed) => WriterNext(s, closed)
  }

  // ------------------------------------------------------------------
  // The invariant
  // ------------------------------------------------------------------

  /** The byte has been taken and p_rpos does not say so yet. */
  predicate Taken(r: Reader) {
    r.ReadNext? || r.ReadDone?
  }

  predicate PipeOk(p: Pipe, sent: seq<Byte>) {
    && |p.buf| == PIPEBUFSIZ && p.wpos == |sent| && p.rpos <= p.wpos <= p.rpos + PIPEBUFSIZ
    && forall k {:trigger sent[k]} :: p.rpos <= k < p.wpos ==> p.buf[k % PIPEBUFSIZ] == sent[k]
  }

  predicate ReaderOk(p: Pipe, r: Reader, got: seq<Byte>, readFrom: nat) {
    && |got| == p.rpos + (if Taken(r) then 1 else 0)
    && (r.ReadTestW? ==> r.r == p.rpos)
    && (r.ReadIndex? || r.ReadByte? || Taken(r) ==> p.rpos < p.wpos)
    && (r.ReadByte? || r.ReadDone? ==> r.r == p.rpos)
    && (!r.ReaderOut? ==> r.i < r.n && readFrom + r.i == p.rpos)
  }

  predicate WriterOk(p: Pipe, w: Writer, sent: seq<Byte>, wroteFrom: nat) {
    && (w.WriteTestR? || w.WriteByte? || w.WriteDone? ==> w.w == p.wpos)
    && (w.WriteIndex? || w.WriteByte? || w.WriteNext? || w.WriteDone? ==> p.wpos < p.rpos + PIPEBUFSIZ)
    && (!w.WriterOut? ==> w.i < |w.data| && wroteFrom + w.i == |sent| && sent[wroteFrom..] == w.data[..w.i])
    && (w.WriteNext? || w.WriteDone? ==> |p.buf| == PIPEBUFSIZ && p.buf[p.wpos % PIPEBUFSIZ] == w.data[w.i])
  }

  /** What has been read is a prefix of what has been written. */
  ghost predicate Inv(s: State) {
    && PipeOk(s.pipe, s.sent) && ReaderOk(s.pipe, s.reader, s.got, s.readFrom) && WriterOk(s.pipe, s.writer, s.sent, s.wroteFrom)
    && s.got <= s.sent && s.pipe.wpos < LIMIT
  }

  /** The slot for the next byte holds no byte that is still to be read. */
  lemma SlotIsFree(rpos: nat, wpos: nat, k: nat)
    requires rpos <= k < wpos < rpos + PIPEBUFSIZ
    ensures k % PIPEBUFSIZ != wpos % PIPEBUFSIZ
  {
    var d := wpos - k;
    assert wpos % PIPEBUFSIZ == (k % PIPEBUFSIZ + d) % PIPEBUFSIZ;
  }

  lemma ReaderKeeps(s: State, closed: bool)
    requires Inv(s) && Enabled(s, ReaderStep(closed))
    ensures Inv(ReaderNext(s, closed))
  {
    if s.reader.ReadByte? {
      assert s.pipe.buf[s.reader.r % PIPEBUFSIZ] == s.sent[s.reader.r];
    }
  }

  lemma WriterKeeps(s: State, closed: bool)
    requires Inv(s) && Enabled(s, WriterStep(closed))
    ensures Inv(WriterNext(s, closed))
  {
    var s', p := WriterNext(s, closed), s.pipe;
    match s.writer
    case WriteByte(data, i, w) =>
      forall k | p.rpos <= k < p.wpos
        ensures s'.pipe.buf[k % PIPEBUFSIZ] == s.sent[k]
      {
        SlotIsFree(p.rpos, p.wpos, k);
      }
    case WriteDone(data, i, w) =>
      assert s'.sent[s.wroteFrom..] == s.sent[s.wroteFrom..] + [data[i]];
      assert data[..i + 1] == data[..i] + [data[i]];
    case _ =>
  }

  lemma StepKeeps(s: State, ev: Event)
    requires Inv(s) && Enabled(s, ev)
    ensures Inv(Next(s, ev))
  {
    match ev
    case ReaderStep(closed) => ReaderKeeps(s, closed);
    case WriterStep(closed) => WriterKeeps(s, closed);
    case _ =>
  }

  /** A store to the buffer hits no byte that is still to be read. */
  lemma NoOverwrite(s: State, closed: bool, k: nat)
    requires Inv(s) && Enabled(s, WriterStep(closed)) && s.pipe.rpos <= k < s.pipe.wpos
    ensures WriterNext(s, closed).pipe.buf[k % PIPEBUFSIZ] == s.pipe.buf[k % PIPEBUFSIZ]
  {
    if s.writer.WriteByte? {
      SlotIsFree(s.pipe.rpos, s.pipe.wpos, k);
    }
  }

  // ------------------------------------------------------------------
  // Runs
  // ------------------------------------------------------------------

  ghost predicate IsRun(s: State, evs: seq<Event>)
    decreases |evs|
  {
    evs == [] || (Enabled(s, evs[0]) && IsRun(Next(s, evs[0]), evs[1..]))
  }

  ghost function After(s: State, evs: seq<Event>): State
    requires IsRun(s, evs)
    decreases |evs|
  {
    if evs == [] then s else After(Next(s, evs[0]), evs[1..])
  }

  /** A pipe that has just been made. */
  predicate Fresh(s: State) {
    s.pipe.rpos == s.pipe.wpos == 0 && |s.pipe.buf| == PIPEBUFSIZ && s.reader.ReaderOut? && s.writer.WriterOut? &&
    s.got == [] && s.sent == []
  }

  lemma {:induction false} RunKeeps(s: State, evs: seq<Event>)
    requires Inv(s) && IsRun(s, evs)
    ensures Inv(After(s, evs))
    decreases |evs|
  {
    if evs != [] {
      StepKeeps(s, evs[0]);
      RunKeeps(Next(s, evs[0]), evs[1..]);
    }
  }

  /** From a fresh pipe, in every interleaving: the ring is never over-full, and the bytes read are the
      first of the bytes written, in order. */
  lemma BytesInOrder(s: State, evs: seq<Event>)
    requires Fresh(s) && IsRun(s, evs)
    ensures var t := After(s, evs);
      t.pipe.rpos <= t.pipe.wpos <= t.pipe.rpos + PIPEBUFSIZ && t.got <= t.sent && |t.sent| == t.pipe.wpos
  {
    RunKeeps(s, evs);
  }

  /** A read that returns has taken the bytes after those of the reads before it, as many as it says. */
  lemma ReadReturns(s: State, closed: bool)
    requires Inv(s) && Enabled(s, ReaderStep(closed)) && ReaderNext(s, closed).reader.ReaderOut?
    ensures var t := ReaderNext(s, closed);
      t.got == s.sent[..s.readFrom + t.reader.result] && t.readFrom == s.readFrom && t.reader.result <= s.reader.n
  {
  }

  /** A write that returns has put in all of its data, or it was told that there are no readers; then it
      returns 0 although the first `i` bytes are in the pipe. */
  lemma WriteReturns(s: State, closed: bool)
    requires Inv(s) && Enabled(s, WriterStep(closed)) && WriterNext(s, closed).writer.WriterOut?
    ensures var t := WriterNext(s, closed);
      if s.writer.WriteDone? then t.sent[s.wroteFrom..] == s.writer.data && t.writer.result == |s.writer.data|
      else closed && t.sent[s.wroteFrom..] == s.writer.data[..s.writer.i] && t.writer.result == 0
  {
    if s.writer.WriteDone? {
      var data, i := s.writer.data, s.writer.i;
      assert WriterNext(s, closed).sent[s.wroteFrom..] == s.sent[s.wroteFrom..] + [data[i]];
      assert data == data[..i] + [data[i]];
    }
  }

  // ------------------------------------------------------------------
  // Whole calls
  // ------------------------------------------------------------------

  lemma {:induction false} PrefixIsRun(s: State, evs: seq<Event>, i: nat)
    requires IsRun(s, evs) && i <= |evs|
    ensures IsRun(s, evs[..i])
    decreases |evs|
  {
    if i > 0 {
      PrefixIsRun(Next(s, evs[0]), evs[1..], i - 1);
      assert evs[..i][1..] == evs[1..][..i - 1];
    }
  }

  ghost function At(s: State, evs: seq<Event>, i: nat): State
    requires IsRun(s, evs) && i <= |evs|
  {
    PrefixIsRun(s, evs, i);
    After(s, evs[..i])
  }

  lemma AtNext(s: State, evs: seq<Event>, i: nat)
    requires evs != [] && IsRun(s, evs) && i < |evs|
    ensures At(s, evs, i + 1) == At(Next(s, evs[0]), evs[1..], i)
  {
    PrefixIsRun(s, evs, i + 1);
    PrefixIsRun(Next(s, evs[0]), evs[1..], i);
    assert evs[..i + 1][1..] == evs[1..][..i];
  }

  /** After `i` steps everything that had been put in was taken out, and no more has been since. */
  ghost predicate EmptyAt(s: State, evs: seq<Event>, i: nat)
    requires IsRun(s, evs)
  {
    i <= |evs| && At(s, evs, i).got == At(s, evs, i).sent == After(s, evs).got
  }

  /** After `i` steps the buffer was full, and no byte has been put in since. */
  ghost predicate FullAt(s: State, evs: seq<Event>, i: nat)
    requires IsRun(s, evs)
  {
    i <= |evs| && At(s, evs, i).sent == After(s, evs).sent && |At(s, evs, i).sent| - At(s, evs, i).pipe.rpos == PIPEBUFSIZ
  }

  predicate Told(evs: seq<Event>, i: nat, ev: Event) {
    exists j :: i <= j < |evs| && evs[j] == ev
  }

  lemma ToldLater(evs: seq<Event>, i: nat, ev: Event)
    requires evs != [] && Told(evs[1..], i, ev)
    ensures Told(evs, i + 1, ev) && Told(evs, 0, ev)
  {
    var j :| i <= j < |evs[1..]| && evs[1..][j] == ev;
    assert evs[j + 1] == ev;
  }

  lemma ReaderMoves(s: State, ev: Event)
    requires Inv(s) && Enabled(s, ev) && !ev.StartRead? && !s.reader.ReaderOut?
    ensures var s' := Next(s, ev);
      && s'.readFrom == s.readFrom && s.got <= s'.got
      && if s'.reader.ReaderOut? then
           && |s'.got| == s.readFrom + s'.reader.result && s'.reader.result <= s.reader.n
           && (s'.reader.result == s.reader.n ||
               (s.reader.ReadEmpty? && s'.got == s.got && (s'.reader.result == 0 ==> ev == ReaderStep(true))))
         else s'.reader.n == s.reader.n && (s'.reader.ReadEmpty? ==> s'.got == s.got && (s.reader.ReadEmpty? || s.got == s.sent))
  {
  }

  /** The read has taken all the bytes it was asked for, or has found the pipe empty. */
  ghost predicate ReadEnds(s: State, evs: seq<Event>, n: nat)
    requires IsRun(s, evs)
  {
    var t := After(s, evs);
    && t.reader.ReaderOut? && t.readFrom == s.readFrom && s.got <= t.got && |t.got| == t.readFrom + t.reader.result
    && t.reader.result <= n
    && (t.reader.result == n
        || (s.reader.ReadEmpty? && t.got == s.got && (t.reader.result == 0 ==> Told(evs, 0, ReaderStep(true))))
        || exists i: nat :: EmptyAt(s, evs, i) && (t.reader.result == 0 ==> Told(evs, i, ReaderStep(true))))
  }

  lemma ReadEndsBefore(s: State, evs: seq<Event>, n: nat)
    requires evs != [] && IsRun(s, evs) && ReadEnds(Next(s, evs[0]), evs[1..], n)
    requires var s' := Next(s, evs[0]);
      && s'.readFrom == s.readFrom && s.got <= s'.got
      && (s'.reader.ReadEmpty? ==> s'.got == s.got && (s.reader.ReadEmpty? || s.got == s.sent))
    ensures ReadEnds(s, evs, n)
  {
    hide Next, Enabled;
    var s', t := Next(s, evs[0]), After(s, evs);
    if t.reader.result == n {
    } else if i: nat :| EmptyAt(s', evs[1..], i) && (t.reader.result == 0 ==> Told(evs[1..], i, ReaderStep(true))) {
      AtNext(s, evs, i);
      if t.reader.result == 0 {
        ToldLater(evs, i, ReaderStep(true));
      }
      assert EmptyAt(s, evs, i + 1);
    } else {
      if t.reader.result == 0 {
        ToldLater(evs, 0, ReaderStep(true));
      }
      if !s.reader.ReadEmpty? {
        assert At(s, evs, 0) == s;
        assert EmptyAt(s, evs, 0);
      }
    }
  }

  lemma {:induction false} RestOfRead(s: State, evs: seq<Event>)
    requires Inv(s) && IsRun(s, evs) && !s.reader.ReaderOut? && After(s, evs).reader.ReaderOut?
    requires forall ev :: ev in evs ==> !ev.StartRead?
    ensures Inv(After(s, evs)) && ReadEnds(s, evs, s.reader.n)
    decreases |evs|
  {
    hide Inv, Next, Enabled;
    var s' := Next(s, evs[0]);
    StepKeeps(s, evs[0]);
    ReaderMoves(s, evs[0]);
    if s'.reader.ReaderOut? {
      StaysOut(s', evs[1..]);
    } else {
      RestOfRead(s', evs[1..]);
      ReadEndsBefore(s, evs, s.reader.n);
    }
  }

  lemma {:induction false} StaysOut(s: State, evs: seq<Event>)
    requires Inv(s) && IsRun(s, evs) && s.reader.ReaderOut? && forall ev :: ev in evs ==> !ev.StartRead?
    ensures var t := After(s, evs); Inv(t) && t.reader == s.reader && t.got == s.got && t.readFrom == s.readFrom
    decreases |evs|
  {
    if evs != [] {
      StepKeeps(s, evs[0]);
      StaysOut(Next(s, evs[0]), evs[1..]);
    }
  }

  /** A whole call of devpipe_read, with anything the writer does meanwhile. It returns the next bytes, as
      many as it says; fewer than it was asked for only if at some moment of the call the pipe was empty
      with just these bytes taken, and 0 only if it was told after that that there are no writers. */
  lemma ReadCall(s: State, n: nat, evs: seq<Event>)
    requires Inv(s) && IsRun(s, [StartRead(n)] + evs) && After(s, [StartRead(n)] + evs).reader.ReaderOut?
    requires forall ev :: ev in evs ==> !ev.StartRead?
    ensures var run := [StartRead(n)] + evs; var t := After(s, run);
      && t.reader.result <= n && |s.got| + t.reader.result <= |t.sent| && t.got == s.got + t.sent[|s.got|..|s.got| + t.reader.result]
      && (t.reader.result < n ==>
            exists i: nat :: 0 < i && EmptyAt(s, run, i) && (t.reader.result == 0 ==> Told(run, i, ReaderStep(true))))
  {
    hide Inv;
    var run := [StartRead(n)] + evs;
    var s', t := Next(s, StartRead(n)), After(s, run);
    assert run[1..] == evs;
    StepKeeps(s, StartRead(n));
    if n == 0 {
      StaysOut(s', evs);
    } else {
      Begins(s, n);
      RestOfRead(s', evs);
      if t.reader.result < n {
        var i: nat :| EmptyAt(s', evs, i) && (t.reader.result == 0 ==> Told(evs, i, ReaderStep(true)));
        AtNext(s, run, i);
        if t.reader.result == 0 {
          ToldLater(run, i, ReaderStep(true));
        }
        assert EmptyAt(s, run, i + 1);
      }
    }
    NextBytes(s.got, t);
  }

  lemma Begins(s: State, n: nat)
    requires s.reader.ReaderOut? && n > 0
    ensures Next(s, StartRead(n)).reader == ReadTestR(n, 0) && Next(s, StartRead(n)).readFrom == |s.got|
  {
  }

  lemma NextBytes(got: seq<Byte>, t: State)
    requires Inv(t) && got <= t.got
    ensures |t.got| <= |t.sent| && t.got == got + t.sent[|got|..|t.got|]
  {
    assert t.sent[..|t.got|] == t.got;
  }

  lemma WriterMoves(s: State, ev: Event)
    requires Inv(s) && Enabled(s, ev) && !ev.StartWrite? && !s.writer.WriterOut?
    ensures var s' := Next(s, ev);
      && s'.wroteFrom == s.wroteFrom <= |s.sent| && s.sent <= s'.sent
      && if s'.writer.WriterOut? then
           if s.writer.WriteDone? then s'.sent[s.wroteFrom..] == s.writer.data && s'.writer.result == |s.writer.data|
           else && s.writer.WriteFull? && s'.sent == s.sent && ev == WriterStep(true) && s'.writer.result == 0
                && s.sent[s.wroteFrom..] <= s.writer.data && s.sent[s.wroteFrom..] != s.writer.data
         else && s'.writer.data == s.writer.data
              && (s'.writer.WriteFull? ==> s'.sent == s.sent && (s.writer.WriteFull? || |s.sent| - s.pipe.rpos == PIPEBUFSIZ))
  {
    if ev.WriterStep? && Next(s, ev).writer.WriterOut? {
      WriteReturns(s, ev.closed);
      if s.writer.WriteFull? {
        assert |s.sent[s.wroteFrom..]| == s.writer.i < |s.writer.data|;
      }
    }
  }

  /** The write has put in all its data, or has found the pipe full and been told that it is closed. */
  ghost predicate WriteEnds(s: State, evs: seq<Event>, data: seq<Byte>)
    requires IsRun(s, evs)
  {
    var t := After(s, evs);
    && t.writer.WriterOut? && t.wroteFrom == s.wroteFrom <= |s.sent| && s.sent <= t.sent && t.sent[s.wroteFrom..] <= data
    && if t.sent[s.wroteFrom..] == data then t.writer.result == |data|
       else && t.writer.result == 0
            && ((s.writer.WriteFull? && t.sent == s.sent && Told(evs, 0, WriterStep(true)))
                || exists i: nat :: FullAt(s, evs, i) && Told(evs, i, WriterStep(true)))
  }

  lemma WriteEndsBefore(s: State, evs: seq<Event>, data: seq<Byte>)
    requires evs != [] && IsRun(s, evs) && WriteEnds(Next(s, evs[0]), evs[1..], data)
    requires var s' := Next(s, evs[0]);
      && s'.wroteFrom == s.wroteFrom <= |s.sent| && s.sent <= s'.sent
      && (s'.writer.WriteFull? ==> s'.sent == s.sent && (s.writer.WriteFull? || |s.sent| - s.pipe.rpos == PIPEBUFSIZ))
    ensures WriteEnds(s, evs, data)
  {
    hide Next, Enabled;
    var s', t := Next(s, evs[0]), After(s, evs);
    if t.sent[s.wroteFrom..] == data {
    } else if i: nat :| FullAt(s', evs[1..], i) && Told(evs[1..], i, WriterStep(true)) {
      AtNext(s, evs, i);
      ToldLater(evs, i, WriterStep(true));
      assert FullAt(s, evs, i + 1);
    } else {
      ToldLater(evs, 0, WriterStep(true));
      if !s.writer.WriteFull? {
        assert At(s, evs, 0) == s;
        assert FullAt(s, evs, 0);
      }
    }
  }

  lemma {:induction false} RestOfWrite(s: State, evs: seq<Event>)
    requires Inv(s) && IsRun(s, evs) && !s.writer.WriterOut? && After(s, evs).writer.WriterOut?
    requires forall ev :: ev in evs ==> !ev.StartWrite?
    ensures Inv(After(s, evs)) && WriteEnds(s, evs, s.writer.data)
    decreases |evs|
  {
    hide Inv, Next, Enabled;
    var s' := Next(s, evs[0]);
    StepKeeps(s, evs[0]);
    WriterMoves(s, evs[0]);
    if s'.writer.WriterOut? {
      StaysDone(s', evs[1..]);
      if !s.writer.WriteDone? {
        assert evs[0] == WriterStep(true) && Told(evs, 0, WriterStep(true));
      }
    } else {
      RestOfWrite(s', evs[1..]);
      WriteEndsBefore(s, evs, s.writer.data);
    }
  }

  lemma {:induction false} StaysDone(s: State, evs: seq<Event>)
    requires Inv(s) && IsRun(s, evs) && s.writer.WriterOut? && forall ev :: ev in evs ==> !ev.StartWrite?
    ensures var t := After(s, evs); Inv(t) && t.writer == s.writer && t.sent == s.sent && t.wroteFrom == s.wroteFrom
    decreases |evs|
  {
    if evs != [] {
      StepKeeps(s, evs[0]);
      StaysDone(Next(s, evs[0]), evs[1..]);
    }
  }

  /** A whole call of devpipe_write, with anything the reader does meanwhile. It puts in all its data and
      returns their number, or it returns 0 with a first part of them in the pipe; then at some moment of
      the call the buffer was full with just these, and after that it was told that there are no readers. */
  lemma WriteCall(s: State, data: seq<Byte>, evs: seq<Event>)
    requires Inv(s) && IsRun(s, [StartWrite(data)] + evs) && After(s, [StartWrite(data)] + evs).writer.WriterOut?
    requires forall ev :: ev in evs ==> !ev.StartWrite?
    ensures var run := [StartWrite(data)] + evs; var t := After(s, run);
      && s.sent <= t.sent && t.sent[|s.sent|..] <= data
      && if t.sent[|s.sent|..] == data then t.writer.result == |data|
         else t.writer.result == 0 && exists i: nat :: 0 < i && FullAt(s, run, i) && Told(run, i, WriterStep(true))
  {
    var run := [StartWrite(data)] + evs;
    var s', t := Next(s, StartWrite(data)), After(s, run);
    assert run[1..] == evs;
    StepKeeps(s, StartWrite(data));
    if data == [] {
      StaysDone(s', evs);
    } else {
      RestOfWrite(s', evs);
      if t.sent[|s.sent|..] != data {
        var i: nat :| FullAt(s', evs, i) && Told(evs, i, WriterStep(true));
        AtNext(s, run, i);
        ToldLater(run, i, WriterStep(true));
        assert FullAt(s, run, i + 1);
      }
    }
  }

  /** The reader takes `k` steps alone, and is told that there are no writers. */
  ghost function ReaderAlone(s: State, k: nat): (t: State)
    requires Inv(s)
    ensures Inv(t)
    decreases k
  {
    if k == 0 || s.reader.ReaderOut? then s
    else
      StepKeeps(s, ReaderStep(true));
      ReaderAlone(Next(s, ReaderStep(true)), k - 1)
  }

  lemma ReaderCan(s: State)
    requires Inv(s) && !s.reader.ReaderOut?
    ensures Enabled(s, ReaderStep(true))
  {
  }

  lemma WriterCan(s: State)
    requires Inv(s) && !s.writer.WriterOut? && s.pipe.wpos + 1 < LIMIT
    ensures Enabled(s, WriterStep(true))
  {
  }

  /** How many more of its steps it can take before it has taken a byte or has returned. */
  function ReaderRank(r: Reader): nat {
    match r
    case ReaderOut(_) => 0
    case ReadByte(_, _, _) => 1
    case ReadEmpty(_, _) => 1
    case ReadIndex(_, _) => 2
    case ReadTestW(_, _, _) => 3
    case ReadTestR(_, _) => 4
    case ReadDone(_, _, _) => 5
    case ReadNext(_, _) => 6
  }

  lemma ReaderMovesOn(s: State)
    requires Inv(s) && !s.reader.ReaderOut?
    ensures var t := Next(s, ReaderStep(true));
      |t.got| >= |s.got| && (t.reader.ReaderOut? || |t.got| > |s.got| || ReaderRank(t.reader) < ReaderRank(s.reader))
  {
  }

  /** Left to itself, a read from a pipe without writers takes another byte or returns within 6 steps. */
  lemma {:induction false} ReadGoesOn(s: State, k: nat)
    requires Inv(s) && ReaderRank(s.reader) <= k
    ensures var t := ReaderAlone(s, k); |t.got| >= |s.got| && (t.reader.ReaderOut? || |t.got| > |s.got|)
    decreases k
  {
    hide Inv, Next, Enabled;
    if !s.reader.ReaderOut? {
      ReaderCan(s);
      var s' := Next(s, ReaderStep(true));
      StepKeeps(s, ReaderStep(true));
      ReaderMovesOn(s);
      if |s'.got| > |s.got| {
        AloneGrows(s', k - 1);
      } else {
        ReadGoesOn(s', k - 1);
      }
    }
  }

  lemma {:induction false} AloneGrows(s: State, k: nat)
    requires Inv(s)
    ensures |ReaderAlone(s, k).got| >= |s.got|
    decreases k
  {
    hide Inv, Next, Enabled;
    if k > 0 && !s.reader.ReaderOut? {
      ReaderCan(s);
      StepKeeps(s, ReaderStep(true));
      ReaderMovesOn(s);
      AloneGrows(Next(s, ReaderStep(true)), k - 1);
    }
  }

  ghost function WriterAlone(s: State, k: nat): (t: State)
    requires Inv(s)
    ensures Inv(t)
    decreases k
  {
    if k == 0 || s.writer.WriterOut? || s.pipe.wpos + 1 >= LIMIT then s
    else
      StepKeeps(s, WriterStep(true));
      WriterAlone(Next(s, WriterStep(true)), k - 1)
  }

  function WriterRank(w: Writer): nat {
    match w
    case WriterOut(_) => 0
    case WriteFull(_, _) => 1
    case WriteDone(_, _, _) => 1
    case WriteNext(_, _) => 2
    case WriteByte(_, _, _) => 3
    case WriteIndex(_, _) => 4
    case WriteTestR(_, _, _) => 5
    case WriteTestW(_, _) => 6
  }

  lemma WriterMovesOn(s: State)
    requires Inv(s) && !s.writer.WriterOut? && s.pipe.wpos + 1 < LIMIT
    ensures var t := Next(s, WriterStep(true));
      |t.sent| >= |s.sent| && (t.writer.WriterOut? || |t.sent| > |s.sent| || WriterRank(t.writer) < WriterRank(s.writer))
  {
  }

  /** Left to itself, a write to a pipe without readers puts in another byte or returns within 6 steps. */
  lemma {:induction false} WriteGoesOn(s: State, k: nat)
    requires Inv(s) && WriterRank(s.writer) <= k
    ensures var t := WriterAlone(s, k);
      |t.sent| >= |s.sent| && (t.writer.WriterOut? || |t.sent| > |s.sent| || t.pipe.wpos + 1 >= LIMIT)
    decreases k
  {
    hide Inv, Next, Enabled;
    if !s.writer.WriterOut? && s.pipe.wpos + 1 < LIMIT {
      WriterCan(s);
      var s' := Next(s, WriterStep(true));
      StepKeeps(s, WriterStep(true));
      WriterMovesOn(s);
      if |s'.sent| > |s.sent| {
        AlonePuts(s', k - 1);
      } else {
        WriteGoesOn(s', k - 1);
      }
    }
  }

  lemma {:induction false} AlonePuts(s: State, k: nat)
    requires Inv(s)
    ensures |WriterAlone(s, k).sent| >= |s.sent|
    decreases k
  {
    hide Inv, Next, Enabled;
    if k > 0 && !s.writer.WriterOut? && s.pipe.wpos + 1 < LIMIT {
      WriterCan(s);
      StepKeeps(s, WriterStep(true));
      WriterMovesOn(s);
      AlonePuts(Next(s, WriterStep(true)), k - 1);
    }
  }
}
