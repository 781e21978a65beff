/** The seqlock protocol of one block, with the writer's and the readers'
    steps interleaved in any order under sequential consistency. The writer
    runs `write`'s steps (store `s + 1`, copy element by element, store
    `s + 2`); each reader runs `read`'s steps (load the counter, copy element
    by element, load the counter again, then retry or return). A write
    touches one block's counter and elements only, and a read at a
    block-aligned offset copies exactly the block whose counter it loads, so
    one block covers every such pair. A read at an unaligned offset copies
    from two blocks while loading one counter
    (`Seqlock.UnalignedReadSpansTwoBlocks`); it is outside this model.
    `history` is the sequence of complete values the block has held: the
    initial contents, then the source of each finished write. */
module SeqlockInterleaving {
  import Seqlock

  datatype WriterPhase =
    | Idle
    | Copying(seq0: nat, src: seq<int>, copied: nat)

  datatype ReaderPhase =
    | Ready
    | ReadCopying(seq0: nat, buf: seq<int>)
    | Checked(seq0: nat, buf: seq<int>, seq1: nat)

  datatype Block = Block(
    counter: nat,
    mem: seq<int>,
    history: seq<seq<int>>,
    writer: WriterPhase,
    readers: seq<ReaderPhase>)

  datatype Step =
    | WriterBegin(src: seq<int>)
    | WriterCopy
    | WriterEnd
    | ReaderLoad0(i: nat)
    | ReaderCopy(i: nat)
    | ReaderLoad1(i: nat)
    | ReaderRetry(i: nat)
    | ReaderReturn(i: nat)

  /** A freshly constructed block: counter 0, no write in flight, every
      reader about to start. */
  function Init(initial: seq<int>, numReaders: nat): (b: Block)
    ensures b.counter == 0 && b.writer.Idle? && b.mem == initial
    ensures |b.history| == 1 && Last(b.history) == initial
    ensures |b.readers| == numReaders && forall i :: 0 <= i < numReaders ==> b.readers[i].Ready?
  {
    Block(0, initial, [initial], Idle, seq(numReaders, _ => Ready))
  }

  predicate Enabled(b: Block, step: Step) {
    match step
    case WriterBegin(src) => b.writer.Idle? && |src| == |b.mem|
    case WriterCopy => b.writer.Copying? && b.writer.copied < |b.writer.src| && b.writer.copied < |b.mem|
    case WriterEnd => b.writer.Copying? && b.writer.copied == |b.writer.src|
    case ReaderLoad0(i) => i < |b.readers| && b.readers[i].Ready?
    case ReaderCopy(i) => i < |b.readers| && b.readers[i].ReadCopying? && |b.readers[i].buf| < |b.mem|
    case ReaderLoad1(i) => i < |b.readers| && b.readers[i].ReadCopying? && |b.readers[i].buf| == |b.mem|
    case ReaderRetry(i) =>
      i < |b.readers| && b.readers[i].Checked? && Seqlock.Retry(b.readers[i].seq0, b.readers[i].seq1)
    case ReaderReturn(i) =>
      i < |b.readers| && b.readers[i].Checked? && !Seqlock.Retry(b.readers[i].seq0, b.readers[i].seq1)
  }

  /** A writer step leaves every reader where it was; a reader step changes
      that reader only. Completed values are never forgotten. */
  function Next(b: Block, step: Step): (r: Block)
    requires Enabled(b, step)
    ensures |r.readers| == |b.readers| && |r.mem| == |b.mem|
    ensures |b.history| <= |r.history| && r.history[..|b.history|] == b.history
    ensures (step.WriterBegin? || step.WriterCopy? || step.WriterEnd?) ==> r.readers == b.readers
    ensures !(step.WriterBegin? || step.WriterCopy? || step.WriterEnd?) ==>
              && r.counter == b.counter && r.mem == b.mem && r.history == b.history && r.writer == b.writer
              && forall j :: 0 <= j < |b.readers| && j != step.i ==> r.readers[j] == b.readers[j]
  {
    match step
    case WriterBegin(src) =>
      b.(counter := b.counter + 1, writer := Copying(b.counter, src, 0))
    case WriterCopy =>
      var k := b.writer.copied;
      b.(mem := b.mem[k := b.writer.src[k]], writer := b.writer.(copied := k + 1))
    case WriterEnd =>
      b.(counter := b.writer.seq0 + 2, history := b.history + [b.writer.src], writer := Idle)
    case ReaderLoad0(i) =>
      b.(readers := b.readers[i := ReadCopying(b.counter, [])])
    case ReaderCopy(i) =>
      var r := b.readers[i];
      b.(readers := b.readers[i := ReadCopying(r.seq0, r.buf + [b.mem[|r.buf|]])])
    case ReaderLoad1(i) =>
      var r := b.readers[i];
      b.(readers := b.readers[i := Checked(r.seq0, r.buf, b.counter)])
    case ReaderRetry(i) =>
      b.(readers := b.readers[i := Ready])
    case ReaderReturn(i) =>
      b.(readers := b.readers[i := Ready])
  }

  // ---------------------------------------------------------------------------
  // The invariant
  // ---------------------------------------------------------------------------

  function Last(h: seq<seq<int>>): seq<int>
    requires |h| > 0
  {
    h[|h| - 1]
  }

  /** The counter is twice the number of finished writes, plus one while a
      write is in flight; the block holds the last complete value, or that
      value overwritten by a prefix of the write in flight. */
  predicate WriterOk(b: Block) {
    && |b.history| > 0
    && (forall j :: 0 <= j < |b.history| ==> |b.history[j]| == |b.mem|)
    && match b.writer
       case Idle =>
         b.counter == 2 * (|b.history| - 1) && b.mem == Last(b.history)
       case Copying(s, src, k) =>
         && s == 2 * (|b.history| - 1) && b.counter == s + 1
         && |src| == |b.mem| && k <= |src|
         && b.mem == src[..k] + Last(b.history)[k..]
  }

  /** A reader's first counter load is never ahead of the counter; while the
      counter still equals an even first load, the copy so far matches the
      block; and a checked copy that will be accepted is the complete value
      numbered `seq0 / 2`. */
  predicate ReaderOk(b: Block, r: ReaderPhase) {
    match r
    case Ready => true
    case ReadCopying(s0, buf) =>
      && s0 <= b.counter && |buf| <= |b.mem|
      && (s0 == b.counter && s0 % 2 == 0 ==> buf == b.mem[..|buf|])
    case Checked(s0, buf, s1) =>
      && s0 <= s1 <= b.counter && |buf| == |b.mem|
      && (!Seqlock.Retry(s0, s1) ==> s0 / 2 < |b.history| && buf == b.history[s0 / 2])
  }

  predicate Inv(b: Block) {
    && WriterOk(b)
    && forall i :: 0 <= i < |b.readers| ==> ReaderOk(b, b.readers[i])
  }

  lemma InitSatisfiesInv(initial: seq<int>, numReaders: nat)
    ensures Inv(Init(initial, numReaders))
  {
  }

  /** A writer step keeps every reader's part of the invariant. */
  lemma WriterStepKeepsReader(b: Block, step: Step, r: ReaderPhase)
    requires WriterOk(b) && ReaderOk(b, r)
    requires (step.WriterBegin? || step.WriterCopy? || step.WriterEnd?) && Enabled(b, step)
    ensures ReaderOk(Next(b, step), r)
  {
    var b' := Next(b, step);
    assert b.counter <= b'.counter;
    assert forall j :: 0 <= j < |b.history| ==> b'.history[j] == b.history[j];
    match r
    case Ready =>
    case ReadCopying(s0, buf) =>
      if s0 == b'.counter && s0 % 2 == 0 {
        // every writer step leaves the counter odd or moves it past `s0`
        assert false;
      }
    case Checked(s0, buf, s1) =>
  }

  lemma WriterCopyKeepsWriter(b: Block)
    requires WriterOk(b) && Enabled(b, WriterCopy)
    ensures WriterOk(Next(b, WriterCopy))
  {
    var Copying(s, src, k) := b.writer;
    var b' := Next(b, WriterCopy);
    var old' := Last(b.history);
    assert b'.mem == src[..k + 1] + old'[k + 1..] by {
      forall j | 0 <= j < |b'.mem|
        ensures b'.mem[j] == (src[..k + 1] + old'[k + 1..])[j]
      {
        if j < k {
          assert b.mem[j] == (src[..k] + old'[k..])[j];
        } else if j > k {
          assert b.mem[j] == (src[..k] + old'[k..])[j];
        }
      }
    }
  }

  lemma WriterEndKeepsWriter(b: Block)
    requires WriterOk(b) && Enabled(b, WriterEnd)
    ensures WriterOk(Next(b, WriterEnd))
  {
    var Copying(s, src, k) := b.writer;
    assert b.mem == src;
  }

  /** A reader step keeps that reader's part of the invariant. */
  lemma ReaderStepKeepsReader(b: Block, step: Step)
    requires Inv(b) && Enabled(b, step)
    requires step.ReaderLoad0? || step.ReaderCopy? || step.ReaderLoad1? || step.ReaderRetry? || step.ReaderReturn?
    ensures ReaderOk(Next(b, step), Next(b, step).readers[step.i])
  {
    var i := step.i;
    var b' := Next(b, step);
    assert ReaderOk(b, b.readers[i]);
    match step
    case ReaderLoad0(_) =>
    case ReaderCopy(_) =>
      var ReadCopying(s0, buf) := b.readers[i];
      if s0 == b.counter && s0 % 2 == 0 {
        assert buf + [b.mem[|buf|]] == b.mem[..|buf| + 1];
      }
    case ReaderLoad1(_) =>
      var ReadCopying(s0, buf) := b.readers[i];
      if s0 == b.counter && s0 % 2 == 0 {
        assert b.writer.Idle?;
        assert buf == b.mem;
      }
    case ReaderRetry(_) =>
    case ReaderReturn(_) =>
  }

  /** Every step preserves the invariant. */
  lemma NextPreservesInv(b: Block, step: Step)
    requires Inv(b) && Enabled(b, step)
    ensures Inv(Next(b, step))
  {
    var b' := Next(b, step);
    if step.WriterBegin? || step.WriterCopy? || step.WriterEnd? {
      if step.WriterCopy? {
        WriterCopyKeepsWriter(b);
      } else if step.WriterEnd? {
        WriterEndKeepsWriter(b);
      }
      forall i | 0 <= i < |b'.readers|
        ensures ReaderOk(b', b'.readers[i])
      {
        WriterStepKeepsReader(b, step, b.readers[i]);
      }
    } else {
      ReaderStepKeepsReader(b, step);
      forall j | 0 <= j < |b'.readers| && j != step.i
        ensures ReaderOk(b', b'.readers[j])
      {
        assert b'.readers[j] == b.readers[j];
      }
    }
  }

  /** Runs a schedule; a step that is not enabled is skipped. */
  function Run(b: Block, steps: seq<Step>): Block
    decreases |steps|
  {
    if steps == [] then b
    else
      var b' := Run(b, steps[..|steps| - 1]);
      var step := steps[|steps| - 1];
      if Enabled(b', step) then Next(b', step) else b'
  }

  lemma {:induction false} RunPreservesInv(b: Block, steps: seq<Step>)
    requires Inv(b)
    ensures Inv(Run(b, steps))
    decreases |steps|
  {
    if steps != [] {
      RunPreservesInv(b, steps[..|steps| - 1]);
      var b' := Run(b, steps[..|steps| - 1]);
      if Enabled(b', steps[|steps| - 1]) {
        NextPreservesInv(b', steps[|steps| - 1]);
      }
    }
  }

  /** Under any interleaving of one writer and any number of readers, a copy
      the retry test accepts is never torn: it is exactly the value the block
      held once the write numbered `seq0 / 2` had completed (the initial
      contents when `seq0` is 0). */
  lemma AcceptedReadIsCompleteWrite(initial: seq<int>, numReaders: nat, steps: seq<Step>, i: nat)
    requires var b := Run(Init(initial, numReaders), steps);
             i < |b.readers| && b.readers[i].Checked?
             && !Seqlock.Retry(b.readers[i].seq0, b.readers[i].seq1)
    ensures var b := Run(Init(initial, numReaders), steps);
            var r := b.readers[i];
            r.seq0 / 2 < |b.history| && r.buf == b.history[r.seq0 / 2]
            && (r.seq0 == 0 ==> r.buf == initial)
  {
    InitSatisfiesInv(initial, numReaders);
    RunPreservesInv(Init(initial, numReaders), steps);
    RunKeepsInitialValue(initial, numReaders, steps);
    var b := Run(Init(initial, numReaders), steps);
    assert ReaderOk(b, b.readers[i]);
  }

  /** The history never forgets the initial contents. */
  lemma {:induction false} RunKeepsInitialValue(initial: seq<int>, numReaders: nat, steps: seq<Step>)
    ensures |Run(Init(initial, numReaders), steps).history| > 0
    ensures Run(Init(initial, numReaders), steps).history[0] == initial
    decreases |steps|
  {
    if steps != [] {
      RunKeepsInitialValue(initial, numReaders, steps[..|steps| - 1]);
    }
  }
}
