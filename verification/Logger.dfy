/** The asynchronous logger as a transition system: producer threads, one consumer, one mutex and a stop request,
    interleaved in any order. */
module Loggers {
  import opened Decimal
  import opened LogText
  import opened LogQueues

  const ROLLING_NONE := 0
  const ROLLING_SIZE := 1
  const ROLLING_DAILY := 2
  const ROLLING_SIZEDAILY := 3

  datatype Config = Config(base: seq<byte>, highWater: nat, rule: int, maxBytes: int)

  /** Where a thread stands inside `append`. */
  datatype Stage =
    | Idle
    | Ready(line: Line)    // found `_running` set, wants the lock
    | Entered(line: Line)  // holds the lock
    | Leaving              // holds the lock, line pushed

  /** Where the consumer stands inside `threadFunction`. */
  datatype Pc =
    | Opening
    | Testing
    | Locking
    | Deciding
    | Waiting
    | Swapping
    | Checking
    | Writing
    | Rolling
    | Resetting
    | Zeroing
    | Reopening
    | Draining(n: nat)
    | Done

  datatype Owner = Free | Consumer | Producer(p: nat)

  /** `resetAt` records how many lines had been pushed when `_accumulateBytes` was last set to 0. */
  datatype State = State(
    running: bool, owner: Owner, pc: Pc, producers: seq<Stage>,
    queue: Queue, accumulated: int, resetAt: nat, files: Files)

  datatype Action =
    | Call(p: nat, line: Line)
    | Acquire(p: nat)
    | Push(p: nat)
    | Release(p: nat)
    | Stop
    | Consume(newDay: bool)

  /** `start`: nothing logged, the consumer about to open its first file on a disk of any contents. */
  ghost predicate Start(s: State, disk: Disk)
  {
    && s.running && s.owner == Free && s.pc == Opening
      && (forall p :: 0 <= p < |s.producers| ==> s.producers[p] == Idle)
    && s.queue == Queue([], [], 0, 0, [], 0) && s.accumulated == 0 && s.resetAt == 0
    && s.files.disk == disk && s.files.suffix == 0 && s.files.cuts == []
  }

  /** An action a thread can take. A thread that wants the lock has to find it free. */
  predicate Enabled(s: State, a: Action)
  {
    match a
    case Call(p, line) => p < |s.producers| && s.producers[p] == Idle
    case Acquire(p) => p < |s.producers| && s.producers[p].Ready? && s.owner == Free
    case Push(p) => p < |s.producers| && s.producers[p].Entered?
    case Release(p) => p < |s.producers| && s.producers[p] == Leaving
    case Stop => s.running
    case Consume(_) => s.pc != Done && (s.pc in {Locking, Waiting, Resetting} ==> s.owner == Free)
  }

  function Next(c: Config, s: State, a: Action): State
    requires Enabled(s, a)
  {
    match a
    case Call(p, line) => if s.running then s.(producers := s.producers[p := Ready(line)]) else s
    case Acquire(p) => s.(producers := s.producers[p := Entered(s.producers[p].line)], owner := Producer(p))
    case Push(p) =>
      var line := s.producers[p].line;
      s.(producers := s.producers[p := Leaving], queue := s.queue.Push(line),
          accumulated := s.accumulated + |line.bytes|)
    case Release(p) => s.(producers := s.producers[p := Idle], owner := Free)
    case Stop => s.(running := false)
    case Consume(newDay) => Consumed(c, s, newDay)
  }

  /** One step of `threadFunction`. A wait may end at any time: by a notification, a timeout or for no reason. */
  function Consumed(c: Config, s: State, newDay: bool): State
  {
    match s.pc
    case Opening => Opened(c, s)
    case Testing =>
      if s.running then s.(pc := Locking)
      else if s.queue.current == [] then s.(pc := Done)
      else s.(pc := Draining(|s.queue.current|))
    case Locking => s.(pc := Deciding, owner := Consumer)
    case Deciding =>
      if s.running && |s.queue.current| < c.highWater then s.(pc := Waiting, owner := Free) else s.(pc := Swapping)
    case Waiting => s.(pc := Swapping, owner := Consumer)
    case Swapping => s.(pc := Checking, queue := s.queue.Swap(), owner := Free)
    case Checking => if s.queue.next == [] then s.(pc := Testing) else s.(pc := Writing)
    case Writing =>
      if s.queue.taken < |s.queue.next| then
        s.(queue := s.queue.Write(), files := s.files.Append(s.queue.next[s.queue.taken]))
      else s.(pc := Rolling, queue := s.queue.Clear())
    case Rolling =>
      if c.rule == ROLLING_SIZE && s.accumulated > c.maxBytes then s.(pc := Resetting)
      else if c.rule == ROLLING_DAILY && newDay then s.(pc := Reopening)
      else if c.rule == ROLLING_SIZEDAILY && (s.accumulated > c.maxBytes || newDay) then s.(pc := Resetting)
      else s.(pc := Testing)
    case Resetting => s.(pc := Zeroing, owner := Consumer)
    case Zeroing => s.(pc := Reopening, accumulated := 0, resetAt := |s.queue.pushed|, owner := Free)
    case Reopening => Opened(c, s)
    case Draining(n) =>
      if s.queue.drained < n && s.queue.drained < |s.queue.current| then
        s.(queue := s.queue.Drain(), files := s.files.Append(s.queue.current[s.queue.drained]))
      else s.(pc := Done)
    case Done => s
  }

  function Opened(c: Config, s: State): State
  {
    s.(pc := Testing, files := s.files.Open(c.base, s.queue.written))
  }

  /** The mutex has one owner, and whoever stands inside a critical section is that owner. */
  ghost predicate Exclusive(s: State)
  {
    && (s.owner == Consumer <==> s.pc in {Deciding, Swapping, Zeroing})
    && (s.owner.Producer? ==> s.owner.p < |s.producers|)
    && (forall p {:trigger s.producers[p]} :: 0 <= p < |s.producers| ==>
          (s.owner == Producer(p) <==> s.producers[p].Entered? || s.producers[p].Leaving?))
  }

  /** The consumer's positions fit where it stands; `_nextBuffer` is empty except between a swap and the end of its
      write loop; files are open once the consumer has started; the final drain begins after the stop. */
  ghost predicate Placed(s: State)
  {
    && (s.queue.next != [] ==> s.pc in {Checking, Writing})
    && (s.queue.taken > 0 ==> s.pc == Writing)
    && (s.queue.drained > 0 ==> s.pc.Draining? || s.pc == Done)
    && (s.pc.Draining? ==> s.queue.drained <= s.pc.n <= |s.queue.current|)
    && (s.pc.Draining? || s.pc == Done ==> !s.running)
    && (s.files.suffix == 0 <==> s.pc == Opening)
  }

  /** `_accumulateBytes` counts the bytes pushed since it was last reset. */
  ghost predicate Counted(s: State)
  {
    s.resetAt <= |s.queue.pushed| && s.accumulated == Bytes(s.queue.pushed[s.resetAt..])
  }

  ghost predicate Inv(c: Config, s: State, disk: Disk)
  {
    && Exclusive(s) && Placed(s) && s.queue.Fifo() && Counted(s)
    && s.files.Sound(c.base, disk, s.queue.pushed, s.queue.written)
  }

  lemma StartIsSound(c: Config, s: State, disk: Disk)
    requires Start(s, disk)
    ensures Inv(c, s, disk)
  {
  }

  lemma StepKeepsExclusive(c: Config, s: State, a: Action)
    requires Exclusive(s) && Enabled(s, a)
    ensures Exclusive(Next(c, s, a))
  {
  }

  lemma StepKeepsPlaced(c: Config, s: State, a: Action)
    requires Placed(s) && s.queue.Fifo() && Enabled(s, a)
    ensures Placed(Next(c, s, a))
  {
  }

  lemma StepKeepsFifo(c: Config, s: State, a: Action)
    requires Placed(s) && s.queue.Fifo() && Enabled(s, a)
    ensures Next(c, s, a).queue.Fifo()
  {
    if a.Push? {
      PushKeepsFifo(s.queue, s.producers[a.p].line);
    } else if a.Consume? && s.pc == Swapping {
      SwapKeepsFifo(s.queue);
    } else if a.Consume? && s.pc == Writing {
      if s.queue.taken < |s.queue.next| {
        WriteKeepsFifo(s.queue);
      } else {
        ClearKeepsFifo(s.queue);
      }
    } else if a.Consume? && s.pc.Draining? && s.queue.drained < s.pc.n {
      DrainKeepsFifo(s.queue);
    }
  }

  lemma StepKeepsCounted(c: Config, s: State, a: Action)
    requires Counted(s) && Enabled(s, a)
    ensures Counted(Next(c, s, a))
  {
    if a.Push? {
      hide Bytes;
      BytesOfOneMore(s.queue.pushed, s.resetAt, s.producers[a.p].line);
    } else if a.Consume? && s.pc == Zeroing {
      assert s.queue.pushed[|s.queue.pushed|..] == [];
    } else {
      hide Bytes;
      assert Next(c, s, a).queue.pushed == s.queue.pushed;
    }
  }

  lemma SoundIsInRange(f: Files, base: seq<byte>, disk: Disk, pushed: seq<Line>, written: nat)
    requires f.Sound(base, disk, pushed, written)
    ensures written <= |pushed| && (f.suffix == 0 ==> written == 0)
  {
  }

  lemma StepKeepsFiles(c: Config, s: State, a: Action, disk: Disk)
    requires Placed(s) && s.queue.Fifo() && Enabled(s, a)
    requires s.files.Sound(c.base, disk, s.queue.pushed, s.queue.written)
    ensures var t := Next(c, s, a); t.files.Sound(c.base, disk, t.queue.pushed, t.queue.written)
  {
    hide Files.Sound;
    SoundIsInRange(s.files, c.base, disk, s.queue.pushed, s.queue.written);
    var q := s.queue;
    if a.Push? {
      PushKeepsSound(s.files, c.base, disk, q.pushed, q.written, s.producers[a.p].line);
    } else if a.Consume? && s.pc in {Opening, Reopening} {
      OpenKeepsSound(s.files, c.base, disk, q.pushed, q.written);
    } else if a.Consume? && s.pc == Writing && q.taken < |q.next| {
      WriteKeepsFifo(q);
      AppendKeepsSound(s.files, c.base, disk, q.pushed, q.written);
    } else if a.Consume? && s.pc.Draining? && q.drained < s.pc.n {
      DrainKeepsFifo(q);
      AppendKeepsSound(s.files, c.base, disk, q.pushed, q.written);
    }
  }

  /** Every action of every thread keeps the invariant. */
  lemma StepKeepsInv(c: Config, s: State, a: Action, disk: Disk)
    requires Inv(c, s, disk) && Enabled(s, a)
    ensures Inv(c, Next(c, s, a), disk)
  {
    hide Exclusive, Placed, Counted, Next, Enabled;
    StepKeepsExclusive(c, s, a);
    StepKeepsPlaced(c, s, a);
    StepKeepsFifo(c, s, a);
    StepKeepsCounted(c, s, a);
    StepKeepsFiles(c, s, a, disk);
  }
}
