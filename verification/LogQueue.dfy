/** The two buffers of the logger and the files it writes, as values. */
module LogQueues {
  import opened LogText
  import opened Decimal

  /** `_currentBuffer`, `_nextBuffer`, and how far the write loop and the final drain have come in them. `pushed` and
      `written` record the past and steer nothing: all lines ever pushed, and how many of them were written. */
  datatype Queue = Queue(current: seq<Line>, next: seq<Line>, taken: nat, drained: nat, pushed: seq<Line>,
      written: nat) {

    /** The lines pushed and not yet written, oldest first. */
    function Unwritten(): seq<Line>
      requires taken <= |next| && drained <= |current|
    {
      next[taken..] + current[drained..]
    }

    /** First in, first out: the lines written and then the lines still held are the lines pushed, in order. */
    predicate Fifo()
    {
      taken <= |next| && drained <= |current| && written <= |pushed| && pushed == pushed[..written] + Unwritten()
    }

    function Push(line: Line): Queue
    {
      this.(current := current + [line], pushed := pushed + [line])
    }

    function Swap(): Queue
    {
      this.(current := next, next := current)
    }

    function Write(): Queue
    {
      this.(taken := taken + 1, written := written + 1)
    }

    function Clear(): Queue
    {
      this.(next := [], taken := 0)
    }

    function Drain(): Queue
    {
      this.(drained := drained + 1, written := written + 1)
    }
  }

  lemma PushKeepsFifo(q: Queue, line: Line)
    requires q.Fifo()
    ensures q.Push(line).Fifo()
  {
    assert q.Push(line).Unwritten() == q.Unwritten() + [line];
  }

  /** A swap keeps the order because `_nextBuffer` is empty. */
  lemma SwapKeepsFifo(q: Queue)
    requires q.Fifo() && q.next == [] && q.drained == 0
    ensures q.Swap().Fifo()
  {
    assert q.Swap().Unwritten() == q.Unwritten();
  }

  lemma TakeOne<T>(all: seq<T>, done: nat, left: seq<T>)
    requires done <= |all| && all == all[..done] + left && left != []
    ensures done < |all| && all[done] == left[0] && all == all[..done + 1] + left[1..]
  {
  }

  /** The write loop writes the oldest line not yet written. */
  lemma WriteKeepsFifo(q: Queue)
    requires q.Fifo() && q.taken < |q.next|
    ensures q.Write().Fifo() && q.written < |q.pushed| && q.next[q.taken] == q.pushed[q.written]
  {
    TakeOne(q.pushed, q.written, q.Unwritten());
    assert q.Write().Unwritten() == q.Unwritten()[1..];
  }

  lemma ClearKeepsFifo(q: Queue)
    requires q.Fifo() && q.taken == |q.next|
    ensures q.Clear().Fifo()
  {
    assert q.Clear().Unwritten() == q.Unwritten();
  }

  /** The final drain writes the oldest line not yet written. */
  lemma DrainKeepsFifo(q: Queue)
    requires q.Fifo() && q.next == [] && q.drained < |q.current|
    ensures q.Drain().Fifo() && q.written < |q.pushed| && q.current[q.drained] == q.pushed[q.written]
  {
    TakeOne(q.pushed, q.written, q.Unwritten());
    assert q.Drain().Unwritten() == q.Unwritten()[1..];
  }

  type Disk = map<seq<byte>, seq<byte>>

  /** What a file holds, nothing if it does not exist. */
  function Held(disk: Disk, name: seq<byte>): seq<byte>
  {
    if name in disk then disk[name] else []
  }

  /** The disk, the open file and the number of the next one. `cuts` records how many lines had been written when each
      file was opened. */
  datatype Files = Files(disk: Disk, name: seq<byte>, suffix: nat, cuts: seq<nat>) {

    /** The next file is opened for appending: earlier contents stay. */
    function Open(base: seq<byte>, written: nat): Files
    {
      var file := FileName(base, suffix);
      Files(disk[file := Held(disk, file)], file, suffix + 1, cuts + [written])
    }

    function Append(line: Line): Files
    {
      this.(disk := disk[name := Held(disk, name) + Terminated(line)])
    }

    /** How far the lines of the k-th file go. */
    function End(k: nat, written: nat): nat
    {
      if k + 1 < |cuts| then cuts[k + 1] else written
    }

    predicate Ordered(written: nat)
    {
      && (forall k :: 0 <= k < |cuts| ==> cuts[k] <= End(k, written) <= written)
      && (if cuts == [] then written == 0 else cuts[0] == 0)
    }

    /** The k-th file holds what it held before the run and then its own lines. */
    predicate Chunk(base: seq<byte>, before: Disk, pushed: seq<Line>, written: nat, k: nat)
      requires Ordered(written) && written <= |pushed| && k < |cuts|
    {
      var file := FileName(base, k);
      file in disk && disk[file] == Held(before, file) + Text(pushed[cuts[k]..End(k, written)])
    }

    ghost predicate Used(base: seq<byte>, file: seq<byte>)
    {
      exists k: nat :: k < suffix && file == FileName(base, k)
    }

    /** The files of this run hold the written lines, cut into consecutive chunks; all others are as before. */
    ghost predicate Sound(base: seq<byte>, before: Disk, pushed: seq<Line>, written: nat)
    {
      && written <= |pushed| && |cuts| == suffix && Ordered(written)
      && (suffix > 0 ==> name == FileName(base, suffix - 1))
      && (forall k: nat :: k < suffix ==> Chunk(base, before, pushed, written, k))
      && (forall file :: !Used(base, file) ==> Held(disk, file) == Held(before, file))
    }

    /** What the first `k` files gained in this run, one after the other. */
    function Gained(base: seq<byte>, before: Disk, k: nat): seq<byte>
    {
      if k == 0 then [] else
        var file := FileName(base, k - 1);
        var kept := |Held(before, file)|;
        Gained(base, before, k - 1) + if kept <= |Held(disk, file)| then Held(disk, file)[kept..] else []
    }
  }

  lemma OpenKeepsOrder(f: Files, base: seq<byte>, written: nat)
    requires f.Ordered(written) && (f.cuts == [] ==> written == 0)
    ensures
      var t := f.Open(base, written);
      && t.Ordered(written) && t.cuts[..|f.cuts|] == f.cuts && t.cuts[|f.cuts|] == written
      && forall k: nat :: k < |f.cuts| ==> t.cuts[k] == f.cuts[k] && t.End(k, written) == f.End(k, written)
  {
    hide FileName;
  }

  lemma OpenKeepsChunk(f: Files, base: seq<byte>, before: Disk, pushed: seq<Line>, written: nat, k: nat)
    requires f.Sound(base, before, pushed, written) && k < f.suffix
    ensures f.Open(base, written).Ordered(written) && f.Open(base, written).Chunk(base, before, pushed, written, k)
  {
    hide Text, FileName;
    OpenKeepsOrder(f, base, written);
    FileNamesDiffer(base, k, f.suffix);
    assert f.Chunk(base, before, pushed, written, k);
  }

  lemma NewChunk(f: Files, base: seq<byte>, before: Disk, pushed: seq<Line>, written: nat)
    requires f.Sound(base, before, pushed, written) && !f.Used(base, FileName(base, f.suffix))
    ensures f.Open(base, written).Ordered(written)
      && f.Open(base, written).Chunk(base, before, pushed, written, f.suffix)
  {
    hide FileName;
    OpenKeepsOrder(f, base, written);
    assert pushed[written..written] == [];
  }

  /** Opening a file takes a name that this run has not used. */
  lemma OpenKeepsSound(f: Files, base: seq<byte>, before: Disk, pushed: seq<Line>, written: nat)
    requires f.Sound(base, before, pushed, written) && (f.suffix == 0 ==> written == 0)
    ensures f.Open(base, written).Sound(base, before, pushed, written)
    ensures !f.Used(base, f.Open(base, written).name)
  {
    hide Text, FileName, Files.Chunk;
    var t := f.Open(base, written);
    OpenKeepsOrder(f, base, written);
    forall k: nat | k < f.suffix ensures FileName(base, k) != t.name {
      FileNamesDiffer(base, k, f.suffix);
    }
    forall k: nat | k < t.suffix ensures t.Chunk(base, before, pushed, written, k) {
      if k < f.suffix {
        OpenKeepsChunk(f, base, before, pushed, written, k);
      } else {
        NewChunk(f, base, before, pushed, written);
      }
    }
    forall file | !t.Used(base, file) ensures Held(t.disk, file) == Held(before, file) {
      assert file != FileName(base, f.suffix);
      assert !f.Used(base, file);
    }
  }

  lemma ChunkGrows(pushed: seq<Line>, from: nat, written: nat)
    requires from <= written < |pushed|
    ensures Text(pushed[from..written + 1]) == Text(pushed[from..written]) + Terminated(pushed[written])
  {
    assert pushed[from..written + 1][..written - from] == pushed[from..written];
  }

  lemma AppendKeepsSound(f: Files, base: seq<byte>, before: Disk, pushed: seq<Line>, written: nat)
    requires f.Sound(base, before, pushed, written) && written < |pushed| && f.suffix > 0
    ensures f.Append(pushed[written]).Sound(base, before, pushed, written + 1)
  {
    hide Text, Terminated, FileName;
    var t := f.Append(pushed[written]);
    var last, more := f.suffix - 1, written + 1;
    assert f.Chunk(base, before, pushed, written, last);
    forall k: nat | k < t.suffix ensures t.Chunk(base, before, pushed, more, k) {
      assert f.Chunk(base, before, pushed, written, k);
      FileNamesDiffer(base, k, last);
      if k == last {
        ChunkGrows(pushed, f.cuts[k], written);
      }
    }
    assert f.Used(base, f.name);
    forall file | !t.Used(base, file) ensures Held(t.disk, file) == Held(before, file) {
      assert !f.Used(base, file);
    }
  }

  /** Lines pushed later do not touch what was written. */
  lemma PushKeepsSound(f: Files, base: seq<byte>, before: Disk, pushed: seq<Line>, written: nat, line: Line)
    requires f.Sound(base, before, pushed, written)
    ensures f.Sound(base, before, pushed + [line], written)
  {
    hide Text, FileName;
    forall k: nat | k < f.suffix ensures f.Chunk(base, before, pushed + [line], written, k) {
      assert f.Chunk(base, before, pushed, written, k);
      assert (pushed + [line])[f.cuts[k]..f.End(k, written)] == pushed[f.cuts[k]..f.End(k, written)];
    }
  }

  /** The files of a run, joined in suffix order, gained exactly the text of the written lines. */
  lemma FilesJoinUp(f: Files, base: seq<byte>, before: Disk, pushed: seq<Line>, written: nat)
    requires f.Sound(base, before, pushed, written)
    ensures f.Gained(base, before, f.suffix) == Text(pushed[..written])
  {
    if f.suffix > 0 {
      FirstFilesJoinUp(f, base, before, pushed, written, f.suffix);
    }
  }

  /** The lines of one file. */
  lemma ChunkOf(f: Files, base: seq<byte>, before: Disk, pushed: seq<Line>, written: nat, k: nat)
    requires f.Sound(base, before, pushed, written) && k < f.suffix
    ensures
      k < |f.cuts| && var (from, to, file) := (f.cuts[k], f.End(k, written), FileName(base, k));
      && from <= to <= written <= |pushed| && (if k == 0 then from == 0 else from == f.End(k - 1, written))
      && Held(f.disk, file) == Held(before, file) + Text(pushed[from..to])
  {
    hide Text, FileName;
    assert f.Chunk(base, before, pushed, written, k);
  }

  lemma {:induction false} FirstFilesJoinUp(f: Files, base: seq<byte>, before: Disk, pushed: seq<Line>, written: nat,
      k: nat)
    requires f.Sound(base, before, pushed, written) && 0 < k <= f.suffix
    ensures f.End(k - 1, written) <= |pushed|
    ensures f.Gained(base, before, k) == Text(pushed[..f.End(k - 1, written)])
  {
    hide Text, FileName, Files.Sound, Files.End, Held;
    ChunkOf(f, base, before, pushed, written, k - 1);
    var from, to := f.cuts[k - 1], f.End(k - 1, written);
    var file := FileName(base, k - 1);
    assert Held(f.disk, file)[|Held(before, file)|..] == Text(pushed[from..to]);
    if k > 1 {
      FirstFilesJoinUp(f, base, before, pushed, written, k - 1);
      JoinSlices(pushed, from, to);
      TextOfConcat(pushed[..from], pushed[from..to]);
    } else {
      assert f.Gained(base, before, 0) == [];
      assert pushed[..to] == pushed[from..to];
    }
  }

  lemma JoinSlices<T>(s: seq<T>, from: nat, to: nat)
    requires from <= to <= |s|
    ensures s[..to] == s[..from] + s[from..to]
  {
  }

  lemma {:induction false} BytesOfOneMore(lines: seq<Line>, from: nat, line: Line)
    requires from <= |lines|
    ensures Bytes((lines + [line])[from..]) == Bytes(lines[from..]) + |line.bytes|
  {
    assert (lines + [line])[from..] == lines[from..] + [line];
    assert (lines[from..] + [line])[..|lines| - from] == lines[from..];
  }
}
