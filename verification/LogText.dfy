/** What the logger writes for its lines, and the names of the files that it writes to. */
module LogText {
  import opened Decimal

  datatype Line = Line(bytes: seq<byte>)

  const NEWLINE: byte := '\n' as int
  const UNDERSCORE: byte := '_' as int

  /** `writeLine`: a line gets a newline unless it ends with one. */
  function Terminated(line: Line): seq<byte>
  {
    var data := line.bytes;
    if data == [] || data[|data| - 1] != NEWLINE then data + [NEWLINE] else data
  }

  /** The bytes of a run of lines. */
  function Text(lines: seq<Line>): seq<byte>
  {
    if lines == [] then [] else Text(lines[..|lines| - 1]) + Terminated(lines[|lines| - 1])
  }

  lemma ConcatEndsWith<T>(a: seq<T>, b: seq<T>)
    requires b != []
    ensures (a + b)[..|a + b| - 1] == a + b[..|b| - 1] && (a + b)[|a + b| - 1] == b[|b| - 1]
  {
  }

  lemma {:induction false} TextOfConcat(a: seq<Line>, b: seq<Line>)
    ensures Text(a + b) == Text(a) + Text(b)
  {
    if b == [] {
      assert a + b == a && Text(b) == [];
    } else {
      hide Terminated;
      var front, last := b[..|b| - 1], b[|b| - 1];
      ConcatEndsWith(a, b);
      calc {
        Text(a + b);
        Text(a + front) + Terminated(last);
        { TextOfConcat(a, front); }
        (Text(a) + Text(front)) + Terminated(last);
        Text(a) + (Text(front) + Terminated(last));
        Text(a) + Text(b);
      }
    }
  }

  /** A line without a newline except perhaps at its end. */
  predicate Single(line: seq<byte>)
  {
    forall i :: 0 <= i < |line| - 1 ==> line[i] != NEWLINE
  }

  /** The text of a file, cut after every newline. */
  function Records(text: seq<byte>): seq<seq<byte>>
  {
    if text == [] then [] else var n := RecordLength(text); [text[..n]] + Records(text[n..])
  }

  function RecordLength(text: seq<byte>): (n: nat)
    requires text != []
    ensures 0 < n <= |text|
    ensures forall i :: 0 <= i < n - 1 ==> text[i] != NEWLINE
    ensures n < |text| ==> text[n - 1] == NEWLINE
  {
    if text[0] == NEWLINE || |text| == 1 then 1 else 1 + RecordLength(text[1..])
  }

  lemma TextOfOne(first: Line, rest: seq<Line>)
    ensures Text([first] + rest) == Terminated(first) + Text(rest)
  {
    TextOfConcat([first], rest);
    assert Text([first]) == Terminated(first);
  }

  lemma TerminatedIsSingle(line: Line)
    requires Single(line.bytes)
    ensures Single(Terminated(line)) && Terminated(line)[|Terminated(line)| - 1] == NEWLINE
  {
  }

  lemma FirstRecord(line: seq<byte>, rest: seq<byte>)
    requires line != [] && line[|line| - 1] == NEWLINE && Single(line)
    ensures Records(line + rest) == [line] + Records(rest)
  {
    var text := line + rest;
    var n := RecordLength(text);
    assert text[|line| - 1] == NEWLINE && forall i :: 0 <= i < |line| - 1 ==> text[i] == line[i];
    assert text[..n] == line && text[n..] == rest;
  }

  /** A file of single lines reads back record by record. */
  lemma {:induction false} RecordsOfText(lines: seq<Line>)
    requires forall i :: 0 <= i < |lines| ==> Single(lines[i].bytes)
    ensures |Records(Text(lines))| == |lines|
    ensures forall i :: 0 <= i < |lines| ==> Records(Text(lines))[i] == Terminated(lines[i])
    decreases |lines|
  {
    if lines != [] {
      hide Text, Records, Terminated, Single;
      var first, rest := lines[0], lines[1..];
      RecordsOfText(rest);
      assert lines == [first] + rest;
      TextOfOne(first, rest);
      TerminatedIsSingle(first);
      FirstRecord(Terminated(first), Text(rest));
      forall i | 0 <= i < |lines| ensures ([Terminated(first)] + Records(Text(rest)))[i] == Terminated(lines[i]) {
        if i > 0 {
          assert rest[i - 1] == lines[i];
        }
      }
    } else {
      assert Text(lines) == [];
    }
  }

  /** `getNextLogFileName`: the configured name, an underscore and a running number. */
  function FileName(base: seq<byte>, suffix: nat): seq<byte>
  {
    base + [UNDERSCORE] + Digits(suffix)
  }

  /** What the names look like, and the lines. */
  lemma FilesLookLike()
    ensures FileName(Ascii("log"), 0) == Ascii("log_0") && FileName(Ascii("log"), 12) == Ascii("log_12")
    ensures Terminated(Line(Ascii("hi"))) == Terminated(Line(Ascii("hi\n"))) == Ascii("hi\n")
  {
    assert Digits(12) == Digits(1) + [ZERO + 2];
  }

  /** Different numbers give different files. */
  lemma FileNamesDiffer(base: seq<byte>, i: nat, j: nat)
    ensures FileName(base, i) == FileName(base, j) <==> i == j
  {
    if FileName(base, i) == FileName(base, j) {
      assert Digits(i) == FileName(base, i)[|base| + 1..];
      assert Digits(j) == FileName(base, j)[|base| + 1..];
      ValueOfDigits(i);
      ValueOfDigits(j);
    }
  }

  function Bytes(lines: seq<Line>): nat
  {
    if lines == [] then 0 else Bytes(lines[..|lines| - 1]) + |lines[|lines| - 1].bytes|
  }

  lemma {:induction false} BytesOfConcat(a: seq<Line>, b: seq<Line>)
    ensures Bytes(a + b) == Bytes(a) + Bytes(b)
  {
    if b == [] {
      assert a + b == a;
    } else {
      BytesOfConcat(a, b[..|b| - 1]);
      ConcatEndsWith(a, b);
    }
  }
}
