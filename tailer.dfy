/**
 * The per-file log tailer: a remembered byte offset and modification time, and
 * one poll pass that reopens the file, seeks, reads line by line until a read
 * returns nothing, and applies the rotation rule at end of file.
 */
module Tailer {
  import opened Wrappers
  import opened Utf8
  import opened Agent

  const Newline: byte := 0x0A

  /**
   * What one pass finds at the path: the open fails, or it succeeds on a file
   * with these bytes and this modification time. `seekOk` is whether the seek
   * to the offset succeeds; `failingRead` names the read of the pass (counting
   * from 0) that reports an I/O error, if one does.
   */
  datatype Poll =
    | OpenFailed
    | Opened(content: seq<byte>, modified: int, seekOk: bool, failingRead: Option<nat>)

  /** The tailer's state: `offset`, `last_modified`, and whether its loop still runs. */
  datatype TailState = TailState(offset: nat, lastModified: Option<int>, running: bool)

  /** The state after a pass and the lines it sent, one `send_logs` call each, in order. */
  datatype PassResult = PassResult(state: TailState, sent: seq<LogLine>)

  /**
   * Where the line that `read_line` takes from `pos` ends: just after the first
   * newline at or after `pos`, or at the end of the file.
   */
  function LineEnd(content: seq<byte>, pos: nat): (e: nat)
    requires pos <= |content|
    ensures pos <= e <= |content|
    ensures pos < |content| ==> pos < e
    decreases |content| - pos
  {
    if pos == |content| then pos
    else if content[pos] == Newline then pos + 1
    else LineEnd(content, pos + 1)
  }

  /** The bytes `read_line` takes from position `pos`; nothing at or past the end of the file. */
  function LineAt(content: seq<byte>, pos: nat): seq<byte> {
    if pos >= |content| then [] else content[pos..LineEnd(content, pos)]
  }

  /** Where a pass stops reading: the end of the file, the `k`-th read failing, or a line that is not UTF-8. */
  predicate StopsAt(p: Poll, pos: nat, k: nat)
    requires p.Opened?
  {
    pos >= |p.content| || p.failingRead == Some(k) || !IsValid(LineAt(p.content, pos))
  }

  /**
   * The count `read_line` returns for the `k`-th read of a pass, at `pos`: the
   * line's length, or 0 at end of file and for a failed read (an I/O error, or a
   * line that is not UTF-8).
   */
  function ReadCount(p: Poll, pos: nat, k: nat): (n: nat)
    requires p.Opened?
    ensures n == 0 <==> StopsAt(p, pos, k)
    ensures !StopsAt(p, pos, k) ==> n == |LineAt(p.content, pos)|
    ensures n != 0 ==> pos < |p.content| && pos + n == LineEnd(p.content, pos)
  {
    var line := LineAt(p.content, pos);
    if p.failingRead == Some(k) || !IsValid(line) then 0 else |line|
  }

  /** The lines a pass reads from `pos`, starting with its `k`-th read, up to the first read of 0 bytes. */
  function LinesFrom(p: Poll, pos: nat, k: nat): seq<seq<byte>>
    requires p.Opened?
    decreases |p.content| - pos
  {
    var n := ReadCount(p, pos, k);
    if n == 0 then [] else [LineAt(p.content, pos)] + LinesFrom(p, pos + n, k + 1)
  }

  /** The bytes of these lines, one after the other. */
  function Flatten(lines: seq<seq<byte>>): seq<byte> {
    if |lines| == 0 then [] else lines[0] + Flatten(lines[1..])
  }

  /** The texts of the sent lines, one after the other. */
  function AllText(sent: seq<LogLine>): string {
    if sent == [] then [] else sent[0].line + AllText(sent[1..])
  }

  /** The record sent for one line read from the file at `path`. */
  function ToLogLine(path: string, bytes: seq<byte>): LogLine {
    LogLine(DecodeLossy(bytes), None, None, map["filename" := path])
  }

  /** The records sent for these lines, in order. */
  function ToLogLines(path: string, lines: seq<seq<byte>>): seq<LogLine> {
    if |lines| == 0 then [] else [ToLogLine(path, lines[0])] + ToLogLines(path, lines[1..])
  }

  /** Where reading starts: the offset, or 0 after a failed seek. */
  function Start(s: TailState, p: Poll): nat
    requires p.Opened?
  {
    if p.seekOk then s.offset else 0
  }

  /** The rule at end of file: a recorded time strictly older than the file's rewinds to 0. */
  function AtEof(offset: nat, lastModified: Option<int>, modified: int): TailState {
    match lastModified
    case Some(t) =>
      if t < modified then TailState(0, Some(modified), true) else TailState(offset, lastModified, true)
    case None => TailState(offset, Some(modified), true)
  }

  /**
   * The reading part of a pass once the file is open and positioned at `start`:
   * the lines read, sent in order, and the state after the end-of-file rule.
   */
  function ReadPass(path: string, start: nat, lastModified: Option<int>, p: Poll): PassResult
    requires p.Opened?
  {
    var lines := LinesFrom(p, start, 0);
    var seen := if |lines| == 0 then lastModified else Some(p.modified);
    PassResult(AtEof(start + |Flatten(lines)|, seen, p.modified), ToLogLines(path, lines))
  }

  /** One pass of the tailer's loop, for a tailer of the file at `path`. */
  function Next(path: string, s: TailState, p: Poll): PassResult {
    if !s.running then PassResult(s, [])
    else match p
      case OpenFailed => PassResult(s.(running := false), [])
      case Opened(_, _, _, _) => ReadPass(path, Start(s, p), s.lastModified, p)
  }

  /** Where the read loop stops: its position, its recorded time and what it has sent. */
  datatype Drained = Drained(offset: nat, lastModified: Option<int>, sent: seq<LogLine>)

  /**
   * The read loop continued from position `pos` and read `k`, having recorded
   * `seen` and sent `sent` so far.
   */
  function Drain(path: string, p: Poll, pos: nat, k: nat, seen: Option<int>, sent: seq<LogLine>): Drained
    requires p.Opened?
    decreases |p.content| - pos
  {
    var n := ReadCount(p, pos, k);
    if n == 0 then Drained(pos, seen, sent)
    else Drain(path, p, pos + n, k + 1, Some(p.modified), sent + [ToLogLine(path, LineAt(p.content, pos))])
  }

  /** A read of n > 0 bytes is the first line of the pass from there. */
  lemma LinesFromCons(p: Poll, pos: nat, k: nat)
    requires p.Opened? && ReadCount(p, pos, k) != 0
    ensures LinesFrom(p, pos, k) == [LineAt(p.content, pos)] + LinesFrom(p, pos + ReadCount(p, pos, k), k + 1)
    ensures |LineAt(p.content, pos)| == ReadCount(p, pos, k)
  {
  }

  lemma FlattenCons(line: seq<byte>, rest: seq<seq<byte>>)
    ensures Flatten([line] + rest) == line + Flatten(rest)
  {
    assert ([line] + rest)[1..] == rest;
  }

  lemma ToLogLinesCons(path: string, line: seq<byte>, rest: seq<seq<byte>>)
    ensures ToLogLines(path, [line] + rest) == [ToLogLine(path, line)] + ToLogLines(path, rest)
  {
    assert ([line] + rest)[1..] == rest;
  }

  lemma AppendAssoc<T>(a: seq<T>, x: T, b: seq<T>)
    ensures (a + [x]) + b == a + ([x] + b)
  {
  }

  /** Where the read loop from `pos` ends according to `LinesFrom`. */
  function Summary(path: string, p: Poll, pos: nat, k: nat, seen: Option<int>, sent: seq<LogLine>): Drained
    requires p.Opened?
  {
    var lines := LinesFrom(p, pos, k);
    Drained(pos + |Flatten(lines)|, if |lines| == 0 then seen else Some(p.modified), sent + ToLogLines(path, lines))
  }

  lemma DrainStep(path: string, p: Poll, pos: nat, k: nat, seen: Option<int>, sent: seq<LogLine>)
    requires p.Opened? && ReadCount(p, pos, k) != 0
    ensures Drain(path, p, pos, k, seen, sent)
      == Drain(path, p, pos + ReadCount(p, pos, k), k + 1, Some(p.modified), sent + [ToLogLine(path, LineAt(p.content, pos))])
  {
  }

  lemma SummaryStep(path: string, p: Poll, pos: nat, k: nat, seen: Option<int>, sent: seq<LogLine>)
    requires p.Opened? && ReadCount(p, pos, k) != 0
    ensures Summary(path, p, pos, k, seen, sent)
      == Summary(path, p, pos + ReadCount(p, pos, k), k + 1, Some(p.modified), sent + [ToLogLine(path, LineAt(p.content, pos))])
  {
    var n := ReadCount(p, pos, k);
    var line := LineAt(p.content, pos);
    var rest := LinesFrom(p, pos + n, k + 1);
    LinesFromCons(p, pos, k);
    FlattenCons(line, rest);
    ToLogLinesCons(path, line, rest);
    AppendAssoc(sent, ToLogLine(path, line), ToLogLines(path, rest));
  }

  lemma DrainEnd(path: string, p: Poll, pos: nat, k: nat, seen: Option<int>, sent: seq<LogLine>)
    requires p.Opened? && ReadCount(p, pos, k) == 0
    ensures Drain(path, p, pos, k, seen, sent) == Summary(path, p, pos, k, seen, sent)
  {
    assert sent + [] == sent;
  }

  lemma DrainMore(path: string, p: Poll, pos: nat, k: nat, seen: Option<int>, sent: seq<LogLine>)
    requires p.Opened? && ReadCount(p, pos, k) != 0
    requires var next, sent' := pos + ReadCount(p, pos, k), sent + [ToLogLine(path, LineAt(p.content, pos))];
      Drain(path, p, next, k + 1, Some(p.modified), sent') == Summary(path, p, next, k + 1, Some(p.modified), sent')
    ensures Drain(path, p, pos, k, seen, sent) == Summary(path, p, pos, k, seen, sent)
  {
    DrainStep(path, p, pos, k, seen, sent);
    SummaryStep(path, p, pos, k, seen, sent);
  }

  /** The read loop ends after the lines of `LinesFrom`, having sent one record for each. */
  lemma {:induction false} DrainLines(path: string, p: Poll, pos: nat, k: nat, seen: Option<int>, sent: seq<LogLine>)
    requires p.Opened?
    ensures Drain(path, p, pos, k, seen, sent) == Summary(path, p, pos, k, seen, sent)
    decreases |p.content| - pos
  {
    var n := ReadCount(p, pos, k);
    if n == 0 {
      DrainEnd(path, p, pos, k, seen, sent);
    } else {
      DrainLines(path, p, pos + n, k + 1, Some(p.modified), sent + [ToLogLine(path, LineAt(p.content, pos))]);
      DrainMore(path, p, pos, k, seen, sent);
    }
  }

  /** The position and read count after the lines a pass reads from `pos`, its `k`-th read first. */
  function EndOfLines(p: Poll, pos: nat, k: nat): (nat, nat)
    requires p.Opened?
  {
    var lines := LinesFrom(p, pos, k);
    (pos + |Flatten(lines)|, k + |lines|)
  }

  lemma EndOfLinesStep(p: Poll, pos: nat, k: nat)
    requires p.Opened? && ReadCount(p, pos, k) != 0
    ensures EndOfLines(p, pos, k) == EndOfLines(p, pos + ReadCount(p, pos, k), k + 1)
  {
    var n := ReadCount(p, pos, k);
    var line, rest := LineAt(p.content, pos), LinesFrom(p, pos + n, k + 1);
    LinesFromCons(p, pos, k);
    FlattenCons(line, rest);
  }

  /** The lines a pass reads end where the next read returns 0 bytes. */
  lemma {:induction false} LinesFromEnd(p: Poll, pos: nat, k: nat)
    requires p.Opened?
    ensures ReadCount(p, EndOfLines(p, pos, k).0, EndOfLines(p, pos, k).1) == 0
    decreases |p.content| - pos
  {
    var n := ReadCount(p, pos, k);
    if n != 0 {
      LinesFromEnd(p, pos + n, k + 1);
      EndOfLinesStep(p, pos, k);
    }
  }

  /** A pass reads on until it meets the end of the file, the read that fails, or a line that is not UTF-8. */
  lemma LinesFromStops(p: Poll, pos: nat, k: nat)
    requires p.Opened?
    ensures var lines := LinesFrom(p, pos, k); StopsAt(p, pos + |Flatten(lines)|, k + |lines|)
  {
    LinesFromEnd(p, pos, k);
  }

  /**
   * `read_line` stops at the first newline: the bytes of a line before its last
   * are not newlines, and a line ends with a newline unless it ends the file.
   */
  lemma {:induction false} LineEndShape(content: seq<byte>, pos: nat)
    requires pos <= |content|
    ensures var e := LineEnd(content, pos);
      && (forall i :: pos <= i < e - 1 ==> content[i] != Newline)
      && (e == |content| || (pos < e && content[e - 1] == Newline))
    decreases |content| - pos
  {
    if pos < |content| && content[pos] != Newline {
      LineEndShape(content, pos + 1);
    }
  }

  /** Lines as `read_line` returns them with a count above 0: non-empty, well-formed UTF-8. */
  predicate Readable(lines: seq<seq<byte>>) {
    forall i :: 0 <= i < |lines| ==> lines[i] != [] && IsValid(lines[i])
  }

  /** `bytes` is what `content` holds from `pos` on. */
  predicate StretchAt(content: seq<byte>, pos: nat, bytes: seq<byte>) {
    bytes == [] || (pos + |bytes| <= |content| && bytes == content[pos..pos + |bytes|])
  }

  lemma ReadableCons(line: seq<byte>, rest: seq<seq<byte>>)
    requires line != [] && IsValid(line) && Readable(rest)
    ensures Readable([line] + rest)
  {
    forall i | 0 < i < |rest| + 1
      ensures ([line] + rest)[i] == rest[i - 1]
    {
    }
  }

  /** Two neighbouring stretches of `content` make one. */
  lemma Contiguous(content: seq<byte>, pos: nat, mid: nat, a: seq<byte>, b: seq<byte>)
    requires pos <= mid <= |content| && a == content[pos..mid] && StretchAt(content, mid, b)
    ensures StretchAt(content, pos, a + b)
  {
  }

  /** Every line a pass reads is non-empty and well-formed UTF-8. */
  lemma {:induction false} LinesFromReadable(p: Poll, pos: nat, k: nat)
    requires p.Opened?
    ensures Readable(LinesFrom(p, pos, k))
    decreases |p.content| - pos
  {
    var n := ReadCount(p, pos, k);
    if n != 0 {
      LinesFromReadable(p, pos + n, k + 1);
      LinesFromCons(p, pos, k);
      ReadableCons(LineAt(p.content, pos), LinesFrom(p, pos + n, k + 1));
    }
  }

  lemma StretchCons(content: seq<byte>, pos: nat, line: seq<byte>, rest: seq<seq<byte>>)
    requires pos + |line| <= |content| && line == content[pos..pos + |line|]
    requires StretchAt(content, pos + |line|, Flatten(rest))
    ensures StretchAt(content, pos, Flatten([line] + rest))
  {
    FlattenCons(line, rest);
    Contiguous(content, pos, pos + |line|, line, Flatten(rest));
  }

  lemma ContiguousStep(p: Poll, pos: nat, k: nat)
    requires p.Opened? && ReadCount(p, pos, k) != 0
    requires StretchAt(p.content, pos + ReadCount(p, pos, k), Flatten(LinesFrom(p, pos + ReadCount(p, pos, k), k + 1)))
    ensures StretchAt(p.content, pos, Flatten(LinesFrom(p, pos, k)))
  {
    LinesFromCons(p, pos, k);
    StretchCons(p.content, pos, LineAt(p.content, pos), LinesFrom(p, pos + ReadCount(p, pos, k), k + 1));
  }

  /** The lines a pass reads are the file's bytes from where it starts reading, without a gap. */
  lemma {:induction false} LinesFromContiguous(p: Poll, pos: nat, k: nat)
    requires p.Opened?
    ensures StretchAt(p.content, pos, Flatten(LinesFrom(p, pos, k)))
    decreases |p.content| - pos
  {
    var n := ReadCount(p, pos, k);
    if n != 0 {
      LinesFromContiguous(p, pos + n, k + 1);
      ContiguousStep(p, pos, k);
    }
  }

  /** One record per line, in order, each with no level, no creation time and the file name as its only tag. */
  lemma {:induction false} ToLogLinesShape(path: string, lines: seq<seq<byte>>)
    ensures var sent := ToLogLines(path, lines);
      && |sent| == |lines|
      && forall i :: 0 <= i < |lines| ==>
           sent[i] == LogLine(DecodeLossy(lines[i]), None, None, map["filename" := path])
  {
    if lines != [] {
      ToLogLinesShape(path, lines[1..]);
      var sent := ToLogLines(path, lines);
      forall i | 0 <= i < |lines|
        ensures sent[i] == LogLine(DecodeLossy(lines[i]), None, None, map["filename" := path])
      {
        if i > 0 {
          assert sent[i] == ToLogLines(path, lines[1..])[i - 1];
        }
      }
    }
  }

  /** Lines of well-formed UTF-8 are sent without loss: the texts sent encode back to the bytes read. */
  lemma {:induction false} SentTextEncodesLines(path: string, lines: seq<seq<byte>>)
    requires Readable(lines)
    ensures Encode(AllText(ToLogLines(path, lines))) == Flatten(lines)
  {
    if lines != [] {
      var sent := ToLogLines(path, lines);
      assert sent[1..] == ToLogLines(path, lines[1..]);
      SentTextEncodesLines(path, lines[1..]);
      EncodeAppend(DecodeLossy(lines[0]), AllText(sent[1..]));
      EncodeDecodeValid(lines[0]);
    }
  }

  /**
   * The end-of-file rule rewinds exactly when a recorded time is strictly older
   * than the file's, and leaves the later of the two times recorded.
   */
  lemma EofRule(offset: nat, lastModified: Option<int>, modified: int)
    ensures var r := AtEof(offset, lastModified, modified);
      && r.running
      && (lastModified.Some? && lastModified.value < modified ==> r.offset == 0)
      && (!(lastModified.Some? && lastModified.value < modified) ==> r.offset == offset)
      && r.lastModified == Some(if lastModified.Some? && modified < lastModified.value then lastModified.value else modified)
  {
  }

  /** The records one pass sends: one per line read, with the fixed fields, encoding back to the bytes read. */
  lemma PassSent(path: string, s: TailState, p: Poll)
    requires s.running && p.Opened?
    ensures var lines, r := LinesFrom(p, Start(s, p), 0), Next(path, s, p);
      && |r.sent| == |lines|
      && (forall i :: 0 <= i < |lines| ==>
            lines[i] != [] && r.sent[i] == LogLine(DecodeLossy(lines[i]), None, None, map["filename" := path]))
      && Encode(AllText(r.sent)) == Flatten(lines)
  {
    var lines := LinesFrom(p, Start(s, p), 0);
    LinesFromReadable(p, Start(s, p), 0);
    ToLogLinesShape(path, lines);
    SentTextEncodesLines(path, lines);
  }

  /** The bytes one pass reads lie in the file from where it starts, and the state it leaves. */
  lemma PassState(path: string, s: TailState, p: Poll)
    requires s.running && p.Opened?
    ensures var start, lines, r := Start(s, p), LinesFrom(p, Start(s, p), 0), Next(path, s, p);
      && StretchAt(p.content, start, Flatten(lines))
      && (|lines| > 0 ==> r.state == TailState(start + |Flatten(lines)|, Some(p.modified), true))
      && (|lines| == 0 ==> r.state == AtEof(start, s.lastModified, p.modified) && r.sent == [])
  {
    LinesFromContiguous(p, Start(s, p), 0);
  }

  /** Where one pass stops reading. */
  lemma PassStops(s: TailState, p: Poll)
    requires p.Opened?
    ensures var start, lines := Start(s, p), LinesFrom(p, Start(s, p), 0);
      StopsAt(p, start + |Flatten(lines)|, |lines|)
  {
    var start := Start(s, p);
    var lines := LinesFrom(p, start, 0);
    LinesFromEnd(p, start, 0);
    assert ReadCount(p, start + |Flatten(lines)|, |lines|) == 0;
  }

  /**
   * One pass over an open file: the records sent are the lines read, one each,
   * in order, with the fixed level, time and tag; their texts encode back to the
   * bytes read, which are the file's bytes from where reading started; and the
   * offset moves past exactly those bytes. A pass that reads a line has recorded
   * the file's time, so the end-of-file rule cannot rewind it. The pass stops
   * only at the end of the file, at the read that fails, or at a line that is not
   * UTF-8.
   */
  lemma PassOutcome(path: string, s: TailState, p: Poll)
    requires s.running && p.Opened?
    ensures var start, lines, r := Start(s, p), LinesFrom(p, Start(s, p), 0), Next(path, s, p);
      && |r.sent| == |lines|
      && (forall i :: 0 <= i < |lines| ==>
            lines[i] != [] && r.sent[i] == LogLine(DecodeLossy(lines[i]), None, None, map["filename" := path]))
      && Encode(AllText(r.sent)) == Flatten(lines)
      && StretchAt(p.content, start, Flatten(lines))
      && (|lines| > 0 ==> r.state == TailState(start + |Flatten(lines)|, Some(p.modified), true))
      && (|lines| == 0 ==> r.state == AtEof(start, s.lastModified, p.modified) && r.sent == [])
      && StopsAt(p, start + |Flatten(lines)|, |lines|)
  {
    PassSent(path, s, p);
    PassState(path, s, p);
    PassStops(s, p);
  }

  /** A pass at or past the end of an unchanged file sends nothing and changes nothing. */
  lemma QuietWhenUnchanged(path: string, s: TailState, p: Poll)
    requires s.running && p.Opened? && p.seekOk && s.offset >= |p.content|
    requires s.lastModified.Some? && p.modified <= s.lastModified.value
    ensures Next(path, s, p) == PassResult(s, [])
  {
    assert ReadCount(p, s.offset, 0) == 0;
  }

  /**
   * A file no longer than the offset (cut, or only touched) with a newer time is taken as rotated:
   * the pass sends nothing and rewinds, and the next pass over the same file reads
   * it from its first byte.
   */
  lemma TruncationRereads(path: string, s: TailState, p: Poll)
    requires s.running && p.Opened? && p.seekOk && s.offset >= |p.content|
    requires s.lastModified.Some? && s.lastModified.value < p.modified
    ensures var r := Next(path, s, p);
      && r == PassResult(TailState(0, Some(p.modified), true), [])
      && Next(path, r.state, p).sent == ToLogLines(path, LinesFrom(p, 0, 0))
  {
    assert ReadCount(p, s.offset, 0) == 0;
  }

  /**
   * A line that is not valid UTF-8 fails to read and so ends the pass like the
   * end of the file; once the file's time has moved on, the end-of-file rule
   * then takes it for a rotated file and rewinds to its first byte.
   */
  lemma InvalidLineRewinds(path: string, s: TailState, p: Poll)
    requires s.running && p.Opened? && p.seekOk && p.failingRead.None?
    requires s.offset < |p.content| && !IsValid(LineAt(p.content, s.offset))
    requires s.lastModified.Some? && s.lastModified.value < p.modified
    ensures Next(path, s, p) == PassResult(TailState(0, Some(p.modified), true), [])
  {
    assert ReadCount(p, s.offset, 0) == 0;
  }

  /** Successive passes: the final state and everything sent, in order. */
  function Run(path: string, s: TailState, polls: seq<Poll>): PassResult
    decreases |polls|
  {
    if polls == [] then PassResult(s, [])
    else
      var r := Next(path, s, polls[0]);
      var rest := Run(path, r.state, polls[1..]);
      PassResult(rest.state, r.sent + rest.sent)
  }

  /** A stopped tailer never sends again and its state never changes. */
  lemma {:induction false} StoppedForGood(path: string, s: TailState, polls: seq<Poll>)
    requires !s.running
    ensures Run(path, s, polls) == PassResult(s, [])
  {
    if polls != [] {
      StoppedForGood(path, s, polls[1..]);
    }
  }

  /** A failed open ends the tailer: whatever later passes would find, nothing more is sent. */
  lemma OpenFailureIsFinal(path: string, s: TailState, later: seq<Poll>)
    requires s.running
    ensures Run(path, s, [OpenFailed] + later) == PassResult(s.(running := false), [])
  {
    var stopped := s.(running := false);
    assert ([OpenFailed] + later)[1..] == later;
    StoppedForGood(path, stopped, later);
  }

  /** A tailer of one file: the loop state that `offset` and `last_modified` hold in the source. */
  class Tailer {
    const path: string
    var offset: nat
    var lastModified: Option<int>
    var running: bool

    function State(): TailState
      reads this
    {
      TailState(offset, lastModified, running)
    }

    constructor (path: string)
      ensures this.path == path && State() == TailState(0, None, true)
    {
      this.path := path;
      offset := 0;
      lastModified := None;
      running := true;
    }

    /** The end-of-file rule: a recorded time strictly older than the file's means the file was rotated. */
    method AtEndOfFile(modified: int)
      requires running
      modifies this
      ensures State() == AtEof(old(offset), old(lastModified), modified)
    {
      match lastModified {
        case Some(timestamp) =>
          if timestamp < modified {
            offset := 0;
            lastModified := Some(modified);
          }
        case None =>
          lastModified := Some(modified);
      }
    }

    /** The inner loop: read lines from the current position, sending each, until a read returns 0 bytes. */
    method ReadLines(p: Poll) returns (sent: seq<LogLine>)
      requires running && p.Opened?
      modifies this
      ensures running
      ensures Drained(offset, lastModified, sent) == Drain(path, p, old(offset), 0, old(lastModified), [])
    {
      sent := [];
      ghost var start, seen0 := offset, lastModified;
      var k := 0;
      while true
        invariant running
        invariant Drain(path, p, offset, k, lastModified, sent) == Drain(path, p, start, 0, seen0, [])
        decreases |p.content| - offset
      {
        var n := ReadCount(p, offset, k);
        if n == 0 {
          break;
        }
        DrainStep(path, p, offset, k, lastModified, sent);
        sent := sent + [ToLogLine(path, LineAt(p.content, offset))];
        offset := offset + n;
        lastModified := Some(p.modified);
        k := k + 1;
      }
    }

    /** The inner loop and the end-of-file rule after it. */
    method ReadToEnd(p: Poll) returns (sent: seq<LogLine>)
      requires running && p.Opened?
      modifies this
      ensures PassResult(State(), sent) == ReadPass(path, old(offset), old(lastModified), p)
    {
      sent := ReadLines(p);
      DrainLines(path, p, old(offset), 0, old(lastModified), []);
      AtEndOfFile(p.modified);
    }

    /** One iteration of the outer loop: open, seek, read to a 0-byte read, apply the end-of-file rule. */
    method Pass(p: Poll) returns (sent: seq<LogLine>)
      modifies this
      ensures PassResult(State(), sent) == Next(path, old(State()), p)
    {
      sent := [];
      if !running {
        return;
      }
      match p {
        case OpenFailed =>
          running := false;
        case Opened(_, _, seekOk, _) =>
          if !seekOk {
            offset := 0;
          }
          sent := ReadToEnd(p);
      }
    }
  }
}
