/**
 * Task-fork IPC: length-prefixed frames (crates/glpi-scheduler/src/ipc.rs), the
 * parent draining them (crates/glpi-scheduler/src/fork.rs) and the worker
 * emitting them (crates/glpi-cli/src/main.rs).
 *
 * The JSON codec is a parameter: a pair of functions of which the second undoes
 * the first.
 */
module Ipc {
  import opened Common

  const MAX_FRAME_LEN := 64 * 1024 * 1024
  const NO_DONE := "worker closed the channel without a Done message"
  const TOO_LARGE := "IPC frame too large"
  const BROKEN_PIPE := "broken pipe"

  /** The event a worker is started with: the task, and parameters that only the task reads. */
  datatype TaskEvent = TaskEvent(task: string, params: map<string, string>)

  datatype Message =
    | Event(event: TaskEvent)
    | Log(level: string, text: string)
    | Progress(task: string, percent: byte)
    | Result(contentType: string, data: Bytes)
    | Done(success: bool, message: Option<string>)

  datatype Codec = Codec(encode: Message -> Bytes, decode: Bytes -> Option<Message>)

  ghost predicate Inverse(codec: Codec) {
    forall m :: codec.decode(codec.encode(m)) == Some(m)
  }

  datatype Error = Oversize | Truncated | Malformed | NotAnEvent | Closed | NotSent

  // ---- Frames -----------------------------------------------------------------

  function ToBigEndian(n: nat): (s: Bytes)
    requires n <= U32_MAX
    ensures |s| == 4
  {
    [n / 0x100_0000, n / 0x1_0000 % 256, n / 256 % 256, n % 256]
  }

  function FromBigEndian(s: Bytes): nat
    requires |s| == 4
  {
    s[0] as int * 0x100_0000 + s[1] as int * 0x1_0000 + s[2] as int * 256 + s[3] as int
  }

  lemma BigEndianRoundTrip(n: nat)
    requires n <= U32_MAX
    ensures FromBigEndian(ToBigEndian(n)) == n
  {
    assert n / 0x1_0000 == n / 256 / 256 && n / 0x100_0000 == n / 256 / 256 / 256;
  }

  /** The writer accepts every length that a `u32` can hold. */
  predicate Writable(codec: Codec, m: Message) {
    |codec.encode(m)| <= U32_MAX
  }

  /** The reader accepts less. */
  predicate Readable(codec: Codec, m: Message) {
    |codec.encode(m)| <= MAX_FRAME_LEN
  }

  predicate AllWritable(codec: Codec, ms: seq<Message>) {
    forall i | 0 <= i < |ms| :: Writable(codec, ms[i])
  }

  predicate AllReadable(codec: Codec, ms: seq<Message>)
    ensures AllReadable(codec, ms) ==> AllWritable(codec, ms)
  {
    forall i | 0 <= i < |ms| :: Readable(codec, ms[i])
  }

  function Frame(codec: Codec, m: Message): Bytes
    requires Writable(codec, m)
  {
    ToBigEndian(|codec.encode(m)|) + codec.encode(m)
  }

  function Frames(codec: Codec, ms: seq<Message>): Bytes
    requires AllWritable(codec, ms)
  {
    if ms == [] then [] else Frame(codec, ms[0]) + Frames(codec, ms[1..])
  }

  datatype Read = Eof | Failed(error: Error) | Got(message: Message, rest: Bytes)

  /** `read_message`: fewer than four bytes count as a clean end. */
  function ReadFrame(codec: Codec, s: Bytes): (r: Read)
    ensures r.Got? ==> |r.rest| < |s|
  {
    if |s| < 4 then Eof
    else
      var len := FromBigEndian(s[..4]);
      if len > MAX_FRAME_LEN then Failed(Oversize)
      else if |s| < 4 + len then Failed(Truncated)
      else
        match codec.decode(s[4..4 + len])
        case None => Failed(Malformed)
        case Some(m) => Got(m, s[4 + len..])
  }

  function Produced(m: Message): seq<(string, Bytes)> {
    if m.Result? then [(m.contentType, m.data)] else []
  }

  datatype Outcome = Outcome(success: bool, message: Option<string>, results: seq<(string, Bytes)>)

  /** What the parent makes of a byte stream: the outcome or an error, and the messages it saw. */
  datatype Drained = Drained(outcome: Result<Outcome, Error>, seen: seq<Message>)

  function Drain(codec: Codec, s: Bytes, results: seq<(string, Bytes)>, seen: seq<Message>): Drained
    decreases |s|
  {
    match ReadFrame(codec, s)
    case Eof => Drained(Ok(Outcome(false, Some(NO_DONE), results)), seen)
    case Failed(e) => Drained(Err(e), seen)
    case Got(m, rest) =>
      if m.Done? then Drained(Ok(Outcome(m.success, m.message, results)), seen + [m])
      else Drain(codec, rest, results + Produced(m), seen + [m])
  }

  /** A byte stream consumed from the front. */
  class InputStream {
    var bytes: Bytes

    constructor (bytes: Bytes)
      ensures this.bytes == bytes
    {
      this.bytes := bytes;
    }

    method ReadExact(n: nat) returns (r: Option<Bytes>)
      modifies this
      ensures n <= |old(bytes)| ==> r == Some(old(bytes)[..n]) && bytes == old(bytes)[n..]
      ensures n > |old(bytes)| ==> r == None && bytes == []
    {
      if |bytes| < n {
        bytes := [];
        return None;
      }
      r := Some(bytes[..n]);
      bytes := bytes[n..];
    }

    method ReadMessage(codec: Codec) returns (r: Result<Option<Message>, Error>)
      modifies this
      ensures match ReadFrame(codec, old(bytes))
        case Eof => r == Ok(None)
        case Failed(e) => r == Err(e)
        case Got(m, rest) => r == Ok(Some(m)) && bytes == rest
    {
      var prefix := ReadExact(4);
      if prefix.None? {
        return Ok(None);
      }
      var len := FromBigEndian(prefix.value);
      if len > MAX_FRAME_LEN {
        return Err(Oversize);
      }
      var body := ReadExact(len);
      if body.None? {
        return Err(Truncated);
      }
      assert body.value == old(bytes)[4..4 + len];
      var decoded := codec.decode(body.value);
      r := if decoded.None? then Err(Malformed) else Ok(decoded);
    }

    /** `collect_messages`: reads until `Done`, the end of the stream or an error. */
    method CollectMessages(codec: Codec) returns (outcome: Result<Outcome, Error>, seen: seq<Message>)
      modifies this
      ensures Drained(outcome, seen) == Drain(codec, old(bytes), [], [])
    {
      var results: seq<(string, Bytes)>, done: Option<(bool, Option<string>)> := [], None;
      seen := [];
      while true
        invariant Drain(codec, old(bytes), [], []) == Drain(codec, bytes, results, seen)
        decreases |bytes|
      {
        var read := ReadMessage(codec);
        if read.Err? {
          return Err(read.error), seen;
        }
        if read.value.None? {
          return Ok(Outcome(false, Some(NO_DONE), results)), seen;
        }
        var message := read.value.value;
        seen := seen + [message];
        assert results + [] == results;
        match message {
          case Result(contentType, data) => results := results + [(contentType, data)];
          case Done(success, text) => return Ok(Outcome(success, text, results)), seen;
          case _ =>
        }
      }
    }

    /** `read_initial_event`: the child takes the first frame, which has to be an event. */
    method ReadInitialEvent(codec: Codec) returns (r: Result<TaskEvent, Error>)
      modifies this
      ensures r == InitialEvent(codec, old(bytes))
    {
      var read := ReadMessage(codec);
      if read.Err? {
        return Err(read.error);
      }
      match read.value {
        case Some(Event(event)) => return Ok(event);
        case Some(_) => return Err(NotAnEvent);
        case None => return Err(Closed);
      }
    }
  }

  function InitialEvent(codec: Codec, s: Bytes): Result<TaskEvent, Error> {
    match ReadFrame(codec, s)
    case Eof => Err(Closed)
    case Failed(e) => Err(e)
    case Got(Event(event), _) => Ok(event)
    case Got(_, _) => Err(NotAnEvent)
  }

  // ---- The worker -------------------------------------------------------------

  /** What a task does in the worker: the frames it emits, then its own error if it fails. */
  datatype Task = Task(name: string, emits: seq<Message>, failure: Option<string>)

  /** What a network discovery comes to: ranges that do not parse, or devices as JSON, if they serialize. */
  datatype Work = BadRanges(detail: string) | Unserializable(detail: string) | Devices(json: Bytes)

  /** `run_worker_task`, by the name of the task. */
  function JobOf(event: TaskEvent, work: Work): (task: Task)
    ensures NoDone(task.emits) && task.name == event.task
  {
    var name := event.task;
    if name == "selftest" then
      Task(name, [Progress("selftest", 100), Result("text/plain", [0x6f, 0x6b])], None)
    else if name == "netdiscovery" || name == "all" then
      var around := [Progress("netdiscovery", 0), Progress("netdiscovery", 100)];
      match work
      case BadRanges(detail) => Task(name, [], Some(detail))
      case Unserializable(detail) => Task(name, around, Some(detail))
      case Devices(json) => Task(name, around + [Result("application/json", json)], None)
    else Task(name, [], Some("task '" + name + "' is not supported by the worker"))
  }

  /** The emitted frames up to the first one that cannot be written, and the resulting failure. */
  function Emitted(codec: Codec, emits: seq<Message>): (ms: seq<Message>)
    ensures AllWritable(codec, ms)
  {
    if emits == [] || !Writable(codec, emits[0]) then [] else [emits[0]] + Emitted(codec, emits[1..])
  }

  function FailureOf(codec: Codec, task: Task): Option<string> {
    if |Emitted(codec, task.emits)| < |task.emits| then Some(TOO_LARGE) else task.failure
  }

  function Start(task: Task): Message {
    Log("info", "worker starting task '" + task.name + "'")
  }

  /** What follows the emitted frames: `Done`, preceded by a log line when it failed. */
  function Ending(failure: Option<string>): seq<Message> {
    match failure
    case None => [Done(true, None)]
    case Some(detail) => [Log("error", detail), Done(false, Some(detail))]
  }

  function Kept(codec: Codec, ms: seq<Message>): (kept: seq<Message>)
    ensures AllWritable(codec, kept)
  {
    if ms == [] then [] else (if Writable(codec, ms[0]) then [ms[0]] else []) + Kept(codec, ms[1..])
  }

  /** Every frame of a worker run, in order. */
  function WorkerMessages(codec: Codec, task: Task): (ms: seq<Message>)
    ensures AllWritable(codec, ms)
  {
    if !Writable(codec, Start(task)) then []
    else [Start(task)] + Emitted(codec, task.emits) + Kept(codec, Ending(FailureOf(codec, task)))
  }

  /** What arrives of `s` when the pipe takes `limit` bytes and then breaks. */
  function Cut(s: Bytes, limit: Option<nat>): Bytes {
    if Fits(s, limit) then s else s[..limit.value]
  }

  predicate Fits(s: Bytes, limit: Option<nat>) {
    limit.None? || |s| <= limit.value
  }

  /** A pipe to another process. */
  class OutputStream {
    var bytes: Bytes
    const limit: Option<nat>

    ghost predicate Valid()
      reads this
    {
      Fits(bytes, limit)
    }

    constructor (limit: Option<nat>)
      ensures Valid() && bytes == [] && this.limit == limit
    {
      bytes, this.limit := [], limit;
    }

    method WriteAll(data: Bytes) returns (ok: bool)
      requires Valid()
      modifies this
      ensures Valid() && bytes == Cut(old(bytes) + data, limit)
      ensures ok <==> Fits(old(bytes) + data, limit)
    {
      ok := Fits(bytes + data, limit);
      bytes := Cut(bytes + data, limit);
    }

    /** `write_message`: refused when the length does not fit, else written as far as the pipe takes it. */
    method WriteMessage(codec: Codec, m: Message) returns (ok: bool)
      requires Valid()
      modifies this
      ensures Valid()
      ensures ok <==> Writable(codec, m) && Fits(old(bytes) + Frame(codec, m), limit)
      ensures bytes == if Writable(codec, m) then Cut(old(bytes) + Frame(codec, m), limit) else old(bytes)
    {
      var body := codec.encode(m);
      if |body| > U32_MAX {
        return false;
      }
      Assoc(bytes, ToBigEndian(|body|), body);
      CutMore(bytes + ToBigEndian(|body|), body, limit);
      ok := WriteAll(ToBigEndian(|body|));
      if ok {
        ok := WriteAll(body);
      }
    }
  }

  /** What is cut off stays off, whatever is written after it. */
  lemma CutMore(a: Bytes, b: Bytes, limit: Option<nat>)
    ensures Cut(Cut(a, limit) + b, limit) == Cut(a + b, limit)
    ensures !Fits(a, limit) ==> Cut(a + b, limit) == Cut(a, limit) && !Fits(a + b, limit)
    ensures b != [] ==> (Fits(Cut(a, limit) + b, limit) <==> Fits(a + b, limit))
  {
    if !Fits(a, limit) { assert (a + b)[..limit.value] == a[..limit.value]; }
  }

  /** The job of a worker: its frames in order, up to the first that cannot be written. */
  method RunTask(codec: Codec, task: Task, out: OutputStream) returns (failure: Option<string>)
    requires out.Valid()
    modifies out
    ensures out.Valid()
    ensures var all := old(out.bytes) + Frames(codec, Emitted(codec, task.emits));
      && out.bytes == Cut(all, out.limit)
      && failure == if Fits(all, out.limit) then FailureOf(codec, task) else Some(BROKEN_PIPE)
  {
    var emits := task.emits;
    assert emits[0..] == emits;
    for i := 0 to |emits|
      invariant out.Valid()
      invariant |Emitted(codec, emits)| == i + |Emitted(codec, emits[i..])|
      invariant out.bytes + Frames(codec, Emitted(codec, emits[i..]))
             == old(out.bytes) + Frames(codec, Emitted(codec, emits))
    {
      NextEmitted(codec, emits, i, out.bytes);
      ghost var before := out.bytes;
      var ok := out.WriteMessage(codec, emits[i]);
      if !ok {
        if |codec.encode(emits[i])| > U32_MAX {
          return Some(TOO_LARGE);
        }
        CutMore(before + Frame(codec, emits[i]), Frames(codec, Emitted(codec, emits[i + 1..])), out.limit);
        return Some(BROKEN_PIPE);
      }
    }
    return task.failure;
  }

  /** The end of a run: the log of a failure, which may get lost, and the terminal `Done`. */
  method Finish(codec: Codec, failure: Option<string>, out: OutputStream) returns (ok: bool)
    requires out.Valid()
    modifies out
    ensures out.Valid()
    ensures var all := old(out.bytes) + Frames(codec, Kept(codec, Ending(failure)));
      && out.bytes == Cut(all, out.limit)
      && (ok <==> Writable(codec, Done(failure.None?, failure)) && Fits(all, out.limit))
  {
    EndingFrames(codec, failure);
    ghost var start, log, last := out.bytes, LogFrame(codec, failure), DoneFrame(codec, failure);
    if failure.Some? {
      var _ := out.WriteMessage(codec, Log("error", failure.value));
    }
    assert start + [] == start;
    assert out.bytes == Cut(start + log, out.limit);
    CutMore(start + log, last, out.limit);
    Assoc(start, log, last);
    assert (start + log) + [] == start + log;
    ok := out.WriteMessage(codec, Done(failure.None?, failure));
  }

  /** `run_task_worker`: the event, the start line, what the job emits, and how it ended. */
  method RunTaskWorker(codec: Codec, input: InputStream, work: TaskEvent -> Work, out: OutputStream) returns (ok: bool)
    requires out.Valid()
    modifies input, out
    ensures out.Valid()
    ensures match InitialEvent(codec, old(input.bytes))
      case Err(_) => !ok && out.bytes == old(out.bytes)
      case Ok(event) =>
        var task := JobOf(event, work(event));
        var failure, all := FailureOf(codec, task), old(out.bytes) + Frames(codec, WorkerMessages(codec, task));
        && out.bytes == Cut(all, out.limit)
        && (ok <==>
              Writable(codec, Start(task)) && Writable(codec, Done(failure.None?, failure)) && Fits(all, out.limit))
  {
    var event := input.ReadInitialEvent(codec);
    if event.Err? {
      return false;
    }
    var task := JobOf(event.value, work(event.value));
    ok := RunJob(codec, task, out);
  }

  method RunJob(codec: Codec, task: Task, out: OutputStream) returns (ok: bool)
    requires out.Valid()
    modifies out
    ensures out.Valid()
    ensures var failure, all := FailureOf(codec, task), old(out.bytes) + Frames(codec, WorkerMessages(codec, task));
      && out.bytes == Cut(all, out.limit)
      && (ok <==> Writable(codec, Start(task)) && Writable(codec, Done(failure.None?, failure)) && Fits(all, out.limit))
  {
    ok := out.WriteMessage(codec, Start(task));
    if !Writable(codec, Start(task)) {
      assert old(out.bytes) + [] == old(out.bytes);
      return;
    }
    ghost var start := old(out.bytes) + Frame(codec, Start(task));
    ghost var emitted, ended :=
      Frames(codec, Emitted(codec, task.emits)), Frames(codec, Kept(codec, Ending(FailureOf(codec, task))));
    WorkerFrames(codec, task);
    RegroupRun(old(out.bytes), Frame(codec, Start(task)), emitted, ended);
    CutMore(start, emitted + ended, out.limit);
    if !ok {
      return;
    }
    CutMore(start + emitted, ended, out.limit);
    var failure := RunTask(codec, task, out);
    CutMore(start + emitted, Frames(codec, Kept(codec, Ending(failure))), out.limit);
    if Writable(codec, Done(failure.None?, failure)) { EndingNotEmpty(codec, failure); }
    ok := Finish(codec, failure, out);
  }

  lemma FramesOne(codec: Codec, m: Message)
    requires Writable(codec, m)
    ensures Frames(codec, [m]) == Frame(codec, m)
  {
    assert Frames(codec, []) == [];
  }

  lemma KeptFrames(codec: Codec, m: Message, ms: seq<Message>)
    ensures Frames(codec, Kept(codec, [m] + ms)) ==
      (if Writable(codec, m) then Frame(codec, m) else []) + Frames(codec, Kept(codec, ms))
  {
    assert ([m] + ms)[1..] == ms;
    var first := if Writable(codec, m) then [m] else [];
    FramesAppend(codec, first, Kept(codec, ms));
    if Writable(codec, m) { FramesOne(codec, m); }
  }

  function LogFrame(codec: Codec, failure: Option<string>): Bytes {
    if failure.Some? && Writable(codec, Log("error", failure.value))
    then Frame(codec, Log("error", failure.value)) else []
  }

  function DoneFrame(codec: Codec, failure: Option<string>): Bytes {
    var done := Done(failure.None?, failure);
    if Writable(codec, done) then Frame(codec, done) else []
  }

  lemma EndingFrames(codec: Codec, failure: Option<string>)
    ensures Frames(codec, Kept(codec, Ending(failure))) == LogFrame(codec, failure) + DoneFrame(codec, failure)
  {
    var done := Done(failure.None?, failure);
    KeptFrames(codec, done, []);
    assert Ending(failure) == (if failure.Some? then [Log("error", failure.value)] else []) + [done];
    assert [done] + [] == [done];
    if failure.Some? { KeptFrames(codec, Log("error", failure.value), [done]); }
  }

  lemma EndingNotEmpty(codec: Codec, failure: Option<string>)
    requires Writable(codec, Done(failure.None?, failure))
    ensures Frames(codec, Kept(codec, Ending(failure))) != []
  {
    EndingFrames(codec, failure);
    assert |DoneFrame(codec, failure)| >= 4;
  }

  lemma RegroupRun(a: Bytes, b: Bytes, c: Bytes, d: Bytes)
    ensures a + (b + c + d) == (a + b) + (c + d) == ((a + b) + c) + d
  {
    Assoc(b, c, d);
    Assoc(a, b, c + d);
    Assoc(a + b, c, d);
  }

  lemma NextEmitted(codec: Codec, emits: seq<Message>, i: nat, before: Bytes)
    requires i < |emits|
    ensures var rest := Emitted(codec, emits[i..]);
      if Writable(codec, emits[i]) then
        && |rest| == 1 + |Emitted(codec, emits[i + 1..])|
        && before + Frames(codec, rest) ==
             before + Frame(codec, emits[i]) + Frames(codec, Emitted(codec, emits[i + 1..]))
      else rest == [] && before + Frames(codec, rest) == before
  {
    assert emits[i..][1..] == emits[i + 1..];
  }

  lemma WorkerFrames(codec: Codec, task: Task)
    requires Writable(codec, Start(task))
    ensures Frames(codec, WorkerMessages(codec, task)) ==
      Frame(codec, Start(task)) + Frames(codec, Emitted(codec, task.emits))
      + Frames(codec, Kept(codec, Ending(FailureOf(codec, task))))
  {
    var emitted := Emitted(codec, task.emits);
    FramesOne(codec, Start(task));
    FramesAppend(codec, [Start(task)], emitted);
    FramesAppend(codec, [Start(task)] + emitted, Kept(codec, Ending(FailureOf(codec, task))));
  }

  lemma {:induction false} FramesAppend(codec: Codec, a: seq<Message>, b: seq<Message>)
    requires AllWritable(codec, a)
    requires AllWritable(codec, b)
    ensures Frames(codec, a + b) == Frames(codec, a) + Frames(codec, b)
  {
    if a == [] {
      assert a + b == b;
    } else {
      assert (a + b)[1..] == a[1..] + b;
      FramesAppend(codec, a[1..], b);
    }
  }

  // ---- Worker to parent -------------------------------------------------------

  lemma FrameRead(codec: Codec, m: Message, tail: Bytes)
    requires Inverse(codec) && Writable(codec, m)
    ensures ReadFrame(codec, Frame(codec, m) + tail) == if Readable(codec, m) then Got(m, tail) else Failed(Oversize)
  {
    var body := codec.encode(m);
    var s := Frame(codec, m) + tail;
    BigEndianRoundTrip(|body|);
    assert s[..4] == ToBigEndian(|body|);
    assert s[4..4 + |body|] == body && s[4 + |body|..] == tail;
    assert codec.decode(body) == Some(m);
  }

  /** A frame on the wire: the length of its body in network order, then the body. */
  lemma FrameLayout(codec: Codec, m: Message)
    requires Writable(codec, m)
    ensures var f := Frame(codec, m);
      && |f| >= 4 && f[4..] == codec.encode(m)
      && f[0] as int * 16777216 + f[1] as int * 65536 + f[2] as int * 256 + f[3] as int == |f| - 4
  {
    BigEndianRoundTrip(|codec.encode(m)|);
  }

  /** The limits as numbers: the reader's is 64 MiB, the writer's what 32 bits can hold. */
  lemma LimitsAre(codec: Codec, m: Message)
    ensures Readable(codec, m) <==> |codec.encode(m)| <= 67108864
    ensures Writable(codec, m) <==> |codec.encode(m)| < 4294967296
  {
  }

  /** A frame whose body is not a message is an error of its own. */
  lemma MalformedRead(codec: Codec, body: Bytes, tail: Bytes)
    requires |body| <= 67108864 && codec.decode(body) == None
    ensures ReadFrame(codec, ToBigEndian(|body|) + body + tail) == Failed(Malformed)
  {
    var s := ToBigEndian(|body|) + body + tail;
    BigEndianRoundTrip(|body|);
    assert s[..4] == ToBigEndian(|body|) && s[4..4 + |body|] == body;
  }

  /** A frame cut after its first four bytes is an error, cut earlier it is an end of stream. */
  lemma CutFrameRead(codec: Codec, m: Message, tail: Bytes, k: nat)
    requires Readable(codec, m) && k < |Frame(codec, m)|
    ensures ReadFrame(codec, (Frame(codec, m) + tail)[..k]) == if k < 4 then Eof else Failed(Truncated)
  {
    var s := (Frame(codec, m) + tail)[..k];
    if k >= 4 {
      BigEndianRoundTrip(|codec.encode(m)|);
      assert s[..4] == ToBigEndian(|codec.encode(m)|);
    }
  }

  function ResultsOf(ms: seq<Message>): seq<(string, Bytes)> {
    if ms == [] then []
    else Produced(ms[0]) + ResultsOf(ms[1..])
  }

  ghost predicate NoDone(ms: seq<Message>) {
    forall m | m in ms :: !m.Done?
  }

  lemma ReadableParts(codec: Codec, a: seq<Message>, b: seq<Message>)
    ensures AllReadable(codec, a + b) <==> AllReadable(codec, a) && AllReadable(codec, b)
  {
    if AllReadable(codec, a + b) {
      forall i | 0 <= i < |a| ensures Readable(codec, a[i]) { assert a[i] == (a + b)[i]; }
      forall i | 0 <= i < |b| ensures Readable(codec, b[i]) { assert b[i] == (a + b)[|a| + i]; }
    }
  }

  lemma DrainOne(codec: Codec, m: Message, rest: Bytes, results: seq<(string, Bytes)>, seen: seq<Message>)
    requires Inverse(codec) && Readable(codec, m)
    ensures Drain(codec, Frame(codec, m) + rest, results, seen) ==
      if m.Done? then Drained(Ok(Outcome(m.success, m.message, results)), seen + [m])
      else Drain(codec, rest, results + Produced(m), seen + [m])
  {
    FrameRead(codec, m, rest);
  }

  /** Reading whole frames hands each message over once, in order, before what follows. */
  lemma {:induction false} DrainFrames(
    codec: Codec, ms: seq<Message>, tail: Bytes, results: seq<(string, Bytes)>, seen: seq<Message>)
    requires Inverse(codec) && NoDone(ms) && AllReadable(codec, ms)
    ensures Drain(codec, Frames(codec, ms) + tail, results, seen) ==
            Drain(codec, tail, results + ResultsOf(ms), seen + ms)
  {
    if ms == [] {
      assert [] + tail == tail && results + [] == results && seen + [] == seen;
    } else {
      var m := ms[0];
      DrainOne(codec, m, Frames(codec, ms[1..]) + tail, results, seen);
      Assoc(Frame(codec, m), Frames(codec, ms[1..]), tail);
      DrainFrames(codec, ms[1..], tail, results + Produced(m), seen + [m]);
      Assoc(results, Produced(m), ResultsOf(ms[1..]));
      Assoc(seen, [m], ms[1..]);
      assert [m] + ms[1..] == ms;
    }
  }

  /** The parent gets the worker's terminal message and its results, in order. */
  lemma DrainRun(codec: Codec, ms: seq<Message>, success: bool, text: Option<string>)
    requires Inverse(codec) && NoDone(ms) && AllReadable(codec, ms + [Done(success, text)])
    ensures Drain(codec, Frames(codec, ms + [Done(success, text)]), [], []) ==
            Drained(Ok(Outcome(success, text, ResultsOf(ms))), ms + [Done(success, text)])
  {
    var done := Done(success, text);
    ReadableParts(codec, ms, [done]);
    FramesAppend(codec, ms, [done]);
    FramesOne(codec, done);
    DrainFrames(codec, ms, Frame(codec, done), [], []);
    assert [done][0] == done;
    DrainOne(codec, done, [], ResultsOf(ms), ms);
    assert Frame(codec, done) + [] == Frame(codec, done);
    assert [] + ms == ms && [] + ResultsOf(ms) == ResultsOf(ms);
  }

  /**
   * A run whose frames all fit in a `u32` comes through as sent exactly when every
   * frame is within the reader's limit; otherwise the parent reports an oversize frame.
   */
  lemma ComesThroughIffReadable(codec: Codec, ms: seq<Message>, success: bool, text: Option<string>)
    requires Inverse(codec) && NoDone(ms) && AllWritable(codec, ms + [Done(success, text)])
    ensures var all := ms + [Done(success, text)];
      var drained := Drain(codec, Frames(codec, all), [], []);
      if AllReadable(codec, all)
      then drained == Drained(Ok(Outcome(success, text, ResultsOf(ms))), all)
      else drained.outcome == Err(Oversize)
  {
    var all := ms + [Done(success, text)];
    if AllReadable(codec, all) {
      DrainRun(codec, ms, success, text);
    } else {
      assert all[..|all| - 1] == ms;
      OversizeStops(codec, all);
    }
  }

  /** With a frame beyond the reader's limit before or at the terminal one, the parent gets an error. */
  lemma OversizeStops(codec: Codec, ms: seq<Message>)
    requires Inverse(codec) && ms != [] && NoDone(ms[..|ms| - 1])
    requires AllWritable(codec, ms) && !AllReadable(codec, ms)
    ensures Drain(codec, Frames(codec, ms), [], []).outcome == Err(Oversize)
  {
    var j := FirstUnreadable(codec, ms);
    var pre, m, post := ms[..j], ms[j], ms[j + 1..];
    assert ms == pre + ([m] + post);
    forall x | x in pre ensures x in ms[..|ms| - 1] {}
    FramesAppend(codec, pre, [m] + post);
    assert ([m] + post)[1..] == post;
    DrainFrames(codec, pre, Frames(codec, [m] + post), [], []);
    FrameRead(codec, m, Frames(codec, post));
  }

  /** Without a terminal message the parent reports that there was none. */
  lemma DrainOpen(codec: Codec, ms: seq<Message>)
    requires Inverse(codec) && NoDone(ms) && AllReadable(codec, ms)
    ensures Drain(codec, Frames(codec, ms), [], []) == Drained(Ok(Outcome(false, Some(NO_DONE), ResultsOf(ms))), ms)
  {
    DrainFrames(codec, ms, [], [], []);
    assert Frames(codec, ms) + [] == Frames(codec, ms);
    assert [] + ms == ms && [] + ResultsOf(ms) == ResultsOf(ms);
  }

  lemma {:induction false} FirstUnreadable(codec: Codec, ms: seq<Message>) returns (j: nat)
    requires exists m | m in ms :: !Readable(codec, m)
    ensures j < |ms| && !Readable(codec, ms[j]) && AllReadable(codec, ms[..j])
  {
    j := 0;
    while Readable(codec, ms[j])
      invariant j < |ms| && AllReadable(codec, ms[..j])
      invariant exists m | m in ms[j..] :: !Readable(codec, m)
      decreases |ms| - j
    {
      assert ms[..j + 1] == ms[..j] + [ms[j]] && ms[j..] == [ms[j]] + ms[j + 1..];
      j := j + 1;
    }
  }

  /**
   * Composition: for a task that emits no `Done` of its own and whose run keeps to
   * the frame limit, the parent reports the outcome of that job.
   */
  lemma WorkerToParent(codec: Codec, task: Task)
    requires Inverse(codec) && NoDone(task.emits)
    requires AllReadable(codec, [Start(task)] + task.emits + Ending(task.failure))
    ensures Drain(codec, Frames(codec, WorkerMessages(codec, task)), [], []) ==
      Drained(Ok(Outcome(task.failure.None?, task.failure, ResultsOf(task.emits))),
              [Start(task)] + task.emits + Ending(task.failure))
  {
    var log := if task.failure.None? then [] else [Log("error", task.failure.value)];
    var body := [Start(task)] + task.emits + log;
    var done := Done(task.failure.None?, task.failure);
    assert [Start(task)] + task.emits + Ending(task.failure) == body + [done];
    WorkerSendsAll(codec, task);
    DrainRun(codec, body, task.failure.None?, task.failure);
    BodyResults(task, task.emits, log);
  }

  lemma BodyResults(task: Task, emits: seq<Message>, log: seq<Message>)
    requires |log| <= 1 && forall m | m in log :: m.Log?
    ensures ResultsOf([Start(task)] + emits + log) == ResultsOf(emits)
  {
    ResultsAppend([Start(task)] + emits, log);
    ResultsAppend([Start(task)], emits);
    assert ResultsOf([Start(task)]) == [];
    assert log != [] ==> log[0] in log && log[1..] == [];
    assert ResultsOf(log) == [];
  }

  lemma WorkerSendsAll(codec: Codec, task: Task)
    requires AllReadable(codec, [Start(task)] + task.emits + Ending(task.failure))
    ensures WorkerMessages(codec, task) == [Start(task)] + task.emits + Ending(task.failure)
  {
    ReadableParts(codec, [Start(task)] + task.emits, Ending(task.failure));
    ReadableParts(codec, [Start(task)], task.emits);
    assert Readable(codec, [Start(task)][0]);
    EmittedAll(codec, task.emits);
    KeptAll(codec, Ending(task.failure));
  }

  lemma {:induction false} EmittedAll(codec: Codec, ms: seq<Message>)
    requires AllWritable(codec, ms)
    ensures Emitted(codec, ms) == ms
  {
    if ms != [] { EmittedAll(codec, ms[1..]); }
  }

  lemma {:induction false} KeptAll(codec: Codec, ms: seq<Message>)
    requires AllWritable(codec, ms)
    ensures Kept(codec, ms) == ms
  {
    if ms != [] { KeptAll(codec, ms[1..]); }
  }

  lemma {:induction false} ResultsAppend(a: seq<Message>, b: seq<Message>)
    ensures ResultsOf(a + b) == ResultsOf(a) + ResultsOf(b)
  {
    if a == [] {
      assert a + b == b;
    } else {
      assert (a + b)[1..] == a[1..] + b;
      ResultsAppend(a[1..], b);
    }
  }

  /** Every place inside the frames of `ms` lies `c` bytes into the frame of one message. */
  lemma {:induction false} CutPoint(codec: Codec, ms: seq<Message>, k: nat)
    returns (a: seq<Message>, m: Message, b: seq<Message>, c: nat)
    requires AllWritable(codec, ms) && k < |Frames(codec, ms)|
    ensures ms == a + [m] + b && AllWritable(codec, a) && Writable(codec, m)
    ensures k == |Frames(codec, a)| + c && c < |Frame(codec, m)|
  {
    var size := |Frame(codec, ms[0])|;
    if k < size {
      a, m, b, c := [], ms[0], ms[1..], k;
    } else {
      a, m, b, c := CutPoint(codec, ms[1..], k - size);
      assert ms == [ms[0]] + ms[1..];
      a := [ms[0]] + a;
      assert a[1..] == ms[1..][..|a| - 1];
    }
  }

  /**
   * Truncation: a stream cut `c` bytes into the frame of `m` hands over exactly the
   * messages before `m` and never ends in success.
   */
  lemma CutRun(codec: Codec, a: seq<Message>, m: Message, b: seq<Message>, c: nat)
    requires Inverse(codec) && NoDone(a) && AllReadable(codec, a + [m] + b) && AllReadable(codec, a)
    requires Readable(codec, m) && c < |Frame(codec, m)|
    ensures |Frames(codec, a)| + c <= |Frames(codec, a + [m] + b)|
    ensures Drain(codec, Frames(codec, a + [m] + b)[..|Frames(codec, a)| + c], [], []) ==
      Drained(if c < 4 then Ok(Outcome(false, Some(NO_DONE), ResultsOf(a))) else Err(Truncated), a)
  {
    ReadableParts(codec, a + [m], b);
    var tail := Frames(codec, b);
    var cut := (Frame(codec, m) + tail)[..c];
    FramesAround(codec, a, m, b);
    assert (Frames(codec, a) + (Frame(codec, m) + tail))[..|Frames(codec, a)| + c] == Frames(codec, a) + cut;
    CutDrains(codec, a, m, tail, c);
  }

  lemma FramesAround(codec: Codec, a: seq<Message>, m: Message, b: seq<Message>)
    requires AllWritable(codec, a) && Writable(codec, m) && AllWritable(codec, b) && AllWritable(codec, a + [m] + b)
    ensures Frames(codec, a + [m] + b) == Frames(codec, a) + (Frame(codec, m) + Frames(codec, b))
  {
    assert AllWritable(codec, [m]) && AllWritable(codec, a + [m]);
    FramesAppend(codec, a + [m], b);
    FramesAppend(codec, a, [m]);
    FramesOne(codec, m);
    Assoc(Frames(codec, a), Frame(codec, m), Frames(codec, b));
  }

  lemma CutDrains(codec: Codec, a: seq<Message>, m: Message, tail: Bytes, c: nat)
    requires Inverse(codec) && NoDone(a) && AllReadable(codec, a) && Readable(codec, m) && c < |Frame(codec, m)|
    ensures Drain(codec, Frames(codec, a) + (Frame(codec, m) + tail)[..c], [], []) ==
      Drained(if c < 4 then Ok(Outcome(false, Some(NO_DONE), ResultsOf(a))) else Err(Truncated), a)
  {
    CutFrameRead(codec, m, tail, c);
    DrainFrames(codec, a, (Frame(codec, m) + tail)[..c], [], []);
    assert [] + a == a && [] + ResultsOf(a) == ResultsOf(a);
  }

  /** A truncated worker stream shows a prefix of the messages and reports success for none. */
  lemma TruncatedNeverSucceeds(codec: Codec, ms: seq<Message>, k: nat)
    requires Inverse(codec) && AllReadable(codec, ms) && k < |Frames(codec, ms)| && NoDone(ms[..|ms| - 1])
    ensures var drained := Drain(codec, Frames(codec, ms)[..k], [], []);
      && drained.seen < ms
      && (drained.outcome.Ok? ==> !drained.outcome.value.success)
  {
    var a, m, b, c := CutPoint(codec, ms, k);
    SplitFacts(codec, a, m, b);
    CutShows(codec, a, m, b, c);
  }

  lemma CutShows(codec: Codec, a: seq<Message>, m: Message, b: seq<Message>, c: nat)
    requires Inverse(codec) && NoDone(a) && AllReadable(codec, a + [m] + b) && AllReadable(codec, a)
    requires Readable(codec, m) && c < |Frame(codec, m)|
    ensures |Frames(codec, a)| + c <= |Frames(codec, a + [m] + b)|
    ensures var drained := Drain(codec, Frames(codec, a + [m] + b)[..|Frames(codec, a)| + c], [], []);
      drained.seen == a && (drained.outcome.Ok? ==> !drained.outcome.value.success)
  {
    CutRun(codec, a, m, b, c);
  }

  lemma SplitFacts(codec: Codec, a: seq<Message>, m: Message, b: seq<Message>)
    requires var ms := a + [m] + b; AllReadable(codec, ms) && NoDone(ms[..|ms| - 1])
    ensures AllReadable(codec, a) && Readable(codec, m) && NoDone(a) && a < a + [m] + b
  {
    var ms := a + [m] + b;
    ReadableParts(codec, a + [m], b);
    ReadableParts(codec, a, [m]);
    assert Readable(codec, [m][0]);
    assert forall i | 0 <= i < |a| :: a[i] == ms[..|ms| - 1][i];
  }

  // ---- Any task, any pipe -------------------------------------------------------

  /** What is emitted is what was to be emitted, up to the first frame that cannot be written. */
  lemma {:induction false} EmittedIsPrefix(codec: Codec, emits: seq<Message>)
    ensures Emitted(codec, emits) <= emits
    ensures |Emitted(codec, emits)| < |emits| ==> !Writable(codec, emits[|Emitted(codec, emits)|])
  {
    if emits != [] { EmittedIsPrefix(codec, emits[1..]); }
  }

  /** The frames of a worker run without the terminal one: nothing in them is terminal. */
  lemma WorkerBody(codec: Codec, task: Task) returns (body: seq<Message>)
    requires NoDone(task.emits) && Writable(codec, Start(task))
    ensures var failure := FailureOf(codec, task); var done := Done(failure.None?, failure);
      WorkerMessages(codec, task) == body + if Writable(codec, done) then [done] else []
    ensures NoDone(body) && ResultsOf(body) == ResultsOf(Emitted(codec, task.emits))
  {
    var sent, failure := Emitted(codec, task.emits), FailureOf(codec, task);
    var done := Done(failure.None?, failure);
    var log :=
      if failure.Some? && Writable(codec, Log("error", failure.value)) then [Log("error", failure.value)] else [];
    body := [Start(task)] + sent + log;
    EmittedIsPrefix(codec, task.emits);
    forall m | m in sent ensures !m.Done? { assert m in task.emits; }
    BodyResults(task, sent, log);
    KeptEnding(codec, failure);
    Assoc([Start(task)] + sent, log, if Writable(codec, done) then [done] else []);
  }

  lemma KeptEnding(codec: Codec, failure: Option<string>)
    ensures var done := Done(failure.None?, failure);
      Kept(codec, Ending(failure)) ==
        (if failure.Some? && Writable(codec, Log("error", failure.value)) then [Log("error", failure.value)] else [])
        + (if Writable(codec, done) then [done] else [])
  {
    var done := Done(failure.None?, failure);
    assert Kept(codec, [done][1..]) == [];
    assert Kept(codec, [done]) == if Writable(codec, done) then [done] else [];
    if failure.Some? { assert Ending(failure)[1..] == [done]; }
  }

  /**
   * What the parent reports of any task, whatever fails to fit: an error for a frame
   * beyond its limit, else the worker's own verdict with the results that were
   * emitted, or their absence when the start line or the verdict could not be written.
   */
  lemma ParentReport(codec: Codec, task: Task)
    requires Inverse(codec) && NoDone(task.emits)
    ensures var ms, failure, sent := WorkerMessages(codec, task), FailureOf(codec, task), Emitted(codec, task.emits);
      Drain(codec, Frames(codec, ms), [], []).outcome ==
        if !AllReadable(codec, ms) then Err(Oversize)
        else if !Writable(codec, Start(task)) then Ok(Outcome(false, Some(NO_DONE), []))
        else if !Writable(codec, Done(failure.None?, failure)) then Ok(Outcome(false, Some(NO_DONE), ResultsOf(sent)))
        else Ok(Outcome(failure.None?, failure, ResultsOf(sent)))
  {
    var ms, failure := WorkerMessages(codec, task), FailureOf(codec, task);
    if !Writable(codec, Start(task)) {
      DrainOpen(codec, []);
    } else {
      var body := WorkerBody(codec, task);
      assert ms != [] && ms[..|ms| - 1] <= body;
      if !AllReadable(codec, ms) {
        OversizeStops(codec, ms);
      } else if Writable(codec, Done(failure.None?, failure)) {
        DrainRun(codec, body, failure.None?, failure);
      } else {
        assert ms == body;
        DrainOpen(codec, body);
      }
    }
  }

  /** A success read from part of a stream is the one the whole stream holds. */
  lemma {:induction false} SuccessIsStable(
    codec: Codec, s: Bytes, k: nat, results: seq<(string, Bytes)>, seen: seq<Message>)
    requires k <= |s|
    requires var part := Drain(codec, s[..k], results, seen); part.outcome.Ok? && part.outcome.value.success
    ensures Drain(codec, s, results, seen) == Drain(codec, s[..k], results, seen)
    decreases |s|
  {
    var read := ReadFrame(codec, s[..k]);
    var len := FromBigEndian(s[..k][..4]);
    assert s[..k][..4] == s[..4] && s[..k][4..4 + len] == s[4..4 + len];
    assert s[..k][4 + len..] == s[4 + len..][..k - 4 - len];
    if !read.message.Done? {
      SuccessIsStable(codec, s[4 + len..], k - 4 - len, results + Produced(read.message), seen + [read.message]);
    }
  }

  /** The job succeeded, every frame of it is within the reader's limit, and all of them got through the pipe. */
  ghost predicate Delivered(codec: Codec, task: Task, limit: Option<nat>) {
    var all := [Start(task)] + task.emits + [Done(true, None)];
    task.failure.None? && AllReadable(codec, all) && Fits(Frames(codec, all), limit)
  }

  lemma UnfailedRun(codec: Codec, task: Task)
    requires FailureOf(codec, task).None? && Writable(codec, Start(task)) && Writable(codec, Done(true, None))
    ensures task.failure.None? && WorkerMessages(codec, task) == [Start(task)] + task.emits + [Done(true, None)]
  {
    EmittedIsPrefix(codec, task.emits);
    KeptEnding(codec, None);
  }

  lemma DeliveredRun(codec: Codec, task: Task)
    requires task.failure.None? && AllReadable(codec, [Start(task)] + task.emits + [Done(true, None)])
    ensures FailureOf(codec, task).None? && Writable(codec, Start(task)) && Writable(codec, Done(true, None))
    ensures Emitted(codec, task.emits) == task.emits
    ensures WorkerMessages(codec, task) == [Start(task)] + task.emits + [Done(true, None)]
  {
    WorkerSendsAll(codec, task);
    ReadableParts(codec, [Start(task)] + task.emits, [Done(true, None)]);
    ReadableParts(codec, [Start(task)], task.emits);
    assert Readable(codec, [Start(task)][0]) && Readable(codec, [Done(true, None)][0]);
    EmittedAll(codec, task.emits);
  }

  /** The parent reports success exactly if all of a successful job was delivered, and then all its results. */
  lemma SuccessIffDelivered(codec: Codec, task: Task, limit: Option<nat>)
    requires Inverse(codec) && NoDone(task.emits)
    ensures var outcome := Drain(codec, Cut(Frames(codec, WorkerMessages(codec, task)), limit), [], []).outcome;
      && (outcome.Ok? && outcome.value.success <==> Delivered(codec, task, limit))
      && (Delivered(codec, task, limit) ==> outcome == Ok(Outcome(true, None, ResultsOf(task.emits))))
  {
    var ms, failure := WorkerMessages(codec, task), FailureOf(codec, task);
    var whole := Frames(codec, ms);
    var outcome := Drain(codec, Cut(whole, limit), [], []).outcome;
    ParentReport(codec, task);
    if Delivered(codec, task, limit) {
      DeliveredRun(codec, task);
    } else if outcome.Ok? && outcome.value.success {
      if !Fits(whole, limit) { SuccessIsStable(codec, whole, limit.value, [], []); }
      UnfailedRun(codec, task);
      if !Fits(whole, limit) {
        assert ms[..|ms| - 1] == [Start(task)] + task.emits;
        TruncatedNeverSucceeds(codec, ms, limit.value);
      }
    }
  }

  /** The worker reads back the event the parent sent, whatever follows it. */
  lemma EventReachesWorker(codec: Codec, event: TaskEvent, tail: Bytes)
    requires Inverse(codec) && Readable(codec, Event(event))
    ensures InitialEvent(codec, Frame(codec, Event(event)) + tail) == Ok(event)
  {
    FrameRead(codec, Event(event), tail);
  }

  /** What a success stands for: the results of a task the worker knows, and nothing else. */
  lemma SuccessMeans(codec: Codec, event: TaskEvent, work: Work, limit: Option<nat>)
    requires Delivered(codec, JobOf(event, work), limit)
    ensures var results := ResultsOf(JobOf(event, work).emits);
      || (event.task == "selftest" && results == [("text/plain", [0x6f, 0x6b])])
      || (event.task in ["netdiscovery", "all"] && work.Devices? && results == [("application/json", work.json)])
  {
    var emits := JobOf(event, work).emits;
    if event.task == "selftest" {
      ResultsAppend([emits[0]], [emits[1]]);
      assert emits == [emits[0]] + [emits[1]];
      OneResult(emits[0]);
      OneResult(emits[1]);
    } else {
      assert emits == [emits[0]] + [emits[1]] + [emits[2]];
      ResultsAppend([emits[0]] + [emits[1]], [emits[2]]);
      ResultsAppend([emits[0]], [emits[1]]);
      OneResult(emits[0]);
      OneResult(emits[1]);
      OneResult(emits[2]);
    }
  }

  /** Which tasks succeed in the worker. */
  lemma TaskSucceedsIff(event: TaskEvent, work: Work)
    ensures JobOf(event, work).failure.None? <==>
      event.task == "selftest" || ((event.task == "netdiscovery" || event.task == "all") && work.Devices?)
  {
  }

  /** A job reports rising progress, never past 100, and ends with all of it before the one result. */
  lemma ProgressRises(event: TaskEvent, work: Work, i: nat, j: nat)
    requires i < j < |JobOf(event, work).emits|
    ensures var emits := JobOf(event, work).emits;
      && emits[i].Progress? && emits[i].percent <= 100
      && (emits[j].Progress? ==> emits[i].percent < emits[j].percent <= 100)
      && (emits[j].Result? ==> j == |emits| - 1 && emits[j - 1].Progress? && emits[j - 1].percent == 100)
      && emits[i].task == if event.task == "all" then "netdiscovery" else event.task
  {
  }

  lemma OneResult(m: Message)
    ensures ResultsOf([m]) == Produced(m)
  {
    assert ResultsOf([m][1..]) == [];
  }

  /** What the worker writes for an event that arrives, and what it writes for one that does not. */
  ghost function WorkerStream(codec: Codec, event: TaskEvent, work: Work, limit: Option<nat>): Bytes {
    if Readable(codec, Event(event)) then Cut(Frames(codec, WorkerMessages(codec, JobOf(event, work))), limit) else []
  }

  lemma StreamReport(codec: Codec, event: TaskEvent, work: Work, limit: Option<nat>)
    requires Inverse(codec)
    ensures var outcome := Drain(codec, WorkerStream(codec, event, work, limit), [], []).outcome;
      && (outcome.Ok? && outcome.value.success <==>
            Readable(codec, Event(event)) && Delivered(codec, JobOf(event, work), limit))
      && (outcome.Ok? && outcome.value.success ==>
            outcome.value == Outcome(true, None, ResultsOf(JobOf(event, work).emits)))
  {
    if Readable(codec, Event(event)) {
      SuccessIffDelivered(codec, JobOf(event, work), limit);
    } else {
      assert ReadFrame(codec, []).Eof?;
    }
  }

  /** The worker's side of the fork. */
  method RunWorker(
    codec: Codec, ghost event: TaskEvent, received: Bytes, work: TaskEvent -> Work, limit: Option<nat>)
    returns (bytes: Bytes)
    requires Inverse(codec) && Writable(codec, Event(event)) && received == Frame(codec, Event(event))
    ensures bytes == WorkerStream(codec, event, work(event), limit)
  {
    var input := new InputStream(received);
    var out := new OutputStream(limit);
    assert Frame(codec, Event(event)) + [] == Frame(codec, Event(event));
    FrameRead(codec, Event(event), []);
    var _ := RunTaskWorker(codec, input, work, out);
    ghost var whole := Frames(codec, WorkerMessages(codec, JobOf(event, work(event))));
    assert [] + whole == whole;
    return out.bytes;
  }

  /**
   * The whole fork, over two pipes that may break: the parent sends the event, the
   * worker runs the job, the parent collects. It reports success exactly if the event
   * is within the reader's limit and gets through, and so does all of a successful job.
   */
  method RunForked(
    codec: Codec, event: TaskEvent, work: TaskEvent -> Work, down: Option<nat>, limit: Option<nat>)
    returns (outcome: Result<Outcome, Error>)
    requires Inverse(codec)
    ensures outcome.Ok? && outcome.value.success <==>
      && Readable(codec, Event(event)) && Fits(Frame(codec, Event(event)), down)
      && Delivered(codec, JobOf(event, work(event)), limit)
    ensures outcome.Ok? && outcome.value.success ==>
      outcome.value == Outcome(true, None, ResultsOf(JobOf(event, work(event)).emits))
  {
    var toWorker := new OutputStream(down);
    assert Writable(codec, Event(event)) ==> [] + Frame(codec, Event(event)) == Frame(codec, Event(event));
    var sent := toWorker.WriteMessage(codec, Event(event));
    if !sent {
      return Err(NotSent);
    }
    var bytes := RunWorker(codec, event, toWorker.bytes, work, limit);
    StreamReport(codec, event, work(event), limit);
    var fromWorker := new InputStream(bytes);
    ghost var seen;
    outcome, seen := fromWorker.CollectMessages(codec);
  }
}
