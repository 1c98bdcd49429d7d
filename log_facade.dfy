/**
 * The logging facade (include/log/log.h, src/log.cpp): every call renders
 * one record, enqueues it on a 100-slot MPMC queue of strings, and drains
 * the queue into the writer while it is at least half full; destruction
 * drains what is left.
 *
 * The writer is an append-only sink of records and registered files. The
 * prefix (time stamp and thread id) and the formatted message body are
 * opaque strings supplied by the caller.
 */
module LogFacade {
  import opened Wrappers
  import opened Mpmc

  /** `mpmc_{100}` */
  const LOG_QUEUE_CAPACITY: nat := 100
  /** `sizeof(SingleElementQueue<std::string>)` with a 32-byte string, a
      4-byte sequencer word and 8-byte alignment. */
  const STRING_SLOT_BYTES: nat := 40

  /** `LogLevel`, an 8-bit enumeration; values outside the list can be cast in. */
  type LogLevel = x: int | 0 <= x < 256

  /** The level list, in declaration order. */
  const LEVEL_NAMES: seq<string> := ["debug", "info", "error", "fatal"]

  /** `logLevelToString(level)`: a listed level's own name, else "UNKNOWN". */
  function LogLevelToString(level: LogLevel): (r: string)
    ensures level < |LEVEL_NAMES| ==> r == LEVEL_NAMES[level]
    ensures level >= |LEVEL_NAMES| ==> r == "UNKNOWN"
  {
    match level
    case 0 => "debug"
    case 1 => "info"
    case 2 => "error"
    case 3 => "fatal"
    case _ => "UNKNOWN"
  }

  /** Distinct listed levels print distinct names, none of them "UNKNOWN". */
  lemma LogLevelNamesDistinct(a: LogLevel, b: LogLevel)
    requires a < |LEVEL_NAMES| && b < |LEVEL_NAMES|
    ensures LogLevelToString(a) == LogLevelToString(b) <==> a == b
    ensures LogLevelToString(a) != "UNKNOWN"
  {
  }

  function DigitChar(d: nat): (c: char)
    requires d < 10
    ensures '0' <= c <= '9' && c as int - '0' as int == d
  {
    ('0' as int + d) as char
  }

  /** `{}` applied to a line number: its decimal digits, most significant
      first, with no leading zero. */
  function NatToString(n: nat): (r: string)
    ensures |r| >= 1 && (forall i :: 0 <= i < |r| ==> '0' <= r[i] <= '9')
    ensures n > 0 ==> r[0] != '0'
  {
    if n < 10 then [DigitChar(n)] else NatToString(n / 10) + [DigitChar(n % 10)]
  }

  /** The value of a string of decimal digits. */
  function ParseDecimal(s: string): nat
    requires forall i :: 0 <= i < |s| ==> '0' <= s[i] <= '9'
  {
    if s == [] then 0
    else ParseDecimal(s[..|s| - 1]) * 10 + (s[|s| - 1] as int - '0' as int)
  }

  /** Appending a digit multiplies the value by ten and adds the digit. */
  lemma ParseDecimalAppend(s: string, d: nat)
    requires d < 10 && forall i :: 0 <= i < |s| ==> '0' <= s[i] <= '9'
    ensures var r := s + [DigitChar(d)];
      (forall i :: 0 <= i < |r| ==> '0' <= r[i] <= '9') && ParseDecimal(r) == ParseDecimal(s) * 10 + d
  {
    var r := s + [DigitChar(d)];
    assert r[..|r| - 1] == s;
  }

  /** The rendered line number reads back as the line number. */
  lemma {:induction false} NatToStringRoundTrip(n: nat)
    ensures ParseDecimal(NatToString(n)) == n
  {
    var r := NatToString(n);
    if n < 10 {
      assert r[..0] == [];
    } else {
      var high := NatToString(n / 10);
      ParseDecimalAppend(high, n % 10);
      NatToStringRoundTrip(n / 10);
      assert n == (n / 10) * 10 + n % 10;
    }
  }

  /** The line `"{} {}:{} [{}] {}\n"` formats from the prefix, the source
      file and line, the level name and the message. */
  function Render(prefix: string, file: string, line: nat, level: LogLevel, msg: string): (r: string)
    ensures |r| > |prefix| + |msg| && r[|r| - 1] == '\n'
    ensures r[..|prefix|] == prefix
    ensures r[|r| - 1 - |msg|..|r| - 1] == msg
  {
    prefix + " " + file + ":" + NatToString(line) + " [" + LogLevelToString(level) + "] " + msg + "\n"
  }

  /** The I/O context, seen from the facade: the records handed to `write`
      and the files handed to `register_file`, in order. */
  class Writer {
    var written: seq<string>
    var files: seq<string>

    constructor ()
      ensures written == [] && files == []
    {
      written := [];
      files := [];
    }

    method Write(data: string)
      modifies this
      ensures written == old(written) + [data] && files == old(files)
    {
      written := written + [data];
    }

    method RegisterFile(path: string)
      modifies this
      ensures files == old(files) + [path] && written == old(written)
    {
      files := files + [path];
    }
  }

  class Log {
    const queue: MPMCQueue<string>
    const writer: Writer
    var filePath: string
    /** Every record enqueued so far, oldest first. */
    ghost var Logged: seq<string>

    /** Records reach the writer in the order they were logged, each once;
        the rest wait in the queue, which is below half full between calls. */
    ghost predicate Valid()
      reads this, queue, queue.slots, writer
    {
      && queue.Valid() && queue.capacity == LOG_QUEUE_CAPACITY
      && |queue.Contents| < LOG_QUEUE_CAPACITY / 2
      && writer.written + queue.Contents == Logged
    }

    /** `Log() = default`: an empty queue of 100 and a fresh writer. */
    constructor ()
      ensures Valid() && Logged == [] && writer.written == [] && writer.files == []
      ensures filePath == "" && fresh(queue) && fresh(queue.slots) && fresh(writer)
    {
      queue := new MPMCQueue<string>(LOG_QUEUE_CAPACITY, STRING_SLOT_BYTES);
      writer := new Writer();
      filePath := "";
      Logged := [];
    }

    /** `addLogMessage(level, fmt, args...)`: render the record, `write` it
        (the result is ignored), then forward records while the queue is at
        least half full. As the queue is below half full on entry the write
        never drops the record, and at most one record is forwarded: the
        oldest, exactly when the new record brings the queue to half full. */
    method AddLogMessage(prefix: string, file: string, line: nat, level: LogLevel, msg: string)
      requires Valid()
      modifies this, queue, queue.slots, writer
      ensures Valid()
      ensures Logged == old(Logged) + [Render(prefix, file, line, level, msg)]
      ensures writer.written == if |old(queue.Contents)| + 1 >= LOG_QUEUE_CAPACITY / 2
                                then old(writer.written) + [Logged[|old(writer.written)|]]
                                else old(writer.written)
      ensures writer.files == old(writer.files) && filePath == old(filePath)
    {
      var outputMsg := Render(prefix, file, line, level, msg);
      var accepted := queue.Write(outputMsg);
      Logged := Logged + [outputMsg];
      ForwardWhileHalfFull();
    }

    /** The drain loop of `addLogMessage`: read a record and hand it to the
        writer while the queue holds at least half its capacity. Entered with
        at most half the capacity queued, it forwards the oldest record when
        exactly half is queued and nothing otherwise. */
    method ForwardWhileHalfFull()
      requires queue.Valid() && queue.capacity == LOG_QUEUE_CAPACITY
      requires |queue.Contents| <= LOG_QUEUE_CAPACITY / 2
      requires writer.written + queue.Contents == Logged
      modifies queue, queue.slots, writer
      ensures Valid()
      ensures writer.written == if |old(queue.Contents)| >= LOG_QUEUE_CAPACITY / 2
                                then old(writer.written) + [old(queue.Contents)[0]]
                                else old(writer.written)
      ensures writer.files == old(writer.files)
    {
      ghost var entry := queue.Contents;
      ghost var forwarded := false;
      var popMsg := "";
      while queue.Size() >= queue.capacity / 2
        invariant queue.Valid()
        invariant !forwarded ==> writer.written == old(writer.written) && queue.Contents == entry
        invariant forwarded ==> |entry| >= LOG_QUEUE_CAPACITY / 2
        invariant forwarded ==> writer.written == old(writer.written) + [entry[0]] && queue.Contents == entry[1..]
        invariant writer.files == old(writer.files)
        decreases !forwarded
      {
        popMsg := ForwardOne(popMsg);
        forwarded := true;
      }
      if forwarded {
        assert entry == [entry[0]] + entry[1..];
      }
    }

    /** One pass of the drain loop: `read(pop_msg)`, then `write` it. A failed
        read would leave `pop_msg` as it was. */
    method ForwardOne(popMsg: string) returns (next: string)
      requires queue.Valid() && queue.Contents != []
      modifies queue, queue.slots, writer
      ensures queue.Valid() && queue.Contents == old(queue.Contents)[1..]
      ensures next == old(queue.Contents)[0]
      ensures writer.written == old(writer.written) + [next] && writer.files == old(writer.files)
    {
      next := popMsg;
      var r := queue.Read();
      if r.Some? {
        next := r.value;
      }
      writer.Write(next);
    }

    /** `setOutputFile(path)`: remember the path, then register it. */
    method SetOutputFile(path: string)
      requires Valid()
      modifies this, writer
      ensures Valid() && Logged == old(Logged)
      ensures filePath == path && writer.files == old(writer.files) + [path]
      ensures writer.written == old(writer.written)
    {
      filePath := path;
      writer.RegisterFile(filePath);
    }

    /** `~Log()`: read and forward records until the queue is empty; every
        record still buffered reaches the writer once, in order. */
    method Close()
      requires Valid()
      modifies queue, queue.slots, writer
      ensures queue.Valid() && queue.Contents == []
      ensures writer.written == old(writer.written) + old(queue.Contents) == Logged
      ensures writer.files == old(writer.files)
    {
      while !queue.IsEmpty()
        invariant queue.Valid()
        invariant writer.written + queue.Contents == Logged
        invariant writer.files == old(writer.files)
        decreases |queue.Contents|
      {
        var popMsg := "";
        var r := queue.Read();
        if r.Some? {
          popMsg := r.value;
        }
        writer.Write(popMsg);
      }
    }
  }
}
