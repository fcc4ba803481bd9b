/** PixelMEDIA.PixelCore.Helpers.Logger: the text the logger builds (the
    exception chain, the filtered call path, the entry line) and the level
    gate in front of the log4net sink. log4net, StackTrace and String.Format
    are abstract: frames are records, the sink is the sequence of entries
    written, and the formatter is a parameter. */
module LoggerModel {
  import opened Wrappers
  import opened Values
  import opened Seqs
  import StringHelper

  /** Environment.NewLine on Windows, what StringBuilder.AppendLine adds. */
  const NewLine: string := "\r\n"

  /** Text written line by line: each line followed by a new line. */
  function Text(lines: seq<string>): string {
    Concat(Map(WithNewLine, lines))
  }

  function WithNewLine(line: string): string {
    line + NewLine
  }

  /** A StringBuilder that is only ever given whole lines: the lines
      appended so far. */
  class StringBuilder {
    var lines: seq<string>

    constructor ()
      ensures lines == []
    {
      lines := [];
    }

    method AppendLine(line: string)
      modifies this
      ensures lines == old(lines) + [line]
    {
      lines := lines + [line];
    }

    function ToString(): string
      reads this
    {
      Text(lines)
    }
  }

  // ---- GetFullExceptionText ----

  /** The exceptions of the InnerException chain, outermost first. */
  function Chain(ex: Exception): (r: seq<Exception>)
    ensures r != [] && r[0] == ex
  {
    match ex.inner
    case None => [ex]
    case Some(inner) => [ex] + Chain(inner)
  }

  const Separator: string := "### INNER EXCEPTION ###"

  function HeaderLine(ex: Exception): string {
    "Source: '" + ex.source + "', Message: '" + ex.message + "'"
  }

  function TraceLine(ex: Exception): string {
    "Stack Trace: " + ex.stackTrace
  }

  /** The lines GetException appends for ex and its inner exceptions. */
  function ExceptionLines(ex: Exception): seq<string> {
    [HeaderLine(ex), TraceLine(ex)] +
    match ex.inner
    case None => []
    case Some(inner) => [Separator] + ExceptionLines(inner)
  }

  /** GetException(ex, sb): appends the lines of ex's chain to sb. */
  method GetException(ex: Exception, sb: StringBuilder)
    modifies sb
    ensures sb.lines == old(sb.lines) + ExceptionLines(ex)
    decreases ex
  {
    sb.AppendLine(HeaderLine(ex));
    sb.AppendLine(TraceLine(ex));
    if ex.inner.None? {
      return;
    }
    sb.AppendLine(Separator);
    GetException(ex.inner.value, sb);
  }

  /** GetFullExceptionText(ex): the lines of the chain as one text. */
  method GetFullExceptionText(ex: Exception) returns (r: string)
    ensures r == Text(ExceptionLines(ex))
  {
    var sb := new StringBuilder();
    GetException(ex, sb);
    assert sb.lines == ExceptionLines(ex);
    r := sb.ToString();
  }

  /** For a chain of k exceptions the text has 3k - 1 lines: for the j-th
      exception, outermost first, its Source/Message line and its Stack Trace
      line, and between consecutive exceptions the separator line. */
  lemma {:induction false} ExceptionLinesShape(ex: Exception)
    ensures var lines, chain := ExceptionLines(ex), Chain(ex);
            && |lines| == 3 * |chain| - 1
            && (forall j :: 0 <= j < |chain| ==> lines[3 * j] == HeaderLine(chain[j]) && lines[3 * j + 1] == TraceLine(chain[j]))
            && (forall j :: 0 <= j < |chain| - 1 ==> lines[3 * j + 2] == Separator)
    decreases ex
  {
    match ex.inner
    case None =>
    case Some(inner) =>
      ExceptionLinesShape(inner);
      var lines, chain := ExceptionLines(ex), Chain(ex);
      var tail, rest := ExceptionLines(inner), Chain(inner);
      assert lines == [HeaderLine(ex), TraceLine(ex), Separator] + tail;
      assert chain == [ex] + rest;
      forall j | 1 <= j < |chain|
        ensures lines[3 * j] == HeaderLine(chain[j]) && lines[3 * j + 1] == TraceLine(chain[j])
      {
        assert lines[3 * j] == tail[3 * (j - 1)];
        assert lines[3 * j + 1] == tail[3 * (j - 1) + 1];
      }
      forall j | 1 <= j < |chain| - 1
        ensures lines[3 * j + 2] == Separator
      {
        assert lines[3 * j + 2] == tail[3 * (j - 1) + 2];
      }
  }

  /** The separator is told apart from the other lines: the number of
      separator lines is exactly k - 1. */
  lemma {:induction false} SeparatorCount(ex: Exception)
    ensures Count(Separator, ExceptionLines(ex)) == |Chain(ex)| - 1
    decreases ex
  {
    var h, t := HeaderLine(ex), TraceLine(ex);
    assert h[0] == 'S' && t[0] == 'S' && Separator[0] == '#';
    match ex.inner
    case None =>
      var lines := ExceptionLines(ex);
      assert lines == [h, t];
      assert lines[1..] == [t];
      assert lines[1..][1..] == [];
      assert Count(Separator, lines[1..][1..]) == 0;
      assert Count(Separator, lines[1..]) == 0;
    case Some(inner) =>
      SeparatorCount(inner);
      var lines := ExceptionLines(ex);
      assert lines == [h, t, Separator] + ExceptionLines(inner);
      assert lines[1..] == [t, Separator] + ExceptionLines(inner);
      assert lines[1..][1..] == [Separator] + ExceptionLines(inner);
      assert lines[1..][1..][1..] == ExceptionLines(inner);
      assert h != Separator && t != Separator;
      assert Count(Separator, lines[1..][1..]) == 1 + Count(Separator, ExceptionLines(inner));
      assert Count(Separator, lines[1..]) == Count(Separator, lines[1..][1..]);
      assert Chain(ex) == [ex] + Chain(inner);
  }

  /** How many times x occurs in s. */
  function Count(x: string, s: seq<string>): nat {
    if s == [] then 0 else (if s[0] == x then 1 else 0) + Count(x, s[1..])
  }

  // ---- GetMethodPath ----

  /** A frame's declaring type: Name, FullName, and whether it sits in the
      log4net assembly. */
  datatype TypeRecord = TypeRecord(name: string, fullName: string, inLog4net: bool)

  /** A StackFrame: its method's name and declaring type (null for dynamic
      methods). */
  datatype Frame = Frame(declaringType: Option<TypeRecord>, methodName: string)

  predicate Contains(text: string, part: string)
    requires part != []
  {
    StringHelper.IndexOf(text, part).Some?
  }

  /** The frames the path keeps: a declaring type outside log4net whose full
      name mentions none of "System.", "Logger" and "WebHost". */
  predicate Keep(frame: Frame) {
    match frame.declaringType
    case None => false
    case Some(t) =>
      && !t.inLog4net
      && !Contains(t.fullName, "System.")
      && !Contains(t.fullName, "Logger")
      && !Contains(t.fullName, "WebHost")
  }

  /** `{Type.Name}.{Method.Name}` of a kept frame. */
  function Label(frame: Frame): string
    requires frame.declaringType.Some?
  {
    frame.declaringType.value.name + "." + frame.methodName
  }

  function LabelOf(frame: Frame): string {
    if frame.declaringType.Some? then Label(frame) else ""
  }

  /** The labels of the kept frames, from the last frame to the first. */
  function KeptLabels(frames: seq<Frame>): seq<string> {
    if frames == [] then []
    else KeptLabels(frames[1..]) + (if Keep(frames[0]) then [Label(frames[0])] else [])
  }

  function Reversed<T>(s: seq<T>): (r: seq<T>)
    ensures |r| == |s|
  {
    if s == [] then [] else Reversed(s[1..]) + [s[0]]
  }

  /** The kept labels are LINQ's Where and Select over the reversed frames:
      the frames visited last-to-first, filtered, then named. */
  lemma {:induction false} KeptLabelsIsFilterOfReversed(frames: seq<Frame>)
    ensures KeptLabels(frames) == Map(LabelOf, Filter(Keep, Reversed(frames)))
  {
    if frames != [] {
      KeptLabelsIsFilterOfReversed(frames[1..]);
      var rest := Reversed(frames[1..]);
      FilterAppend(Keep, rest, [frames[0]]);
      assert Filter(Keep, [frames[0]]) == if Keep(frames[0]) then [frames[0]] else [] by {
        assert [frames[0]][1..] == [];
      }
      MapAppend(LabelOf, Filter(Keep, rest), Filter(Keep, [frames[0]]));
    }
  }

  /** GetMethodPath(stack): the reverse loop over the frames. */
  method GetMethodPath(frames: seq<Frame>) returns (r: string)
    ensures r == Join("/", KeptLabels(frames))
  {
    var stackPath: seq<string> := [];
    var i := |frames| - 1;
    while i >= 0
      invariant -1 <= i < |frames|
      invariant stackPath == KeptLabels(frames[i + 1..])
    {
      var frame := frames[i];
      assert frames[i..][1..] == frames[i + 1..];
      if frame.declaringType.None? || frame.declaringType.value.inLog4net {
        i := i - 1;
        continue;
      }
      var fullName := frame.declaringType.value.fullName;
      if Contains(fullName, "System.") || Contains(fullName, "Logger") || Contains(fullName, "WebHost") {
        i := i - 1;
        continue;
      }
      stackPath := stackPath + [Label(frame)];
      i := i - 1;
    }
    assert frames[0..] == frames;
    r := Join("/", stackPath);
  }

  /** No kept label is empty, so the path is "" exactly when no frame is
      kept, and every label in it comes from a kept frame. */
  lemma {:induction false} KeptLabelsSpec(frames: seq<Frame>)
    ensures Join("/", KeptLabels(frames)) == "" <==> forall i :: 0 <= i < |frames| ==> !Keep(frames[i])
    ensures forall x :: x in KeptLabels(frames) ==> exists i :: 0 <= i < |frames| && Keep(frames[i]) && x == Label(frames[i])
  {
    LabelsNonEmpty(frames);
    KeptLabelsEmpty(frames);
    var labels := KeptLabels(frames);
    if labels != [] {
      assert labels[0] in labels;
      JoinStartsWith(labels);
    }
    KeptLabelsMembers(frames);
  }

  lemma {:induction false} LabelsNonEmpty(frames: seq<Frame>)
    ensures forall x :: x in KeptLabels(frames) ==> x != ""
  {
    if frames != [] {
      LabelsNonEmpty(frames[1..]);
      if Keep(frames[0]) {
        assert |Label(frames[0])| >= 1;
      }
    }
  }

  lemma {:induction false} KeptLabelsEmpty(frames: seq<Frame>)
    ensures KeptLabels(frames) == [] <==> forall i :: 0 <= i < |frames| ==> !Keep(frames[i])
  {
    if frames != [] {
      KeptLabelsEmpty(frames[1..]);
      assert forall i :: 1 <= i < |frames| ==> frames[i] == frames[1..][i - 1];
    }
  }

  lemma {:induction false} KeptLabelsMembers(frames: seq<Frame>)
    ensures forall x :: x in KeptLabels(frames) ==> exists i :: 0 <= i < |frames| && Keep(frames[i]) && x == Label(frames[i])
  {
    if frames != [] {
      KeptLabelsMembers(frames[1..]);
      forall x | x in KeptLabels(frames)
        ensures exists i :: 0 <= i < |frames| && Keep(frames[i]) && x == Label(frames[i])
      {
        if x in KeptLabels(frames[1..]) {
          var i :| 0 <= i < |frames[1..]| && Keep(frames[1..][i]) && x == Label(frames[1..][i]);
          assert frames[i + 1] == frames[1..][i];
        } else {
          assert Keep(frames[0]) && x == Label(frames[0]);
        }
      }
    }
  }

  lemma {:induction false} JoinStartsWith(parts: seq<string>)
    requires parts != []
    ensures |Join("/", parts)| >= |parts[0]|
  {
  }

  // ---- The entry and the level gate ----

  datatype LogEntryType = Debug | Information | Warning | Error | Fatal

  /** Which of log4net's IsDebugEnabled, IsInfoEnabled and IsWarnEnabled hold. */
  datatype Levels = Levels(debug: bool, info: bool, warn: bool)

  /** The log4net method LogEntry calls, or None when it returns first:
      Error and Fatal always log; the others only when forced or enabled. */
  function Gate(entryType: LogEntryType, levels: Levels, forceLog: bool): (r: Option<LogEntryType>)
    ensures r.Some? ==> r.value == entryType
    ensures entryType == Error || entryType == Fatal ==> r == Some(entryType)
  {
    match entryType
    case Debug => if !forceLog && !levels.debug then None else Some(Debug)
    case Information => if !forceLog && !levels.info then None else Some(Information)
    case Warning => if !forceLog && !levels.warn then None else Some(Warning)
    case Error => Some(Error)
    case Fatal => Some(Fatal)
  }

  predicate Enabled(entryType: LogEntryType, levels: Levels) {
    match entryType
    case Debug => levels.debug
    case Information => levels.info
    case Warning => levels.warn
    case Error => true
    case Fatal => true
  }

  /** The gate never changes the level, lets Error and Fatal through
      whatever the configuration, and lets the others through exactly when
      forced or enabled. */
  lemma GateSpec(entryType: LogEntryType, levels: Levels, forceLog: bool)
    ensures Gate(entryType, levels, forceLog).Some? ==> Gate(entryType, levels, forceLog).value == entryType
    ensures entryType == Error || entryType == Fatal ==> Gate(entryType, levels, forceLog) == Some(entryType)
    ensures Gate(entryType, levels, forceLog).Some? <==> forceLog || Enabled(entryType, levels)
  {
  }

  /** IClientPropertyProvider. Null strings format as "". */
  datatype ClientProperties = ClientProperties(identifier: string, ipAddress: string, applicationLocation: string)

  /** `[{2}({3})] {4} {1} ({0})` with the trace, message, IP address,
      identifier and location. */
  function FullMessage(props: ClientProperties, trace: string, message: string): (r: string)
    ensures var head := "[" + props.ipAddress + "(" + props.identifier + ")] " + props.applicationLocation + " ";
            && |r| == |head| + |message| + |trace| + 3
            && r[..|head|] == head
            && r[|head|..|head| + |message|] == message
            && r[|head| + |message|..] == " (" + trace + ")"
  {
    "[" + props.ipAddress + "(" + props.identifier + ")] " + props.applicationLocation + " " + message + " (" + trace + ")"
  }

  /** What a call to Log is given: a message, a format and its arguments, or
      an exception. */
  datatype LogInput = Message(text: string) | Format(format: string, args: seq<Value>) | Failure(ex: Exception)

  /** The text Log passes on: the message, String.Format's result (`format`
      stands for it), or the full exception text. */
  function MessageOf(input: LogInput, format: (string, seq<Value>) -> string): string {
    match input
    case Message(text) => text
    case Format(f, args) => format(f, args)
    case Failure(ex) => Text(ExceptionLines(ex))
  }

  /** The static Logger: its client property provider, the log4net
      configuration, and the entries log4net has received. */
  class Logger {
    var clientProperties: Option<ClientProperties>
    const levels: Levels
    const format: (string, seq<Value>) -> string
    var written: seq<(LogEntryType, string)>

    constructor (levels: Levels, format: (string, seq<Value>) -> string)
      ensures clientProperties == None && written == []
      ensures this.levels == levels && this.format == format
    {
      clientProperties := None;
      this.levels := levels;
      this.format := format;
      written := [];
    }

    /** SetClientPropertyProvider(clientProperties). */
    method SetClientPropertyProvider(props: Option<ClientProperties>)
      modifies this
      ensures clientProperties == props && written == old(written)
    {
      clientProperties := props;
    }

    /** The entry written for a message at a level, given the calling frames,
        or nothing when the gate closes. */
    function Entry(entryType: LogEntryType, message: string, frames: seq<Frame>, forceLog: bool): seq<(LogEntryType, string)>
      requires clientProperties.Some?
      reads this
    {
      match Gate(entryType, levels, forceLog)
      case None => []
      case Some(level) => [(level, FullMessage(clientProperties.value, Join("/", KeptLabels(frames)), message))]
    }

    /** LogEntry(message, entryType, forceLog), with frames for the caller's
        stack. Without a client property provider the message cannot be
        formatted: NullReferenceException, whatever the level. */
    method LogEntry(message: string, entryType: LogEntryType, forceLog: bool, frames: seq<Frame>) returns (r: Result<bool>)
      modifies this
      ensures clientProperties == old(clientProperties)
      ensures old(clientProperties).None? ==> r == Err(NullReference) && written == old(written)
      ensures old(clientProperties).Some? ==>
                && r == Ok(Gate(entryType, levels, forceLog).Some?)
                && written == old(written) + Entry(entryType, message, frames, forceLog)
    {
      var trace := GetMethodPath(frames);
      if clientProperties.None? {
        return Err(NullReference);
      }
      var fullMessage := FullMessage(clientProperties.value, trace, message);
      match Gate(entryType, levels, forceLog) {
        case None =>
          return Ok(false);
        case Some(level) =>
          written := written + [(level, fullMessage)];
          return Ok(true);
      }
    }

    /** Log(entryType, ...): the unforced entry of the message. */
    method Log(entryType: LogEntryType, input: LogInput, frames: seq<Frame>) returns (r: Result<bool>)
      modifies this
      ensures clientProperties == old(clientProperties)
      ensures old(clientProperties).None? ==> r == Err(NullReference) && written == old(written)
      ensures old(clientProperties).Some? ==>
                && r == Ok(Enabled(entryType, levels))
                && written == old(written) + Entry(entryType, MessageOf(input, format), frames, false)
    {
      var message: string;
      match input {
        case Message(text) => message := text;
        case Format(f, args) => message := format(f, args);
        case Failure(ex) => message := GetFullExceptionText(ex);
      }
      r := LogEntry(message, entryType, false, frames);
    }

    method Info(input: LogInput, frames: seq<Frame>) returns (r: Result<bool>)
      modifies this
      ensures clientProperties == old(clientProperties)
      ensures old(clientProperties).None? ==> r == Err(NullReference) && written == old(written)
      ensures old(clientProperties).Some? ==> written == old(written) + Entry(LogEntryType.Information, MessageOf(input, format), frames, false)
      ensures old(clientProperties).Some? ==> (r == Ok(true) <==> levels.info)
    {
      r := Log(LogEntryType.Information, input, frames);
    }

    method Warn(input: LogInput, frames: seq<Frame>) returns (r: Result<bool>)
      modifies this
      ensures clientProperties == old(clientProperties)
      ensures old(clientProperties).None? ==> r == Err(NullReference) && written == old(written)
      ensures old(clientProperties).Some? ==> written == old(written) + Entry(LogEntryType.Warning, MessageOf(input, format), frames, false)
      ensures old(clientProperties).Some? ==> (r == Ok(true) <==> levels.warn)
    {
      r := Log(LogEntryType.Warning, input, frames);
    }

    method Error(input: LogInput, frames: seq<Frame>) returns (r: Result<bool>)
      modifies this
      ensures clientProperties == old(clientProperties)
      ensures old(clientProperties).None? ==> r == Err(NullReference) && written == old(written)
      ensures old(clientProperties).Some? ==> written == old(written) + Entry(LogEntryType.Error, MessageOf(input, format), frames, false)
      ensures old(clientProperties).Some? ==> r == Ok(true)
    {
      r := Log(LogEntryType.Error, input, frames);
    }

    method Fatal(input: LogInput, frames: seq<Frame>) returns (r: Result<bool>)
      modifies this
      ensures clientProperties == old(clientProperties)
      ensures old(clientProperties).None? ==> r == Err(NullReference) && written == old(written)
      ensures old(clientProperties).Some? ==> written == old(written) + Entry(LogEntryType.Fatal, MessageOf(input, format), frames, false)
      ensures old(clientProperties).Some? ==> r == Ok(true)
    {
      r := Log(LogEntryType.Fatal, input, frames);
    }
  }
}
