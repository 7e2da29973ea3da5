/** The logger: validates the level of a call, filters it against the
    threshold it was built with, formats the entry and hands the line to its
    writer. */
module SimpleLogger {
  import opened Wrappers
  import opened Levels
  import opened PhpValues
  import opened PhpString
  import opened DefaultLogFormatter

  /** A writer that keeps every line it is given, in order (the in-memory
      writer of the custom-writer usage; the file writer is not modelled). */
  class MemoryWriter {
    var lines: seq<string>

    constructor()
      ensures lines == []
    {
      lines := [];
    }

    /** `write`: the line is appended after the lines already written. */
    method Write(line: string)
      modifies this
      ensures lines == old(lines) + [line]
    {
      lines := lines + [line];
    }
  }

  /** A formatter: level name, message, context and the clock reading to a
      line, or the error the formatter raises. */
  type FormatFn = (string, Message, Context, Clock) -> Result<string, FormatError>

  /** The formatter a logger uses when it is given none. */
  function DefaultFormatter(host: Host): (f: FormatFn)
    ensures forall level, message, context, now ::
      f(level, message, context, now).Ok? <==> Interpolation(MessageText(message, host), context, host).Ok?
  {
    (level, message, context, now) => Format(level, message, context, now, host)
  }

  /** Why a call to `log` throws. */
  datatype LogError =
    | InvalidLevel(name: string)   // `InvalidArgumentException`
    | FormatFailed(cause: FormatError)

  /** The message of the exception thrown for an unknown level. */
  function InvalidLevelMessage(name: string): (r: string)
    ensures |r| == 19 + |name| && r[..19] == "Invalid log level: " && r[19..] == name
  {
    "Invalid log level: " + name
  }

  /** What a call that does not throw does to the writer. */
  datatype Effect = Suppressed | Written(line: string)

  /** `shouldLog`, as written: the level passes when its rank is at most the
      rank of the threshold. A threshold that is not a level name has no rank;
      PHP then compares the rank with `null`, which lets rank 0 through only. */
  predicate ShouldLog(level: Level, logLevel: string)
    ensures Rank(level) == 0 ==> ShouldLog(level, logLevel)
    ensures ParseLevel(logLevel) == Some(Debug) ==> ShouldLog(level, logLevel)
  {
    match ParseLevel(logLevel)
    case Some(threshold) => Rank(level) <= Rank(threshold)
    case None => Rank(level) == 0
  }

  /** The outcome of `log($level, $message, $context)` at clock reading `now`. */
  function Decide(logLevel: string, formatter: FormatFn, level: string, message: Message, context: Context, now: Clock)
    : (r: Result<Effect, LogError>)
    ensures r.Err? && r.error.InvalidLevel? <==> ParseLevel(level).None?
    ensures r.Err? && r.error.InvalidLevel? ==> r.error.name == level
    ensures r == Ok(Suppressed) <==> ParseLevel(level).Some? && !ShouldLog(ParseLevel(level).value, logLevel)
    ensures r.Ok? && r.value.Written? <==>
      ParseLevel(level).Some? && ShouldLog(ParseLevel(level).value, logLevel) && formatter(level, message, context, now).Ok?
    ensures r.Ok? && r.value.Written? ==> formatter(level, message, context, now) == Ok(r.value.line)
    ensures r.Err? && r.error.FormatFailed? ==> formatter(level, message, context, now) == Err(r.error.cause)
  {
    match ParseLevel(level)
    case None => Err(InvalidLevel(level))
    case Some(l) =>
      if !ShouldLog(l, logLevel) then Ok(Suppressed)
      else
        match formatter(level, message, context, now)
        case Err(e) => Err(FormatFailed(e))
        case Ok(line) => Ok(Written(line))
  }

  class Logger {
    const logLevel: string
    const writer: MemoryWriter
    const formatter: FormatFn

    /** A logger over `writer`, with threshold `logLevel` (by default
        `debug`) and the default formatter unless one is given. */
    constructor(writer: MemoryWriter, host: Host, logLevel: string := "debug", formatter: Option<FormatFn> := None)
      requires ParseLevel(logLevel).Some?
      ensures this.writer == writer && this.logLevel == logLevel
      ensures this.formatter == (if formatter.Some? then formatter.value else DefaultFormatter(host))
    {
      this.writer := writer;
      this.logLevel := logLevel;
      var chosen: FormatFn := if formatter.Some? then formatter.value else DefaultFormatter(host);
      this.formatter := chosen;
    }

    /** `log`: throws for an unknown level, does nothing below the threshold,
        and otherwise writes the formatted line (or throws what the formatter
        throws, writing nothing). */
    method Log(level: string, message: Message, context: Context, now: Clock) returns (r: Result<(), LogError>)
      modifies writer
      ensures var d := Decide(logLevel, formatter, level, message, context, now);
        (r.Ok? <==> d.Ok?) && (r.Err? ==> r.error == d.error)
        && writer.lines == old(writer.lines) + (if d.Ok? && d.value.Written? then [d.value.line] else [])
    {
      var parsed := ParseLevel(level);
      if parsed.None? {
        return Err(InvalidLevel(level));
      }
      if !ShouldLog(parsed.value, logLevel) {
        return Ok(());
      }
      var formatted := formatter(level, message, context, now);
      if formatted.Err? {
        return Err(FormatFailed(formatted.error));
      }
      writer.Write(formatted.value);
      return Ok(());
    }
  }

  /** For a threshold that is a level name, a level passes exactly when it is
      at least as severe as the threshold. */
  lemma ThresholdFilters(threshold: Level, level: Level)
    ensures ShouldLog(level, Name(threshold)) <==> Rank(level) <= Rank(threshold)
  {
    ParseName(threshold);
  }

  /** The filter is monotone: a more severe level passes whenever a less
      severe one does. */
  lemma ShouldLogMonotone(logLevel: string, less: Level, more: Level)
    requires Rank(more) <= Rank(less)
    ensures ShouldLog(less, logLevel) ==> ShouldLog(more, logLevel)
  {
  }

  /** The default threshold `debug` lets every level through. */
  lemma DefaultThresholdAdmitsAll(level: Level)
    ensures ShouldLog(level, "debug")
  {
    ThresholdFilters(Debug, level);
  }

  /** Under threshold `error`, `error` passes and `info` does not. */
  lemma ErrorThresholdExample()
    ensures ShouldLog(Error, "error") && !ShouldLog(Info, "error")
  {
    ThresholdFilters(Error, Error);
    ThresholdFilters(Error, Info);
  }

  /** An unknown level name is rejected whatever the threshold, the formatter
      and the arguments, and nothing is written. */
  lemma InvalidLevelAlwaysRejected(logLevel: string, formatter: FormatFn, level: string, message: Message, context: Context, now: Clock)
    requires forall l :: Name(l) != level
    ensures Decide(logLevel, formatter, level, message, context, now) == Err(InvalidLevel(level))
  {
  }

  /** A call below the threshold never reaches the formatter: its outcome is
      the same whichever formatter the logger has. */
  lemma SuppressedIgnoresFormatter(logLevel: string, f: FormatFn, g: FormatFn, level: string, message: Message, context: Context, now: Clock)
    requires Decide(logLevel, f, level, message, context, now) == Ok(Suppressed)
    ensures Decide(logLevel, g, level, message, context, now) == Ok(Suppressed)
  {
  }

  /** With the default formatter, a line is written exactly when the level is
      valid and passes, and interpolation succeeds; the line reads back into
      the clock text, the level name and the interpolated message. */
  lemma DefaultLogLine(logLevel: string, host: Host, level: Level, message: Message, context: Context, now: Clock)
    ensures var d := Decide(logLevel, DefaultFormatter(host), Name(level), message, context, now);
      var i := Interpolation(MessageText(message, host), context, host);
      (d.Ok? && d.value.Written? <==> ShouldLog(level, logLevel) && i.Ok?)
      && (d.Ok? && d.value.Written? ==>
            ParseLine(d.value.line) == Some(LineParts(DateText(now), Name(level), i.value))
            && Contains(d.value.line, "[" + Name(level) + "]"))
  {
    ParseName(level);
    NameHasNoBracket(level);
    FormatReadsBack(Name(level), message, context, now, host);
  }

  /** Level names carry no bracket. */
  lemma NameHasNoBracket(level: Level)
    ensures ']' !in Name(level)
  {
  }

  /** The as-written filter under a threshold that is not a level name: only
      `emergency` passes. */
  lemma UnknownThresholdAdmitsOnlyEmergency(logLevel: string, level: Level)
    requires ParseLevel(logLevel).None?
    ensures ShouldLog(level, logLevel) <==> level == Emergency
  {
  }

  /** A plain message without context is laid out as it is. */
  lemma PlainMessageLine(host: Host, level: string, text: string, now: Clock)
    ensures DefaultFormatter(host)(level, Text(text), [], now) == Ok(Line(DateText(now), level, text))
  {
  }

  /** A plain message at a level that passes is written as its line. */
  lemma PlainMessageWritten(logLevel: string, host: Host, level: Level, text: string, now: Clock)
    requires ShouldLog(level, logLevel)
    ensures Decide(logLevel, DefaultFormatter(host), Name(level), Text(text), [], now)
         == Ok(Written(Line(DateText(now), Name(level), text)))
  {
    ParseName(level);
    PlainMessageLine(host, Name(level), text, now);
  }

  /** One call with a plain message at a level at least as severe as the
      threshold, on a logger with the default formatter: the call succeeds and
      appends the message's line. */
  method LogPlain(logger: Logger, host: Host, threshold: Level, level: Level, text: string, now: Clock)
    returns (r: Result<(), LogError>)
    requires logger.formatter == DefaultFormatter(host) && logger.logLevel == Name(threshold)
    requires Rank(level) <= Rank(threshold)
    modifies logger.writer
    ensures r.Ok?
    ensures logger.writer.lines == old(logger.writer.lines) + [Line(DateText(now), Name(level), text)]
  {
    ThresholdFilters(threshold, level);
    PlainMessageWritten(logger.logLevel, host, level, text, now);
    r := logger.Log(Name(level), Text(text), [], now);
  }

  /** One call at a level below the threshold: the call succeeds and the
      writer is left as it was. */
  method LogBelowThreshold(logger: Logger, level: Level, message: Message, now: Clock) returns (r: Result<(), LogError>)
    requires !ShouldLog(level, logger.logLevel)
    modifies logger.writer
    ensures r.Ok? && logger.writer.lines == old(logger.writer.lines)
  {
    ParseName(level);
    r := logger.Log(Name(level), message, [], now);
  }

  /** A logger at threshold `debug` with the default formatter writes an
      `info` and then an `error` entry, in the order of the calls. */
  method SequentialLogging(host: Host, now: Clock, info: string, error: string) returns (lines: seq<string>)
    ensures lines == [Line(DateText(now), Name(Info), info), Line(DateText(now), Name(Error), error)]
  {
    var writer := new MemoryWriter();
    var logger := new Logger(writer, host, Name(Debug));
    var r1 := LogPlain(logger, host, Debug, Info, info, now);
    var r2 := LogPlain(logger, host, Debug, Error, error, now);
    lines := writer.lines;
  }

  /** A logger at threshold `error` drops the `info` entry and writes the
      `error` one. */
  method LevelFiltering(host: Host, now: Clock, info: string, error: string) returns (lines: seq<string>)
    ensures lines == [Line(DateText(now), Name(Error), error)]
  {
    var writer := new MemoryWriter();
    var logger := new Logger(writer, host, Name(Error));
    ErrorThresholdExample();
    var r1 := LogBelowThreshold(logger, Info, Text(info), now);
    var r2 := LogPlain(logger, host, Error, Error, error, now);
    lines := writer.lines;
  }
}
