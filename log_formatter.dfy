/**
 * `LogFormatter::format`: redact the message, render the record with the
 * parent line formatter, substitute the provenance placeholders, shorten.
 * The formatter object stands for the PHP process: its `logid` field is the
 * global `$logid`, created on first use by `uniqid()` and then kept.
 */
module LogFormatting {
  import opened Wrappers
  import opened CallProvenance
  import opened Redaction
  import opened Placeholders
  import opened Truncation

  /** The value under `context['exception']`, when there is one. */
  datatype ContextException = ExceptionObject(info: ExceptionInfo) | OtherObject

  /** The parts of a Monolog record the formatter reads. */
  datatype LogRecord = LogRecord(level: int, message: string, exception: Option<ContextException>)

  /**
   * What the process supplies at the time of one call: `parent::format`,
   * `base_path()` (`None` when it throws), `debug_backtrace()`, the next
   * `uniqid()`, `config('ixhelper.log.limit')` and `Str::limit`.
   */
  datatype Host = Host(
    render: LogRecord -> string,
    basePath: Option<string>,
    backtrace: seq<Frame>,
    uniqid: string,
    limit: Option<int>,
    strLimit: (string, int) -> string)

  /** `$oException`: the context entry when it is an `Exception`, else null. */
  function ExceptionOf(rec: LogRecord): Option<ExceptionInfo> {
    match rec.exception
    case Some(ExceptionObject(info)) => Some(info)
    case _ => None
  }

  /** The line `format` returns, given the process id in force. */
  function FormattedLine(rec: LogRecord, env: Env, host: Host, id: string): (line: string)
    ensures rec.level >= Warning ==>
      var redacted := rec.(message := Anonymized(env, rec.message));
      line == Placeheld(host.render(redacted), Resolve(ExceptionOf(rec), host.backtrace, host.basePath, id))
  {
    var redacted := rec.(message := Anonymized(env, rec.message));
    var placed := Placeheld(host.render(redacted), Resolve(ExceptionOf(redacted), host.backtrace, host.basePath, id));
    ShortenMessage(placed, redacted.level, host.limit, host.strLimit)
  }

  class LogFormatter {
    var logid: Option<string>

    constructor ()
      ensures logid == None
    {
      logid := None;
    }

    /** `getStackTrace`: set `$logid` if unset, then resolve the provenance. */
    method GetStackTrace(exc: Option<ExceptionInfo>, backtrace: seq<Frame>, base: Option<string>, uniqid: string)
      returns (r: Option<Provenance>)
      modifies this
      ensures logid == Some(old(logid).GetOr(uniqid))
      ensures old(logid).Some? ==> logid == old(logid)
      ensures r == Resolve(exc, backtrace, base, logid.value)
    {
      if logid.None? {
        logid := Some(uniqid);
      }
      if exc.Some? {
        if base.None? {
          return None;
        }
        return Some(FromException(exc.value, base.value, logid.value));
      }
      r := WalkFrames(backtrace, base, logid.value);
    }

    /** `replacePlaceholder`: a throwing provenance lookup leaves the line as it was. */
    method ReplacePlaceholder(output: string, rec: LogRecord, host: Host) returns (r: string)
      modifies this
      ensures logid == Some(old(logid).GetOr(host.uniqid))
      ensures r == Placeheld(output, Resolve(ExceptionOf(rec), host.backtrace, host.basePath, logid.value))
    {
      var provenance := GetStackTrace(ExceptionOf(rec), host.backtrace, host.basePath, host.uniqid);
      if provenance.None? {
        return output;
      }
      r := SubstitutePlaceholders(output, provenance.value);
    }

    /** `format`. */
    method Format(rec: LogRecord, env: Env, host: Host) returns (line: string)
      modifies this
      ensures logid == Some(old(logid).GetOr(host.uniqid))
      ensures line == FormattedLine(rec, env, host, logid.value)
    {
      var message := AnonymizeLogMessage(env, rec.message);
      var redacted := rec.(message := message);
      var placed := ReplacePlaceholder(host.render(redacted), redacted, host);
      line := ShortenMessage(placed, redacted.level, host.limit, host.strLimit);
    }
  }

  /**
   * The process id is created once: two exception records formatted one
   * after the other carry the first call's `uniqid()`, not the second's.
   */
  method LogIdReused(e1: ExceptionInfo, e2: ExceptionInfo, base: string, id1: string, id2: string)
    returns (u1: string, u2: string)
    ensures u1 == id1 && u2 == id1
  {
    var formatter := new LogFormatter();
    var p1 := formatter.GetStackTrace(Some(e1), [], Some(base), id1);
    var p2 := formatter.GetStackTrace(Some(e2), [], Some(base), id2);
    u1, u2 := p1.value.uuid, p2.value.uuid;
  }
}
