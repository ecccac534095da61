/**
 * The values `getStackTrace` returns: call provenance from an exception, or
 * from the first application frame of a backtrace. `base_path()` is either
 * the application root or an exception (`None`), the only failure the
 * modelled code can meet.
 */
module CallProvenance {
  import opened Wrappers
  import opened PhpStrings

  /** One `debug_backtrace()` entry; any of its keys may be missing. */
  datatype Frame = Frame(file: Option<string>, line: Option<nat>, functionName: Option<string>)

  /** What the formatter reads from an `Exception`. */
  datatype ExceptionInfo = ExceptionInfo(message: string, file: string, line: nat, trace: seq<Frame>)

  /** The five placeholder values, the line already in its text form. */
  datatype Provenance = Provenance(file: string, line: string, methodName: string, uuid: string, exception: string)

  const NoMethodOfException: string := " < no method > "
  const NoMethodOfFrame: string := "<no method>"
  const NoFile: string := "<no file>"
  const NoLine: string := "<no line>"

  /** The result when no frame survives: note the empty uuid. */
  const Defaults: Provenance := Provenance("", "0", "", "", "")

  /** `str_replace(base_path() . '/', '', $file)`. */
  function Relativize(file: string, base: string): string {
    ReplaceAll(file, base + "/", "")
  }

  /** A path in the application root loses exactly the root and its slash. */
  lemma RelativizeUnderBase(base: string, rel: string)
    requires forall m :: 0 <= m <= |rel| ==> !OccursAt(rel, base + "/", m)
    ensures Relativize(base + "/" + rel, base) == rel
  {
    assert "" + (base + "/") + rel == base + "/" + rel;
    ReplaceAllFirst("", base + "/", "", rel);
    ReplaceAllAbsent(rel, base + "/", "");
  }

  /** `base_path('vendor')`. */
  function VendorPath(base: string): string {
    base + "/vendor"
  }

  /** A frame the walk passes over: no file, or a file anywhere in the vendor tree. */
  predicate Skipped(f: Frame, base: string) {
    f.file.None? || Contains(f.file.value, VendorPath(base))
  }

  /** `array_shift` of the backtrace: drops the frame of `getStackTrace` itself. */
  function Shifted(backtrace: seq<Frame>): (r: seq<Frame>)
    ensures |backtrace| > 0 ==> r == backtrace[1..]
    ensures |backtrace| == 0 ==> r == []
  {
    if |backtrace| == 0 then [] else backtrace[1..]
  }

  /** The index of the first frame at or after `i` that is not skipped. */
  function FirstKept(frames: seq<Frame>, base: string, i: nat): (r: Option<nat>)
    requires i <= |frames|
    ensures r.Some? ==> i <= r.value < |frames| && !Skipped(frames[r.value], base)
    ensures r.Some? ==> forall k :: i <= k < r.value ==> Skipped(frames[k], base)
    ensures r.None? ==> forall k :: i <= k < |frames| ==> Skipped(frames[k], base)
    decreases |frames| - i
  {
    if i == |frames| then None
    else if !Skipped(frames[i], base) then Some(i)
    else FirstKept(frames, base, i + 1)
  }

  /** The provenance of an exception. */
  function FromException(e: ExceptionInfo, base: string, id: string): Provenance {
    var methodName := if |e.trace| > 0 then e.trace[0].functionName.GetOr(NoMethodOfException) else NoMethodOfException;
    Provenance(Relativize(e.file, base), NatToString(e.line), methodName, id, e.message)
  }

  /** The provenance of frame `j`: its file and line, and the NEXT frame's function. */
  function FromFrame(frames: seq<Frame>, j: nat, base: string, id: string): Provenance
    requires j < |frames|
  {
    var line := match frames[j].line case Some(n) => NatToString(n) case None => NoLine;
    var methodName := if j + 1 < |frames| then frames[j + 1].functionName.GetOr(NoMethodOfFrame) else NoMethodOfFrame;
    Provenance(Relativize(frames[j].file.GetOr(NoFile), base), line, methodName, id, "")
  }

  /** Some frame has a file, so the walk calls `base_path('vendor')`. */
  predicate AnyFile(frames: seq<Frame>) {
    exists k :: 0 <= k < |frames| && frames[k].file.Some?
  }

  /**
   * What `getStackTrace` returns, given the exception (if any), the raw
   * backtrace, `base_path()` and the process id; `None` when it throws.
   */
  function Resolve(exc: Option<ExceptionInfo>, backtrace: seq<Frame>, base: Option<string>, id: string): Option<Provenance> {
    match exc
    case Some(e) =>
      if base.None? then None else Some(FromException(e, base.value, id))
    case None =>
      var frames := Shifted(backtrace);
      match base
      case None => if AnyFile(frames) then None else Some(Defaults)
      case Some(b) =>
        match FirstKept(frames, b, 0)
        case None => Some(Defaults)
        case Some(j) => Some(FromFrame(frames, j, b, id))
  }

  /** The `foreach` over the shifted backtrace, with its early return. */
  method WalkFrames(backtrace: seq<Frame>, base: Option<string>, id: string) returns (r: Option<Provenance>)
    ensures r == Resolve(None, backtrace, base, id)
  {
    var frames := Shifted(backtrace);
    for k := 0 to |frames|
      invariant base.Some? ==> forall k' :: 0 <= k' < k ==> Skipped(frames[k'], base.value)
      invariant base.None? ==> forall k' :: 0 <= k' < k ==> frames[k'].file.None?
    {
      if frames[k].file.None? {
        continue;
      }
      if base.None? {
        return None;
      }
      if Contains(frames[k].file.value, VendorPath(base.value)) {
        continue;
      }
      assert FirstKept(frames, base.value, 0) == Some(k);
      return Some(FromFrame(frames, k, base.value, id));
    }
    return Some(Defaults);
  }

  /**
   * With the vendor frame first and application code second (after the
   * `getStackTrace` frame is dropped), file and line come from the
   * application frame and the method from the frame after it.
   */
  lemma VendorFrameSkipped(self: Frame, vendor: Frame, app: Frame, caller: Frame, rest: seq<Frame>, base: string, id: string)
    requires Skipped(vendor, base) && !Skipped(app, base)
    ensures var r := Resolve(None, [self, vendor, app, caller] + rest, Some(base), id);
      r.Some? && r.value.file == Relativize(app.file.value, base)
      && r.value.line == (match app.line case Some(n) => NatToString(n) case None => NoLine)
      && r.value.methodName == caller.functionName.GetOr(NoMethodOfFrame)
      && r.value.uuid == id && r.value.exception == ""
  {
    var frames := Shifted([self, vendor, app, caller] + rest);
    assert frames == [vendor, app, caller] + rest;
    assert FirstKept(frames, base, 0) == Some(1);
  }

  /** When every frame is skipped the walk gives the defaults, with an empty uuid. */
  lemma NoFrameDefaults(backtrace: seq<Frame>, base: string, id: string)
    requires forall k :: 1 <= k < |backtrace| ==> Skipped(backtrace[k], base)
    ensures Resolve(None, backtrace, Some(base), id) == Some(Defaults)
    ensures Resolve(None, backtrace, Some(base), id).value.uuid == ""
  {
    var frames := Shifted(backtrace);
    forall k | 0 <= k < |frames| ensures Skipped(frames[k], base) {
      assert frames[k] == backtrace[k + 1];
    }
  }

  /**
   * An exception thrown in the application root: its file relative to the
   * root, its line, the function of its first trace frame (or the
   * placeholder), the process id and the exception's message.
   */
  lemma ExceptionProvenance(e: ExceptionInfo, base: string, rel: string, backtrace: seq<Frame>, id: string)
    requires e.file == base + "/" + rel
    requires forall m :: 0 <= m <= |rel| ==> !OccursAt(rel, base + "/", m)
    ensures var r := Resolve(Some(e), backtrace, Some(base), id);
      r.Some? && r.value.file == rel && DigitsValue(r.value.line) == e.line
      && r.value.methodName == (if |e.trace| > 0 then e.trace[0].functionName.GetOr(NoMethodOfException) else NoMethodOfException)
      && r.value.uuid == id && r.value.exception == e.message
  {
    RelativizeUnderBase(base, rel);
    NatToStringRoundTrip(e.line);
  }
}
