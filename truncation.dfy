/** `shortenMessage`: only records below WARNING (300) are shortened. */
module Truncation {
  import opened Wrappers

  /** The level from which lines are never shortened. */
  const Warning: int := 300

  /**
   * `limit` is `config('ixhelper.log.limit')` (`None` for null, -1 for
   * "unbounded"); `strLimit` is `Str::limit`. `strlen` counts bytes, one per `char`.
   */
  function ShortenMessage(output: string, level: int, limit: Option<int>, strLimit: (string, int) -> string): (r: string)
    ensures level >= Warning ==> r == output
    ensures limit.None? || limit == Some(-1) ==> r == output
    ensures limit.Some? && |output| <= limit.value ==> r == output
    ensures level < Warning && limit.Some? && limit.value != -1 && |output| > limit.value
      ==> r == strLimit(output, limit.value) + "\n"
  {
    if level < Warning && limit.Some? && limit.value != -1 && |output| > limit.value
    then strLimit(output, limit.value) + "\n"
    else output
  }
}
