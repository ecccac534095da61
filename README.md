# Log-line formatter with sensitive-data redaction — a Dafny model

This project models the logging core of a REST facade over a domain and
SSL-certificate registry: the Monolog formatter `LogFormatter`
(`app/Logging/LogFormatter.php`) and the HTTP client log callbacks
`LogCallback` (`app/Logging/LogCallback.php`).

`LogFormatter::format` runs every record through a fixed pipeline:

1. **Redaction** (`anonymizeLogMessage`). A cheap gate looks for `{`, `<`,
   `Authorization` or a case-folded `array` with PHP's loose `!= false`, so a
   hint found only at index 0 does not open it. A strict substring test on
   each sensitive key follows, and the first key that occurs arms the whole
   pass of `preg_replace_callback_array`. The pass has four patterns, each
   applied to the previous pattern's output and replacing every leftmost,
   non-overlapping match through its callback:
   - the Basic-auth header, whose token becomes `***`;
   - balanced `{…}` JSON spans, decoded, anonymised and re-encoded;
   - `[aA]rray\s*(…)` print_r dumps, reverse-parsed, anonymised and printed
     again;
   - XML documents, handled by the structural SimpleXML round trip or, when
     libxml reports errors, by a textual fallback over the keys.

   A span that does not decode or parse is kept verbatim. An empty or `"0"`
   result of the pass falls back to the original message.
2. **Placeholder substitution** (`replacePlaceholder`, `getStackTrace`). The
   call provenance comes from the record's exception, or else from the first
   backtrace frame outside the vendor tree. Every `[%file%]`, `[%line%]`,
   `[%method%]`, `[%uuid%]` and `[%exception%]` becomes `[value]`. The
   process id `$logid` is created by `uniqid()` on first use and kept
   afterwards. A failure while resolving is caught and the line is kept.
3. **Truncation** (`shortenMessage`). Only records below level 300 are
   shortened, and only when a limit other than null and -1 is configured and
   the line is longer than that limit.

The two recursive patterns (lines 148 and 150) are modelled as grammars
(`Delimited.Group`/`Body`) and executed by a depth-counting scanner
(`Delimited.MatchGroup`), which is proved to find the same end. In the dump
pattern the recursion re-enters the whole pattern, so a nested `(` must
itself open an `[aA]rray\s*(` group. `Redaction.Spliced` is the
replace-every-match loop, and `Redaction.ReplaceCallback` runs it
imperatively.

`PhpStrings` models the PHP built-ins the code relies on: `strpos` with
strict and loose comparison, `str_replace`, `strtolower` and integer-to-text
conversion. Strings are byte strings, one `char` per byte.

The state the source updates in place is the global `$logid`. It is the
field `logid` of the class `LogFormatting.LogFormatter`, and one object
stands for one PHP process.

The model follows the code, including these behaviours a reader might not
expect:
- every Authorization header is masked, not only the first;
- the vendor allow-list is commented out at LogFormatter.php:111-112, so
  every vendor frame is skipped;
- when no frame survives, the default result has an empty uuid;
- in the XML fallback each key rewrites the raw span again, so only the last
  applying key's substitution survives;
- the gate's loose comparison ignores a hint found only at index 0;
- a limit of 0, or any negative limit other than -1, still truncates.

## Model

| member | source | states |
|---|---|---|
| Delimited.MatchGroup | app/Logging/LogFormatter.php:148-150 | the depth-counting scan returns exactly the end the recursive pattern assigns to a match starting at the given index, or none |
| Delimited.GroupBalanced | app/Logging/LogFormatter.php:148 | a matched JSON span starts with `{`, ends with `}` and holds as many `{` as `}` |
| Delimited.JsonFlatGroup | app/Logging/LogFormatter.php:148 | a `{` whose text up to the next `}` holds no brace matches up to and including that `}` |
| Delimited.DumpFlatGroup | app/Logging/LogFormatter.php:150 | `Array(` followed by parenthesis-free text matches up to and including its `)` |
| Delimited.DumpBareParenUnmatched | app/Logging/LogFormatter.php:150 | a `(` right after `Array(`, which opens no `[aA]rray\s*(` token, leaves the dump unmatched |
| Delimited.DumpGroupBalanced | app/Logging/LogFormatter.php:150 | a matched dump starts with `[aA]rray`, ends with `)` and holds as many `(` as `)` |
| Delimited.DumpGroupOpeners | app/Logging/LogFormatter.php:150 | every `(` in a matched dump ends an `[aA]rray\s*(` token that starts inside the dump |
| Redaction.AuthMatchEnd | app/Logging/LogFormatter.php:146 | a match exists exactly where `Authorization:`, one non-newline byte, `Basic` and one non-newline byte occur; it extends over the longest run of token bytes after them |
| Redaction.AuthTokenMasked | app/Logging/LogFormatter.php:159-166 | `Authorization: Basic <token>` becomes `Authorization: Basic ***` |
| Redaction.AuthEveryHeaderMasked | app/Logging/LogFormatter.php:144-146 | the pattern has no limit: two headers are both masked |
| Redaction.AuthMaskGrows | app/Logging/LogFormatter.php:146 | masking is not idempotent: a masked header gets a second `***` |
| Redaction.SplicedNoMatch | app/Logging/LogFormatter.php:144-153 | where a pattern matches nowhere, the text is kept byte for byte |
| Redaction.SplicedLeftmost | app/Logging/LogFormatter.php:144-153 | the text before the leftmost match is kept, that match is replaced by its callback's text, and the scan resumes after the match, so matches do not overlap |
| Redaction.SplicedVerbatim | app/Logging/LogFormatter.php:144-153 | when every callback returns its match verbatim, the text is unchanged |
| Redaction.FindMatch | app/Logging/LogFormatter.php:146-152 | the match end of each of the four patterns; the two recursive ones are computed by the depth-counting scanner |
| Redaction.RunCallback | app/Logging/LogFormatter.php:159-237 | the callback of each pattern, with the XML fallback computed by its key loop |
| Redaction.AuthCallback | app/Logging/LogFormatter.php:159-166 | a match keeps its 21-byte `Authorization:.Basic.` prefix and its token becomes `***` |
| Redaction.JsonCallback | app/Logging/LogFormatter.php:172-180 | a span that does not decode is returned verbatim; only a decodable span changes, into the encoded anonymised array |
| Redaction.ArrayCallback | app/Logging/LogFormatter.php:186-197 | a dump that does not reverse-parse is returned verbatim; only a parsed dump changes, into the `print_r` of the anonymised array |
| Redaction.XmlCallback | app/Logging/LogFormatter.php:203-237 | verbatim without the XML functions or when the structural rebuild yields no string; the textual key fallback when libxml reports errors |
| Redaction.ReplaceCallback | app/Logging/LogFormatter.php:144-153 | the imperative scan equals the replace-every-leftmost-match definition |
| Redaction.RunPass | app/Logging/LogFormatter.php:144-152 | the four patterns run in the order auth, JSON, dump, XML, each on the previous output |
| Redaction.JsonSpanSpliced | app/Logging/LogFormatter.php:172-180 | a balanced JSON span, nested or not, with no other span before or after it is replaced by the `obfuscateJson` result, and the text before and after it is kept byte for byte |
| Redaction.JsonFlatSpanSpliced | app/Logging/LogFormatter.php:148-180 | a `{…}` with no brace inside, between texts holding no `{`, is replaced by the `obfuscateJson` result and the text around it is kept |
| Redaction.JsonUnbalancedVerbatim | app/Logging/LogFormatter.php:148 | a message holding no `}` passes the JSON step unchanged |
| Redaction.JsonUnclosedNoSpan | app/Logging/LogFormatter.php:148 | a `{` with no `}` after it starts no span, so the scan skips it |
| Redaction.JsonUndecodableVerbatim | app/Logging/LogFormatter.php:172-178 | when no matched JSON span decodes, every span comes back verbatim and the message is unchanged |
| Redaction.DumpUnparsedVerbatim | app/Logging/LogFormatter.php:186-195 | when no matched dump span reverse-parses, every span comes back verbatim and the message is unchanged |
| Redaction.NormalizeDump | app/Logging/LogFormatter.php:189-191 | the normalised dump text contains no `,` and no `'` |
| Redaction.DumpLowerNormalised | app/Logging/LogFormatter.php:189-191 | for every dump written `array …`, `printrReverse` receives `Array`, a line feed, and the rest with each further `array ` turned into `Array` and a line feed and every `,` and `'` removed |
| Redaction.XmlUnavailableVerbatim | app/Logging/LogFormatter.php:205-208 | without the SimpleXML functions every XML span is kept verbatim |
| Redaction.AnonymizeLogMessage | app/Logging/LogFormatter.php:133-157 | a closed gate or no occurring key returns the message unchanged; otherwise the pass runs, falling back to the message when its result is empty or `"0"` |
| Redaction.LeadingBraceNotRedacted | app/Logging/LogFormatter.php:136-137 | a message whose only hint is its leading `{` is not redacted, whatever keys it holds |
| XmlFallback.LeftmostTagIsLeftmost | app/Logging/LogFormatter.php:229-231 | the reported `<key>(.*)<\/?key>` match is a match and no match starts before it |
| XmlFallback.ReplaceFirstTagMasks | app/Logging/LogFormatter.php:229-231 | only the leftmost greedy match becomes `<key>***</key>`; the text before and after it is kept; with no opening tag nothing changes |
| XmlFallback.ObfuscateFallback | app/Logging/LogFormatter.php:224-235 | the key loop returns the raw span, or the raw span with only the last applying key's substitution |
| XmlFallback.FallbackNoKey | app/Logging/LogFormatter.php:226-228 | when no key's opening tag occurs past index 0, the span is unchanged |
| XmlFallback.FallbackLastWins | app/Logging/LogFormatter.php:227-233 | substitutions do not accumulate: the result is the last applying key's substitution alone |
| CallProvenance.RelativizeUnderBase | app/Logging/LogFormatter.php:117 | a path under the application root loses exactly the root and its slash |
| CallProvenance.FirstKept | app/Logging/LogFormatter.php:106-114 | the first frame that has a file outside the vendor tree, with every earlier frame skipped |
| CallProvenance.WalkFrames | app/Logging/LogFormatter.php:97-125 | the frame loop with its early return computes the frame-derived provenance, and yields no result when `base_path` throws |
| CallProvenance.VendorFrameSkipped | app/Logging/LogFormatter.php:98-122 | after the own frame is dropped and a vendor frame skipped, file and line come from the application frame and the method from the frame after it |
| CallProvenance.NoFrameDefaults | app/Logging/LogFormatter.php:99-125 | when no frame survives, the defaults are returned, uuid `''` included |
| CallProvenance.ExceptionProvenance | app/Logging/LogFormatter.php:88-95 | an exception gives its relative file, its line, its first trace function or `' < no method > '`, the process id and its message |
| Placeholders.NoTokensUnchanged | app/Logging/LogFormatter.php:72-74 | a line without any of the tokens comes back unchanged |
| Placeholders.TokenSubstituted | app/Logging/LogFormatter.php:72-74 | the first occurrence of a key's token and every later one become `[value]` and the text around them is kept, when no earlier key's token is in the line and no later key's token is in the result |
| Placeholders.FileTokenSubstituted | app/Logging/LogFormatter.php:72-74 | every `[%file%]` becomes `[<file>]`, the rest of the line kept, when no other key's token appears |
| Placeholders.SubstitutePlaceholders | app/Logging/LogFormatter.php:71-74 | the loop applies the five replacements in order, each to the previous output |
| Placeholders.Placeheld | app/Logging/LogFormatter.php:64-80 | when provenance resolution throws, the line is returned as it was |
| Truncation.ShortenMessage | app/Logging/LogFormatter.php:46-55 | a line changes only below level 300, with a limit other than null and -1, and when longer than the limit; then it is `Str::limit` plus a line feed |
| LogFormatting.FormattedLine | app/Logging/LogFormatter.php:29-39 | for levels from 300 on, the line is the rendered redacted record with placeholders substituted, never truncated |
| LogFormatting.LogFormatter.GetStackTrace | app/Logging/LogFormatter.php:83-126 | `$logid` is set only when unset and then kept; the result is the provenance for that id |
| LogFormatting.LogFormatter.ReplacePlaceholder | app/Logging/LogFormatter.php:62-81 | substitutes the resolved provenance, or keeps the line when resolution throws |
| LogFormatting.LogFormatter.Format | app/Logging/LogFormatter.php:29-39 | redact, render, substitute, shorten, in that order |
| LogFormatting.LogIdReused | app/Logging/LogFormatter.php:85-86 | two calls carry the first call's `uniqid()`, not the second's |
| LogCallback.FilterOptions | app/Logging/LogCallback.php:17-22 | an entry is kept exactly when its key is not `auth`, `on_stats` or `timeout` |
| LogCallback.FilterAppend | app/Logging/LogCallback.php:17-22 | filtering keeps order: filtering a concatenation is concatenating the filtered parts |
| LogCallback.DroppedOptionNotLogged | app/Logging/LogCallback.php:12-22 | an `auth`, `on_stats` or `timeout` option anywhere leaves the request line as if it were absent |
| LogCallback.RequestLine | app/Logging/LogCallback.php:13-22 | the request line ends with the encoded filtered options, and `]`-free fields read back as `[headers][method][url][datetime]` in that order |
| LogCallback.ResponseLine | app/Logging/LogCallback.php:30-34 | the response line ends with the response verbatim, and `]`-free fields read back as `[url][status][exectime][datetime]` in that order |

## Left out

- Collaborators that are not part of this model are parameters: the
  `Formatter` helper (`ANONYMIZE_KEYS`, `anonymizeArray`, `printrReverse`,
  `arrayToXml`), `replaceNewlines`, `json_encode`/`json_decode`, `print_r`,
  `Str::limit`, `parent::format`, `debug_backtrace`, `uniqid`, `base_path`
  and `config`. Their behaviour is not modelled.
- The XML span pattern (LogFormatter.php:152) is an input: the length of its
  match at each index. Its lazy, non-dotall semantics are not modelled.
- The structural XML path (LogFormatter.php:209-223) is an input function.
  Only its outcome is modelled: the rebuilt document, or the raw span when
  no string comes back.
- PCRE engine failures, such as the backtrack or recursion limit on deeply
  nested spans, are not modelled. `preg_replace_callback_array` then returns
  null and `?:` keeps the message. The pass is modelled as always succeeding.
- `base_path()` throwing is the only exception inside `replacePlaceholder`
  that is modelled. The `error_log` diagnostic is not modelled.
- `in_array` in `dailyRequest` compares loosely. The model follows PHP 8,
  where an integer key never equals `"auth"`, `"on_stats"` or `"timeout"`.
  Under PHP 7, key 0 would be dropped too.
- The log-channel writes (`Log::channel`) and `Carbon::now()` are not
  modelled. The time is an input, and so are the encoded headers and
  options.
- `Str::limit` is abstract, so the length bound on a truncated line is not
  stated.
- A `context['exception']` that is not an object is not modelled. Under
  PHP 8, `get_class` at LogFormatter.php:67 throws a `TypeError` for it,
  which the `catch (Exception)` at :75 does not catch, so `format` throws.
  The model only has an `Exception` or another object.
- Sensitive keys are taken as literal text in the XML fallback. The source
  puts them unescaped into a pattern and a replacement
  (LogFormatter.php:229-230), so regex metacharacters, `/` or `$1` in a key
  are not modelled.
- Truncation.ShortenMessage: the limit is an integer. Non-integer
  configuration values and PHP's comparison of them are not modelled.
- The constructor's default format and date format (LogFormatter.php:21-24)
  only configure the parent formatter and are not modelled.
