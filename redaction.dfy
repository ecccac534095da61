/**
 * `anonymizeLogMessage`: the cheap gate, the key trigger, and the pass of
 * `preg_replace_callback_array` with its four patterns, each replacing every
 * leftmost, non-overlapping match of the previous pattern's output through
 * its callback (`obfuscateBasicAuthHeader`, `obfuscateJson`,
 * `obfuscateArray`, `obfuscateXml`).
 */
module Redaction {
  import opened Wrappers
  import opened PhpStrings
  import opened Delimited
  import XmlFallback

  /** A decoded PHP array: the shape `json_decode`, `printrReverse` and `anonymizeArray` use. */
  datatype Tree = Scalar(text: string) | List(items: seq<Tree>) | Map(entries: seq<(string, Tree)>)

  /**
   * The formatter's collaborators that are not part of this model, passed in
   * as functions: `Formatter::ANONYMIZE_KEYS` and the helpers
   * `replaceNewlines`, `anonymizeArray`, `printrReverse`, `json_decode`,
   * `json_encode`, `print_r`, the XML span pattern (as the length of its
   * match at the start of a text) and the SimpleXML round trip.
   */
  datatype Env = Env(
    keys: seq<string>,
    replaceNewlines: string -> string,
    jsonDecode: string -> Option<Tree>,
    jsonEncode: Tree -> Option<string>,
    anonymize: Tree -> Tree,
    printrReverse: string -> Option<Tree>,
    printR: Tree -> string,
    xmlMatch: string -> Option<nat>,
    xmlFunctionsExist: bool,
    xmlLoadsCleanly: string -> bool,
    xmlRebuild: string -> Option<string>)

  /** The four patterns, in the order the pass applies them. */
  datatype Pattern = AuthHeader | JsonObject | ArrayDump | XmlDocument

  /** `[A-Za-z0-9+\/=]`. */
  predicate IsTokenChar(c: char) {
    ('A' <= c <= 'Z') || ('a' <= c <= 'z') || ('0' <= c <= '9') || c == '+' || c == '/' || c == '='
  }

  /** The length of the greedy run of token characters starting at `j`. */
  function TokenRun(s: string, j: nat): (n: nat)
    requires j <= |s|
    ensures j + n <= |s|
    ensures forall m :: j <= m < j + n ==> IsTokenChar(s[m])
    ensures j + n == |s| || !IsTokenChar(s[j + n])
    decreases |s| - j
  {
    if j < |s| && IsTokenChar(s[j]) then 1 + TokenRun(s, j + 1) else 0
  }

  /** The length of group 1, `Authorization:.Basic.`. */
  const AuthPrefixLength: nat := 21

  /** Group 1 of `(Authorization:.Basic.)([A-Za-z0-9+\/=]*)` matches at `i`; `.` is any byte but a line feed. */
  predicate AuthPrefixAt(s: string, i: nat) {
    i + AuthPrefixLength <= |s| && s[i..i + 14] == "Authorization:" && s[i + 14] != '\n'
    && s[i + 15..i + 20] == "Basic" && s[i + 20] != '\n'
  }

  /** The end of the Authorization match at `i`: the prefix and the longest token after it. */
  function AuthMatchEnd(s: string, i: nat): (r: Option<nat>)
    requires i <= |s|
    ensures r.Some? <==> AuthPrefixAt(s, i)
    ensures r.Some? ==> var e := r.value;
      i + AuthPrefixLength <= e <= |s|
      && (forall m :: i + AuthPrefixLength <= m < e ==> IsTokenChar(s[m]))
      && (e == |s| || !IsTokenChar(s[e]))
  {
    if AuthPrefixAt(s, i) then Some(i + AuthPrefixLength + TokenRun(s, i + AuthPrefixLength)) else None
  }

  /** The end of the XML span match at `i`; a length outside `1..|s[i..]|` is read as no match. */
  function XmlMatchEnd(env: Env, s: string, i: nat): (r: Option<nat>)
    requires i <= |s|
    ensures r.Some? ==> i < r.value <= |s|
  {
    match env.xmlMatch(s[i..])
    case Some(n) => if 0 < n <= |s| - i then Some(i + n) else None
    case None => None
  }

  /** The end (exclusive) of the match of `pat` starting at index `i`. */
  function MatchEnd(env: Env, pat: Pattern, s: string, i: nat): (r: Option<nat>)
    requires i <= |s|
    ensures r.Some? ==> i < r.value <= |s|
  {
    match pat
    case AuthHeader => AuthMatchEnd(s, i)
    case JsonObject => GroupEnd(Braces, s, i)
    case ArrayDump => GroupEnd(ArrayParens, s, i)
    case XmlDocument => XmlMatchEnd(env, s, i)
  }

  /**
   * `obfuscateBasicAuthHeader`: group 1 followed by the mask. Group 1 always
   * takes part in a match, so the `$aData[0]` branch is only reached by a
   * text shorter than group 1, which no match is.
   */
  function AuthCallback(span: string): (r: string)
    ensures |span| >= AuthPrefixLength ==>
      |r| == AuthPrefixLength + 3 && r[..AuthPrefixLength] == span[..AuthPrefixLength] && r[AuthPrefixLength..] == "***"
    ensures |span| < AuthPrefixLength ==> r == span
  {
    if |span| >= AuthPrefixLength then span[..AuthPrefixLength] + "***" else span
  }

  /**
   * `obfuscateJson`: a span that does not decode is returned verbatim,
   * otherwise the anonymised array re-encoded. A failing `json_encode`
   * yields `false`, which the `string` return type turns into "".
   */
  function JsonCallback(env: Env, span: string): (r: string)
    ensures env.jsonDecode(env.replaceNewlines(span)).None? ==> r == span
    ensures r != span ==> env.jsonDecode(env.replaceNewlines(span)).Some?
    ensures env.jsonDecode(env.replaceNewlines(span)).Some? ==>
      r == env.jsonEncode(env.anonymize(env.jsonDecode(env.replaceNewlines(span)).value)).GetOr("")
  {
    match env.jsonDecode(env.replaceNewlines(span))
    case None => span
    case Some(t) => env.jsonEncode(env.anonymize(t)).GetOr("")
  }

  /**
   * The normalisation of a span written with lower-case `array`:
   * `str_replace(["array ", ",", "'"], ["Array\n", "", ""], $s)`, each pair
   * applied in turn to the whole text.
   */
  function NormalizeDump(span: string): (r: string)
    ensures forall m :: 0 <= m < |r| ==> r[m] != ',' && r[m] != '\''
  {
    var step1 := ReplaceAll(span, "array ", "Array\n");
    var step2 := ReplaceAll(step1, ",", "");
    RemoveCharGone(step1, ',');
    RemoveCharKeeps(step2, '\'', ',');
    RemoveCharGone(step2, '\'');
    ReplaceAll(step2, "'", "")
  }

  /** The text `obfuscateArray` hands to `printrReverse`: a dump written with lower-case `array` is normalised. */
  function DumpText(span: string): string {
    if StartsWith(span, "array") then NormalizeDump(span) else span
  }

  /** `obfuscateArray`: reverse-parse the dump, anonymise and `print_r` it; verbatim when it does not parse. */
  function ArrayCallback(env: Env, span: string): (r: string)
    ensures env.printrReverse(DumpText(span)).None? ==> r == span
    ensures r != span ==> env.printrReverse(DumpText(span)).Some?
    ensures env.printrReverse(DumpText(span)).Some? ==>
      r == env.printR(env.anonymize(env.printrReverse(DumpText(span)).value))
  {
    match env.printrReverse(DumpText(span))
    case None => span
    case Some(t) => env.printR(env.anonymize(t))
  }

  /**
   * `obfuscateXml`: verbatim without the XML functions; the structural
   * round trip when the span loads without errors (verbatim when that yields
   * no string); otherwise the textual fallback over the sensitive keys.
   */
  function XmlCallback(env: Env, span: string): (r: string)
    ensures !env.xmlFunctionsExist ==> r == span
    ensures env.xmlFunctionsExist && env.xmlLoadsCleanly(span) && env.xmlRebuild(span).None? ==> r == span
    ensures env.xmlFunctionsExist && !env.xmlLoadsCleanly(span) ==> r == XmlFallback.Fallback(span, env.keys)
  {
    if !env.xmlFunctionsExist then span
    else if env.xmlLoadsCleanly(span) then env.xmlRebuild(span).GetOr(span)
    else XmlFallback.Fallback(span, env.keys)
  }

  function Callback(env: Env, pat: Pattern, span: string): string {
    match pat
    case AuthHeader => AuthCallback(span)
    case JsonObject => JsonCallback(env, span)
    case ArrayDump => ArrayCallback(env, span)
    case XmlDocument => XmlCallback(env, span)
  }

  /**
   * A pattern, as the end (exclusive) of its match at each index of a
   * subject; a match is never empty and never passes the subject's end.
   */
  type Matcher = m: (string, nat) -> Option<nat>
    | forall s: string, i: nat :: m(s, i).Some? ==> i < m(s, i).value <= |s|
    witness (s: string, i: nat) => None

  /** `preg_replace_callback(pattern, callback, s)` over `s[i..]`. */
  function Spliced(m: Matcher, cb: string -> string, s: string, i: nat): string
    requires i <= |s|
    decreases |s| - i
  {
    if i == |s| then ""
    else match m(s, i)
      case Some(e) => cb(s[i..e]) + Spliced(m, cb, s, e)
      case None => [s[i]] + Spliced(m, cb, s, i + 1)
  }

  /** Where the pattern matches nowhere, the text is kept byte for byte. */
  lemma {:induction false} SplicedNoMatch(m: Matcher, cb: string -> string, s: string, i: nat)
    requires i <= |s|
    requires forall k :: i <= k < |s| ==> m(s, k).None?
    ensures Spliced(m, cb, s, i) == s[i..]
    decreases |s| - i
  {
    if i < |s| {
      SplicedNoMatch(m, cb, s, i + 1);
      assert s[i..] == [s[i]] + s[i + 1..];
    }
  }

  /**
   * The leftmost match is replaced, the text before it is kept, and the scan
   * resumes at the end of the match, so matches never overlap.
   */
  lemma {:induction false} SplicedLeftmost(m: Matcher, cb: string -> string, s: string, i: nat, p: nat)
    requires i <= p < |s|
    requires forall k :: i <= k < p ==> m(s, k).None?
    requires m(s, p).Some?
    ensures Spliced(m, cb, s, i) == s[i..p] + cb(s[p..m(s, p).value]) + Spliced(m, cb, s, m(s, p).value)
    decreases p - i
  {
    var e := m(s, p).value;
    var span, rest := cb(s[p..e]), Spliced(m, cb, s, e);
    if i < p {
      calc {
        Spliced(m, cb, s, i);
      == { assert m(s, i).None?; }
        [s[i]] + Spliced(m, cb, s, i + 1);
      == { SplicedLeftmost(m, cb, s, i + 1, p); }
        [s[i]] + (s[i + 1..p] + span + rest);
      == { assert [s[i]] + (s[i + 1..p] + span + rest) == ([s[i]] + s[i + 1..p]) + span + rest; }
        ([s[i]] + s[i + 1..p]) + span + rest;
      == { assert s[i..p] == [s[i]] + s[i + 1..p]; }
        s[i..p] + span + rest;
      }
    } else {
      assert s[i..p] + span == span;
    }
  }

  /** When every match's callback returns the match verbatim, the whole text is unchanged. */
  lemma {:induction false} SplicedVerbatim(m: Matcher, cb: string -> string, s: string, i: nat)
    requires i <= |s|
    requires forall k :: i <= k < |s| && m(s, k).Some? ==> cb(s[k..m(s, k).value]) == s[k..m(s, k).value]
    ensures Spliced(m, cb, s, i) == s[i..]
    decreases |s| - i
  {
    if i < |s| {
      match m(s, i)
      case Some(e) =>
        SplicedVerbatim(m, cb, s, e);
        assert s[i..] == s[i..e] + s[e..];
      case None =>
        SplicedVerbatim(m, cb, s, i + 1);
        assert s[i..] == [s[i]] + s[i + 1..];
    }
  }

  /** One step of the scan, appended to the text produced so far. */
  lemma SplicedStep(m: Matcher, cb: string -> string, s: string, i: nat, done: string)
    requires i < |s|
    ensures m(s, i).Some? ==>
      done + Spliced(m, cb, s, i) == (done + cb(s[i..m(s, i).value])) + Spliced(m, cb, s, m(s, i).value)
    ensures m(s, i).None? ==>
      done + Spliced(m, cb, s, i) == (done + [s[i]]) + Spliced(m, cb, s, i + 1)
  {
  }

  /** The matcher of one of the four patterns. */
  function MatcherOf(env: Env, pat: Pattern): Matcher {
    (s: string, i: nat) => if i <= |s| then MatchEnd(env, pat, s, i) else None
  }

  /** The callback of one of the four patterns. */
  function CallbackOf(env: Env, pat: Pattern): string -> string {
    (span: string) => Callback(env, pat, span)
  }

  /** One pattern applied to the whole message. */
  function Replaced(env: Env, pat: Pattern, s: string): string {
    Spliced(MatcherOf(env, pat), CallbackOf(env, pat), s, 0)
  }

  /** The match of `pat` at `i`; the two recursive patterns use the depth-counting scanner. */
  method FindMatch(env: Env, pat: Pattern, s: string, i: nat) returns (r: Option<nat>)
    requires i <= |s|
    ensures r == MatcherOf(env, pat)(s, i)
  {
    match pat
    case AuthHeader => r := AuthMatchEnd(s, i);
    case JsonObject => r := MatchGroup(Braces, OpenerOf(Braces), s, i);
    case ArrayDump => r := MatchGroup(ArrayParens, OpenerOf(ArrayParens), s, i);
    case XmlDocument => r := XmlMatchEnd(env, s, i);
  }

  /** The callback of `pat`; the XML fallback runs its key loop. */
  method RunCallback(env: Env, pat: Pattern, span: string) returns (r: string)
    ensures r == CallbackOf(env, pat)(span)
  {
    if pat == XmlDocument && env.xmlFunctionsExist && !env.xmlLoadsCleanly(span) {
      r := XmlFallback.ObfuscateFallback(span, env.keys);
    } else {
      r := Callback(env, pat, span);
    }
  }

  /** Replace every leftmost, non-overlapping match of `pat` in `s` by its callback's text. */
  method ReplaceCallback(env: Env, pat: Pattern, s: string) returns (r: string)
    ensures r == Replaced(env, pat, s)
  {
    ghost var m, cb := MatcherOf(env, pat), CallbackOf(env, pat);
    r := "";
    var i := 0;
    while i < |s|
      invariant i <= |s|
      invariant r + Spliced(m, cb, s, i) == Spliced(m, cb, s, 0)
      decreases |s| - i
    {
      SplicedStep(m, cb, s, i, r);
      var e := FindMatch(env, pat, s, i);
      if e.Some? {
        var replacement := RunCallback(env, pat, s[i..e.value]);
        r, i := r + replacement, e.value;
      } else {
        r, i := r + [s[i]], i + 1;
      }
    }
  }

  /** The four patterns, each over the previous one's output. */
  function Pass(env: Env, msg: string): string {
    var afterAuth := Replaced(env, AuthHeader, msg);
    var afterJson := Replaced(env, JsonObject, afterAuth);
    var afterArray := Replaced(env, ArrayDump, afterJson);
    Replaced(env, XmlDocument, afterArray)
  }

  /** `preg_replace_callback_array` with the four patterns. */
  method RunPass(env: Env, msg: string) returns (r: string)
    ensures r == Pass(env, msg)
  {
    r := ReplaceCallback(env, AuthHeader, msg);
    r := ReplaceCallback(env, JsonObject, r);
    r := ReplaceCallback(env, ArrayDump, r);
    r := ReplaceCallback(env, XmlDocument, r);
  }

  /** The cheap gate, with `!= false`: a hint found only at index 0 does not open it. */
  predicate Gate(msg: string) {
    LooseFound(msg, "{") || LooseFound(msg, "<") || LooseFound(msg, "Authorization")
    || LooseFound(ToLower(msg), "array")
  }

  /** Some sensitive key occurs in the message (strict test: index 0 counts). */
  predicate AnyKeyOccurs(keys: seq<string>, msg: string) {
    exists j :: 0 <= j < |keys| && Contains(msg, keys[j])
  }

  /** A string PHP's `?:` treats as false. */
  predicate Falsy(s: string) {
    s == "" || s == "0"
  }

  /** What `anonymizeLogMessage` returns. */
  function Anonymized(env: Env, msg: string): string {
    if Gate(msg) && AnyKeyOccurs(env.keys, msg) then
      var r := Pass(env, msg);
      if Falsy(r) then msg else r
    else msg
  }

  /** `anonymizeLogMessage`: the gate, then the first key that occurs arms the whole pass. */
  method AnonymizeLogMessage(env: Env, msg: string) returns (r: string)
    ensures !Gate(msg) ==> r == msg
    ensures !AnyKeyOccurs(env.keys, msg) ==> r == msg
    ensures r == Anonymized(env, msg)
  {
    if Gate(msg) {
      for j := 0 to |env.keys|
        invariant forall j' :: 0 <= j' < j ==> !Contains(msg, env.keys[j'])
      {
        if Contains(msg, env.keys[j]) {
          var p := RunPass(env, msg);
          r := if Falsy(p) then msg else p;
          return;
        }
      }
    }
    r := msg;
  }

  /**
   * The gate's loose comparison: a message whose only hint is its leading
   * `{` is returned as it is, whatever sensitive keys it holds.
   */
  lemma LeadingBraceNotRedacted(env: Env, t: string)
    requires !Contains(t, "{") && !Contains(t, "<") && !Contains(t, "Authorization")
    requires !Contains(ToLower(t), "array")
    ensures Anonymized(env, "{" + t) == "{" + t
  {
    var msg := "{" + t;
    assert msg == ['{'] + t;
    if LooseFound(msg, "{") {
      LooseFoundTail('{', t, "{");
    }
    if LooseFound(msg, "<") {
      LooseFoundTail('{', t, "<");
    }
    if LooseFound(msg, "Authorization") {
      LooseFoundTail('{', t, "Authorization");
    }
    assert ToLower(msg) == ['{'] + ToLower(t);
    if LooseFound(ToLower(msg), "array") {
      LooseFoundTail('{', ToLower(t), "array");
    }
    assert !Gate(msg);
  }

  /** The text `Authorization: Basic ` that group 1 matches with spaces as separators. */
  const AuthPrefix: string := "Authorization: Basic "

  /** Group 1 matches at the front of any text that starts with the header prefix. */
  lemma AuthPrefixAtFront(rest: string)
    ensures AuthPrefixAt(AuthPrefix + rest, 0)
  {
    var s := AuthPrefix + rest;
    assert s[..AuthPrefixLength] == AuthPrefix;
    assert s[0..14] == AuthPrefix[0..14] == "Authorization:";
    assert s[15..20] == AuthPrefix[15..20] == "Basic";
    assert s[14] == s[20] == ' ';
  }

  /** A header whose token runs to the end of the text matches as a whole. */
  lemma AuthMatchWhole(token: string)
    requires forall m :: 0 <= m < |token| ==> IsTokenChar(token[m])
    ensures AuthMatchEnd(AuthPrefix + token, 0) == Some(|AuthPrefix| + |token|)
  {
    var s := AuthPrefix + token;
    AuthPrefixAtFront(token);
    forall m | AuthPrefixLength <= m < |s| ensures IsTokenChar(s[m]) {
      assert s[m] == token[m - AuthPrefixLength];
    }
  }

  /** After a mask the header's match stops at the `*`, which is not a token character. */
  lemma AuthMatchMasked()
    ensures AuthMatchEnd(AuthPrefix + "***", 0) == Some(AuthPrefixLength)
  {
    var s := AuthPrefix + "***";
    AuthPrefixAtFront("***");
    assert s[AuthPrefixLength] == '*';
    assert !IsTokenChar(s[AuthPrefixLength]);
  }

  /** A header whose token runs to the end of the text has its token masked. */
  lemma AuthTokenMasked(env: Env, token: string)
    requires forall m :: 0 <= m < |token| ==> IsTokenChar(token[m])
    ensures Replaced(env, AuthHeader, AuthPrefix + token) == AuthPrefix + "***"
  {
    var m, cb := MatcherOf(env, AuthHeader), CallbackOf(env, AuthHeader);
    var s := AuthPrefix + token;
    AuthMatchWhole(token);
    assert m(s, 0) == Some(|s|);
    SplicedLeftmost(m, cb, s, 0, 0);
    assert s[0..|s|] == s;
    assert s[..AuthPrefixLength] == AuthPrefix;
  }

  /**
   * Masking is not idempotent: the mask itself is not a token, so a second
   * pass over a masked header adds another mask.
   */
  lemma AuthMaskGrows(env: Env)
    ensures Replaced(env, AuthHeader, AuthPrefix + "***") == AuthPrefix + "******"
  {
    var m, cb := MatcherOf(env, AuthHeader), CallbackOf(env, AuthHeader);
    var s := AuthPrefix + "***";
    AuthMatchMasked();
    assert m(s, 0) == Some(AuthPrefixLength);
    SplicedLeftmost(m, cb, s, 0, 0);
    SplicedNoMatch(m, cb, s, AuthPrefixLength);
    assert s[..AuthPrefixLength] == AuthPrefix;
    assert s[AuthPrefixLength..] == "***";
  }

  /** A `{` with no `}` after it starts no JSON span: the scan skips it. */
  lemma JsonUnclosedNoSpan(s: string, k: nat)
    requires k <= |s|
    requires forall m :: k <= m < |s| ==> s[m] != '}'
    ensures GroupEnd(Braces, s, k).None?
  {
    if GroupEnd(Braces, s, k).Some? {
      GroupBalanced(s, k);
    }
  }

  /** Without any `}` the JSON pattern matches nowhere, so a message of unclosed `{` is left as it is. */
  lemma JsonUnbalancedVerbatim(env: Env, s: string)
    requires forall k :: 0 <= k < |s| ==> s[k] != '}'
    ensures Replaced(env, JsonObject, s) == s
  {
    var m, cb := MatcherOf(env, JsonObject), CallbackOf(env, JsonObject);
    forall k | 0 <= k < |s|
      ensures m(s, k).None?
    {
      JsonUnclosedNoSpan(s, k);
    }
    SplicedNoMatch(m, cb, s, 0);
  }

  /** A message none of whose JSON spans decodes keeps every byte through the JSON step. */
  lemma JsonUndecodableVerbatim(env: Env, s: string)
    requires forall k :: 0 <= k < |s| && GroupEnd(Braces, s, k).Some? ==>
      env.jsonDecode(env.replaceNewlines(s[k..GroupEnd(Braces, s, k).value])).None?
    ensures Replaced(env, JsonObject, s) == s
  {
    var m, cb := MatcherOf(env, JsonObject), CallbackOf(env, JsonObject);
    forall k | 0 <= k < |s| && m(s, k).Some?
      ensures cb(s[k..m(s, k).value]) == s[k..m(s, k).value]
    {
      var e := m(s, k).value;
      assert env.jsonDecode(env.replaceNewlines(s[k..e])).None?;
    }
    SplicedVerbatim(m, cb, s, 0);
  }

  /** A message none of whose dump spans reverse-parses keeps every byte through the dump step. */
  lemma DumpUnparsedVerbatim(env: Env, s: string)
    requires forall k :: 0 <= k < |s| && GroupEnd(ArrayParens, s, k).Some? ==>
      env.printrReverse(DumpText(s[k..GroupEnd(ArrayParens, s, k).value])).None?
    ensures Replaced(env, ArrayDump, s) == s
  {
    var m, cb := MatcherOf(env, ArrayDump), CallbackOf(env, ArrayDump);
    forall k | 0 <= k < |s| && m(s, k).Some?
      ensures cb(s[k..m(s, k).value]) == s[k..m(s, k).value]
    {
      var e := m(s, k).value;
      assert env.printrReverse(DumpText(s[k..e])).None?;
    }
    SplicedVerbatim(m, cb, s, 0);
  }

  /** Without the SimpleXML functions every XML span is kept as it is. */
  lemma XmlUnavailableVerbatim(env: Env, s: string)
    requires !env.xmlFunctionsExist
    ensures Replaced(env, XmlDocument, s) == s
  {
    SplicedVerbatim(MatcherOf(env, XmlDocument), CallbackOf(env, XmlDocument), s, 0);
  }

  /** A header at `p` whose token is followed by a non-token byte or the end matches up to that point. */
  lemma AuthMatchIn(s: string, p: nat, token: string, e: nat)
    requires p + AuthPrefixLength + |token| == e <= |s|
    requires s[p..e] == AuthPrefix + token
    requires forall m :: 0 <= m < |token| ==> IsTokenChar(token[m])
    requires e == |s| || !IsTokenChar(s[e])
    ensures AuthMatchEnd(s, p) == Some(e)
  {
    forall k | 0 <= k < AuthPrefixLength ensures s[p + k] == AuthPrefix[k] {
      assert s[p + k] == s[p..e][k];
    }
    var w := s[p..p + AuthPrefixLength];
    assert w == AuthPrefix;
    assert s[p..p + 14] == w[0..14] == "Authorization:";
    assert s[p + 15..p + 20] == w[15..20] == "Basic";
    assert AuthPrefixAt(s, p);
    forall m | p + AuthPrefixLength <= m < e ensures IsTokenChar(s[m]) {
      assert s[m] == s[p..e][m - p] == token[m - p - AuthPrefixLength];
    }
  }

  /** Where the auth pattern matches in two headers on consecutive lines. */
  lemma TwoHeadersMatches(env: Env, t1: string, t2: string)
    requires forall m :: 0 <= m < |t1| ==> IsTokenChar(t1[m])
    requires forall m :: 0 <= m < |t2| ==> IsTokenChar(t2[m])
    ensures var s := AuthPrefix + t1 + "\n" + AuthPrefix + t2;
      var e1 := AuthPrefixLength + |t1|;
      && e1 < |s| && s[e1] == '\n'
      && MatcherOf(env, AuthHeader)(s, 0) == Some(e1)
      && MatcherOf(env, AuthHeader)(s, e1).None?
      && MatcherOf(env, AuthHeader)(s, e1 + 1) == Some(|s|)
      && s[0..e1] == AuthPrefix + t1 && s[e1 + 1..|s|] == AuthPrefix + t2
  {
    var s := AuthPrefix + t1 + "\n" + AuthPrefix + t2;
    var e1 := AuthPrefixLength + |t1|;
    assert s[0..e1] == AuthPrefix + t1;
    assert s[e1] == '\n';
    AuthMatchIn(s, 0, t1, e1);
    assert s[e1 + 1..|s|] == AuthPrefix + t2;
    AuthMatchIn(s, e1 + 1, t2, |s|);
    assert !AuthPrefixAt(s, e1) by {
      if e1 + 14 <= |s| {
        assert s[e1..e1 + 14][0] == '\n';
      }
    }
  }

  /** A text made of a span, one unmatched byte and a span is spliced span by span. */
  lemma SplicedTwoSpans(m: Matcher, cb: string -> string, s: string, e1: nat)
    requires e1 < |s| && m(s, 0) == Some(e1) && m(s, e1).None? && m(s, e1 + 1) == Some(|s|)
    ensures Spliced(m, cb, s, 0) == cb(s[0..e1]) + [s[e1]] + cb(s[e1 + 1..|s|])
  {
    SplicedLeftmost(m, cb, s, 0, 0);
    SplicedLeftmost(m, cb, s, e1, e1 + 1);
    assert s[0..0] == "" && s[e1..e1 + 1] == [s[e1]];
    assert Spliced(m, cb, s, |s|) == "";
  }

  /** The callback masks whatever follows the 21-byte prefix. */
  lemma AuthPrefixMasked(env: Env, t: string)
    ensures CallbackOf(env, AuthHeader)(AuthPrefix + t) == AuthPrefix + "***"
  {
    assert (AuthPrefix + t)[..AuthPrefixLength] == AuthPrefix;
  }

  /**
   * The pattern has no limit: every header is masked, not only the first.
   * Two headers on consecutive lines both come out as `Authorization: Basic ***`.
   */
  lemma AuthEveryHeaderMasked(env: Env, t1: string, t2: string)
    requires forall m :: 0 <= m < |t1| ==> IsTokenChar(t1[m])
    requires forall m :: 0 <= m < |t2| ==> IsTokenChar(t2[m])
    ensures Replaced(env, AuthHeader, AuthPrefix + t1 + "\n" + AuthPrefix + t2)
         == AuthPrefix + "***" + "\n" + AuthPrefix + "***"
  {
    var m, cb := MatcherOf(env, AuthHeader), CallbackOf(env, AuthHeader);
    var s := AuthPrefix + t1 + "\n" + AuthPrefix + t2;
    var e1 := AuthPrefixLength + |t1|;
    TwoHeadersMatches(env, t1, t2);
    SplicedTwoSpans(m, cb, s, e1);
    AuthPrefixMasked(env, t1);
    AuthPrefixMasked(env, t2);
  }

  /** The JSON matcher in a text with one brace-free span: nothing before it or after it, the span itself at its `{`. */
  lemma JsonSpanMatches(env: Env, before: string, inner: string, after: string)
    requires forall k :: 0 <= k < |before| ==> before[k] != '{'
    requires forall k :: 0 <= k < |inner| ==> inner[k] != '{' && inner[k] != '}'
    requires forall k :: 0 <= k < |after| ==> after[k] != '{'
    ensures var s := before + "{" + inner + "}" + after;
      var p, e := |before|, |before| + |inner| + 2;
      && (forall k :: 0 <= k < p ==> MatcherOf(env, JsonObject)(s, k).None?)
      && MatcherOf(env, JsonObject)(s, p) == Some(e)
      && (forall k :: e <= k < |s| ==> MatcherOf(env, JsonObject)(s, k).None?)
  {
    var s := before + "{" + inner + "}" + after;
    var p, e := |before|, |before| + |inner| + 2;
    assert s[p] == '{' && s[e - 1] == '}';
    forall k | p < k < e - 1 ensures s[k] != '{' && s[k] != '}' {
      assert s[k] == inner[k - p - 1];
    }
    JsonFlatGroup(s, p, e - 1);
    forall k | 0 <= k < p ensures s[k] != '{' {
      assert s[k] == before[k];
    }
    forall k | e <= k < |s| ensures s[k] != '{' {
      assert s[k] == after[k - e];
    }
  }

  /**
   * A balanced JSON span, nested or not, with no other span before or after
   * it: the span is replaced by what `obfuscateJson` makes of it, and the
   * text around it is kept byte for byte.
   */
  lemma JsonSpanSpliced(env: Env, s: string, p: nat)
    requires p <= |s| && GroupEnd(Braces, s, p).Some?
    requires forall k :: 0 <= k < p ==> GroupEnd(Braces, s, k).None?
    requires forall k :: GroupEnd(Braces, s, p).value <= k < |s| ==> GroupEnd(Braces, s, k).None?
    ensures var e := GroupEnd(Braces, s, p).value;
      Replaced(env, JsonObject, s) == s[..p] + JsonCallback(env, s[p..e]) + s[e..]
  {
    var m, cb := MatcherOf(env, JsonObject), CallbackOf(env, JsonObject);
    var e := GroupEnd(Braces, s, p).value;
    SplicedLeftmost(m, cb, s, 0, p);
    SplicedNoMatch(m, cb, s, e);
    assert s[0..p] == s[..p];
  }

  /**
   * One brace-free JSON span between texts without `{`: the span is replaced
   * by what `obfuscateJson` makes of it, and the text around it is kept byte for byte.
   */
  lemma JsonFlatSpanSpliced(env: Env, before: string, inner: string, after: string)
    requires forall k :: 0 <= k < |before| ==> before[k] != '{'
    requires forall k :: 0 <= k < |inner| ==> inner[k] != '{' && inner[k] != '}'
    requires forall k :: 0 <= k < |after| ==> after[k] != '{'
    ensures Replaced(env, JsonObject, before + "{" + inner + "}" + after)
         == before + JsonCallback(env, "{" + inner + "}") + after
  {
    var m, cb := MatcherOf(env, JsonObject), CallbackOf(env, JsonObject);
    var span := "{" + inner + "}";
    var s := before + span + after;
    assert s == before + "{" + inner + "}" + after;
    var p, e := |before|, |before| + |span|;
    JsonSpanMatches(env, before, inner, after);
    JsonSpanSpliced(env, s, p);
    assert s[..p] == before && s[p..e] == span && s[e..] == after;
  }

  /**
   * A dump written `array …` reaches `printrReverse` as `Array` and a line
   * feed, followed by the rest of the span with every further `array `
   * turned into `Array` and a line feed and every `,` and `'` removed.
   */
  lemma DumpLowerNormalised(t: string)
    ensures DumpText("array " + t)
         == "Array\n" + ReplaceAll(ReplaceAll(ReplaceAll(t, "array ", "Array\n"), ",", ""), "'", "")
  {
    var s := "array " + t;
    assert StartsWith(s, "array") by {
      assert s[0..5] == "array";
    }
    assert "" + "array " + t == s;
    ReplaceAllFirst("", "array ", "Array\n", t);
    var r1 := ReplaceAll(t, "array ", "Array\n");
    ReplaceCharAfterPrefix("Array\n", r1, ',', "");
    ReplaceCharAfterPrefix("Array\n", ReplaceAll(r1, ",", ""), '\'', "");
  }
}
