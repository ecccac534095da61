/**
 * The degraded path of XML redaction, taken when the XML span does not load
 * without libxml errors: for every sensitive key whose opening tag `<key>`
 * occurs in the raw span (loose `strpos`, so not at index 0), the first
 * match of `/<key>(.*)<\/?key>/` in the RAW span is replaced by
 * `<key>***</key>`. Each key starts again from the raw span, so only the
 * substitution of the last key that applies survives.
 *
 * The key is taken as literal text (no regex metacharacter in it is
 * interpreted); `.` stops at a line feed; `.*` is
 * greedy, so a match ends at the LAST closing (or re-opening) tag on the
 * line, and at one index `</key>` is preferred over `<key>`.
 */
module XmlFallback {
  import opened Wrappers
  import opened PhpStrings

  function OpenTag(key: string): string { "<" + key + ">" }

  function CloseTag(key: string): string { "</" + key + ">" }

  /** The text that replaces a match. */
  function MaskedTag(key: string): string { OpenTag(key) + "***" + CloseTag(key) }

  /** The first line feed at or after `q`, or the end of `s`. */
  function LineEnd(s: string, q: nat): (r: nat)
    requires q <= |s|
    ensures q <= r <= |s|
    ensures forall m :: q <= m < r ==> s[m] != '\n'
    ensures r < |s| ==> s[r] == '\n'
    decreases |s| - q
  {
    if q == |s| || s[q] == '\n' then q else LineEnd(s, q + 1)
  }

  /** `<\/?key>` matches at index `m`. */
  predicate EndTagAt(s: string, key: string, m: nat) {
    OccursAt(s, CloseTag(key), m) || OccursAt(s, OpenTag(key), m)
  }

  /** The greatest index in `[q, e]` where `<\/?key>` matches. */
  function LastEndTag(s: string, key: string, q: nat, e: nat): (r: Option<nat>)
    requires q <= e
    ensures r.Some? ==> q <= r.value <= e && EndTagAt(s, key, r.value)
    ensures r.Some? ==> forall m :: r.value < m <= e ==> !EndTagAt(s, key, m)
    ensures r.None? ==> forall m :: q <= m <= e ==> !EndTagAt(s, key, m)
    decreases e - q
  {
    if EndTagAt(s, key, e) then Some(e)
    else if e == q then None
    else LastEndTag(s, key, q, e - 1)
  }

  /** The length of the end tag at `m`, `</key>` taking precedence. */
  function EndTagLength(s: string, key: string, m: nat): nat {
    if OccursAt(s, CloseTag(key), m) then |CloseTag(key)| else |OpenTag(key)|
  }

  /** The end (exclusive) of the match of `<key>(.*)<\/?key>` that starts at `p`. */
  function TagMatchAt(s: string, key: string, p: nat): (r: Option<nat>)
    requires p <= |s|
    ensures r.Some? ==> p < r.value <= |s|
  {
    if !OccursAt(s, OpenTag(key), p) then None
    else
      var q := p + |OpenTag(key)|;
      match LastEndTag(s, key, q, LineEnd(s, q))
      case None => None
      case Some(m) => Some(m + EndTagLength(s, key, m))
  }

  /** The first index in `[p, n]` where `f` reports a match, with that match's end. */
  function FirstMatch(f: nat -> Option<nat>, p: nat, n: nat): (r: Option<(nat, nat)>)
    requires p <= n
    ensures r.Some? ==> p <= r.value.0 <= n && f(r.value.0) == Some(r.value.1)
    ensures r.Some? ==> forall m :: p <= m < r.value.0 ==> f(m).None?
    ensures r.None? ==> forall m :: p <= m <= n ==> f(m).None?
    decreases n - p
  {
    if f(p).Some? then Some((p, f(p).value))
    else if p == n then None
    else FirstMatch(f, p + 1, n)
  }

  /** `TagMatchAt` at every index of `s`. */
  function TagMatcher(s: string, key: string): nat -> Option<nat> {
    (m: nat) => if m <= |s| then TagMatchAt(s, key, m) else None
  }

  /** The leftmost match at or after `p`, as its start and end. */
  function LeftmostTag(s: string, key: string, p: nat): Option<(nat, nat)>
    requires p <= |s|
  {
    FirstMatch(TagMatcher(s, key), p, |s|)
  }

  /** The match `LeftmostTag` reports is one, and no match starts before it. */
  lemma LeftmostTagIsLeftmost(s: string, key: string, p: nat)
    requires p <= |s|
    ensures var r := LeftmostTag(s, key, p);
      && (r.Some? ==> p <= r.value.0 <= |s| && TagMatchAt(s, key, r.value.0) == Some(r.value.1))
      && (r.Some? ==> forall m :: p <= m < r.value.0 ==> TagMatchAt(s, key, m).None?)
      && (r.None? ==> forall m :: p <= m <= |s| ==> TagMatchAt(s, key, m).None?)
  {
    var f := TagMatcher(s, key);
    var r := FirstMatch(f, p, |s|);
    var last := if r.Some? then r.value.0 else |s| + 1;
    forall m | p <= m < last ensures TagMatchAt(s, key, m).None? {
      assert f(m).None?;
    }
    if r.Some? {
      assert f(r.value.0) == TagMatchAt(s, key, r.value.0);
    }
  }

  /** `preg_replace("/<key>(.*)<\/?key>/", "<key>***</key>", $s, 1)`. */
  function ReplaceFirstTag(s: string, key: string): string {
    match LeftmostTag(s, key, 0)
    case None => s
    case Some((p, e)) => s[..p] + MaskedTag(key) + s[e..]
  }

  /**
   * Without the opening tag the text is unchanged; otherwise the text before
   * the leftmost match is kept, the match becomes `<key>***</key>`, and the
   * text after the match is kept.
   */
  lemma ReplaceFirstTagMasks(s: string, key: string)
    ensures (forall m :: 0 <= m <= |s| ==> !OccursAt(s, OpenTag(key), m)) ==> ReplaceFirstTag(s, key) == s
    ensures LeftmostTag(s, key, 0).Some? ==>
      var (p, e) := LeftmostTag(s, key, 0).value;
      var r := ReplaceFirstTag(s, key);
      var q := p + |MaskedTag(key)|;
      q <= |r| && r[..p] == s[..p] && r[p..q] == MaskedTag(key) && r[q..] == s[e..]
  {
    LeftmostTagIsLeftmost(s, key, 0);
    match LeftmostTag(s, key, 0)
    case None =>
    case Some((p, e)) =>
      var r := ReplaceFirstTag(s, key);
      var q := p + |MaskedTag(key)|;
      assert r == s[..p] + MaskedTag(key) + s[e..];
      assert r[..p] == s[..p];
      assert r[p..q] == MaskedTag(key);
      assert r[q..] == s[e..];
  }

  /** The key is applied: `strpos($raw, "<key>") != false`. */
  predicate Applies(raw: string, key: string) {
    LooseFound(raw, OpenTag(key))
  }

  /** The index of the last key that applies. */
  function LastApplying(raw: string, keys: seq<string>): (r: Option<nat>)
    ensures r.Some? ==> r.value < |keys| && Applies(raw, keys[r.value])
    ensures r.Some? ==> forall j :: r.value < j < |keys| ==> !Applies(raw, keys[j])
    ensures r.None? ==> forall j :: 0 <= j < |keys| ==> !Applies(raw, keys[j])
    decreases |keys|
  {
    if |keys| == 0 then None
    else if Applies(raw, keys[|keys| - 1]) then Some(|keys| - 1)
    else LastApplying(raw, keys[..|keys| - 1])
  }

  /** What the fallback returns: the raw span, or the last applying key's substitution in it. */
  function Fallback(raw: string, keys: seq<string>): string {
    match LastApplying(raw, keys)
    case None => raw
    case Some(j) => ReplaceFirstTag(raw, keys[j])
  }

  /** The `foreach` over the sensitive keys, each substitution starting from the raw span. */
  method ObfuscateFallback(raw: string, keys: seq<string>) returns (r: string)
    ensures r == Fallback(raw, keys)
  {
    r := raw;
    for j := 0 to |keys|
      invariant r == Fallback(raw, keys[..j])
    {
      assert keys[..j + 1][..j] == keys[..j];
      if Applies(raw, keys[j]) {
        r := ReplaceFirstTag(raw, keys[j]);
      }
    }
    assert keys[..|keys|] == keys;
  }

  /** When no key's opening tag occurs past index 0, the span comes back unchanged. */
  lemma FallbackNoKey(raw: string, keys: seq<string>)
    requires forall j :: 0 <= j < |keys| ==> !Applies(raw, keys[j])
    ensures Fallback(raw, keys) == raw
  {
  }

  /**
   * Substitutions do not accumulate: whatever keys come before it, the
   * result is that of the last applying key alone.
   */
  lemma {:induction false} FallbackLastWins(raw: string, before: seq<string>, key: string, after: seq<string>)
    requires Applies(raw, key)
    requires forall j :: 0 <= j < |after| ==> !Applies(raw, after[j])
    ensures Fallback(raw, before + [key] + after) == ReplaceFirstTag(raw, key)
  {
    var keys := before + [key] + after;
    var r := LastApplying(raw, keys);
    assert keys[|before|] == key;
    forall j | |before| < j < |keys| ensures !Applies(raw, keys[j]) {
      assert keys[j] == after[j - |before| - 1];
    }
    assert r.Some? && r.value == |before|;
  }
}
