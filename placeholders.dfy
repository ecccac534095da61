/**
 * `replacePlaceholder`'s substitution: for each provenance key in turn,
 * every literal `[%key%]` becomes `[value]`; no other text is touched.
 */
module Placeholders {
  import opened Wrappers
  import opened PhpStrings
  import opened CallProvenance

  function Token(key: string): string { "[%" + key + "%]" }

  /** The keys and values in the order of the returned array. */
  function Entries(p: Provenance): seq<(string, string)> {
    [("file", p.file), ("line", p.line), ("method", p.methodName), ("uuid", p.uuid), ("exception", p.exception)]
  }

  /** The `str_replace` calls of the `foreach`, each on the previous output. */
  function Substituted(output: string, entries: seq<(string, string)>): string
    decreases |entries|
  {
    if |entries| == 0 then output
    else Substituted(ReplaceAll(output, Token(entries[0].0), "[" + entries[0].1 + "]"), entries[1..])
  }

  /** A line without any of the tokens comes back unchanged. */
  lemma {:induction false} NoTokensUnchanged(output: string, entries: seq<(string, string)>)
    requires forall j :: 0 <= j < |entries| ==> !Contains(output, Token(entries[j].0))
    ensures Substituted(output, entries) == output
    decreases |entries|
  {
    if |entries| > 0 {
      ContainsIff(output, Token(entries[0].0));
      ReplaceAllAbsent(output, Token(entries[0].0), "[" + entries[0].1 + "]");
      forall j | 0 <= j < |entries[1..]| ensures !Contains(output, Token(entries[1..][j].0)) {
        assert entries[1..][j] == entries[j + 1];
      }
      NoTokensUnchanged(output, entries[1..]);
    }
  }

  /** The substitution loop of `replacePlaceholder`. */
  method SubstitutePlaceholders(output: string, p: Provenance) returns (r: string)
    ensures r == Substituted(output, Entries(p))
  {
    var entries := Entries(p);
    r := output;
    for j := 0 to |entries|
      invariant Substituted(r, entries[j..]) == Substituted(output, entries)
    {
      assert entries[j..][1..] == entries[j + 1..];
      r := ReplaceAll(r, Token(entries[j].0), "[" + entries[j].1 + "]");
    }
  }

  /**
   * The complete `replacePlaceholder` given what `getStackTrace` produced:
   * when it threw, the exception is caught and the line is kept as it was.
   */
  function Placeheld(output: string, provenance: Option<Provenance>): (r: string)
    ensures provenance.None? ==> r == output
  {
    match provenance
    case None => output
    case Some(p) => Substituted(output, Entries(p))
  }

  /** What one token's step makes of a line whose first occurrence of it follows `a`. */
  function TokenDone(a: string, b: string, entry: (string, string)): string {
    a + "[" + entry.1 + "]" + ReplaceAll(b, Token(entry.0), "[" + entry.1 + "]")
  }

  /**
   * A line holding the token of entry `j` after a text `a` that holds none:
   * that token and every later occurrence of it become `[value]`, the text
   * around them is kept, provided no other key's token is in the line before
   * its step or in the result after it.
   */
  lemma {:induction false} TokenSubstituted(a: string, b: string, entries: seq<(string, string)>, j: nat)
    requires j < |entries|
    requires forall i :: 0 <= i < j ==> !Contains(a + Token(entries[j].0) + b, Token(entries[i].0))
    requires forall m :: 0 <= m < |a| ==> !OccursAt(a + Token(entries[j].0) + b, Token(entries[j].0), m)
    requires forall i :: j < i < |entries| ==> !Contains(TokenDone(a, b, entries[j]), Token(entries[i].0))
    ensures Substituted(a + Token(entries[j].0) + b, entries) == TokenDone(a, b, entries[j])
    decreases j
  {
    var line := a + Token(entries[j].0) + b;
    var tok0 := Token(entries[0].0);
    var val0 := "[" + entries[0].1 + "]";
    var rest := entries[1..];
    if j > 0 {
      ContainsIff(line, tok0);
      ReplaceAllAbsent(line, tok0, val0);
      assert rest[j - 1] == entries[j];
      forall i | 0 <= i < j - 1 ensures !Contains(line, Token(rest[i].0)) {
        assert rest[i] == entries[i + 1];
      }
      forall i | j - 1 < i < |rest| ensures !Contains(TokenDone(a, b, rest[j - 1]), Token(rest[i].0)) {
        assert rest[i] == entries[i + 1];
      }
      TokenSubstituted(a, b, rest, j - 1);
    } else {
      ReplaceAllFirst(a, tok0, val0, b);
      var r := TokenDone(a, b, entries[0]);
      assert ReplaceAll(line, tok0, val0) == r;
      assert Substituted(line, entries) == Substituted(r, rest);
      forall i | 0 <= i < |rest| ensures !Contains(r, Token(rest[i].0)) {
        assert rest[i] == entries[i + 1];
      }
      NoTokensUnchanged(r, rest);
    }
  }

  /**
   * `[%file%]`, the first token substituted: it and every later `[%file%]`
   * become the bracketed file, unless a later key's token appears.
   */
  lemma FileTokenSubstituted(a: string, b: string, p: Provenance)
    requires forall m :: 0 <= m < |a| ==> !OccursAt(a + Token("file") + b, Token("file"), m)
    requires var r := TokenDone(a, b, ("file", p.file));
      !Contains(r, Token("line")) && !Contains(r, Token("method"))
      && !Contains(r, Token("uuid")) && !Contains(r, Token("exception"))
    ensures Substituted(a + Token("file") + b, Entries(p))
         == a + "[" + p.file + "]" + ReplaceAll(b, Token("file"), "[" + p.file + "]")
  {
    var entries := Entries(p);
    assert entries[0] == ("file", p.file);
    TokenSubstituted(a, b, entries, 0);
  }
}
