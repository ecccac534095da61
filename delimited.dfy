/**
 * The two recursive patterns of the redaction pass, written out as grammars.
 *
 *   JSON objects   `\{(?:[^{}]|(?R))*\}`
 *   print_r dumps  `[aA]rray\s*\((?:[^()]|(?R))*\)`
 *
 * In both, `(?R)` re-enters the whole pattern, so a group is an opening token,
 * then items that are either a plain character or a nested group, then the
 * closing character. For braces the opening token is `{` alone; for dumps it
 * is `[aA]rray`, optional white space and `(`, so a `(` inside a dump is only
 * accepted as the end of such a token. The items' alternatives never apply
 * to the same parse, so a group starting at a given index has at most one
 * match, which backtracking finds whenever it exists. `Group` is that
 * grammar as a recursive-descent parser; `MatchGroup` is the depth-counting
 * loop, proved to find the same end.
 */
module Delimited {
  import opened Wrappers
  import opened PhpStrings

  datatype Delims = Braces | ArrayParens

  function CloseChar(k: Delims): char {
    if k == Braces then '}' else ')'
  }

  /** A `(` that does not end an `[aA]rray\s*(` token; it breaks a dump group. */
  predicate BareOpen(k: Delims, c: char) {
    k == ArrayParens && c == '('
  }

  /** PCRE's `\s`: space, tab, line feed, vertical tab, form feed, carriage return. */
  predicate IsSpace(c: char) {
    c == ' ' || c == '\t' || c == '\n' || c == '\U{000B}' || c == '\U{000C}' || c == '\r'
  }

  /** The length of the run of white space starting at `j` (the greedy `\s*`). */
  function SpaceRun(s: string, j: nat): (n: nat)
    requires j <= |s|
    ensures j + n <= |s|
    ensures forall m :: j <= m < j + n ==> IsSpace(s[m])
    ensures j + n == |s| || !IsSpace(s[j + n])
    decreases |s| - j
  {
    if j < |s| && IsSpace(s[j]) then 1 + SpaceRun(s, j + 1) else 0
  }

  /** The length of the opening token starting at `i`, if one starts there. */
  function OpenAt(k: Delims, s: string, i: nat): (r: Option<nat>)
    requires i <= |s|
    ensures r.Some? ==> 1 <= r.value && i + r.value <= |s|
    ensures r.Some? ==> s[i + r.value - 1] == (if k == Braces then '{' else '(')
    ensures k == Braces ==> (r.Some? <==> i < |s| && s[i] == '{')
  {
    match k
    case Braces =>
      if i < |s| && s[i] == '{' then Some(1) else None
    case ArrayParens =>
      if i + 5 <= |s| && (s[i] == 'a' || s[i] == 'A') && s[i + 1] == 'r' && s[i + 2] == 'r'
         && s[i + 3] == 'a' && s[i + 4] == 'y'
         && i + 5 + SpaceRun(s, i + 5) < |s| && s[i + 5 + SpaceRun(s, i + 5)] == '('
      then Some(6 + SpaceRun(s, i + 5))
      else None
  }

  /**
   * A recogniser of opening tokens: the token's length at an index, if one
   * starts there. A token is never empty and never passes the text's end.
   */
  type Opener = o: (string, nat) -> Option<nat>
    | forall s: string, i: nat :: o(s, i).Some? ==> 1 <= o(s, i).value && i + o(s, i).value <= |s|
    witness (s: string, i: nat) => None

  /** The opening tokens of `k`. */
  function OpenerOf(k: Delims): Opener {
    (s: string, i: nat) => if i <= |s| then OpenAt(k, s, i) else None
  }

  /** The end (exclusive) of a group starting at `i`, its opening tokens recognised by `o`. */
  function Group(k: Delims, o: Opener, s: string, i: nat): (r: Option<nat>)
    requires i <= |s|
    ensures r.Some? ==> i < r.value <= |s|
    decreases |s| - i, 0
  {
    match o(s, i)
    case None => None
    case Some(n) => Body(k, o, s, i + n)
  }

  /** The end (exclusive) of a group body starting at `i`, closing character included. */
  function Body(k: Delims, o: Opener, s: string, i: nat): (r: Option<nat>)
    requires i <= |s|
    ensures r.Some? ==> i < r.value <= |s|
    decreases |s| - i, 1
  {
    if i == |s| then None
    else match o(s, i)
      case Some(_) =>
        (match Group(k, o, s, i)
         case None => None
         case Some(j) => Body(k, o, s, j))
      case None =>
        if s[i] == CloseChar(k) then Some(i + 1)
        else if BareOpen(k, s[i]) then None
        else Body(k, o, s, i + 1)
  }

  /** The end (exclusive) of the group that starts at `i`, if the pattern matches there. */
  function GroupEnd(k: Delims, s: string, i: nat): (r: Option<nat>)
    requires i <= |s|
    ensures r.Some? ==> i < r.value <= |s|
  {
    Group(k, OpenerOf(k), s, i)
  }

  /** The end (exclusive) of a group body starting at `i`. */
  function BodyEnd(k: Delims, s: string, i: nat): (r: Option<nat>)
    requires i <= |s|
    ensures r.Some? ==> i < r.value <= |s|
  {
    Body(k, OpenerOf(k), s, i)
  }

  /** Closing `d` enclosing bodies one after another, starting at `i`. */
  function Nest(k: Delims, o: Opener, s: string, i: nat, d: nat): Option<nat>
    requires i <= |s|
    decreases d
  {
    if d == 0 then Some(i)
    else match Body(k, o, s, i)
      case None => None
      case Some(j) => Nest(k, o, s, j, d - 1)
  }

  /** One enclosing body closes where that body ends. */
  lemma NestOne(k: Delims, o: Opener, s: string, i: nat)
    requires i <= |s|
    ensures Nest(k, o, s, i, 1) == Body(k, o, s, i)
  {
    match Body(k, o, s, i)
    case None =>
    case Some(j) =>
      assert Nest(k, o, s, j, 0) == Some(j);
  }

  /** No body closes once the text has run out. */
  lemma NestEnd(k: Delims, o: Opener, s: string, d: nat)
    requires d >= 1
    ensures Nest(k, o, s, |s|, d) == None
  {
    assert Body(k, o, s, |s|) == None;
  }

  /** An opening token at `i` adds one body to close. */
  lemma NestOpen(k: Delims, o: Opener, s: string, i: nat, d: nat)
    requires i < |s| && d >= 1 && o(s, i).Some?
    ensures Nest(k, o, s, i, d) == Nest(k, o, s, i + o(s, i).value, d + 1)
  {
    var n := o(s, i).value;
    assert Group(k, o, s, i) == Body(k, o, s, i + n);
    match Body(k, o, s, i + n)
    case None =>
    case Some(j) =>
      assert Nest(k, o, s, i + n, d + 1) == Nest(k, o, s, j, d);
  }

  /** A closing character ends the innermost body. */
  lemma NestClose(k: Delims, o: Opener, s: string, i: nat, d: nat)
    requires i < |s| && d >= 1 && o(s, i).None? && s[i] == CloseChar(k)
    ensures Nest(k, o, s, i, d) == Nest(k, o, s, i + 1, d - 1)
  {
    assert Body(k, o, s, i) == Some(i + 1);
  }

  /** Any other character is a plain item of the innermost body. */
  lemma NestPlain(k: Delims, o: Opener, s: string, i: nat, d: nat)
    requires i < |s| && d >= 1 && o(s, i).None? && s[i] != CloseChar(k)
    ensures Nest(k, o, s, i, d) == if BareOpen(k, s[i]) then None else Nest(k, o, s, i + 1, d)
  {
  }

  /**
   * One character of the depth-counting scan, with `d` bodies open at `i`:
   * an opening token goes one level deeper, a closing character one level
   * out, and a bare `(` in a dump ends the scan without a match. Either the
   * scan goes on from the new index and depth, or it ends with `result`.
   */
  method Advance(k: Delims, o: Opener, s: string, i: nat, d: nat) returns (next: Option<(nat, nat)>, result: Option<nat>)
    requires i < |s| && d >= 1
    ensures next.Some? ==> i < next.value.0 <= |s| && next.value.1 >= 1
    ensures next.Some? ==> Nest(k, o, s, next.value.0, next.value.1) == Nest(k, o, s, i, d)
    ensures next.None? ==> result == Nest(k, o, s, i, d)
  {
    result := None;
    var n := o(s, i);
    if n.Some? {
      NestOpen(k, o, s, i, d);
      next := Some((i + n.value, d + 1));
    } else if s[i] == CloseChar(k) {
      NestClose(k, o, s, i, d);
      if d == 1 {
        next, result := None, Some(i + 1);
      } else {
        next := Some((i + 1, d - 1));
      }
    } else {
      NestPlain(k, o, s, i, d);
      next := if BareOpen(k, s[i]) then None else Some((i + 1, d));
    }
  }

  /** Match a group at index `p` by counting nesting depth until it returns to zero. */
  method MatchGroup(k: Delims, o: Opener, s: string, p: nat) returns (e: Option<nat>)
    requires p <= |s|
    ensures e == Group(k, o, s, p)
  {
    var open := o(s, p);
    if open.None? {
      return None;
    }
    var i, depth := p + open.value, 1;
    NestOne(k, o, s, i);
    while i < |s|
      invariant p < i <= |s| && depth >= 1
      invariant Nest(k, o, s, i, depth) == Group(k, o, s, p)
      decreases |s| - i
    {
      var next, result := Advance(k, o, s, i, depth);
      if next.None? {
        return result;
      }
      i, depth := next.value.0, next.value.1;
    }
    NestEnd(k, o, s, depth);
    return None;
  }

  /** The number of occurrences of `c` in `s`. */
  function Count(c: char, s: string): nat
    decreases |s|
  {
    if |s| == 0 then 0 else (if s[0] == c then 1 else 0) + Count(c, s[1..])
  }

  lemma {:induction false} CountAppend(c: char, a: string, b: string)
    ensures Count(c, a + b) == Count(c, a) + Count(c, b)
    decreases |a|
  {
    if |a| > 0 {
      assert (a + b)[1..] == a[1..] + b;
      CountAppend(c, a[1..], b);
    } else {
      assert a + b == b;
    }
  }

  /** `Count` over two adjacent slices. */
  lemma CountSplit(c: char, s: string, i: nat, m: nat, j: nat)
    requires i <= m <= j <= |s|
    ensures Count(c, s[i..j]) == Count(c, s[i..m]) + Count(c, s[m..j])
  {
    assert s[i..j] == s[i..m] + s[m..j];
    CountAppend(c, s[i..m], s[m..j]);
  }

  /** One byte counts one `c` exactly when it is `c`. */
  lemma CountOne(c: char, s: string, i: nat)
    requires i < |s|
    ensures Count(c, s[i..i + 1]) == (if s[i] == c then 1 else 0)
  {
    assert s[i..i + 1] == [s[i]];
  }

  /**
   * A body byte that opens no token: the closing character ends the body
   * there, any other byte (a bare `(` of a dump excepted) is skipped.
   */
  lemma PlainStep(k: Delims, s: string, i: nat)
    requires i <= |s| && BodyEnd(k, s, i).Some? && OpenAt(k, s, i).None?
    ensures i < |s| && !BareOpen(k, s[i])
    ensures s[i] == CloseChar(k) ==> BodyEnd(k, s, i) == Some(i + 1)
    ensures s[i] != CloseChar(k) ==> i + 1 <= |s| && BodyEnd(k, s, i) == BodyEnd(k, s, i + 1)
  {
  }

  /** A body that starts with an opening token goes on after the nested group. */
  lemma NestedStep(k: Delims, s: string, i: nat)
    requires i <= |s| && BodyEnd(k, s, i).Some? && OpenAt(k, s, i).Some?
    ensures GroupEnd(k, s, i).Some? && BodyEnd(k, s, i) == BodyEnd(k, s, GroupEnd(k, s, i).value)
  {
  }

  /** A matched JSON span opens with `{`, closes with `}` and its braces balance. */
  lemma {:induction false} GroupBalanced(s: string, i: nat)
    requires i <= |s| && GroupEnd(Braces, s, i).Some?
    ensures var j := GroupEnd(Braces, s, i).value;
      s[i] == '{' && s[j - 1] == '}' && Count('{', s[i..j]) == Count('}', s[i..j])
    decreases |s| - i, 0
  {
    var j := GroupEnd(Braces, s, i).value;
    BodyBalanced(s, i + 1, j);
    CountSplit('{', s, i, i + 1, j);
    CountSplit('}', s, i, i + 1, j);
    CountOne('{', s, i);
    CountOne('}', s, i);
  }

  /** A JSON group body ending at `j` holds exactly one more `}` than `{`, and ends with `}`. */
  lemma {:induction false} BodyBalanced(s: string, i: nat, j: nat)
    requires i <= |s| && BodyEnd(Braces, s, i) == Some(j)
    ensures s[j - 1] == '}' && Count('}', s[i..j]) == Count('{', s[i..j]) + 1
    decreases |s| - i, 1
  {
    if OpenAt(Braces, s, i).Some? {
      NestedStep(Braces, s, i);
      var g := GroupEnd(Braces, s, i).value;
      GroupBalanced(s, i);
      BodyBalanced(s, g, j);
      CountSplit('{', s, i, g, j);
      CountSplit('}', s, i, g, j);
    } else {
      PlainStep(Braces, s, i);
      CountOne('{', s, i);
      CountOne('}', s, i);
      if s[i] != '}' {
        BodyBalanced(s, i + 1, j);
        CountSplit('{', s, i, i + 1, j);
        CountSplit('}', s, i, i + 1, j);
      }
    }
  }

  /**
   * A body with no opening token and no closing character before index `j`,
   * and the closing character at `j`, ends right after `j`.
   */
  lemma {:induction false} BodyFlat(k: Delims, s: string, i: nat, j: nat)
    requires i <= j < |s| && s[j] == CloseChar(k)
    requires forall m :: i <= m <= j ==> OpenAt(k, s, m).None?
    requires forall m :: i <= m < j ==> s[m] != CloseChar(k) && !BareOpen(k, s[m])
    ensures BodyEnd(k, s, i) == Some(j + 1)
    decreases j - i
  {
    if i < j {
      BodyFlat(k, s, i + 1, j);
    }
  }

  /** A `{` whose text up to the next `}` holds no other brace matches up to and including that `}`. */
  lemma JsonFlatGroup(s: string, i: nat, j: nat)
    requires i < j < |s| && s[i] == '{' && s[j] == '}'
    requires forall m :: i < m < j ==> s[m] != '{' && s[m] != '}'
    ensures GroupEnd(Braces, s, i) == Some(j + 1)
  {
    BodyFlat(Braces, s, i + 1, j);
  }

  /** No `[aA]rray\s*(` token starts at `m` when no `(` follows it before a `)` at `j`. */
  lemma NoOpenerBefore(s: string, m: nat, j: nat)
    requires m <= j < |s| && s[j] == ')'
    requires forall n :: m <= n < j ==> s[n] != '('
    ensures OpenAt(ArrayParens, s, m).None?
  {
    if m + 5 > j && m + 5 <= |s| {
      assert s[j] == s[m..m + 5][j - m];
    }
  }

  /** A dump `Array(…)` holding no parenthesis matches up to and including its `)`. */
  lemma DumpFlatGroup(s: string, i: nat, j: nat)
    requires i + 6 <= j < |s| && s[i..i + 6] == "Array(" && s[j] == ')'
    requires forall m :: i + 6 <= m < j ==> s[m] != '(' && s[m] != ')'
    ensures GroupEnd(ArrayParens, s, i) == Some(j + 1)
  {
    assert s[i + 5] == '(' && !IsSpace(s[i + 5]);
    assert SpaceRun(s, i + 5) == 0;
    assert OpenAt(ArrayParens, s, i) == Some(6);
    forall m | i + 6 <= m <= j ensures OpenAt(ArrayParens, s, m).None? {
      NoOpenerBefore(s, m, j);
    }
    BodyFlat(ArrayParens, s, i + 6, j);
  }

  /**
   * The dump pattern re-enters itself as a whole, so a `(` inside a dump that
   * does not end an `[aA]rray\s*(` token leaves the dump unmatched.
   */
  lemma DumpBareParenUnmatched(t: string)
    ensures GroupEnd(ArrayParens, "Array((" + t, 0) == None
  {
    var s := "Array((" + t;
    assert s[5] == '(' && SpaceRun(s, 5) == 0;
    assert OpenAt(ArrayParens, s, 0) == Some(6);
    assert OpenAt(ArrayParens, s, 6).None? by {
      assert s[6] == '(';
    }
    assert Body(ArrayParens, OpenerOf(ArrayParens), s, 6) == None;
  }

  /** The `(` at index `m` ends an `[aA]rray\s*(` token that starts at or after `lo`. */
  predicate OpenerEndsAt(s: string, lo: nat, m: nat) {
    exists q: nat :: lo <= q <= m && q <= |s| && OpenAt(ArrayParens, s, q).Some?
      && q + OpenAt(ArrayParens, s, q).value == m + 1
  }

  /** An opener that starts inside a span also starts inside any span enclosing it. */
  lemma OpenerEndsAtWiden(s: string, lo: nat, mid: nat, m: nat)
    requires lo <= mid && OpenerEndsAt(s, mid, m)
    ensures OpenerEndsAt(s, lo, m)
  {
    var q: nat :| mid <= q <= m && q <= |s| && OpenAt(ArrayParens, s, q).Some?
      && q + OpenAt(ArrayParens, s, q).value == m + 1;
    assert lo <= q;
  }

  /** A text without `c` counts no `c`. */
  lemma {:induction false} CountZero(c: char, t: string)
    requires forall k :: 0 <= k < |t| ==> t[k] != c
    ensures Count(c, t) == 0
    decreases |t|
  {
    if |t| > 0 {
      CountZero(c, t[1..]);
    }
  }

  /** An opening dump token holds one `(`, as its last byte, and no `)`. */
  lemma OpenerParens(s: string, i: nat)
    requires i <= |s| && OpenAt(ArrayParens, s, i).Some?
    ensures var n := OpenAt(ArrayParens, s, i).value;
      && (forall m :: i <= m < i + n - 1 ==> s[m] != '(' && s[m] != ')')
      && Count('(', s[i..i + n]) == 1 && Count(')', s[i..i + n]) == 0
  {
    var n := OpenAt(ArrayParens, s, i).value;
    var head := s[i..i + n - 1];
    forall k | 0 <= k < |head| ensures head[k] != '(' && head[k] != ')' {
      assert head[k] == s[i + k];
      if k >= 5 {
        assert IsSpace(s[i + k]);
      }
    }
    CountZero('(', head);
    CountZero(')', head);
    assert s[i..i + n] == head + [s[i + n - 1]];
    CountAppend('(', head, [s[i + n - 1]]);
    CountAppend(')', head, [s[i + n - 1]]);
    forall m | i <= m < i + n - 1 ensures s[m] != '(' && s[m] != ')' {
      assert s[m] == head[m - i];
    }
  }

  /** A matched dump starts with `[aA]rray`, ends with `)` and holds as many `(` as `)`. */
  lemma {:induction false} DumpGroupBalanced(s: string, i: nat)
    requires i <= |s| && GroupEnd(ArrayParens, s, i).Some?
    ensures var j := GroupEnd(ArrayParens, s, i).value;
      && (s[i] == 'a' || s[i] == 'A') && s[i + 1] == 'r' && s[i + 2] == 'r' && s[i + 3] == 'a' && s[i + 4] == 'y'
      && s[j - 1] == ')' && Count('(', s[i..j]) == Count(')', s[i..j])
    decreases |s| - i, 0
  {
    var j := GroupEnd(ArrayParens, s, i).value;
    var n := OpenAt(ArrayParens, s, i).value;
    assert BodyEnd(ArrayParens, s, i + n) == Some(j);
    DumpBodyBalanced(s, i + n, j);
    OpenerParens(s, i);
    CountSplit('(', s, i, i + n, j);
    CountSplit(')', s, i, i + n, j);
  }

  /** A dump body ending at `j` holds one more `)` than `(` and ends with `)`. */
  lemma {:induction false} DumpBodyBalanced(s: string, i: nat, j: nat)
    requires i <= |s| && BodyEnd(ArrayParens, s, i) == Some(j)
    ensures s[j - 1] == ')' && Count(')', s[i..j]) == Count('(', s[i..j]) + 1
    decreases |s| - i, 1
  {
    if OpenAt(ArrayParens, s, i).Some? {
      NestedStep(ArrayParens, s, i);
      var g := GroupEnd(ArrayParens, s, i).value;
      DumpGroupBalanced(s, i);
      DumpBodyBalanced(s, g, j);
      CountSplit('(', s, i, g, j);
      CountSplit(')', s, i, g, j);
    } else {
      PlainStep(ArrayParens, s, i);
      CountOne('(', s, i);
      CountOne(')', s, i);
      if s[i] != ')' {
        DumpBodyBalanced(s, i + 1, j);
        CountSplit('(', s, i, i + 1, j);
        CountSplit(')', s, i, i + 1, j);
      }
    }
  }

  /**
   * The pattern re-enters itself as a whole: every `(` in a matched dump ends
   * an `[aA]rray\s*(` token that starts inside the dump.
   */
  lemma {:induction false} DumpGroupOpeners(s: string, i: nat)
    requires i <= |s| && GroupEnd(ArrayParens, s, i).Some?
    ensures forall m :: i <= m < GroupEnd(ArrayParens, s, i).value && s[m] == '(' ==> OpenerEndsAt(s, i, m)
    decreases |s| - i, 0
  {
    var j := GroupEnd(ArrayParens, s, i).value;
    var n := OpenAt(ArrayParens, s, i).value;
    assert BodyEnd(ArrayParens, s, i + n) == Some(j);
    DumpBodyOpeners(s, i + n);
    OpenerParens(s, i);
    forall m | i <= m < j && s[m] == '(' ensures OpenerEndsAt(s, i, m) {
      if m >= i + n {
        OpenerEndsAtWiden(s, i, i + n, m);
      } else {
        assert m == i + n - 1;
        assert i + OpenAt(ArrayParens, s, i).value == m + 1;
      }
    }
  }

  /** Every `(` in a dump body ends an `[aA]rray\s*(` token that starts inside the body. */
  lemma {:induction false} DumpBodyOpeners(s: string, i: nat)
    requires i <= |s| && BodyEnd(ArrayParens, s, i).Some?
    ensures forall m :: i <= m < BodyEnd(ArrayParens, s, i).value && s[m] == '(' ==> OpenerEndsAt(s, i, m)
    decreases |s| - i, 1
  {
    var j := BodyEnd(ArrayParens, s, i).value;
    if OpenAt(ArrayParens, s, i).Some? {
      var g := GroupEnd(ArrayParens, s, i).value;
      assert BodyEnd(ArrayParens, s, i) == BodyEnd(ArrayParens, s, g);
      DumpGroupOpeners(s, i);
      DumpBodyOpeners(s, g);
      forall m | i <= m < j && s[m] == '(' ensures OpenerEndsAt(s, i, m) {
        if m >= g {
          OpenerEndsAtWiden(s, i, g, m);
        }
      }
    } else if s[i] != ')' {
      assert s[i] != '(';
      assert BodyEnd(ArrayParens, s, i) == BodyEnd(ArrayParens, s, i + 1);
      DumpBodyOpeners(s, i + 1);
      forall m | i <= m < j && s[m] == '(' ensures OpenerEndsAt(s, i, m) {
        OpenerEndsAtWiden(s, i, i + 1, m);
      }
    }
  }
}
