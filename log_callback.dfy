/**
 * `LogCallback`: the request and response lines of the HTTP client's log
 * channels. `json_encode` of the headers and of the options, and
 * `Carbon::now()->format(...)`, are inputs; the channel write is not modelled.
 */
module LogCallback {
  import opened Wrappers
  import opened PhpStrings

  /** A PHP array key. */
  datatype OptionKey = Named(name: string) | Index(n: int)

  /**
   * The options `dailyRequest` drops. `in_array` compares loosely, and under
   * PHP 8 an integer key never equals a non-numeric string.
   */
  predicate Dropped(k: OptionKey) {
    k.Named? && k.name in ["auth", "on_stats", "timeout"]
  }

  /** `array_filter` with the key predicate: order and every other entry kept. */
  function FilterOptions<V(!new)>(options: seq<(OptionKey, V)>): (r: seq<(OptionKey, V)>)
    ensures |r| <= |options|
    ensures forall e :: e in r <==> e in options && !Dropped(e.0)
    decreases |options|
  {
    if |options| == 0 then []
    else if Dropped(options[0].0) then FilterOptions(options[1..])
    else [options[0]] + FilterOptions(options[1..])
  }

  /** Filtering one list after another is filtering their concatenation. */
  lemma {:induction false} FilterAppend<V(!new)>(a: seq<(OptionKey, V)>, b: seq<(OptionKey, V)>)
    ensures FilterOptions(a + b) == FilterOptions(a) + FilterOptions(b)
    decreases |a|
  {
    if |a| == 0 {
      assert a + b == b;
    } else {
      assert (a + b)[1..] == a[1..] + b;
      FilterAppend(a[1..], b);
    }
  }

  /** One field of a line. */
  function Bracketed(value: string): string { "[" + value + "]" }

  /**
   * The line `dailyRequest` writes: the headers, method, url and time, each
   * bracketed with nothing between, then the encoded filtered options. Fields
   * holding no `]` read back off the line in that order.
   */
  function RequestLine<V(!new)>(headersJson: string, verb: string, url: string, now: string,
                          options: seq<(OptionKey, V)>, encode: seq<(OptionKey, V)> -> string): (r: string)
    ensures |encode(FilterOptions(options))| <= |r|
    ensures r[|r| - |encode(FilterOptions(options))|..] == encode(FilterOptions(options))
    ensures NoCloseBracket(headersJson) && NoCloseBracket(verb) && NoCloseBracket(url) && NoCloseBracket(now) ==>
      SplitFields(r, 4) == Some(([headersJson, verb, url, now], encode(FilterOptions(options))))
  {
    var payload := encode(FilterOptions(options));
    var line := Bracketed(headersJson) + Bracketed(verb) + Bracketed(url) + Bracketed(now) + payload;
    if NoCloseBracket(headersJson) && NoCloseBracket(verb) && NoCloseBracket(url) && NoCloseBracket(now) then
      SplitFour(headersJson, verb, url, now, payload);
      line
    else line
  }

  /**
   * The line `dailyResponse` writes: the url, status, execution time and
   * time, each bracketed with nothing between, then the response as it is.
   * Fields holding no `]` read back off the line in that order.
   */
  function ResponseLine(url: string, response: string, statusCode: string, exectime: string, now: string): (r: string)
    ensures |response| <= |r| && r[|r| - |response|..] == response
    ensures NoCloseBracket(url) && NoCloseBracket(statusCode) && NoCloseBracket(exectime) && NoCloseBracket(now) ==>
      SplitFields(r, 4) == Some(([url, statusCode, exectime, now], response))
  {
    var line := Bracketed(url) + Bracketed(statusCode) + Bracketed(exectime) + Bracketed(now) + response;
    if NoCloseBracket(url) && NoCloseBracket(statusCode) && NoCloseBracket(exectime) && NoCloseBracket(now) then
      SplitFour(url, statusCode, exectime, now, response);
      line
    else line
  }

  /**
   * The `auth`, `on_stats` and `timeout` options never reach the request log:
   * one anywhere in the list leaves the line as if it were absent. (The
   * headers are logged as they are.)
   */
  lemma DroppedOptionNotLogged<V(!new)>(headersJson: string, verb: string, url: string, now: string,
                                  before: seq<(OptionKey, V)>, entry: (OptionKey, V), after: seq<(OptionKey, V)>,
                                  encode: seq<(OptionKey, V)> -> string)
    requires Dropped(entry.0)
    ensures RequestLine(headersJson, verb, url, now, before + [entry] + after, encode)
         == RequestLine(headersJson, verb, url, now, before + after, encode)
  {
    assert [entry][1..] == [];
    assert FilterOptions([entry]) == [];
    FilterAppend(before + [entry], after);
    FilterAppend(before, [entry]);
    FilterAppend(before, after);
    assert FilterOptions(before + [entry]) == FilterOptions(before);
  }

  /** Read `n` bracketed fields off the front of a line, leaving the rest. */
  function SplitFields(line: string, n: nat): Option<(seq<string>, string)>
    decreases n
  {
    if n == 0 then Some(([], line))
    else if |line| == 0 || line[0] != '[' then None
    else match IndexOf(line[1..], "]")
      case None => None
      case Some(j) =>
        match SplitFields(line[1..][j + 1..], n - 1)
        case None => None
        case Some((fields, rest)) => Some(([line[1..][..j]] + fields, rest))
  }

  /** The first `]` after a field holding none is the one that closes it. */
  lemma FirstClose(value: string, rest: string)
    requires forall m :: 0 <= m < |value| ==> value[m] != ']'
    ensures IndexOf(value + "]" + rest, "]") == Some(|value|)
  {
    var body := value + "]" + rest;
    assert OccursAt(body, "]", |value|) by {
      assert body[|value|..|value| + 1] == "]";
    }
    forall m | 0 <= m < |value| ensures !OccursAt(body, "]", m) {
      assert body[m] == value[m];
      assert body[m..m + 1] == [body[m]];
    }
  }

  /** A field holding no `]` reads back off the front of any text. */
  lemma SplitOne(value: string, rest: string, n: nat, fields: seq<string>, tail: string)
    requires forall m :: 0 <= m < |value| ==> value[m] != ']'
    requires SplitFields(rest, n) == Some((fields, tail))
    ensures SplitFields(Bracketed(value) + rest, n + 1) == Some(([value] + fields, tail))
  {
    var line := Bracketed(value) + rest;
    var body := line[1..];
    assert body == value + "]" + rest;
    FirstClose(value, rest);
    assert body[..|value|] == value;
    assert body[|value| + 1..] == rest;
  }

  /** No `]` in the text. */
  predicate NoCloseBracket(s: string) {
    forall m :: 0 <= m < |s| ==> s[m] != ']'
  }

  /** Fields in a row, each bracketed. */
  function Joined(fields: seq<string>): string
    decreases |fields|
  {
    if |fields| == 0 then "" else Bracketed(fields[0]) + Joined(fields[1..])
  }

  /** One more field in front of fields that read back. */
  lemma SplitCons(f: string, fs: seq<string>, rest: string)
    requires NoCloseBracket(f)
    requires SplitFields(Joined(fs) + rest, |fs|) == Some((fs, rest))
    ensures SplitFields(Joined([f] + fs) + rest, |fs| + 1) == Some(([f] + fs, rest))
  {
    var tail := Joined(fs) + rest;
    assert ([f] + fs)[1..] == fs;
    assert Joined([f] + fs) + rest == Bracketed(f) + tail;
    SplitOne(f, tail, |fs|, fs, rest);
  }

  /** Fields holding no `]` read back off the front of any text. */
  lemma {:induction false} SplitJoined(fields: seq<string>, rest: string)
    requires forall k :: 0 <= k < |fields| ==> NoCloseBracket(fields[k])
    ensures SplitFields(Joined(fields) + rest, |fields|) == Some((fields, rest))
    decreases |fields|
  {
    if |fields| > 0 {
      SplitJoined(fields[1..], rest);
      SplitCons(fields[0], fields[1..], rest);
      assert [fields[0]] + fields[1..] == fields;
    } else {
      assert Joined(fields) + rest == rest;
    }
  }

  /** Four fields holding no `]` read back off the front of any text. */
  lemma SplitFour(a: string, b: string, c: string, d: string, rest: string)
    requires NoCloseBracket(a) && NoCloseBracket(b) && NoCloseBracket(c) && NoCloseBracket(d)
    ensures SplitFields(Bracketed(a) + Bracketed(b) + Bracketed(c) + Bracketed(d) + rest, 4)
         == Some(([a, b, c, d], rest))
  {
    var fields := [a, b, c, d];
    assert Joined(fields[3..]) == Bracketed(d) by {
      assert fields[3..][1..] == [];
    }
    assert Joined(fields[2..]) == Bracketed(c) + Bracketed(d) by {
      assert fields[2..][1..] == fields[3..];
    }
    assert Joined(fields[1..]) == Bracketed(b) + Bracketed(c) + Bracketed(d) by {
      assert fields[1..][1..] == fields[2..];
    }
    assert Joined(fields) == Bracketed(a) + Bracketed(b) + Bracketed(c) + Bracketed(d);
    SplitJoined(fields, rest);
  }
}
