/**
 The Go HTTP front end's string logic: the parser that turns the scanner's
 output into a `Result` (with the `strings.HasPrefix` and `strings.SplitN`
 it relies on), and the two addresses built from the configured host and
 port. Go strings are byte strings; here each `char` stands for one byte.
 */
module Server {
  import opened Sequences

  /** The JSON record returned to the browser. */
  datatype Result = Result(success: bool, barcode: string, result: string)

  /** Process-wide settings, fixed once the flags are parsed. */
  datatype Config = Config(
    host: string,
    port: string,
    staticDir: string,
    barcodeReader: string,
    template: string,
    cors: bool)

  /** The settings before any flag overrides them (the template is read later). */
  const DefaultConfig := Config("http://localhost", "54623", "static", "bin/scan", "", true)

  /** What one call of `parseOutput` does: return a record, or stop with
      Go's run-time panic "index out of range" when `parts[1]` or `parts[2]`
      does not exist. */
  datatype Outcome = Returned(res: Result) | IndexOutOfRange

  // ---------------------------------------------------------------------
  // The pieces of Go's `strings` package that the parser uses
  // ---------------------------------------------------------------------

  /** `strings.HasPrefix(s, p)`: true exactly when `p` is a prefix of `s`. */
  predicate HasPrefix(s: string, p: string): (b: bool)
    ensures b <==> p <= s
  {
    |p| <= |s| && s[..|p|] == p
  }

  /** `strings.IndexByte(s, c)`: the first position of `c`, or -1
      (`IndexOfFirst` says that it is the first). */
  function IndexOf(s: string, c: char): (k: int)
    ensures -1 <= k < |s|
  {
    if |s| == 0 then -1
    else if s[0] == c then 0
    else
      var k := IndexOf(s[1..], c);
      if k < 0 then -1 else k + 1
  }

  /** `strings.Count(s, c)` for a one-byte separator. */
  function Count(s: string, c: char): nat {
    if |s| == 0 then 0 else (if s[0] == c then 1 else 0) + Count(s[1..], c)
  }

  /** `strings.Join(parts, [sep])`. */
  function Join(parts: seq<string>, sep: char): string {
    if |parts| == 0 then ""
    else if |parts| == 1 then parts[0]
    else parts[0] + [sep] + Join(parts[1..], sep)
  }

  /** The last element of a non-empty sequence. */
  function Last<T>(xs: seq<T>): T
    requires |xs| > 0
  {
    xs[|xs| - 1]
  }

  /** No part but the last holds the separator. */
  predicate SeparatorOnlyInLast(parts: seq<string>, sep: char) {
    forall i :: 0 <= i < |parts| - 1 ==> sep !in parts[i]
  }

  /** The loop of Go's `genSplit` for a positive limit `n`: cut at the
      first separator while fewer than `n - 1` cuts have been made; the
      last part keeps the rest of the input, separators included. */
  function SplitAtMost(s: string, sep: char, n: nat): (parts: seq<string>)
    requires n > 0
    ensures 1 <= |parts| <= n
    decreases n
  {
    var k := IndexOf(s, sep);
    if n == 1 || k < 0 then [s]
    else [s[..k]] + SplitAtMost(s[k + 1..], sep, n - 1)
  }

  /** `strings.SplitN(s, [sep], n)`: no parts for `n == 0`, at most `n`
      parts for `n > 0`, and every part for `n < 0`. */
  function SplitN(s: string, sep: char, n: int): (parts: seq<string>)
    ensures n == 0 <==> |parts| == 0
    ensures n > 0 ==> |parts| <= n
  {
    if n == 0 then []
    else if n < 0 then SplitAtMost(s, sep, Count(s, sep) + 1)
    else SplitAtMost(s, sep, n)
  }

  // ---------------------------------------------------------------------
  // parseOutput
  // ---------------------------------------------------------------------

  /** `parseOutput`: anything that does not start with "OK" is a failure
      record with empty fields; otherwise the text is cut into at most three
      parts at commas and the second and third become the barcode and the
      result.  Fewer than three parts make the indexing panic. */
  function ParseOutput(raw: string): (o: Outcome)
    ensures o.Returned? ==> (o.res.success <==> HasPrefix(raw, "OK"))
    ensures o.Returned? && !o.res.success ==> o.res == Result(false, "", "")
  {
    if !HasPrefix(raw, "OK") then Returned(Result(false, "", ""))
    else
      var parts := SplitN(raw, ',', 3);
      if |parts| < 3 then IndexOutOfRange
      else Returned(Result(true, parts[1], parts[2]))
  }

  // ---------------------------------------------------------------------
  // Addresses built from the configuration
  // ---------------------------------------------------------------------

  /** The `Access-Control-Allow-Origin` value, `fmt.Sprintf("%s:%s", Host, Port)`:
      the host, a colon and the port, with nothing checked. */
  function CorsOrigin(conf: Config): (o: string)
    ensures |o| == |conf.host| + 1 + |conf.port|
    ensures o[..|conf.host|] == conf.host && o[|conf.host|] == ':'
    ensures o[|conf.host| + 1..] == conf.port
  {
    conf.host + ":" + conf.port
  }

  /** The scan address handed to the home page template,
      `fmt.Sprintf("%s:%s/scan", Host, Port)`. */
  function ScanUrl(conf: Config): (u: string)
    ensures |u| == |conf.host| + |conf.port| + 6
    ensures u[|u| - 5..] == "/scan"
  {
    conf.host + ":" + conf.port + "/scan"
  }

  // ---------------------------------------------------------------------
  // Lemmas about the string helpers
  // ---------------------------------------------------------------------

  /** `IndexOf` finds `c` exactly when `s` holds it, and then at its first position. */
  lemma {:induction false} IndexOfFirst(s: string, c: char)
    ensures var k := IndexOf(s, c);
      && (k < 0 <==> c !in s)
      && (0 <= k ==> s[k] == c && c !in s[..k])
  {
    if |s| > 0 && s[0] != c {
      IndexOfFirst(s[1..], c);
      var k := IndexOf(s[1..], c);
      assert s == [s[0]] + s[1..];
      if 0 <= k {
        assert s[..k + 1] == [s[0]] + s[1..][..k];
      }
    }
  }

  lemma {:induction false} CountAppend(a: string, b: string, c: char)
    ensures Count(a + b, c) == Count(a, c) + Count(b, c)
  {
    if |a| == 0 {
      assert a + b == b;
    } else {
      assert (a + b)[1..] == a[1..] + b;
      CountAppend(a[1..], b, c);
    }
  }

  lemma {:induction false} CountZero(s: string, c: char)
    ensures Count(s, c) == 0 <==> c !in s
  {
    if |s| > 0 {
      CountZero(s[1..], c);
      assert s == [s[0]] + s[1..];
    }
  }

  /** Cutting at the first separator leaves one separator fewer in the rest. */
  lemma CountAtFirst(s: string, c: char)
    requires 0 <= IndexOf(s, c)
    ensures var k := IndexOf(s, c); Count(s, c) == Count(s[k + 1..], c) + 1
  {
    var k := IndexOf(s, c);
    IndexOfFirst(s, c);
    assert s == s[..k] + ([s[k]] + s[k + 1..]);
    CountAppend(s[..k], [s[k]] + s[k + 1..], c);
    CountAppend([s[k]], s[k + 1..], c);
    CountZero(s[..k], c);
  }

  /** A separator-free head followed by a separator: the separator is the first one. */
  lemma {:induction false} IndexOfAfterHead(a: string, c: char, b: string)
    requires c !in a
    ensures IndexOf(a + [c] + b, c) == |a|
  {
    var s := a + [c] + b;
    if |a| > 0 {
      assert s[0] == a[0] && s[1..] == a[1..] + [c] + b;
      IndexOfAfterHead(a[1..], c, b);
    }
  }

  lemma {:induction false} SplitAtMostJoin(s: string, sep: char, n: nat)
    requires n > 0
    ensures Join(SplitAtMost(s, sep, n), sep) == s
    decreases n
  {
    var k := IndexOf(s, sep);
    if n > 1 && 0 <= k {
      var tail := SplitAtMost(s[k + 1..], sep, n - 1);
      SplitAtMostJoin(s[k + 1..], sep, n - 1);
      IndexOfFirst(s, sep);
      assert ([s[..k]] + tail)[1..] == tail;
      assert s == s[..k] + [sep] + s[k + 1..];
    }
  }

  lemma {:induction false} SplitAtMostLength(s: string, sep: char, n: nat)
    requires n > 0
    ensures |SplitAtMost(s, sep, n)| == if n < Count(s, sep) + 1 then n else Count(s, sep) + 1
    decreases n
  {
    var k := IndexOf(s, sep);
    IndexOfFirst(s, sep);
    CountZero(s, sep);
    if n > 1 && 0 <= k {
      SplitAtMostLength(s[k + 1..], sep, n - 1);
      CountAtFirst(s, sep);
    }
  }

  /** One step of the loop: the text before the first separator is the
      first part, and the rest is split with one part fewer. */
  lemma SplitAtMostStep(s: string, sep: char, n: nat)
    requires n > 1 && 0 <= IndexOf(s, sep)
    ensures var k := IndexOf(s, sep);
      && sep !in s[..k]
      && SplitAtMost(s, sep, n) == [s[..k]] + SplitAtMost(s[k + 1..], sep, n - 1)
  {
    IndexOfFirst(s, sep);
  }

  lemma {:induction false} SplitAtMostSeparators(s: string, sep: char, n: nat)
    requires n > 0
    ensures SeparatorOnlyInLast(SplitAtMost(s, sep, n), sep)
    decreases n
  {
    var k := IndexOf(s, sep);
    if n > 1 && 0 <= k {
      SplitAtMostStep(s, sep, n);
      SplitAtMostSeparators(s[k + 1..], sep, n - 1);
      PrependSeparatorFree(s[..k], sep, SplitAtMost(s[k + 1..], sep, n - 1));
    }
  }

  /** Putting a separator-free part in front keeps "no separator before the last part". */
  lemma PrependSeparatorFree(head: string, sep: char, tail: seq<string>)
    requires sep !in head && |tail| > 0
    requires SeparatorOnlyInLast(tail, sep)
    ensures var parts := [head] + tail;
      && (SeparatorOnlyInLast(parts, sep))
      && parts[|parts| - 1] == tail[|tail| - 1]
  {
    var parts := [head] + tail;
    forall i | 0 <= i < |parts| - 1 ensures sep !in parts[i] {
      if i > 0 {
        assert parts[i] == tail[i - 1];
      }
    }
  }

  /** With a limit above the number of separators the last part has none. */
  lemma {:induction false} SplitAtMostLastFree(s: string, sep: char, n: nat)
    requires n > 0 && n >= Count(s, sep) + 1
    ensures sep !in Last(SplitAtMost(s, sep, n))
    decreases n
  {
    var k := IndexOf(s, sep);
    if 0 <= k {
      CountAtFirst(s, sep);
      SplitAtMostStep(s, sep, n);
      var tail := SplitAtMost(s[k + 1..], sep, n - 1);
      SplitAtMostLastFree(s[k + 1..], sep, n - 1);
      LastOfCons(s[..k], tail);
    } else {
      IndexOfFirst(s, sep);
      assert SplitAtMost(s, sep, n) == [s];
    }
  }

  lemma LastOfCons<T>(x: T, xs: seq<T>)
    requires |xs| > 0
    ensures Last([x] + xs) == Last(xs)
  {
  }

  /** Every limit but zero gives parts that rejoin to the input. */
  lemma SplitNJoin(s: string, sep: char, n: int)
    requires n != 0
    ensures Join(SplitN(s, sep, n), sep) == s
  {
    if n > 0 {
      SplitAtMostJoin(s, sep, n);
    } else {
      SplitAtMostJoin(s, sep, Count(s, sep) + 1);
    }
  }

  /** At most `n` parts, and exactly one more part than separators otherwise. */
  lemma SplitNLength(s: string, sep: char, n: int)
    ensures |SplitN(s, sep, n)| ==
      if n == 0 then 0 else if 0 < n < Count(s, sep) + 1 then n else Count(s, sep) + 1
  {
    if n > 0 {
      SplitAtMostLength(s, sep, n);
    } else if n < 0 {
      SplitAtMostLength(s, sep, Count(s, sep) + 1);
    }
  }

  /** Only the last part can hold a separator, and only when the limit was reached. */
  lemma SplitNSeparators(s: string, sep: char, n: int)
    ensures var parts := SplitN(s, sep, n);
      && (SeparatorOnlyInLast(parts, sep))
      && (0 < |parts| && |parts| != n ==> sep !in parts[|parts| - 1])
  {
    if n > 0 {
      SplitAtMostSeparators(s, sep, n);
      if |SplitN(s, sep, n)| != n {
        SplitAtMostLength(s, sep, n);
        SplitAtMostLastFree(s, sep, n);
      }
    } else if n < 0 {
      SplitAtMostSeparators(s, sep, Count(s, sep) + 1);
      SplitAtMostLastFree(s, sep, Count(s, sep) + 1);
    }
  }

  /** A separator-free head is the first part, and the rest is split with one part fewer. */
  lemma SplitAtMostCons(head: string, sep: char, rest: string, n: nat)
    requires sep !in head && n > 1
    ensures SplitAtMost(head + [sep] + rest, sep, n) == [head] + SplitAtMost(rest, sep, n - 1)
  {
    var s := head + [sep] + rest;
    IndexOfAfterHead(head, sep, rest);
    assert s[..|head|] == head;
    assert s[|head| + 1..] == rest;
  }

  lemma {:induction false} SplitAtMostUnique(s: string, sep: char, n: nat, parts: seq<string>)
    requires n > 0 && 1 <= |parts| <= n && Join(parts, sep) == s
    requires SeparatorOnlyInLast(parts, sep)
    requires |parts| < n ==> sep !in parts[|parts| - 1]
    ensures SplitAtMost(s, sep, n) == parts
    decreases n
  {
    if |parts| == 1 {
      assert s == parts[0];
      IndexOfFirst(s, sep);
    } else {
      var head, rest := parts[0], parts[1..];
      assert parts == [head] + rest;
      assert sep !in head;
      SplitAtMostUniqueRest(sep, n, parts);
      SplitAtMostCons(head, sep, Join(rest, sep), n);
    }
  }

  /** Dropping the first part keeps "no separator before the last part". */
  lemma DropSeparatorFree(sep: char, parts: seq<string>)
    requires |parts| >= 2
    requires SeparatorOnlyInLast(parts, sep)
    ensures var rest := parts[1..];
      && (SeparatorOnlyInLast(rest, sep))
      && rest[|rest| - 1] == parts[|parts| - 1]
  {
    var rest := parts[1..];
    forall i | 0 <= i < |rest| - 1 ensures sep !in rest[i] {
      assert rest[i] == parts[i + 1];
    }
  }

  /** The hypotheses of uniqueness carry over from `parts` to `parts[1..]`. */
  lemma {:induction false} SplitAtMostUniqueRest(sep: char, n: nat, parts: seq<string>)
    requires n > 1 && 2 <= |parts| <= n
    requires SeparatorOnlyInLast(parts, sep)
    requires |parts| < n ==> sep !in parts[|parts| - 1]
    ensures SplitAtMost(Join(parts[1..], sep), sep, n - 1) == parts[1..]
    decreases n, 0
  {
    var rest := parts[1..];
    DropSeparatorFree(sep, parts);
    SplitAtMostUnique(Join(rest, sep), sep, n - 1, rest);
  }

  /** `SplitN` with a positive limit is the only way to cut `s` into at most
      `n` parts that rejoin to `s`, with no separator in any part but the
      last and none in the last either unless the limit was reached. */
  lemma SplitNUnique(s: string, sep: char, n: int, parts: seq<string>)
    requires n > 0 && 1 <= |parts| <= n && Join(parts, sep) == s
    requires SeparatorOnlyInLast(parts, sep)
    requires |parts| < n ==> sep !in parts[|parts| - 1]
    ensures SplitN(s, sep, n) == parts
  {
    SplitAtMostUnique(s, sep, n, parts);
  }

  // ---------------------------------------------------------------------
  // Lemmas about parseOutput
  // ---------------------------------------------------------------------

  /** Without the "OK" prefix the record is the zero value. */
  lemma ParseNotOk(raw: string)
    requires !HasPrefix(raw, "OK")
    ensures ParseOutput(raw) == Returned(Result(false, "", ""))
  {
  }

  /** The panic happens exactly for "OK"-prefixed text with fewer than two commas. */
  lemma ParsePanicIff(raw: string)
    ensures ParseOutput(raw) == IndexOutOfRange <==> HasPrefix(raw, "OK") && Count(raw, ',') < 2
  {
    SplitNLength(raw, ',', 3);
  }

  /** Any "OK"-prefixed text of the form `head,barcode,rest`, with no comma in
      `head` or `barcode`, parses to that barcode and the whole of `rest`. */
  lemma ParseFields(raw: string, head: string, barcode: string, rest: string)
    requires HasPrefix(raw, "OK")
    requires raw == head + "," + barcode + "," + rest
    requires ',' !in head && ',' !in barcode
    ensures ParseOutput(raw) == Returned(Result(true, barcode, rest))
  {
    var parts := [head, barcode, rest];
    assert parts[1..] == [barcode, rest];
    assert Join(parts[1..][1..], ',') == rest;
    assert Join(parts[1..], ',') == barcode + [','] + rest;
    assert Join(parts, ',') == head + [','] + (barcode + [','] + rest);
    SplitNUnique(raw, ',', 3, parts);
  }

  /** Conversely, a successful record is the text between the first and second
      comma and everything after the second. */
  lemma ParseSuccessShape(raw: string)
    requires ParseOutput(raw).Returned? && ParseOutput(raw).res.success
    ensures var r := ParseOutput(raw).res; var k := IndexOf(raw, ',');
      && HasPrefix(raw, "OK") && 0 <= k && ',' !in r.barcode
      && raw == raw[..k] + "," + r.barcode + "," + r.result
  {
    var parts := SplitN(raw, ',', 3);
    assert HasPrefix(raw, "OK") && |parts| == 3;
    SplitNJoin(raw, ',', 3);
    SplitNSeparators(raw, ',', 3);
    var head, barcode, rest := parts[0], parts[1], parts[2];
    JoinThree(parts, ',');
    IndexOfAfterHead(head, ',', barcode + [','] + rest);
    assert raw[..|head|] == head;
    Associative(head + [','], barcode, [',']);
    Associative(head + [','], barcode + [','], rest);
    Associative(head, [','], barcode + [','] + rest);
  }

  lemma JoinThree(parts: seq<string>, sep: char)
    requires |parts| == 3
    ensures Join(parts, sep) == parts[0] + [sep] + (parts[1] + [sep] + parts[2])
  {
    var tail := parts[1..];
    assert tail[1..] == [parts[2]];
    assert Join(tail, sep) == parts[1] + [sep] + parts[2];
  }

  /** The round trip with the scanner's line format: "OK,<barcode>,<rest>"
      gives back the barcode and the rest, whatever commas the rest holds. */
  lemma ParseRoundTrip(barcode: string, rest: string)
    requires ',' !in barcode
    ensures ParseOutput("OK," + barcode + "," + rest) == Returned(Result(true, barcode, rest))
  {
    var raw := "OK," + barcode + "," + rest;
    assert raw == "OK" + "," + barcode + "," + rest;
    assert raw[..2] == "OK";
    ParseFields(raw, "OK", barcode, rest);
  }

  /** A line in the scanner's format parses to a success whatever commas
      its middle field holds; the panic needs fewer than two commas. */
  lemma ParseOkLine(middle: string, rest: string)
    ensures var o := ParseOutput("OK," + middle + "," + rest); o.Returned? && o.res.success
  {
    var raw := "OK," + middle + "," + rest;
    assert raw[..2] == "OK";
    CountAppend("OK," + middle + ",", rest, ',');
    CountAppend("OK," + middle, ",", ',');
    CountAppend("OK,", middle, ',');
    assert Count("OK,", ',') == 1;
    ParsePanicIff(raw);
  }

  /** The prefix test is "OK", not "OK,": "OKAY,a,b" is a success. */
  lemma ParseOkayExample()
    ensures ParseOutput("OKAY,a,b") == Returned(Result(true, "a", "b"))
  {
    var raw := "OKAY,a,b";
    assert raw == "OKAY" + "," + "a" + "," + "b";
    assert raw[..2] == "OK";
    ParseFields(raw, "OKAY", "a", "b");
  }

  /** Only the first two commas cut: the result keeps "Widget,Extra". */
  lemma ParseExtraCommaExample()
    ensures ParseOutput("OK,12345,Widget,Extra") == Returned(Result(true, "12345", "Widget,Extra"))
  {
    assert "OK,12345,Widget,Extra" == "OK," + "12345" + "," + "Widget,Extra";
    ParseRoundTrip("12345", "Widget,Extra");
  }

  lemma ParsePlainExample()
    ensures ParseOutput("OK,12345,WidgetABC") == Returned(Result(true, "12345", "WidgetABC"))
  {
    assert "OK,12345,WidgetABC" == "OK," + "12345" + "," + "WidgetABC";
    ParseRoundTrip("12345", "WidgetABC");
  }

  /** A line with a barcode but no second comma makes the indexing panic. */
  lemma ParseMissingResult(barcode: string)
    requires ',' !in barcode
    ensures ParseOutput("OK," + barcode) == IndexOutOfRange
  {
    var raw := "OK," + barcode;
    CountAppend("OK,", barcode, ',');
    CountZero(barcode, ',');
    assert Count("OK,", ',') == 1;
    assert raw[..2] == "OK";
    ParsePanicIff(raw);
  }

  /** "OK,12345" has one comma only, so `parts[2]` is out of range. */
  lemma ParseShortExample()
    ensures ParseOutput("OK,12345") == IndexOutOfRange
  {
    assert "OK,12345" == "OK," + "12345";
    ParseMissingResult("12345");
  }

  // ---------------------------------------------------------------------
  // Lemmas about the addresses
  // ---------------------------------------------------------------------

  /** The scan address is the CORS origin followed by "/scan". */
  lemma ScanUrlExtendsOrigin(conf: Config)
    ensures ScanUrl(conf) == CorsOrigin(conf) + "/scan"
  {
  }

  /** With the default flags the page is pointed at http://localhost:54623/scan. */
  lemma DefaultAddresses()
    ensures CorsOrigin(DefaultConfig) == "http://localhost:54623"
    ensures ScanUrl(DefaultConfig) == "http://localhost:54623/scan"
  {
  }

  /** Nothing is validated: a colon in the host or port makes different
      configurations produce the same origin. */
  lemma OriginNotInjective()
    ensures CorsOrigin(DefaultConfig.(host := "a:b", port := "c"))
         == CorsOrigin(DefaultConfig.(host := "a", port := "b:c"))
  {
  }
}
