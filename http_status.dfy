/**
  The existence probe of the updater: `get_http_status` and `url_exists`.

  The network request (`get_headers` with a HEAD-only stream context) is not
  modelled; its outcome is the input `HeadersResult`. With its second
  argument set, `get_headers` returns an array whose entries keep the order
  in which the lines arrived, each under the key PHP gave it. Usually the
  status lines of a redirect chain get integer keys (0, 1, ...) and named
  headers their string names, but a header named by a decimal integer is
  also integer-keyed and a status line holding ':' is not. The updater
  only looks at the key, and so does the model.
 */
module HttpStatus {
  import opened PhpStrings

  /** The key of one entry of the header array. */
  datatype HeaderKey = Index(n: int) | Name(name: string)

  datatype HeaderEntry = HeaderEntry(key: HeaderKey, value: string)

  /** What `get_headers` gives back: `false` (not an array), an array, or an exception. */
  datatype HeadersResult = NotAnArray | Headers(entries: seq<HeaderEntry>) | Threw

  /**
    What `get_http_status` returns, as PHP values: `false`, `null`, or the
    status-code token as a string.
   */
  datatype Status = StatusFalse | StatusNull | StatusCode(code: string)

  /** `is_int` on the key: the entries the updater treats as status lines. */
  predicate IsStatusLine(e: HeaderEntry)
  {
    e.key.Index?
  }

  /** The values of the integer-keyed entries, in their original order (`array_filter` on the keys, then `array_values`). */
  function StatusLines(entries: seq<HeaderEntry>): (lines: seq<string>)
    ensures |lines| <= |entries|
    decreases |entries|
  {
    if entries == [] then []
    else (if IsStatusLine(entries[0]) then [entries[0].value] else []) + StatusLines(entries[1..])
  }

  /** The second space-separated token of a status line (`explode(' ', line)[1]`); `null` when there is none. */
  function CodeOf(line: string): (status: Status)
    ensures !status.StatusFalse?
    ensures status.StatusCode? ==> ' ' !in status.code
  {
    var words := Explode(" ", line);
    ExplodePiecesAvoidSeparator(" ", line);
    if |words| > 1 then
      ContainsChar(words[1], ' ');
      StatusCode(words[1])
    else StatusNull
  }

  /** `get_http_status`: the code of the last status line, `false` when there is none, `null` on an exception. */
  function GetHttpStatus(response: HeadersResult): (status: Status)
    ensures status.StatusCode? ==> response.Headers? && StatusLines(response.entries) != []
    ensures status.StatusCode? ==> ' ' !in status.code
  {
    match response
    case Threw => StatusNull
    case NotAnArray => StatusFalse
    case Headers(entries) =>
      var lines := StatusLines(entries);
      if lines == [] then StatusFalse else CodeOf(lines[|lines| - 1])
  }

  /** `url_exists`: the status code compares equal to 200. */
  predicate UrlExists(response: HeadersResult)
    ensures UrlExists(response) ==> response.Headers? && StatusLines(response.entries) != []
  {
    GetHttpStatus(response) == StatusCode("200")
  }

  /**
    An array made only of status lines (a redirect chain with no named
    headers) is kept whole: the filtered list holds every value, in order.
   */
  lemma {:induction false} StatusLinesKeepIndexed(entries: seq<HeaderEntry>)
    requires forall i :: 0 <= i < |entries| ==> IsStatusLine(entries[i])
    ensures |StatusLines(entries)| == |entries|
    ensures forall i :: 0 <= i < |entries| ==> StatusLines(entries)[i] == entries[i].value
    decreases |entries|
  {
    if entries != [] {
      StatusLinesKeepIndexed(entries[1..]);
      assert StatusLines(entries) == [entries[0].value] + StatusLines(entries[1..]);
      assert forall i :: 1 <= i < |entries| ==> entries[i] == entries[1..][i - 1];
    }
  }

  /** Filtering distributes over concatenation of header arrays. */
  lemma {:induction false} StatusLinesAppend(a: seq<HeaderEntry>, b: seq<HeaderEntry>)
    ensures StatusLines(a + b) == StatusLines(a) + StatusLines(b)
    decreases |a|
  {
    if a != [] {
      assert (a + b)[1..] == a[1..] + b;
      StatusLinesAppend(a[1..], b);
    } else {
      assert a + b == b;
    }
  }

  /** A header array has no status lines exactly when every entry has a string key. */
  lemma {:induction false} NoStatusLines(entries: seq<HeaderEntry>)
    ensures StatusLines(entries) == [] <==> forall i :: 0 <= i < |entries| ==> !IsStatusLine(entries[i])
    decreases |entries|
  {
    if entries != [] {
      NoStatusLines(entries[1..]);
      assert forall i :: 1 <= i < |entries| ==> entries[i] == entries[1..][i - 1];
    }
  }

  /**
    `get_http_status` returns `false` exactly when `get_headers` did not give
    an array, or gave one without any status line.
   */
  lemma StatusFalseExactly(response: HeadersResult)
    ensures GetHttpStatus(response) == StatusFalse <==>
      response.NotAnArray? ||
      (response.Headers? && forall i :: 0 <= i < |response.entries| ==> !IsStatusLine(response.entries[i]))
  {
    if response.Headers? {
      NoStatusLines(response.entries);
    }
  }

  /**
    In a redirect chain the last status line decides: whatever status lines
    came before it, and whatever named headers surround it, the result is the
    code of that last line.
   */
  lemma LastStatusLineDecides(before: seq<HeaderEntry>, k: int, line: string, after: seq<HeaderEntry>)
    requires forall i :: 0 <= i < |after| ==> !IsStatusLine(after[i])
    ensures GetHttpStatus(Headers(before + [HeaderEntry(Index(k), line)] + after)) == CodeOf(line)
  {
    var last := [HeaderEntry(Index(k), line)];
    StatusLinesAppend(before + last, after);
    StatusLinesAppend(before, last);
    NoStatusLines(after);
    assert StatusLines(last) == [line];
  }

  /** A string-keyed entry (a named header), wherever it stands in the array, has no effect on the status. */
  lemma NamedHeaderIrrelevant(before: seq<HeaderEntry>, name: string, value: string, after: seq<HeaderEntry>)
    ensures GetHttpStatus(Headers(before + [HeaderEntry(Name(name), value)] + after))
         == GetHttpStatus(Headers(before + after))
  {
    var named := [HeaderEntry(Name(name), value)];
    StatusLinesAppend(before + named, after);
    StatusLinesAppend(before, named);
    StatusLinesAppend(before, after);
    assert StatusLines(named) == [];
  }

  /**
    The code is the token between the first and the second space: for a line
    `version + " " + code + rest` where neither `version` nor `code` holds a
    space and `rest` is empty or starts with one, the result is `code`.
   */
  lemma CodeIsSecondToken(version: string, code: string, rest: string)
    requires ' ' !in version && ' ' !in code
    requires rest == [] || rest[0] == ' '
    ensures CodeOf(version + " " + code + rest) == StatusCode(code)
  {
    var line := version + " " + code + rest;
    assert line == version + [' '] + (code + rest);
    ExplodeAtFirstSeparator(' ', version, code + rest);
    var tailWords := Explode(" ", code + rest);
    if rest == [] {
      ContainsChar(code, ' ');
      assert code + rest == code;
      ExplodeWithoutSeparator(" ", code);
      assert tailWords == [code];
    } else {
      assert code + rest == code + [' '] + rest[1..];
      ExplodeAtFirstSeparator(' ', code, rest[1..]);
      assert tailWords[0] == code;
    }
    var words := Explode(" ", line);
    assert words == [version] + tailWords;
    assert |words| > 1 && words[1] == code;
  }

  /** A status line yields no code (PHP: undefined index 1, so `null`) exactly when it holds no space. */
  lemma CodeMissingExactly(line: string)
    ensures CodeOf(line) == StatusNull <==> ' ' !in line
  {
    if ' ' in line {
      ExplodeSplitsAtSeparator(' ', line);
    } else {
      ContainsChar(line, ' ');
      ExplodeWithoutSeparator(" ", line);
    }
  }

  /**
    `url_exists` on a response whose last status line is `version code rest`:
    true exactly when the code token is "200".
   */
  lemma UrlExistsExactly200(before: seq<HeaderEntry>, k: int, version: string, code: string, rest: string, after: seq<HeaderEntry>)
    requires ' ' !in version && ' ' !in code
    requires rest == [] || rest[0] == ' '
    requires forall i :: 0 <= i < |after| ==> !IsStatusLine(after[i])
    ensures UrlExists(Headers(before + [HeaderEntry(Index(k), version + " " + code + rest)] + after)) <==> code == "200"
  {
    LastStatusLineDecides(before, k, version + " " + code + rest, after);
    CodeIsSecondToken(version, code, rest);
  }

  /** `url_exists` is false whenever no status code could be read. */
  lemma UrlMissingWithoutStatus(response: HeadersResult)
    requires response.NotAnArray? || response.Threw? ||
      (response.Headers? && forall i :: 0 <= i < |response.entries| ==> !IsStatusLine(response.entries[i]))
    ensures !UrlExists(response)
  {
    StatusFalseExactly(response);
  }

  /**
    A last status line without a space has no index 1: `get_http_status`
    gives `null`, and `url_exists` is false.
   */
  lemma UrlMissingForSpacelessStatus(before: seq<HeaderEntry>, k: int, line: string, after: seq<HeaderEntry>)
    requires ' ' !in line
    requires forall i :: 0 <= i < |after| ==> !IsStatusLine(after[i])
    ensures GetHttpStatus(Headers(before + [HeaderEntry(Index(k), line)] + after)) == StatusNull
    ensures !UrlExists(Headers(before + [HeaderEntry(Index(k), line)] + after))
  {
    LastStatusLineDecides(before, k, line, after);
    CodeMissingExactly(line);
  }

  /** "HTTP/1.1 404 Not Found" gives the code "404". */
  lemma NotFoundLineExample()
    ensures CodeOf("HTTP/1.1 404 Not Found") == StatusCode("404")
  {
    CodeIsSecondToken("HTTP/1.1", "404", " Not Found");
    assert "HTTP/1.1" + " " == "HTTP/1.1 ";
    assert "HTTP/1.1 " + "404" == "HTTP/1.1 404";
    assert "HTTP/1.1 404" + " Not Found" == "HTTP/1.1 404 Not Found";
  }

  /** "HTTP/1.1 200 OK" gives the code "200". */
  lemma OkLineExample()
    ensures CodeOf("HTTP/1.1 200 OK") == StatusCode("200")
  {
    CodeIsSecondToken("HTTP/1.1", "200", " OK");
    assert "HTTP/1.1" + " " == "HTTP/1.1 ";
    assert "HTTP/1.1 " + "200" == "HTTP/1.1 200";
    assert "HTTP/1.1 200" + " OK" == "HTTP/1.1 200 OK";
  }

  /**
    Proof helper for RedirectChainExample: the header array `[a, b, c, d]`,
    split around its third entry. Stated over variables so that the solver
    does not unfold the string literals of the example.
   */
  lemma AroundThird(a: HeaderEntry, b: HeaderEntry, c: HeaderEntry, d: HeaderEntry)
    ensures [a, b] + [c] + [d] == [a, b, c, d]
  {
  }

  /** A 301 redirect followed by a 200 exists. */
  lemma RedirectChainExample()
    ensures UrlExists(Headers([
      HeaderEntry(Index(0), "HTTP/1.1 301 Moved Permanently"),
      HeaderEntry(Name("Location"), "https://example.org/icon.svg"),
      HeaderEntry(Index(1), "HTTP/1.1 200 OK"),
      HeaderEntry(Name("Content-Type"), "image/svg+xml")]))
  {
    var moved := HeaderEntry(Index(0), "HTTP/1.1 301 Moved Permanently");
    var location := HeaderEntry(Name("Location"), "https://example.org/icon.svg");
    var ok := HeaderEntry(Index(1), "HTTP/1.1 200 OK");
    var contentType := HeaderEntry(Name("Content-Type"), "image/svg+xml");
    OkLineExample();
    LastStatusLineDecides([moved, location], 1, "HTTP/1.1 200 OK", [contentType]);
    AroundThird(moved, location, ok, contentType);
  }

  /** A 200 followed by a 404 does not exist: the later status line wins. */
  lemma LaterNotFoundExample()
    ensures !UrlExists(Headers([
      HeaderEntry(Index(0), "HTTP/1.1 200 OK"),
      HeaderEntry(Index(1), "HTTP/1.1 404 Not Found")]))
  {
    var ok := [HeaderEntry(Index(0), "HTTP/1.1 200 OK")];
    NotFoundLineExample();
    LastStatusLineDecides(ok, 1, "HTTP/1.1 404 Not Found", []);
    assert ok + [HeaderEntry(Index(1), "HTTP/1.1 404 Not Found")] + [] == [
      HeaderEntry(Index(0), "HTTP/1.1 200 OK"),
      HeaderEntry(Index(1), "HTTP/1.1 404 Not Found")];
  }
}
