/**
  Translation between a SPDY header block and Chromium's HTTP request and
  response descriptions (net/spdy/spdy_http_utils.cc).

  Response direction: a SPDY block that carries `status` and `version`
  becomes the raw header text of an HTTP response, a status line followed by
  one `name:value` record per value, every record ended by a NUL. A block
  value holding several NUL-joined values yields one record per value.

  Request direction: an HTTP request becomes entries of a SPDY block. The
  extra headers are folded in under lower-cased names, repeated names being
  NUL-joined, and then the fixed SPDY keys and the conditional headers are
  set on top.
 */
module SpdyHttpUtils {
  import opened Wrappers
  import opened StringUtil
  import opened SpdyValues

  /** spdy::SpdyHeaderBlock, a map from header name to header value. */
  type HeaderBlock = map<string, string>

  // ---------------------------------------------------------------------
  // SPDY headers -> HTTP response
  // ---------------------------------------------------------------------

  /** `order` is how iterating over `block` visits its keys: each key
      exactly once (std::map visits them in ascending order; any order will
      do for what is proved here). */
  predicate IsIterationOrder(block: HeaderBlock, order: seq<string>) {
    && (forall i, j :: 0 <= i < j < |order| ==> order[i] != order[j])
    && (forall k :: k in block ==> k in order)
    && (forall i :: 0 <= i < |order| ==> order[i] in block)
  }

  /** The start of the raw header text: version, a space, status, NUL. */
  function StatusLine(version: string, status: string): string {
    version + [' '] + status + [NUL]
  }

  /** One `name:piece` record, NUL-terminated, for every piece in order. */
  function ValueLines(name: string, pieces: seq<string>): string {
    if pieces == [] then []
    else name + [':'] + pieces[0] + [NUL] + ValueLines(name, pieces[1..])
  }

  /** The records of every header, in iteration order, each value split
      back into its NUL-separated pieces. */
  function EntryLines(block: HeaderBlock, order: seq<string>): string
    requires forall i :: 0 <= i < |order| ==> order[i] in block
  {
    if order == [] then []
    else ValueLines(order[0], Split(block[order[0]])) + EntryLines(block, order[1..])
  }

  /** The raw header text built for a block whose required fields are
      `version` and `status`. */
  function RawHeaders(block: HeaderBlock, order: seq<string>, version: string, status: string): string
    requires forall i :: 0 <= i < |order| ==> order[i] in block
  {
    StatusLine(version, status) + EntryLines(block, order)
  }

  lemma {:induction false} ValueLinesAppend(name: string, a: seq<string>, b: seq<string>)
    ensures ValueLines(name, a + b) == ValueLines(name, a) + ValueLines(name, b)
  {
    if a != [] {
      ValueLinesAppend(name, a[1..], b);
      assert (a + b)[1..] == a[1..] + b;
    } else {
      assert a + b == b;
    }
  }

  lemma {:induction false} EntryLinesAppend(block: HeaderBlock, a: seq<string>, b: seq<string>)
    requires forall i :: 0 <= i < |a| ==> a[i] in block
    requires forall i :: 0 <= i < |b| ==> b[i] in block
    ensures EntryLines(block, a + b) == EntryLines(block, a) + EntryLines(block, b)
  {
    if a != [] {
      var first := ValueLines(a[0], Split(block[a[0]]));
      assert EntryLines(block, a[1..] + b) == EntryLines(block, a[1..]) + EntryLines(block, b) by {
        EntryLinesAppend(block, a[1..], b);
      }
      assert EntryLines(block, a + b) == first + EntryLines(block, a[1..] + b) by {
        assert (a + b)[0] == a[0] && (a + b)[1..] == a[1..] + b;
      }
      assert EntryLines(block, a) == first + EntryLines(block, a[1..]);
    } else {
      assert a + b == b;
    }
  }

  lemma ValueLinesOne(name: string, piece: string)
    ensures ValueLines(name, [piece]) == name + [':'] + piece + [NUL]
  {
    assert [piece][1..] == [];
  }

  /** A value without NUL gives exactly one record. */
  lemma SingleValueLines(name: string, value: string)
    requires NulFree(value)
    ensures ValueLines(name, Split(value)) == name + [':'] + value + [NUL]
  {
    SplitNulFree(value);
    ValueLinesOne(name, value);
  }

  /** One step of the split loop when a NUL follows `start` at `end`. */
  lemma SplitStepAtNul(value: string, start: nat, end: nat)
    requires start <= end < |value| && value[end] == NUL
    requires forall j :: start <= j < end ==> value[j] != NUL
    ensures Split(value[start..]) == [value[start..end]] + Split(value[end + 1..])
  {
    assert NulFree(value[start..end]);
    assert value[start..] == value[start..end] + [NUL] + value[end + 1..];
    SplitAtNul(value[start..end], value[end + 1..]);
  }

  /** The last step of the split loop: no NUL after `start`. */
  lemma SplitStepLast(value: string, start: nat)
    requires start <= |value|
    requires forall j :: start <= j < |value| ==> value[j] != NUL
    ensures Split(value[start..]) == [value[start..]]
  {
    assert NulFree(value[start..]);
    SplitNulFree(value[start..]);
  }

  /** The inner do-while loop: emits one `name:piece` record per
      NUL-separated piece of `value` after `raw`. `start` never passes the
      end of the value. */
  method AppendValueLines(raw: string, name: string, value: string) returns (out: string)
    ensures out == raw + ValueLines(name, Split(value))
  {
    out := raw;
    var start: nat := 0;
    var end: Option<nat>;
    ghost var emitted: seq<string> := [];
    ghost var pending: seq<string> := Split(value);
    var more := true;
    while more
      invariant start <= |value|
      invariant Split(value) == emitted + pending
      invariant more ==> pending == Split(value[start..])
      invariant !more ==> pending == []
      invariant out == raw + ValueLines(name, emitted)
      decreases if more then |value| - start + 1 else 0
    {
      end := Find(value, NUL, start);
      var tval: string;
      ghost var left: seq<string>;
      if end.Some? {
        tval := value[start..end.value];
        SplitStepAtNul(value, start, end.value);
        left := Split(value[end.value + 1..]);
      } else {
        tval := value[start..];
        SplitStepLast(value, start);
        left := [];
      }
      ghost var before := out;
      out := out + name;
      out := out + [':'];
      out := out + tval;
      out := out + [NUL];
      RecordStep(raw, name, emitted, tval, before);
      assert Split(value) == (emitted + [tval]) + left;
      emitted, pending := emitted + [tval], left;
      more := end.Some?;
      // In the C++ loop `start = end + 1` also runs after npos, where it wraps
      // to 0; the loop then stops and `start` is not read again.
      if end.Some? {
        start := end.value + 1;
      }
    }
    assert emitted + [] == emitted;
  }

  /** Appending `name`, ':', the piece and NUL to text holding the records
      of the pieces emitted so far gives the records of one more piece. */
  lemma RecordStep(raw: string, name: string, emitted: seq<string>, piece: string, out: string)
    requires out == raw + ValueLines(name, emitted)
    ensures out + name + [':'] + piece + [NUL] == raw + ValueLines(name, emitted + [piece])
  {
    assert out + name + [':'] + piece + [NUL] == out + (name + [':'] + piece + [NUL]);
    ValueLinesAppend(name, emitted, [piece]);
    ValueLinesOne(name, piece);
  }

  /** Lines 44-73: the status line, then the records of every header. */
  method BuildRawHeaders(block: HeaderBlock, order: seq<string>, version: string, status: string)
    returns (raw: string)
    requires IsIterationOrder(block, order)
    ensures raw == RawHeaders(block, order, version, status)
  {
    raw := version;
    raw := raw + [' '];
    raw := raw + status;
    raw := raw + [NUL];
    var i := 0;
    while i < |order|
      invariant 0 <= i <= |order|
      invariant raw == StatusLine(version, status) + EntryLines(block, order[..i])
    {
      var name := order[i];
      var value := block[name];
      raw := AppendValueLines(raw, name, value);
      assert order[..i + 1] == order[..i] + [name];
      EntryLinesAppend(block, order[..i], [name]);
      i := i + 1;
    }
    assert order[..|order|] == order;
  }

  /** The fields of net::HttpResponseInfo the translation writes. The
      HttpResponseHeaders object is represented by the raw text it is
      parsed from. */
  class HttpResponseInfo {
    var responseTime: int
    var rawHeaders: Option<string>
    var wasFetchedViaSpdy: bool

    constructor ()
      ensures responseTime == 0 && rawHeaders == None && !wasFetchedViaSpdy
    {
      responseTime := 0;
      rawHeaders := None;
      wasFetchedViaSpdy := false;
    }
  }

  /** SpdyHeadersToHttpResponse. `now` is the clock reading base::Time::Now()
      supplies. Without `status` or without `version` it reports false and
      leaves `response` as it was. */
  method SpdyHeadersToHttpResponse(headers: HeaderBlock, order: seq<string>, now: int,
                                   response: HttpResponseInfo)
    returns (ok: bool)
    requires IsIterationOrder(headers, order)
    modifies response
    ensures ok <==> "status" in headers && "version" in headers
    ensures !ok ==> unchanged(response)
    ensures ok ==> response.responseTime == now && response.wasFetchedViaSpdy
    ensures ok ==> response.rawHeaders == Some(RawHeaders(headers, order, headers["version"], headers["status"]))
    ensures ok ==> StatusLine(headers["version"], headers["status"]) <= response.rawHeaders.value
  {
    if "status" !in headers {
      return false;
    }
    var status := headers["status"];
    if "version" !in headers {
      return false;
    }
    var version := headers["version"];
    response.responseTime := now;
    var raw := BuildRawHeaders(headers, order, version, status);
    response.rawHeaders := Some(raw);
    response.wasFetchedViaSpdy := true;
    return true;
  }

  /** The records of the raw header text, read as HTTP header lines: the
      NUL-separated records named by their header. */
  function NamedPieces(name: string, pieces: seq<string>): (records: seq<string>)
    ensures |records| == |pieces|
  {
    if pieces == [] then []
    else [name + [':'] + pieces[0]] + NamedPieces(name, pieces[1..])
  }

  function Records(block: HeaderBlock, order: seq<string>): seq<string>
    requires forall i :: 0 <= i < |order| ==> order[i] in block
  {
    if order == [] then []
    else NamedPieces(order[0], Split(block[order[0]])) + Records(block, order[1..])
  }

  lemma {:induction false} SplitValueLines(name: string, pieces: seq<string>, rest: string)
    requires NulFree(name)
    requires forall i :: 0 <= i < |pieces| ==> NulFree(pieces[i])
    ensures Split(ValueLines(name, pieces) + rest) == NamedPieces(name, pieces) + Split(rest)
  {
    if pieces != [] {
      var head := name + [':'] + pieces[0];
      var tail := ValueLines(name, pieces[1..]);
      var named := NamedPieces(name, pieces[1..]);
      assert NulFree(head) by {
        assert NulFree(pieces[0]);
      }
      assert Split(tail + rest) == named + Split(rest) by {
        SplitValueLines(name, pieces[1..], rest);
      }
      assert ValueLines(name, pieces) + rest == head + [NUL] + (tail + rest) by {
        assert ValueLines(name, pieces) == head + [NUL] + tail;
      }
      SplitAtNul(head, tail + rest);
      assert NamedPieces(name, pieces) == [head] + named;
      assert [head] + (named + Split(rest)) == [head] + named + Split(rest);
    } else {
      assert ValueLines(name, pieces) + rest == rest;
    }
  }

  lemma {:induction false} NamedPiecesAt(name: string, pieces: seq<string>)
    ensures forall i :: 0 <= i < |pieces| ==> NamedPieces(name, pieces)[i] == name + [':'] + pieces[i]
  {
    if pieces != [] {
      NamedPiecesAt(name, pieces[1..]);
    }
  }

  /** What the split loop emits for one header, read back as NUL-terminated
      records: a value with k NULs gives exactly k + 1 records, the i-th being
      `name:` and the i-th piece, and nothing after the last NUL. */
  lemma ValueRecords(name: string, value: string)
    requires NulFree(name)
    ensures Split(ValueLines(name, Split(value))) == NamedPieces(name, Split(value)) + [[]]
    ensures |NamedPieces(name, Split(value))| == CountNul(value) + 1
    ensures forall i :: 0 <= i < |Split(value)| ==>
              NamedPieces(name, Split(value))[i] == name + [':'] + Split(value)[i]
  {
    SplitPiecesNulFree(value);
    SplitValueLines(name, Split(value), []);
    assert ValueLines(name, Split(value)) + [] == ValueLines(name, Split(value));
    SplitCount(value);
    NamedPiecesAt(name, Split(value));
  }

  lemma {:induction false} SplitEntryLines(block: HeaderBlock, order: seq<string>)
    requires forall i :: 0 <= i < |order| ==> order[i] in block
    requires forall i :: 0 <= i < |order| ==> NulFree(order[i])
    ensures Split(EntryLines(block, order)) == Records(block, order) + [[]]
  {
    if order != [] {
      SplitEntryLines(block, order[1..]);
      SplitPiecesNulFree(block[order[0]]);
      SplitValueLines(order[0], Split(block[order[0]]), EntryLines(block, order[1..]));
    }
  }

  /** Reading the raw header text as NUL-terminated records gives the status
      line, then `name:piece` for each piece of each header in iteration
      order, and nothing after the last NUL. */
  lemma RawHeadersRecords(block: HeaderBlock, order: seq<string>, version: string, status: string)
    requires IsIterationOrder(block, order)
    requires NulFree(version) && NulFree(status)
    requires forall k :: k in block ==> NulFree(k)
    ensures Split(RawHeaders(block, order, version, status))
            == [version + [' '] + status] + Records(block, order) + [[]]
  {
    var line := version + [' '] + status;
    assert NulFree(line);
    assert forall i :: 0 <= i < |order| ==> order[i] in block;
    SplitEntryLines(block, order);
    assert RawHeaders(block, order, version, status) == line + [NUL] + EntryLines(block, order);
    SplitAtNul(line, EntryLines(block, order));
  }

  /** The records of `before`, then `x`, then `after` are those three
      parts' records in that order. */
  lemma EntryLinesMiddle(block: HeaderBlock, before: seq<string>, x: string, after: seq<string>)
    requires forall j :: 0 <= j < |before| ==> before[j] in block
    requires x in block
    requires forall j :: 0 <= j < |after| ==> after[j] in block
    ensures EntryLines(block, before + [x] + after)
            == EntryLines(block, before) + ValueLines(x, Split(block[x])) + EntryLines(block, after)
  {
    var here := [x] + after;
    assert forall j :: 0 <= j < |here| ==> here[j] in block by {
      forall j | 0 <= j < |here|
        ensures here[j] in block
      {
        if j > 0 {
          assert here[j] == after[j - 1];
        }
      }
    }
    assert EntryLines(block, here) == ValueLines(x, Split(block[x])) + EntryLines(block, after) by {
      assert here[0] == x && here[1..] == after;
    }
    assert before + [x] + after == before + here;
    EntryLinesAppend(block, before, here);
  }

  /** Each header's records stand in the raw text in one piece, between the
      records of the headers visited before it and those visited after. */
  lemma EntryLinesAt(block: HeaderBlock, order: seq<string>, i: nat)
    requires forall j :: 0 <= j < |order| ==> order[j] in block
    requires i < |order|
    ensures EntryLines(block, order)
            == EntryLines(block, order[..i]) + ValueLines(order[i], Split(block[order[i]]))
               + EntryLines(block, order[i + 1..])
  {
    assert order == order[..i] + [order[i]] + order[i + 1..];
    EntryLinesMiddle(block, order[..i], order[i], order[i + 1..]);
  }

  lemma TwoEntryRawHeaders(a: string, x: string, b: string, y: string, version: string, status: string)
    requires a != b
    ensures RawHeaders(map[a := x, b := y], [a, b], version, status)
            == StatusLine(version, status) + ValueLines(a, Split(x)) + ValueLines(b, Split(y))
  {
    var block, order := map[a := x, b := y], [a, b];
    assert order[1..] == [b] && order[1..][1..] == [];
    assert EntryLines(block, order[1..]) == ValueLines(b, Split(y));
  }

  /** A block with only the two required fields: the status line, and then
      `status` and `version` again as ordinary records (std::map visits
      "status" before "version"). */
  lemma RequiredFieldsOnly(status: string, version: string)
    requires NulFree(status) && NulFree(version)
    ensures IsIterationOrder(map["status" := status, "version" := version], ["status", "version"])
    ensures RawHeaders(map["status" := status, "version" := version], ["status", "version"], version, status)
            == StatusLine(version, status) + ("status:" + status + [NUL]) + ("version:" + version + [NUL])
  {
    assert |"status"| != |"version"|;
    assert "status:" == "status" + [':'] && "version:" == "version" + [':'];
    SingleValueLines("status", status);
    SingleValueLines("version", version);
    TwoEntryRawHeaders("status", status, "version", version, version, status);
  }

  /** A NUL-joined value, such as a set-cookie value "foo\0bar", becomes two
      records under the same name, in order. */
  lemma TwoValuesTwoRecords(name: string, first: string, second: string)
    requires NulFree(first) && NulFree(second)
    ensures ValueLines(name, Split(first + [NUL] + second))
            == name + ":" + first + [NUL] + name + ":" + second + [NUL]
  {
    SplitAtNul(first, second);
    SplitNulFree(second);
    ValueLinesAppend(name, [first], [second]);
    assert [first] + [second] == [first, second];
    ValueLinesOne(name, first);
    ValueLinesOne(name, second);
  }

  // ---------------------------------------------------------------------
  // HTTP request -> SPDY headers
  // ---------------------------------------------------------------------

  /** A GURL, seen through the URL helpers the translation calls; those
      helpers are foreign code, and their results are taken as given. */
  datatype Gurl = Gurl(
    spec: string,                // GURL::spec()
    scheme: string,              // GURL::scheme()
    hostAndOptionalPort: string, // GetHostAndOptionalPort(url)
    pathForRequest: string,      // HttpUtil::PathForRequest(url)
    specForRequest: string)      // HttpUtil::SpecForRequest(url)
  {
    /** GURL::is_empty() */
    predicate IsEmpty() {
      spec == []
    }
  }

  /** The upload body, present only for a request that has one. */
  datatype UploadData = UploadData(contentLength: nat)

  /** net::HttpRequestInfo; `extraHeaders` lists the request headers in the
      order their iterator yields them. */
  datatype HttpRequestInfo = HttpRequestInfo(
    httpMethod: string,
    url: Gurl,
    referrer: Gurl,
    extraHeaders: seq<(string, string)>,
    uploadData: Option<UploadData>,
    loadFlags: bv32)

  /** The load flags of net/base/load_flags.h this translation reads. */
  const LoadValidateCache: bv32 := 1
  const LoadBypassCache: bv32 := 2

  const HttpProtocolVersion: string := "HTTP/1.1"

  /** The methods that get `content-length: 0` when there is no body. */
  predicate IsContentLengthMethod(m: string) {
    m == "POST" || m == "PUT" || m == "HEAD"
  }

  /** The keys the translation sets itself after folding the extra headers. */
  const TranslatedKeys: set<string> :=
    {"method", "content-length", "url", "host", "scheme", "version", "referer", "pragma", "cache-control"}

  /** The values of the extra headers whose lower-cased name is `key`, in the
      order they come. */
  function ValuesNamed(extras: seq<(string, string)>, key: string): seq<string> {
    if extras == [] then []
    else
      var last := extras[|extras| - 1];
      ValuesNamed(extras[..|extras| - 1], key) + (if ToLowerAscii(last.0) == key then [last.1] else [])
  }

  /** What folding `extras` into `headers` collects under `key`: the value
      `headers` already held, then the extra headers' values in order. */
  function Collected(headers: HeaderBlock, extras: seq<(string, string)>, key: string): seq<string> {
    (if key in headers then [headers[key]] else []) + ValuesNamed(extras, key)
  }

  /** `result` holds under `key` exactly the NUL-join of what was collected
      for it, and has no entry when nothing was. */
  predicate FoldedAt(result: HeaderBlock, headers: HeaderBlock, extras: seq<(string, string)>, key: string) {
    var values := Collected(headers, extras, key);
    && (key in result <==> |values| > 0)
    && (key in result ==> result[key] == Join(values))
  }

  /** Lines 88-100: each extra header goes in under its lower-cased name,
      verbatim if the name is new and appended after a NUL otherwise. The
      block is not cleared first, so its earlier entries are folded too. */
  method FoldExtraHeaders(extras: seq<(string, string)>, headers: HeaderBlock) returns (result: HeaderBlock)
    ensures forall k :: FoldedAt(result, headers, extras, k)
  {
    result := headers;
    var i := 0;
    while i < |extras|
      invariant 0 <= i <= |extras|
      invariant forall k :: FoldedAt(result, headers, extras[..i], k)
    {
      var name := ToLowerAscii(extras[i].0);
      var value := extras[i].1;
      ghost var before := result;
      if name !in result {
        result := result[name := value];
      } else {
        var newValue := result[name];
        newValue := newValue + [NUL];
        newValue := newValue + value;
        result := result[name := newValue];
      }
      ghost var done, next := extras[..i], extras[..i + 1];
      assert next[..i] == done && next[i] == extras[i];
      forall k ensures FoldedAt(result, headers, next, k) {
        assert FoldedAt(before, headers, done, k);
        assert ValuesNamed(next, k) == ValuesNamed(done, k) + (if name == k then [value] else []);
        if k == name {
          var earlier := Collected(headers, done, k);
          assert Collected(headers, next, k) == earlier + [value];
          if name in before {
            JoinAppend(earlier, value);
          } else {
            assert earlier == [];
            assert earlier + [value] == [value];
          }
        } else {
          assert Collected(headers, next, k) == Collected(headers, done, k);
        }
      }
      i := i + 1;
    }
    assert extras[..|extras|] == extras;
  }

  /** The translated keys are pairwise distinct, so setting one leaves the
      others alone. */
  lemma TranslatedKeysDistinct()
    ensures "method" != "content-length" && "method" != "url" && "method" != "host" && "method" != "scheme" && "method" != "version" && "method" != "referer" && "method" != "pragma" && "method" != "cache-control"
    ensures "content-length" != "url" && "content-length" != "host" && "content-length" != "scheme" && "content-length" != "version" && "content-length" != "referer" && "content-length" != "pragma" && "content-length" != "cache-control"
    ensures "url" != "host" && "url" != "scheme" && "url" != "version" && "url" != "referer" && "url" != "pragma" && "url" != "cache-control"
    ensures "host" != "scheme" && "host" != "version" && "host" != "referer" && "host" != "pragma" && "host" != "cache-control"
    ensures "scheme" != "version" && "scheme" != "referer" && "scheme" != "pragma" && "scheme" != "cache-control"
    ensures "version" != "referer" && "version" != "pragma" && "version" != "cache-control"
    ensures "referer" != "pragma" && "referer" != "cache-control"
    ensures "pragma" != "cache-control"
  {
    assert "method"[0] != "scheme"[0] && "method"[0] != "pragma"[0];
    assert "scheme"[0] != "pragma"[0] && "version"[0] != "referer"[0];
  }

  /** `after` holds under `key` what `before` held, or lacks it as `before` did. */
  predicate KeptAt(after: HeaderBlock, before: HeaderBlock, key: string) {
    && (key in after <==> key in before)
    && (key in after ==> after[key] == before[key])
  }

  /** Lines 110-120: content-length from the upload body's length, else "0"
      for POST, PUT and HEAD (compared case-sensitively), else untouched. */
  method SetContentLength(info: HttpRequestInfo, block: HeaderBlock) returns (result: HeaderBlock)
    ensures info.uploadData.Some? ==>
              "content-length" in result
              && result["content-length"] == Int64ToString(info.uploadData.value.contentLength)
    ensures info.uploadData.None? && IsContentLengthMethod(info.httpMethod) ==>
              "content-length" in result && result["content-length"] == "0"
    ensures info.uploadData.None? && !IsContentLengthMethod(info.httpMethod) ==>
              result == block
    ensures forall k :: k != "content-length" ==> KeptAt(result, block, k)
  {
    result := block;
    if info.uploadData.Some? {
      result := result["content-length" := Int64ToString(info.uploadData.value.contentLength)];
    } else if info.httpMethod == "POST" || info.httpMethod == "PUT" || info.httpMethod == "HEAD" {
      result := result["content-length" := "0"];
    }
  }

  /** Lines 122-130: url (the path alone when talking to the origin
      server directly, the full URL through a proxy), host, scheme, the
      protocol version, and referer when there is a referrer. */
  method SetUrlHeaders(info: HttpRequestInfo, block: HeaderBlock, direct: bool) returns (result: HeaderBlock)
    ensures "url" in result
            && result["url"] == (if direct then info.url.pathForRequest else info.url.specForRequest)
    ensures "host" in result && result["host"] == info.url.hostAndOptionalPort
    ensures "scheme" in result && result["scheme"] == info.url.scheme
    ensures "version" in result && result["version"] == HttpProtocolVersion
    ensures !info.referrer.IsEmpty() ==> "referer" in result && result["referer"] == info.referrer.spec
    ensures info.referrer.IsEmpty() ==> KeptAt(result, block, "referer")
    ensures forall k :: k !in {"url", "host", "scheme", "version", "referer"} ==> KeptAt(result, block, k)
  {
    TranslatedKeysDistinct();
    result := block;
    if direct {
      result := result["url" := info.url.pathForRequest];
    } else {
      result := result["url" := info.url.specForRequest];
    }
    result := result["host" := info.url.hostAndOptionalPort];
    result := result["scheme" := info.url.scheme];
    result := result["version" := HttpProtocolVersion];
    if !info.referrer.IsEmpty() {
      result := result["referer" := info.referrer.spec];
    }
  }

  /** Lines 133-138: the load flags that concern proxy caches. Bypassing
      the cache sets both pragma and cache-control to no-cache and wins over
      validating it, which sets only cache-control to max-age=0. */
  method SetCacheHeaders(loadFlags: bv32, block: HeaderBlock) returns (result: HeaderBlock)
    ensures loadFlags & LoadBypassCache != 0 ==>
              && "pragma" in result && result["pragma"] == "no-cache"
              && "cache-control" in result && result["cache-control"] == "no-cache"
    ensures loadFlags & LoadBypassCache == 0 && loadFlags & LoadValidateCache != 0 ==>
              && "cache-control" in result && result["cache-control"] == "max-age=0"
              && KeptAt(result, block, "pragma")
    ensures loadFlags & LoadBypassCache == 0 && loadFlags & LoadValidateCache == 0 ==>
              result == block
    ensures forall k :: k != "pragma" && k != "cache-control" ==> KeptAt(result, block, k)
  {
    result := block;
    if loadFlags & LoadBypassCache != 0 {
      result := result["pragma" := "no-cache"];
      result := result["cache-control" := "no-cache"];
    } else if loadFlags & LoadValidateCache != 0 {
      result := result["cache-control" := "max-age=0"];
    }
  }

  /** Lines 105-138: the fixed SPDY keys, then content-length, referer and
      the cache flags, each set on top of what `block` holds. */
  method SetRequestKeys(info: HttpRequestInfo, block: HeaderBlock, direct: bool) returns (result: HeaderBlock)
    // the fixed SPDY keys, set whatever the block held
    ensures "method" in result && result["method"] == info.httpMethod
    ensures "url" in result
            && result["url"] == (if direct then info.url.pathForRequest else info.url.specForRequest)
    ensures "host" in result && result["host"] == info.url.hostAndOptionalPort
    ensures "scheme" in result && result["scheme"] == info.url.scheme
    ensures "version" in result && result["version"] == HttpProtocolVersion
    // content-length
    ensures info.uploadData.Some? ==>
              "content-length" in result
              && result["content-length"] == Int64ToString(info.uploadData.value.contentLength)
    ensures info.uploadData.None? && IsContentLengthMethod(info.httpMethod) ==>
              "content-length" in result && result["content-length"] == "0"
    ensures info.uploadData.None? && !IsContentLengthMethod(info.httpMethod) ==>
              KeptAt(result, block, "content-length")
    // referer
    ensures !info.referrer.IsEmpty() ==> "referer" in result && result["referer"] == info.referrer.spec
    ensures info.referrer.IsEmpty() ==> KeptAt(result, block, "referer")
    // cache flags: bypass wins over validate
    ensures info.loadFlags & LoadBypassCache != 0 ==>
              && "pragma" in result && result["pragma"] == "no-cache"
              && "cache-control" in result && result["cache-control"] == "no-cache"
    ensures info.loadFlags & LoadBypassCache == 0 && info.loadFlags & LoadValidateCache != 0 ==>
              && "cache-control" in result && result["cache-control"] == "max-age=0"
              && KeptAt(result, block, "pragma")
    ensures info.loadFlags & LoadBypassCache == 0 && info.loadFlags & LoadValidateCache == 0 ==>
              KeptAt(result, block, "pragma") && KeptAt(result, block, "cache-control")
    // nothing else changes
    ensures forall k :: k !in TranslatedKeys ==> KeptAt(result, block, k)
  {
    TranslatedKeysDistinct();
    result := block;
    result := result["method" := info.httpMethod];
    ghost var withMethod := result;
    result := SetContentLength(info, result);
    ghost var withLength := result;
    result := SetUrlHeaders(info, result, direct);
    ghost var withReferer := result;
    result := SetCacheHeaders(info.loadFlags, result);
    assert KeptAt(withLength, withMethod, "method") && KeptAt(withReferer, withLength, "method");
    assert KeptAt(withReferer, withLength, "content-length");
    assert KeptAt(result, withReferer, "method") && KeptAt(result, withReferer, "content-length");
    assert KeptAt(result, withReferer, "url") && KeptAt(result, withReferer, "host");
    assert KeptAt(result, withReferer, "scheme") && KeptAt(result, withReferer, "version");
    assert KeptAt(result, withReferer, "referer");
    assert KeptAt(withLength, withMethod, "referer");
    assert KeptAt(withLength, withMethod, "pragma") && KeptAt(withLength, withMethod, "cache-control");
    assert KeptAt(withReferer, withLength, "pragma") && KeptAt(withReferer, withLength, "cache-control");
    forall k | k !in TranslatedKeys
      ensures KeptAt(result, block, k)
    {
      assert KeptAt(withLength, withMethod, k);
      assert KeptAt(withReferer, withLength, k);
      assert KeptAt(result, withReferer, k);
    }
  }

  /** CreateSpdyHeadersFromHttpRequest. `headers` is the caller's block as
      it was on entry and `result` the block as the function leaves it:
      the fold of the extra headers, with the translated keys set on top. */
  method CreateSpdyHeadersFromHttpRequest(info: HttpRequestInfo, headers: HeaderBlock, direct: bool)
    returns (result: HeaderBlock)
    // the fixed SPDY keys, set whatever the extra headers held
    ensures "method" in result && result["method"] == info.httpMethod
    ensures "url" in result
            && result["url"] == (if direct then info.url.pathForRequest else info.url.specForRequest)
    ensures "host" in result && result["host"] == info.url.hostAndOptionalPort
    ensures "scheme" in result && result["scheme"] == info.url.scheme
    ensures "version" in result && result["version"] == HttpProtocolVersion
    // content-length
    ensures info.uploadData.Some? ==>
              "content-length" in result
              && result["content-length"] == Int64ToString(info.uploadData.value.contentLength)
    ensures info.uploadData.None? && IsContentLengthMethod(info.httpMethod) ==>
              "content-length" in result && result["content-length"] == "0"
    ensures info.uploadData.None? && !IsContentLengthMethod(info.httpMethod) ==>
              FoldedAt(result, headers, info.extraHeaders, "content-length")
    // referer
    ensures !info.referrer.IsEmpty() ==> "referer" in result && result["referer"] == info.referrer.spec
    ensures info.referrer.IsEmpty() ==> FoldedAt(result, headers, info.extraHeaders, "referer")
    // cache flags: bypass wins over validate
    ensures info.loadFlags & LoadBypassCache != 0 ==>
              && "pragma" in result && result["pragma"] == "no-cache"
              && "cache-control" in result && result["cache-control"] == "no-cache"
    ensures info.loadFlags & LoadBypassCache == 0 && info.loadFlags & LoadValidateCache != 0 ==>
              && "cache-control" in result && result["cache-control"] == "max-age=0"
              && FoldedAt(result, headers, info.extraHeaders, "pragma")
    ensures info.loadFlags & LoadBypassCache == 0 && info.loadFlags & LoadValidateCache == 0 ==>
              && FoldedAt(result, headers, info.extraHeaders, "pragma")
              && FoldedAt(result, headers, info.extraHeaders, "cache-control")
    // every other key is as the fold left it
    ensures forall k :: k !in TranslatedKeys ==> FoldedAt(result, headers, info.extraHeaders, k)
  {
    var folded := FoldExtraHeaders(info.extraHeaders, headers);
    result := SetRequestKeys(info, folded, direct);
    forall k | KeptAt(result, folded, k)
      ensures FoldedAt(result, headers, info.extraHeaders, k)
    {
      assert FoldedAt(folded, headers, info.extraHeaders, k);
    }
  }

  /** Keys no extra header names keep what the caller's block held. This is
      a corollary read straight off `FoldedAt`, stated on its own for
      readers; it needs no proof steps. */
  lemma FoldKeepsUnnamedKeys(result: HeaderBlock, headers: HeaderBlock, extras: seq<(string, string)>, key: string)
    requires FoldedAt(result, headers, extras, key)
    requires ValuesNamed(extras, key) == []
    ensures key in result <==> key in headers
    ensures key in headers ==> result[key] == headers[key]
  {
  }

  /** Every key the fold adds comes from an extra header's name, lower-cased,
      so lower-casing it again finds the same entry. */
  lemma {:induction false} ValuesNamedFromLowerName(extras: seq<(string, string)>, key: string)
    requires ValuesNamed(extras, key) != []
    ensures exists i :: 0 <= i < |extras| && ToLowerAscii(extras[i].0) == key
    ensures forall i :: 0 <= i < |key| ==> !IsUpperAscii(key[i])
    ensures ToLowerAscii(key) == key
  {
    var last := extras[|extras| - 1];
    if ToLowerAscii(last.0) != key {
      ValuesNamedFromLowerName(extras[..|extras| - 1], key);
      var i :| 0 <= i < |extras| - 1 && ToLowerAscii(extras[..|extras| - 1][i].0) == key;
      assert extras[i] == extras[..|extras| - 1][i];
    } else {
      ToLowerAsciiIdempotent(last.0);
    }
  }

  /** When every extra header has the name `key` up to case, the fold
      collects all their values, in order. */
  lemma {:induction false} ValuesNamedAllSame(extras: seq<(string, string)>, key: string)
    requires forall i :: 0 <= i < |extras| ==> ToLowerAscii(extras[i].0) == key
    ensures ValuesNamed(extras, key) == seq(|extras|, i requires 0 <= i < |extras| => extras[i].1)
  {
    if extras != [] {
      var init := extras[..|extras| - 1];
      ValuesNamedAllSame(init, key);
    }
  }

  /** Round trip: the value the request side folds under `key`, split the way
      the response side splits it, gives back the collected values in order,
      provided none of them contains a NUL. */
  lemma FoldThenSplit(result: HeaderBlock, headers: HeaderBlock, extras: seq<(string, string)>, key: string)
    requires FoldedAt(result, headers, extras, key)
    requires key in result
    requires forall i :: 0 <= i < |Collected(headers, extras, key)| ==> NulFree(Collected(headers, extras, key)[i])
    ensures Split(result[key]) == Collected(headers, extras, key)
  {
    SplitJoin(Collected(headers, extras, key));
  }

  /** Two request headers with one name, folded into an empty block and then
      split, come back as the two values in their order. */
  lemma TwoHeadersRoundTrip(result: HeaderBlock, name1: string, name2: string, key: string, v1: string, v2: string)
    requires ToLowerAscii(name1) == key && ToLowerAscii(name2) == key
    requires NulFree(v1) && NulFree(v2)
    requires FoldedAt(result, map[], [(name1, v1), (name2, v2)], key)
    ensures key in result && result[key] == v1 + [NUL] + v2
    ensures Split(result[key]) == [v1, v2]
  {
    var extras := [(name1, v1), (name2, v2)];
    ValuesNamedAllSame(extras, key);
    assert Collected(map[], extras, key) == [v1, v2];
    assert [v1, v2][1..] == [v2];
    assert Join([v2]) == v2;
    assert Join([v1, v2]) == v1 + [NUL] + v2;
    FoldThenSplit(result, map[], extras, key);
  }
}
