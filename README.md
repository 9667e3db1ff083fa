# SPDY / HTTP header translation

A Dafny model of Chromium's `net/spdy/spdy_http_utils.cc`. This is the code that
translates headers between a SPDY name/value block and the network stack's
HTTP request and response descriptions.

- **SPDY headers to HTTP response** (`SpdyHeadersToHttpResponse`). A block
  without `status`, or without `version`, is refused, and the response is left
  as it was. Otherwise the raw HTTP header text is built:
  - a status line (`version`, a space, `status`, NUL);
  - then, for every header in the block's iteration order, one
    `name:piece` record ended by NUL for each NUL-separated piece of the
    header's value.

  The response is stamped with the current time and marked as fetched over
  SPDY.
- **HTTP request to SPDY headers** (`CreateSpdyHeadersFromHttpRequest`). Each
  extra request header goes into the caller's block under its lower-cased
  name. When the name is already present, the value is appended after a NUL;
  this includes entries the block held before the call. The fixed SPDY keys
  are then set on top:
  - `method`, `url`, `host`, `scheme` and `version`, always;
  - `content-length`, from the upload body or for POST/PUT/HEAD;
  - `referer`;
  - `pragma` and `cache-control`, which depend on the load flags.

The NUL-joined multi-value convention of the SPDY draft 2 name/value block is
modelled on its own, in `spdy_values.dfy`:
- `Split` reads a value piece by piece;
- `Join` folds pieces into one value.

Joining the pieces of any value gives the value back. Splitting the join
of a non-empty list of pieces gives the pieces back provided none of them
contains a NUL. The proofs link
this convention to both directions: folding request headers and then
splitting them the way the response side does gives the values back,
provided no value (the block's earlier value included) contains a NUL.

Files:
- `wrappers.dfy`: `Option`.
- `string_util.dfy`:
  - `std::string::find`;
  - `StringToLowerASCII`;
  - `base::Int64ToString`, with its decimal reading.
- `spdy_values.dfy`: the NUL split/join convention.
- `spdy_http_utils.dfy`: both translations.

Both C++ functions work by mutation, so the model is imperative.
- The raw header text is built by `BuildRawHeaders`, a loop over the
  iteration order around the inner `do … while` split loop of
  `AppendValueLines`. Each is proved equal to a specification function
  (`RawHeaders`, `ValueLines`).
- The response out-parameter is the class `HttpResponseInfo`. Its fields are
  written only on success.
- On the request side, the caller's map comes in as `headers` and the map as
  the function leaves it is `result`.
- The folding loop is proved against the predicate `FoldedAt`. For every key,
  `FoldedAt` says the key holds the NUL-join of the block's prior value and the
  matching extra headers' values, in order.

## Model

| member | source | states |
|---|---|---|
| StringUtil.Find | net/spdy/spdy_http_utils.cc:61-66 | `value.find('\0', start)`: the first position at or after `start` holding the character, with no earlier one; None (npos) when there is none. |
| StringUtil.ToLowerAscii | net/spdy/spdy_http_utils.cc:91 | Same length as the input. No upper-case letter is left. 'A'..'Z' map to 'a'..'z' at the same offset. Every other character is unchanged. |
| StringUtil.ToLowerAsciiIdempotent | net/spdy/spdy_http_utils.cc:91 | Lower-casing an already lower-cased name changes nothing, so a folded key is its own normal form. |
| StringUtil.Int64ToString | net/spdy/spdy_http_utils.cc:111-112 | The content length is written as at least one decimal digit, with no leading zero. |
| StringUtil.Int64ToStringRoundTrip | net/spdy/spdy_http_utils.cc:111-112 | Reading the decimal string back gives the length. |
| SpdyValues.Split | net/spdy/spdy_http_utils.cc:57-72 | A value always yields at least one piece. |
| SpdyValues.SplitNulFree | net/spdy/spdy_http_utils.cc:57-72 | A value without NUL is exactly one piece, the value itself. |
| SpdyValues.SplitAtNul | net/spdy/spdy_http_utils.cc:61-64 | The first NUL ends the first piece; the rest of the value is split on its own. |
| SpdyValues.SplitCount | net/spdy/spdy_http_utils.cc:57-72 | A value with k NULs yields exactly k + 1 pieces. |
| SpdyValues.SplitPiecesNulFree | net/spdy/spdy_http_utils.cc:63-66 | No piece contains the separator. |
| SpdyValues.JoinSplit | net/spdy/spdy_http_utils.cc:57-72 | Joining the pieces with NUL gives back the original value. |
| SpdyValues.SplitJoin | net/spdy/spdy_http_utils.cc:93-98 | Splitting the NUL-join of a non-empty list of NUL-free values gives back exactly those values, empty ones included. |
| SpdyValues.JoinAppend | net/spdy/spdy_http_utils.cc:95-98 | Folding one more value onto a stored one appends a NUL and the value to the stored string. |
| SpdyValues.SplitKeepsEmptyPieces | net/spdy/spdy_http_utils.cc:57-72 | Empty pieces are kept. An empty value is one empty piece, a lone NUL is two, and a trailing NUL gives a trailing empty piece. |
| SpdyHttpUtils.ValueLinesAppend | net/spdy/spdy_http_utils.cc:60-72 | The records of a list of pieces are the records of its parts, concatenated in order. |
| SpdyHttpUtils.EntryLinesAppend | net/spdy/spdy_http_utils.cc:48-73 | The records of a list of headers are the records of its parts, concatenated in order. |
| SpdyHttpUtils.SingleValueLines | net/spdy/spdy_http_utils.cc:57-72 | A header value without NUL gives exactly one record, `name:value` and a NUL. |
| SpdyHttpUtils.SplitStepAtNul | net/spdy/spdy_http_utils.cc:61-64 | When `find` stops at a NUL, the piece `substr(start, end - start)` is the first piece of the rest of the value, and the loop goes on after that NUL. |
| SpdyHttpUtils.SplitStepLast | net/spdy/spdy_http_utils.cc:65-66 | When `find` returns npos, `substr(start)` is the only remaining piece. |
| SpdyHttpUtils.AppendValueLines | net/spdy/spdy_http_utils.cc:57-72 | The `do … while` loop appends exactly `name:piece` and a NUL for each piece of `Split(value)`, in order. Its invariant keeps `start` within the value. |
| SpdyHttpUtils.BuildRawHeaders | net/spdy/spdy_http_utils.cc:44-73 | The raw text is the status line followed by the records of every header, in the given iteration order. |
| SpdyHttpUtils.SpdyHeadersToHttpResponse | net/spdy/spdy_http_utils.cc:20-78 | Returns true exactly when both `status` and `version` are present; on false the response is unchanged. On true it sets the response time and `was_fetched_via_spdy`, and the raw headers are the full translation, which begins with `version status NUL`. |
| SpdyHttpUtils.ValueRecords | net/spdy/spdy_http_utils.cc:57-72 | Read back as NUL-terminated records, one header's output is exactly k + 1 records for a value with k NULs. The i-th record is `name:` followed by the i-th piece, and nothing follows the last NUL. |
| SpdyHttpUtils.SplitValueLines | net/spdy/spdy_http_utils.cc:67-70 | Reading a header's records back as NUL-terminated strings gives `name:piece` for each piece, in order. |
| SpdyHttpUtils.SplitEntryLines | net/spdy/spdy_http_utils.cc:48-73 | Reading all headers' records back gives their `name:piece` strings in iteration order, with nothing after the last NUL. |
| SpdyHttpUtils.RawHeadersRecords | net/spdy/spdy_http_utils.cc:44-73 | The whole raw text, read as NUL-terminated records, is the status line, then every header's `name:piece` records in order, then nothing. |
| SpdyHttpUtils.EntryLinesAt | net/spdy/spdy_http_utils.cc:48-73 | Each header's records stand in one block between the records of the headers visited before it and those visited after it. |
| SpdyHttpUtils.TwoEntryRawHeaders | net/spdy/spdy_http_utils.cc:44-73 | For a two-entry block, the raw text is the status line, then the first header's records, then the second's. |
| SpdyHttpUtils.RequiredFieldsOnly | net/spdy/spdy_http_utils.cc:44-73 | The loop does not skip `status` and `version`, so a block holding only those two keys gives the status line followed by the records `status:` + status and `version:` + version. |
| SpdyHttpUtils.TwoValuesTwoRecords | net/spdy/spdy_http_utils.cc:49-72 | A value such as `foo\0bar` becomes two records under the same name, in order. |
| SpdyHttpUtils.FoldExtraHeaders | net/spdy/spdy_http_utils.cc:88-100 | For every key, the result holds the NUL-join of the block's prior value (if any) followed by the values of the extra headers whose lower-cased name is that key, in order. A key is absent exactly when nothing was collected for it. |
| SpdyHttpUtils.FoldKeepsUnnamedKeys | net/spdy/spdy_http_utils.cc:88-100 | A key no extra header names keeps exactly what the caller's block held. This covers being absent as well as its value. |
| SpdyHttpUtils.ValuesNamedFromLowerName | net/spdy/spdy_http_utils.cc:90-93 | Every key the fold adds is the lower-cased name of some extra header, has no upper-case letter, and is its own lower-cased form. |
| SpdyHttpUtils.ValuesNamedAllSame | net/spdy/spdy_http_utils.cc:90-99 | When all extra headers share one name up to case, the fold collects all their values in their order. |
| SpdyHttpUtils.FoldThenSplit | net/spdy/spdy_http_utils.cc:90-100 | Round trip: splitting a folded value gives back the collected values in order, provided none contains a NUL. |
| SpdyHttpUtils.TwoHeadersRoundTrip | net/spdy/spdy_http_utils.cc:90-100 | Two request headers with one name, folded into an empty block, are stored as `v1 NUL v2`, and splitting that gives `[v1, v2]`. |
| SpdyHttpUtils.SetContentLength | net/spdy/spdy_http_utils.cc:110-120 | With upload data, `content-length` is the decimal length. Otherwise it is "0" for POST, PUT and HEAD (case-sensitive), and otherwise the block is unchanged. Other keys are never touched. |
| SpdyHttpUtils.SetUrlHeaders | net/spdy/spdy_http_utils.cc:122-130 | `url` is the path when direct and the full spec otherwise. `host`, `scheme` and `version` ("HTTP/1.1") are set. `referer` is set only for a non-empty referrer and is otherwise kept. Every other key is kept. |
| SpdyHttpUtils.SetCacheHeaders | net/spdy/spdy_http_utils.cc:133-138 | Bypass sets `pragma` and `cache-control` to no-cache, and wins over validate. Validate alone sets only `cache-control` to max-age=0. With neither flag the block is unchanged. |
| SpdyHttpUtils.SetRequestKeys | net/spdy/spdy_http_utils.cc:105-138 | The method and URL keys are set whatever the block held. Content-length, referer and the cache keys follow their conditions and are otherwise kept. Every key outside the nine is kept. |
| SpdyHttpUtils.CreateSpdyHeadersFromHttpRequest | net/spdy/spdy_http_utils.cc:80-139 | The fixed keys override any folded extra-header value. The conditional keys are set under their conditions and otherwise hold what the fold left. Every other key holds exactly the fold of the caller's block and the extra headers. |

## Left out

- The clock: `base::Time::Now()` is the parameter `now` of `SpdyHeadersToHttpResponse`.
- `LOG(ERROR)` diagnostics are not modelled; only the `false` return is. Because nothing is logged, the model cannot observe that `status` is checked before `version`: both failures return false with the response untouched.
- `HttpResponseHeaders` parsing: that parser is not part of this model. The response keeps the raw header text it would be constructed from (`rawHeaders`).
- The URL helpers (`HttpUtil::PathForRequest`, `HttpUtil::SpecForRequest`, `GetHostAndOptionalPort`, `GURL::scheme`, `GURL::spec`) are foreign code. Their results are fields of the `Gurl` datatype, and `GURL::is_empty` is taken to mean an empty spec.
- StringUtil.Int64ToString: the content length is a `nat`. The int64 range of `GetContentLength()` and the sign of negative values are not modelled.
- `HttpRequestHeaders::Iterator` is the sequence `extraHeaders` of name/value pairs, in iteration order.
- SpdyHttpUtils.CreateSpdyHeadersFromHttpRequest: the in-place update of the caller's `SpdyHeaderBlock` is modelled as a map in (`headers`) and a map out (`result`). Aliasing of that block with anything else is not modelled.
- SpdyHttpUtils.SpdyHeadersToHttpResponse: `std::map` visits its keys in ascending order. The model takes any order that visits each key once (`IsIterationOrder`), so its results hold for the sorted order in particular.
- SpdyHttpUtils.AppendValueLines: after the last piece, `start = end + 1` wraps npos to 0. The loop stops there and `start` is not read again, so the model does not perform that assignment.
- The load flag values are `LOAD_VALIDATE_CACHE = 1` and `LOAD_BYPASS_CACHE = 2`, as `net/base/load_flags.h` defines them. That header is not part of this model, and no other flag is modelled.
- Character widths: strings are sequences of `char`. `StringToLowerASCII` affects only 'A'..'Z'.
