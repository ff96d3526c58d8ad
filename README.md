# MemcachedCacheEntryHttp cache-entry codec, in Dafny

This project models the codec that HttpClient's memcached cache storage uses to turn a
cache record into bytes and back. A record is a storage key plus an `HttpCacheEntry`. The
entry holds a request date, a response date, a status line, a header list, an optional body
resource and a variant map.

`toByteArray` writes the record as a message shaped like an HTTP/1.1 response (status line,
header block, blank line, body):

- Every original header whose name starts with `hc-` is escaped by renaming it to
  `hc-esc-<name>`.
- Reserved pseudo-headers are appended: the storage key `hc-sk`, `hc-resp-date` and
  `hc-req-date` in milliseconds, and a `hc-varmap-key`/`hc-varmap-val` pair per variant-map
  entry. When there is no body, `hc-no-content: true` is appended too.
- The head is written with the library's message writer, and exactly the declared number of
  body bytes follows it.

`set` parses the bytes and then:

- takes the pseudo-headers out again, using first-match, case-insensitive lookup
- reads the variant pairs with a one-pending-key state machine
- unescapes the remaining headers
- keeps every byte after the head as the body, unless the no-content flag says there is none

Work that can fail runs inside `TryWithResources`. That helper closes every registered
resource and reports a close failure only when the body succeeded.

Files, one module each:

- `outcomes.dfy`: `Option`, `Result` and the error kinds the codec raises.
- `java_text.dfy`: the Java library text functions the codec relies on. These are
  `startsWith`, ASCII case folding, `Long.toString`/`Long.parseLong` (with a round-trip lemma)
  and `Boolean.parseBoolean`.
- `http_message.dfy`: headers, the status line, the message head, and the library's response
  object as a class. It also has the case-insensitive lookup and removal functions, and the
  writer/parser pair (`Framing`) with `RoundTrips`, the condition that the parser reads back
  what the writer writes.
- `escaping.dfy`: `escapeHeaders` and `unescapeHeaders` as loops over a snapshot of the
  headers, proved against the functions `Escaped` and `Unescaped`, with the
  escape/unescape lemmas.
- `pseudo_headers.dfy`: the reserved names and the four `get*PseudoHeader*AndRemove`
  helpers, as methods on the response proved against list functions.
- `variant_map.dfy`: the variant-pair encoding, `getVariantMapPseudoHeadersAndRemove` as a
  loop with its `lastKey` state, the pairing round trip and the two mismatch errors.
- `transfer.dfy`: input and output streams, and both `copyBytes` loops.
- `cleanup.dfy`: `Closeable` and `TryWithResources`.
- `codec.dfy`: the entry datatypes, the specification functions `Encode` and `Decode`, and
  the `MemcachedCacheEntryHttp` class with `toByteArray`, `set` and `addMetadataPseudoHeaders`.
- `round_trip.dfy`: decoding what was encoded, the test suite's comparison, the layout of the
  bytes, the conditions under which encoding fails, and the escaping finding below.

Two behaviours of the code worth noting:

- Of several close failures, the last one is kept.
- The codec's own pseudo-header errors in `set` are runtime exceptions, which `set` does not
  catch, so they reach the caller unwrapped. Only I/O and HTTP exceptions are wrapped as
  deserialising errors.

## Model

Source paths are relative to the repository root.

| member | source | states |
|---|---|---|
| JavaText.ParseLongToString | httpclient-cache/src/main/java/org/apache/http/impl/client/cache/MemcachedCacheEntryHttp.java:310-311 | a date written with Long.toString parses back with Long.parseLong to the same long |
| JavaText.ParseLongRejects | httpclient-cache/src/main/java/org/apache/http/impl/client/cache/MemcachedCacheEntryHttp.java:366-371 | parseLong rejects the empty string, a lone sign, and any text with a non-digit after its first character |
| HttpMessage.FirstIndexSpec | httpclient-cache/src/main/java/org/apache/http/impl/client/cache/MemcachedCacheEntryHttp.java:347 | getFirstHeader finds the first header whose name matches in any letter case, or none exactly when no header matches |
| HttpMessage.WithoutNameNoMatch | httpclient-cache/src/main/java/org/apache/http/impl/client/cache/MemcachedCacheEntryHttp.java:365 | removeHeaders leaves a list with no matching header as it is |
| HttpMessage.WithoutNameMembers | httpclient-cache/src/main/java/org/apache/http/impl/client/cache/MemcachedCacheEntryHttp.java:365 | after removeHeaders no header of that name is left, and every other header is kept |
| Escaping.EscapeHeaders | httpclient-cache/src/main/java/org/apache/http/impl/client/cache/MemcachedCacheEntryHttp.java:277-285 | the loop over the snapshot leaves the non-`hc-` headers in order, followed by the `hc-` headers renamed `hc-esc-<name>` in order; the status line is unchanged |
| Escaping.UnescapeHeaders | httpclient-cache/src/main/java/org/apache/http/impl/client/cache/MemcachedCacheEntryHttp.java:293-301 | the loop strips one `hc-esc-` prefix from each header that carries it and moves those headers to the end in order |
| Escaping.EscapeRenamesExactly | httpclient-cache/src/main/java/org/apache/http/impl/client/cache/MemcachedCacheEntryHttp.java:277-285 | escaping renames exactly the `hc-` headers, keeping their values (same multiset as renaming each in place); afterwards no name starts with `hc-` unless it carries `hc-esc-` |
| Escaping.UnescapeEscape | httpclient-cache/src/main/java/org/apache/http/impl/client/cache/MemcachedCacheEntryHttp.java:277-301 | unescape after escape gives the untouched headers, then the escaped ones under their original names |
| Escaping.UnescapeEscapeMultiset | httpclient-cache/src/main/java/org/apache/http/impl/client/cache/MemcachedCacheEntryHttp.java:277-301 | unescape after escape keeps the same (name, value) multiset, including headers named `hc-sk` or `hc-esc-x` |
| Escaping.UnescapeEscapeFirstHeader | httpclient-cache/src/main/java/org/apache/http/impl/client/cache/MemcachedCacheEntryHttp.java:277-301 | unescape after escape keeps what a first-match lookup by any name finds |
| Escaping.EscapeAsWrittenAgrees | httpclient-cache/src/main/java/org/apache/http/impl/client/cache/MemcachedCacheEntryHttp.java:277-285 | the source's case-sensitive `startsWith("hc-")` escaping gives the same header list as the case-insensitive one whenever no name starts with `hc-` in another letter case |
| PseudoHeaders.TakeFirstSpec | httpclient-cache/src/main/java/org/apache/http/impl/client/cache/MemcachedCacheEntryHttp.java:346-353 | the optional lookup finds a value exactly when some header matches |
| PseudoHeaders.TakeFirstAfter | httpclient-cache/src/main/java/org/apache/http/impl/client/cache/MemcachedCacheEntryHttp.java:346-353 | the optional lookup returns the first match's value and removes exactly that header, keeping the rest in order |
| PseudoHeaders.Required | httpclient-cache/src/main/java/org/apache/http/impl/client/cache/MemcachedCacheEntryHttp.java:331-337 | a missing header fails with an error naming it and removes nothing; a found one removes exactly one header |
| PseudoHeaders.RequiredSpec | httpclient-cache/src/main/java/org/apache/http/impl/client/cache/MemcachedCacheEntryHttp.java:331-337 | the required lookup fails, naming the header, exactly when no header matches |
| PseudoHeaders.DateValue | httpclient-cache/src/main/java/org/apache/http/impl/client/cache/MemcachedCacheEntryHttp.java:363-372 | every header of the name is gone afterwards, in every outcome; the only failures are a missing or an invalid header, each naming it |
| PseudoHeaders.DateValueSpec | httpclient-cache/src/main/java/org/apache/http/impl/client/cache/MemcachedCacheEntryHttp.java:363-372 | the date lookup fails as missing exactly when no header matches |
| PseudoHeaders.DateValueAfter | httpclient-cache/src/main/java/org/apache/http/impl/client/cache/MemcachedCacheEntryHttp.java:363-372 | a date written by Long.toString reads back as the same long, and every copy of the header is removed |
| PseudoHeaders.DateValueInvalid | httpclient-cache/src/main/java/org/apache/http/impl/client/cache/MemcachedCacheEntryHttp.java:366-371 | a first match whose value is not a decimal long fails with an error naming the header |
| PseudoHeaders.FlagValue | httpclient-cache/src/main/java/org/apache/http/impl/client/cache/MemcachedCacheEntryHttp.java:381-384 | a true flag was taken from the list, which lost exactly one header |
| PseudoHeaders.FlagValueAbsent | httpclient-cache/src/main/java/org/apache/http/impl/client/cache/MemcachedCacheEntryHttp.java:381-384 | an absent flag reads as false, removes nothing and is never an error |
| PseudoHeaders.FlagValueAfter | httpclient-cache/src/main/java/org/apache/http/impl/client/cache/MemcachedCacheEntryHttp.java:381-384 | the flag reads true exactly when its first match says "true" in any case, and that header is removed |
| PseudoHeaders.SafeListIsNotReserved | httpclient-cache/src/main/java/org/apache/http/impl/client/cache/MemcachedCacheEntryHttp.java:71-80 | no header name the escaping can leave behind matches a reserved pseudo-header name |
| PseudoHeaders.GetOptionalCachePseudoHeaderAndRemove | httpclient-cache/src/main/java/org/apache/http/impl/client/cache/MemcachedCacheEntryHttp.java:346-353 | the value and the new header list are those of the optional lookup; the status line is unchanged |
| PseudoHeaders.GetCachePseudoHeaderAndRemove | httpclient-cache/src/main/java/org/apache/http/impl/client/cache/MemcachedCacheEntryHttp.java:331-337 | the result and the new header list are those of the required lookup |
| PseudoHeaders.GetCachePseudoHeaderDateAndRemove | httpclient-cache/src/main/java/org/apache/http/impl/client/cache/MemcachedCacheEntryHttp.java:363-372 | the result and the new header list are those of the date lookup |
| PseudoHeaders.GetCachePseudoHeaderBooleanAndRemove | httpclient-cache/src/main/java/org/apache/http/impl/client/cache/MemcachedCacheEntryHttp.java:381-384 | the result and the new header list are those of the flag lookup |
| VariantMap.VariantHeadersPairing | httpclient-cache/src/main/java/org/apache/http/impl/client/cache/MemcachedCacheEntryHttp.java:316-320 | the i-th entry's key header sits at position 2i, immediately followed by its value header |
| VariantMap.Scan | httpclient-cache/src/main/java/org/apache/http/impl/client/cache/MemcachedCacheEntryHttp.java:393-416 | the scan's only failure is the mismatched-headers error |
| VariantMap.ScanKeepsOthers | httpclient-cache/src/main/java/org/apache/http/impl/client/cache/MemcachedCacheEntryHttp.java:393-416 | a successful scan removes exactly the variant headers and keeps every other header in order |
| VariantMap.DecodeVariantHeaders | httpclient-cache/src/main/java/org/apache/http/impl/client/cache/MemcachedCacheEntryHttp.java:316-320 | decoding the encoder's pairs, surrounded by other headers, gives back the same map and removes exactly the variant headers |
| VariantMap.ValueWithoutKey | httpclient-cache/src/main/java/org/apache/http/impl/client/cache/MemcachedCacheEntryHttp.java:401-404 | a value header with no pending key, whether before any variant header or after a completed pair, fails as mismatched |
| VariantMap.KeyWithoutValue | httpclient-cache/src/main/java/org/apache/http/impl/client/cache/MemcachedCacheEntryHttp.java:411-413 | a key still pending at the end of the scan fails as mismatched |
| VariantMap.KeyOverwritten | httpclient-cache/src/main/java/org/apache/http/impl/client/cache/MemcachedCacheEntryHttp.java:397-400 | after any complete prefix, a second key before a value replaces the pending key: the first key gets no entry and the scan goes on with the second key's entry added |
| VariantMap.GetVariantMapPseudoHeadersAndRemove | httpclient-cache/src/main/java/org/apache/http/impl/client/cache/MemcachedCacheEntryHttp.java:393-416 | the loop with `lastKey` computes the variant decoding of the header list: the same map or error, and the same remaining headers |
| Transfer.InputStream.Read | httpclient-cache/src/main/java/org/apache/http/impl/client/cache/MemcachedCacheEntryHttp.java:448 | a read returns -1 only at end of input, else between 1 and len of the next bytes, stored at the offset; nothing else in the array changes |
| Transfer.CopyBytes | httpclient-cache/src/main/java/org/apache/http/impl/client/cache/MemcachedCacheEntryHttp.java:444-454 | succeeds exactly when the stream holds `length` bytes, and then the slice holds them; otherwise fails naming both counts; bytes outside the slice are unchanged |
| Transfer.CopyAll | httpclient-cache/src/main/java/org/apache/http/impl/client/cache/MemcachedCacheEntryHttp.java:425-431 | the output grows by exactly the bytes left in the stream, and the stream ends drained |
| Cleanup.LastCloseFailureSpec | httpclient-cache/src/main/java/org/apache/http/impl/client/cache/MemcachedCacheEntryHttp.java:486-494 | no close failure is kept exactly when every close succeeds; otherwise the kept failure is that of a resource after which every close succeeds |
| Cleanup.Merge | httpclient-cache/src/main/java/org/apache/http/impl/client/cache/MemcachedCacheEntryHttp.java:480-512 | the outcome fails exactly when the body or a close fails; a body failure wins; a close failure surfaces only after a successful body |
| Cleanup.TryWithResources.AddResource | httpclient-cache/src/main/java/org/apache/http/impl/client/cache/MemcachedCacheEntryHttp.java:475-477 | the resource is appended to the list |
| Cleanup.TryWithResources.RunWithResources | httpclient-cache/src/main/java/org/apache/http/impl/client/cache/MemcachedCacheEntryHttp.java:480-512 | every registered resource ends closed, and the result merges the body's outcome with the last close failure |
| Codec.Encode | httpclient-cache/src/main/java/org/apache/http/impl/client/cache/MemcachedCacheEntryHttp.java:96-168 | a null storage key, then a null entry, is refused before anything else and unwrapped; every later failure is wrapped as an encoding error |
| Codec.ReadOutcome | httpclient-cache/src/main/java/org/apache/http/impl/client/cache/MemcachedCacheEntryHttp.java:181-226 | a checked (I/O or HTTP) failure happens exactly when the parser fails; on success the key read is the stored key |
| Codec.Decode | httpclient-cache/src/main/java/org/apache/http/impl/client/cache/MemcachedCacheEntryHttp.java:181-232 | a failure is wrapped as a deserialising error exactly when the parser fails; on success the key is the stored key |
| Codec.WriteBytes | httpclient-cache/src/main/java/org/apache/http/impl/client/cache/MemcachedCacheEntryHttp.java:156-161 | the array holds the head's bytes then the first `resourceLength` bytes of the stream; an int overflow of the size and a short stream are errors |
| Codec.MemcachedCacheEntryHttp.AddMetadataPseudoHeaders | httpclient-cache/src/main/java/org/apache/http/impl/client/cache/MemcachedCacheEntryHttp.java:308-321 | appends the storage key, response date, request date, then one key/value pair per variant-map entry, each key exactly once |
| Codec.MemcachedCacheEntryHttp.ToByteArray | httpclient-cache/src/main/java/org/apache/http/impl/client/cache/MemcachedCacheEntryHttp.java:96-168 | the object code (response, streams, closers) computes `Encode` for the map's iteration order: a null key, then a null entry, is refused unwrapped, and every later failure is an encoding error |
| Codec.MemcachedCacheEntryHttp.WriteEntry | httpclient-cache/src/main/java/org/apache/http/impl/client/cache/MemcachedCacheEntryHttp.java:106-162 | the body run computes the write outcome and registers resources whose last close failure is the resource stream's |
| Codec.MemcachedCacheEntryHttp.Set | httpclient-cache/src/main/java/org/apache/http/impl/client/cache/MemcachedCacheEntryHttp.java:181-232 | succeeds exactly when `Decode` does, with its error; the storage key is assigned as soon as it is read, and the entry only on success |
| Codec.MemcachedCacheEntryHttp.ReadEntry | httpclient-cache/src/main/java/org/apache/http/impl/client/cache/MemcachedCacheEntryHttp.java:183-224 | the body run computes the read outcome, assigning the fields as `set` does, and its resources close quietly |
| Codec.ReadEntryFrom | httpclient-cache/src/main/java/org/apache/http/impl/client/cache/MemcachedCacheEntryHttp.java:199-222 | the pseudo-header extraction after the key, on the response, matches `ReadEntryFields` |
| Codec.ReadBodyFrom | httpclient-cache/src/main/java/org/apache/http/impl/client/cache/MemcachedCacheEntryHttp.java:202-214 | flag, variant map, unescaping, then the body copied only when the flag is false, matching `ReadBody` |
| RoundTrip.ReservedDistinct | httpclient-cache/src/main/java/org/apache/http/impl/client/cache/MemcachedCacheEntryHttp.java:73-78 | no two pseudo-header names match each other in any letter case |
| RoundTrip.ReadNoContent | httpclient-cache/src/main/java/org/apache/http/impl/client/cache/MemcachedCacheEntryHttp.java:127-129 | the written flag reads back true exactly when the entry has no resource |
| RoundTrip.NoContentFlagWritten | httpclient-cache/src/main/java/org/apache/http/impl/client/cache/MemcachedCacheEntryHttp.java:124-141 | the encoded headers contain the no-content flag exactly when the entry has no resource |
| RoundTrip.RoundTrip | httpclient-cache/src/main/java/org/apache/http/impl/client/cache/MemcachedCacheEntryHttp.java:96-232 | when encoding succeeds and the parser reads back what the writer writes, decoding gives the same key, dates, status, variant map and body, and the headers unescaped |
| RoundTrip.RoundTripPassesTest | httpclient5-cache/src/test/java/org/apache/hc/client5/http/impl/cache/MemcachedCacheEntryHttpTestUtils.java:198-237 | the decoded record passes the test suite's comparison whenever each header is the first of its name |
| RoundTrip.RoundTripKeepsHeaders | httpclient-cache/src/main/java/org/apache/http/impl/client/cache/MemcachedCacheEntryHttp.java:277-301 | the decoded headers are the original headers as a multiset |
| RoundTrip.EncodeOutcomes | httpclient-cache/src/main/java/org/apache/http/impl/client/cache/MemcachedCacheEntryHttp.java:124-161 | encoding succeeds exactly when the lengths fit an int, the stream holds the declared bytes and closes quietly; a resource over Integer.MAX_VALUE is refused |
| RoundTrip.EncodedLayout | httpclient-cache/src/main/java/org/apache/http/impl/client/cache/MemcachedCacheEntryHttp.java:156-161 | the output is the head's bytes followed by exactly `resourceLength` body bytes |
| RoundTrip.DecodeFailures | httpclient-cache/src/main/java/org/apache/http/impl/client/cache/MemcachedCacheEntryHttp.java:181-232 | a parse failure is wrapped as a deserialising error; a missing storage key reaches the caller unwrapped |
| RoundTrip.ShadowedStorageKey | httpclient-cache/src/main/java/org/apache/http/impl/client/cache/MemcachedCacheEntryHttp.java:280 | with the case-sensitive test, a header named `HC-SK` is not escaped and decodes as the storage key; with the case-insensitive test the real key is read |
| RoundTrip.AsWrittenEncodesAlike | httpclient-cache/src/main/java/org/apache/http/impl/client/cache/MemcachedCacheEntryHttp.java:121-122 | on entries without a mixed- or upper-case `hc-` name, the header block the source writes is the one the model encodes, so the round trip holds for the code as written there |

## Left out

- The message writer and parser, and the session buffers they use, are library code. They
  are modelled as a pair of functions, and the round trip assumes the parser reads back what
  the writer writes. The real pair does that only for heads it can carry unchanged: the line
  parser trims header values, and the byte conversion keeps only the low 8 bits of each
  character, so a value with leading or trailing spaces or a character outside Latin-1 does
  not come back as written.
- `CachedHttpResponseGenerator` and `NoAgeCacheValidityPolicy` build the response from the
  entry. The model starts from the entry's status line and headers; headers the generator
  would add or drop are not modelled.
- `requestMethod` only feeds that generator and is not part of the entry here.
- Dates are longs in milliseconds. `java.util.Date` is not modelled.
- Header names are compared with ASCII case folding. Other Unicode case rules are not modelled.
- Resources and streams: a read never fails with an I/O error. The response and the output
  buffer always close quietly, and only the body stream's close can fail.
- Each read delivers at most 8192 bytes, the codec's buffer size. Any other split of a stream
  into reads is not modelled.
- The `Throwable` type dispatch when a close failure is rethrown is not modelled. A close
  failure is one error value.
- The variant map's iteration order is a ghost value chosen by the encoding loop, since
  `HashMap` order is unspecified.
- A `null` byte array passed to `set` is not modelled; the bytes are a sequence.
- A header block longer than `Integer.MAX_VALUE` bytes cannot be produced in Java. The model
  keeps the overflow check for completeness.
- The getters `getStorageKey` and `getHttpCacheEntry` read the class's two fields directly.
- Escaping.EscapeHeaders: uses the case-insensitive `hc-` test, not the code's case-sensitive
  `startsWith`. The as-written test is kept as `EscapeAsWritten` and examined under Findings.
  `Escaping.EscapeAsWrittenAgrees` shows the two agree when no name starts with `hc-` in
  another letter case.
- Codec.Encode, Codec.MemcachedCacheEntryHttp.ToByteArray and
  Codec.MemcachedCacheEntryHttp.WriteEntry: encode with that corrected escaping, so a header
  such as `Hc-Foo` is renamed to `hc-esc-Hc-Foo` where the code leaves it in place. On every
  other header list they write what the code writes (`RoundTrip.AsWrittenEncodesAlike`).

## Findings

| source | as written | input that shows it | evidently intended | confidence | as-written member | corrected member |
|---|---|---|---|---|---|---|
| httpclient-cache/src/main/java/org/apache/http/impl/client/cache/MemcachedCacheEntryHttp.java:280 | escaping selects names that start with `hc-` case-sensitively, while every pseudo-header lookup ignores letter case | an entry with the header `HC-SK: forged`: it is not escaped, sits before the real `hc-sk`, and decoding returns `forged` as the storage key | escape every name that starts with `hc-` in any letter case, so no original header can match a pseudo-header | not executed | RoundTrip.ShadowedStorageKey | Escaping.EscapeHeaders |
