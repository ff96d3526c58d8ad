/**
 * MemcachedCacheEntryHttp: a storage key and a cache entry, serialised as an HTTP/1.1-shaped
 * message. Encoding escapes the entry's own "hc-" headers, appends the metadata pseudo-headers
 * (storage key, response date, request date, one key/value pair per variant-map entry, and a
 * no-content flag when there is no body), writes the head with the external writer and appends
 * exactly the declared number of body bytes. Decoding parses the head, takes the pseudo-headers
 * out again, unescapes what is left and keeps every byte after the head as the body.
 */
module Codec {
  import opened Outcomes
  import opened JavaText
  import opened HttpMessage
  import opened Escaping
  import opened PseudoHeaders
  import opened VariantMap
  import opened Transfer
  import opened Cleanup

  /**
   * A cache entry's body: the length it declares, the bytes its input stream delivers, and how
   * closing that stream ends.
   */
  datatype Resource = Resource(length: nat, data: seq<Byte>, closeFailure: Option<Error>)

  /** HttpCacheEntry, with its dates as milliseconds since the epoch. */
  datatype HttpCacheEntry = HttpCacheEntry(
    requestDate: Long,
    responseDate: Long,
    status: StatusLine,
    headers: seq<Header>,
    resource: Option<Resource>,
    variantMap: map<string, string>)

  /** The headers addMetadataPseudoHeaders appends: storage key, dates, then the variant pairs. */
  function MetadataHeaders(storageKey: string, entry: HttpCacheEntry, order: seq<string>): seq<Header>
    requires forall k :: k in order ==> k in entry.variantMap
  {
    [Header(STORAGE_KEY, storageKey),
     Header(RESPONSE_DATE, LongToString(entry.responseDate)),
     Header(REQUEST_DATE, LongToString(entry.requestDate))]
    + VariantHeaders(order, entry.variantMap)
  }

  /** The no-content flag, present exactly when the entry has no resource. */
  function NoContentHeaders(entry: HttpCacheEntry): seq<Header> {
    if entry.resource.None? then [Header(NO_CONTENT, TRUE_STRING)] else []
  }

  /** The pseudo-headers the encoder appends after the entry's escaped headers, in order. */
  function PseudoHeaderBlock(storageKey: string, entry: HttpCacheEntry, order: seq<string>): seq<Header>
    requires forall k :: k in order ==> k in entry.variantMap
  {
    MetadataHeaders(storageKey, entry, order) + NoContentHeaders(entry)
  }

  /** The header block written for an entry, when the escaping pass is `w`. */
  function EncodedHeaders(w: Rewrite, storageKey: string, entry: HttpCacheEntry, order: seq<string>): seq<Header>
    requires forall k :: k in order ==> k in entry.variantMap
  {
    Relocated(entry.headers, w) + PseudoHeaderBlock(storageKey, entry, order)
  }

  /** The head toByteArray hands to the message writer. */
  function EncodedHead(storageKey: string, entry: HttpCacheEntry, order: seq<string>): Head
    requires forall k :: k in order ==> k in entry.variantMap
  {
    Head(entry.status, EncodedHeaders(Escape, storageKey, entry, order))
  }

  /** The number of body bytes the encoder copies: none without a resource. */
  function ResourceLength(entry: HttpCacheEntry): nat {
    if entry.resource.None? then 0 else entry.resource.value.length
  }

  /** The body bytes the encoder copies, when the resource's stream has enough of them. */
  function BodyBytes(entry: HttpCacheEntry): seq<Byte>
    requires entry.resource.Some? ==> |entry.resource.value.data| >= entry.resource.value.length
  {
    if entry.resource.None? then [] else entry.resource.value.data[..entry.resource.value.length]
  }

  /**
   * The byte array toByteArray fills: room for the head's bytes and `length` body bytes, whose
   * size overflows to a negative int (and the allocation fails) when the two exceed
   * Integer.MAX_VALUE; the head's bytes, then the first `length` bytes of `input`, or a short read
   * naming both counts when `input` ends first.
   */
  function Assemble(headerBytes: seq<Byte>, input: seq<Byte>, length: nat): Result<seq<Byte>> {
    var total := |headerBytes| + length;
    if total > INT_MAX then Failure(NegativeArraySize(total - 0x1_0000_0000))
    else if |input| < length then Failure(ShortRead(length, |input|))
    else Success(headerBytes + input[..length])
  }

  /** The bytes the resource's stream delivers; nothing without a resource. */
  function ResourceData(entry: HttpCacheEntry): seq<Byte> {
    if entry.resource.None? then [] else entry.resource.value.data
  }

  /**
   * The outcome of the body toByteArray runs with its resources: a resource longer than
   * Integer.MAX_VALUE is refused; otherwise the head's bytes and the body are assembled.
   */
  function WriteOutcome(storageKey: string, entry: HttpCacheEntry, f: Framing, order: seq<string>): Result<seq<Byte>>
    requires forall k :: k in order ==> k in entry.variantMap
  {
    if entry.resource.Some? && entry.resource.value.length > INT_MAX then
      Failure(ResourceTooBig(entry.resource.value.length))
    else Assemble(f.write(EncodedHead(storageKey, entry, order)), ResourceData(entry), ResourceLength(entry))
  }

  /**
   * The close failure runWithResources reports for toByteArray: the response and the output
   * buffer close quietly, and the resource's stream is registered only once its length passed.
   */
  function WriteCloseFailure(entry: HttpCacheEntry): Option<Error> {
    if entry.resource.Some? && entry.resource.value.length <= INT_MAX then entry.resource.value.closeFailure
    else None
  }

  /**
   * toByteArray: a missing storage key or entry is refused before anything else, unwrapped;
   * every later failure, including a failure to close the resource's stream after an otherwise
   * successful run, comes wrapped as an encoding error.
   */
  function Encode(storageKey: Option<string>, entry: Option<HttpCacheEntry>, f: Framing, order: seq<string>)
    : (r: Result<seq<Byte>>)
    requires storageKey.Some? && entry.Some? ==> forall k :: k in order ==> k in entry.value.variantMap
    ensures storageKey.None? ==> r == Failure(NullStorageKey)
    ensures storageKey.Some? && entry.None? ==> r == Failure(NullCacheEntry)
    ensures storageKey.Some? && entry.Some? && r.Failure? ==> r.error.EncodingError?
  {
    if storageKey.None? then Failure(NullStorageKey)
    else if entry.None? then Failure(NullCacheEntry)
    else
      match Merge(WriteOutcome(storageKey.value, entry.value, f, order), WriteCloseFailure(entry.value))
      case Success(bytes) => Success(bytes)
      case Failure(e) => Failure(EncodingError(e))
  }

  /**
   * What set reads after the storage key, from the remaining headers, the status line and the
   * bytes after the head: the first failing step (request date, response date, variant map), or
   * the entry, whose body is every byte after the head unless the no-content flag is set.
   */
  function ReadEntryFields(headers: seq<Header>, status: StatusLine, rest: seq<Byte>): (r: Result<HttpCacheEntry>)
    ensures r.Failure? ==> r.error.MissingHeader? || r.error.InvalidHeader? || r.error == MismatchedVariantHeaders
  {
    var (requestDate, h2) := DateValue(headers, REQUEST_DATE);
    if requestDate.Failure? then Failure(requestDate.error)
    else
      var (responseDate, h3) := DateValue(h2, RESPONSE_DATE);
      if responseDate.Failure? then Failure(responseDate.error)
      else ReadBody(h3, status, rest, requestDate.value, responseDate.value)
  }

  /** The steps after the dates: the no-content flag, the variant map, unescaping and the body. */
  function ReadBody(headers: seq<Header>, status: StatusLine, rest: seq<Byte>, requestDate: Long, responseDate: Long)
    : (r: Result<HttpCacheEntry>)
    ensures r.Failure? ==> r.error == MismatchedVariantHeaders
  {
    var (noBody, h4) := FlagValue(headers, NO_CONTENT);
    var (variantMap, h5) := DecodeVariants(h4);
    if variantMap.Failure? then Failure(variantMap.error)
    else
      var resource := if noBody then None else Some(Resource(|rest|, rest, None));
      Success(HttpCacheEntry(requestDate, responseDate, status, Unescaped(h5), resource, variantMap.value))
  }

  /**
   * The outcome of the body set runs with its resources, on the bytes: the parser's failure, a
   * missing storage key, or what the remaining steps read.
   */
  function ReadOutcome(bytes: seq<Byte>, f: Framing): (r: Result<(string, HttpCacheEntry)>)
    ensures r.Failure? ==> (IsCheckedException(r.error) <==> f.parse(bytes).None?)
    ensures r.Success? ==> StoredKey(bytes, f) == Some(r.value.0)
  {
    match f.parse(bytes)
    case None => Failure(MalformedMessage)
    case Some((head, rest)) =>
      var (key, h1) := Required(head.headers, STORAGE_KEY);
      if key.Failure? then Failure(key.error)
      else
        match ReadEntryFields(h1, head.status, rest)
        case Failure(e) => Failure(e)
        case Success(entry) => Success((key.value, entry))
  }

  /** The storage key set stores before any later step can fail. */
  function StoredKey(bytes: seq<Byte>, f: Framing): Option<string> {
    match f.parse(bytes)
    case None => None
    case Some((head, _)) =>
      var key := Required(head.headers, STORAGE_KEY).0;
      if key.Success? then Some(key.value) else None
  }

  /** The failures set reports wrapped: the I/O and HTTP (checked) exceptions. */
  predicate IsCheckedException(e: Error) {
    e.MalformedMessage? || e.ShortRead? || e.ResourceTooBig? || e.CloseFailed?
  }

  /**
   * set: a parse failure comes wrapped as a deserializing error; the codec's own pseudo-header
   * errors come through as they are.
   */
  function Decode(bytes: seq<Byte>, f: Framing): (r: Result<(string, HttpCacheEntry)>)
    ensures r.Failure? ==> (r.error.DeserializingError? <==> f.parse(bytes).None?)
    ensures r.Success? ==> StoredKey(bytes, f) == Some(r.value.0)
  {
    match ReadOutcome(bytes, f)
    case Success(v) => Success(v)
    case Failure(e) => Failure(if IsCheckedException(e) then DeserializingError(e) else e)
  }

  /**
   * The end of toByteArray's body: allocate the array, copy the head's bytes to its start
   * (System.arraycopy) and fill the rest from the resource's stream.
   */
  method WriteBytes(headerBytes: seq<Byte>, resourceStream: InputStream?, resourceLength: nat) returns (r: Result<seq<Byte>>)
    requires resourceLength > 0 ==> resourceStream != null
    requires resourceStream != null ==> resourceStream.Valid()
    modifies resourceStream
    ensures r == Assemble(headerBytes, if resourceStream == null then [] else old(resourceStream.Remaining()), resourceLength)
  {
    if |headerBytes| + resourceLength > INT_MAX {
      return Failure(NegativeArraySize(|headerBytes| + resourceLength - 0x1_0000_0000));
    }
    var bytes := new Byte[|headerBytes| + resourceLength];
    forall i | 0 <= i < |headerBytes| {
      bytes[i] := headerBytes[i];
    }
    ghost var input := if resourceStream == null then [] else resourceStream.Remaining();
    var copied := CopyBytes(resourceStream, bytes, |headerBytes|, resourceLength);
    if copied.Failure? {
      return Failure(copied.error);
    }
    assert bytes[..|headerBytes|] == headerBytes by {
      forall i | 0 <= i < |headerBytes|
        ensures bytes[i] == headerBytes[i]
      {
      }
    }
    assert bytes[|headerBytes|..|headerBytes| + resourceLength] == input[..resourceLength];
    assert bytes[..] == bytes[..|headerBytes|] + bytes[|headerBytes|..|headerBytes| + resourceLength];
    return Success(bytes[..]);
  }

  lemma AppendPair(a: seq<Header>, b: seq<Header>, x: Header, y: Header)
    ensures a + b + [x] + [y] == a + (b + [x, y])
  {
  }

  class MemcachedCacheEntryHttp {
    var storageKey: Option<string>
    var httpCacheEntry: Option<HttpCacheEntry>

    constructor (storageKey: Option<string>, entry: Option<HttpCacheEntry>)
      ensures this.storageKey == storageKey && httpCacheEntry == entry
    {
      this.storageKey := storageKey;
      httpCacheEntry := entry;
    }

    /** The no-argument constructor, for an object that set will fill. */
    constructor Empty()
      ensures storageKey.None? && httpCacheEntry.None?
    {
      storageKey := None;
      httpCacheEntry := None;
    }

    /**
     * addMetadataPseudoHeaders: appends the storage key, the two dates and one key/value header
     * pair per variant-map entry, in the map's iteration order `order` (each key exactly once).
     */
    method AddMetadataPseudoHeaders(response: Response) returns (ghost order: seq<string>)
      requires storageKey.Some? && httpCacheEntry.Some?
      modifies response
      ensures EnumeratesKeys(order, httpCacheEntry.value.variantMap)
      ensures response.headers == old(response.headers) + MetadataHeaders(storageKey.value, httpCacheEntry.value, order)
      ensures response.status == old(response.status)
    {
      var entry := httpCacheEntry.value;
      ghost var base := response.headers;
      response.AddHeader(STORAGE_KEY, storageKey.value);
      response.AddHeader(RESPONSE_DATE, LongToString(entry.responseDate));
      response.AddHeader(REQUEST_DATE, LongToString(entry.requestDate));
      ghost var start := response.headers;
      var remaining := entry.variantMap.Keys;
      order := [];
      while remaining != {}
        invariant remaining <= entry.variantMap.Keys
        invariant forall k :: k in order ==> k in entry.variantMap && k !in remaining
        invariant forall k :: k in entry.variantMap ==> k in order || k in remaining
        invariant forall i, j :: 0 <= i < j < |order| ==> order[i] != order[j]
        invariant response.headers == start + VariantHeaders(order, entry.variantMap)
        invariant response.status == old(response.status)
        decreases remaining
      {
        var key :| key in remaining;
        ghost var pairs := VariantHeaders(order, entry.variantMap);
        response.AddHeader(VARIANT_MAP_KEY, key);
        response.AddHeader(VARIANT_MAP_VALUE, entry.variantMap[key]);
        assert response.headers == start + VariantHeaders(order + [key], entry.variantMap) by {
          VariantHeadersAppend(order, key, entry.variantMap);
          AppendPair(start, pairs, Header(VARIANT_MAP_KEY, key), Header(VARIANT_MAP_VALUE, entry.variantMap[key]));
        }
        order := order + [key];
        remaining := remaining - {key};
      }
      assert start == base + MetadataHeaders(storageKey.value, entry, [])[..3];
    }

    /** toByteArray, for a given message writer/parser pair; `order` is the variant map's iteration order. */
    method ToByteArray(f: Framing) returns (r: Result<seq<Byte>>, ghost order: seq<string>)
      ensures storageKey.Some? && httpCacheEntry.Some? ==> EnumeratesKeys(order, httpCacheEntry.value.variantMap)
      ensures r == Encode(storageKey, httpCacheEntry, f, order)
      ensures storageKey.None? ==> r == Failure(NullStorageKey)
      ensures storageKey.Some? && httpCacheEntry.None? ==> r == Failure(NullCacheEntry)
      ensures storageKey.Some? && httpCacheEntry.Some? && r.Failure? ==> r.error.EncodingError?
    {
      order := [];
      if storageKey.None? {
        return Failure(NullStorageKey), order;
      }
      if httpCacheEntry.None? {
        return Failure(NullCacheEntry), order;
      }
      var resources := new TryWithResources();
      var ret;
      ret, order := WriteEntry(resources, f);
      var outcome := resources.RunWithResources(ret);
      if outcome.Failure? {
        return Failure(EncodingError(outcome.error)), order;
      }
      return outcome, order;
    }

    /** The body toByteArray runs, registering the resources it opens with `resources`. */
    method WriteEntry(resources: TryWithResources, f: Framing) returns (ret: Result<seq<Byte>>, ghost order: seq<string>)
      requires storageKey.Some? && httpCacheEntry.Some?
      requires resources.resources == []
      modifies resources
      ensures EnumeratesKeys(order, httpCacheEntry.value.variantMap)
      ensures ret == WriteOutcome(storageKey.value, httpCacheEntry.value, f, order)
      ensures LastCloseFailure(resources.resources) == WriteCloseFailure(httpCacheEntry.value)
      ensures forall c :: c in resources.resources ==> fresh(c)
    {
      var entry := httpCacheEntry.value;
      var httpResponse := new Response(Head(entry.status, entry.headers));
      var responseCloser := new Closeable(None);
      resources.AddResource(responseCloser);
      var outCloser := new Closeable(None);
      resources.AddResource(outCloser);
      assert LastCloseFailure(resources.resources) == None by {
        LastCloseFailureSnoc([responseCloser], outCloser);
        LastCloseFailureSnoc([], responseCloser);
        assert [] + [responseCloser] == [responseCloser];
      }

      EscapeHeaders(httpResponse);
      order := AddMetadataPseudoHeaders(httpResponse);

      var resourceLength: nat;
      var resourceStream: InputStream?;
      if entry.resource.None? {
        httpResponse.AddHeader(NO_CONTENT, TRUE_STRING);
        resourceLength := 0;
        resourceStream := null;
      } else {
        var resource := entry.resource.value;
        if resource.length > INT_MAX {
          return Failure(ResourceTooBig(resource.length)), order;
        }
        resourceLength := resource.length;
        resourceStream := new InputStream(resource.data, BUFFER_SIZE);
        assert resourceStream.Remaining() == resource.data;
        var streamCloser := new Closeable(resource.closeFailure);
        LastCloseFailureSnoc(resources.resources, streamCloser);
        resources.AddResource(streamCloser);
      }
      assert httpResponse.GetHead() == EncodedHead(storageKey.value, entry, order);
      ret := WriteBytes(f.write(httpResponse.GetHead()), resourceStream, resourceLength);
    }

    /**
     * set: the storage key is stored as soon as it has been read, even when a later step fails;
     * the entry is stored only when decoding succeeds.
     */
    method Set(bytes: seq<Byte>, f: Framing) returns (r: Result<()>)
      modifies this
      ensures r.Success? <==> Decode(bytes, f).Success?
      ensures r.Failure? ==> r.error == Decode(bytes, f).error
      ensures storageKey == if StoredKey(bytes, f).Some? then StoredKey(bytes, f) else old(storageKey)
      ensures httpCacheEntry == if Decode(bytes, f).Success? then Some(Decode(bytes, f).value.1) else old(httpCacheEntry)
    {
      var resources := new TryWithResources();
      var ret := ReadEntry(resources, bytes, f);
      var outcome := resources.RunWithResources(ret);
      if outcome.Failure? && IsCheckedException(outcome.error) {
        return Failure(DeserializingError(outcome.error));
      }
      return outcome;
    }

    /** The body set runs, registering the resources it opens with `resources`. */
    method ReadEntry(resources: TryWithResources, bytes: seq<Byte>, f: Framing) returns (ret: Result<()>)
      requires resources.resources == []
      modifies this, resources
      ensures ret.Success? <==> ReadOutcome(bytes, f).Success?
      ensures ret.Failure? ==> ret.error == ReadOutcome(bytes, f).error
      ensures storageKey == if StoredKey(bytes, f).Some? then StoredKey(bytes, f) else old(storageKey)
      ensures httpCacheEntry == if ReadOutcome(bytes, f).Success? then Some(ReadOutcome(bytes, f).value.1) else old(httpCacheEntry)
      ensures LastCloseFailure(resources.resources) == None
      ensures forall c :: c in resources.resources ==> fresh(c)
    {
      var inCloser := new Closeable(None);
      resources.AddResource(inCloser);
      var bytesOut := new ByteArrayOutputStream();
      var outCloser := new Closeable(None);
      resources.AddResource(outCloser);
      assert LastCloseFailure(resources.resources) == None by {
        LastCloseFailureSnoc([inCloser], outCloser);
        LastCloseFailureSnoc([], inCloser);
        assert [] + [inCloser] == [inCloser];
      }

      var parsed := f.parse(bytes);
      if parsed.None? {
        return Failure(MalformedMessage);
      }
      var head, rest := parsed.value.0, parsed.value.1;
      var inputBuffer := new InputStream(rest, BUFFER_SIZE);
      var response := new Response(head);

      var key := GetCachePseudoHeaderAndRemove(response, STORAGE_KEY);
      if key.Failure? {
        return Failure(key.error);
      }
      storageKey := Some(key.value);
      var entry := ReadEntryFrom(response, inputBuffer, bytesOut);
      if entry.Failure? {
        return Failure(entry.error);
      }
      httpCacheEntry := Some(entry.value);
      return Success(());
    }
  }

  /**
   * The rest of set's body: the dates, the no-content flag and the variant map are taken out of
   * the response, the remaining headers are unescaped, and unless the flag is set every byte left
   * in the input buffer becomes the body.
   */
  method ReadEntryFrom(response: Response, inputBuffer: InputStream, bytesOut: ByteArrayOutputStream)
    returns (r: Result<HttpCacheEntry>)
    requires inputBuffer.Valid() && bytesOut.bytes == []
    modifies response, inputBuffer, bytesOut
    ensures r == ReadEntryFields(old(response.headers), old(response.status), old(inputBuffer.Remaining()))
  {
    var requestDate := GetCachePseudoHeaderDateAndRemove(response, REQUEST_DATE);
    if requestDate.Failure? {
      return Failure(requestDate.error);
    }
    var responseDate := GetCachePseudoHeaderDateAndRemove(response, RESPONSE_DATE);
    if responseDate.Failure? {
      return Failure(responseDate.error);
    }
    r := ReadBodyFrom(response, inputBuffer, bytesOut, requestDate.value, responseDate.value);
  }

  /** The end of set's body, once both dates are read. */
  method ReadBodyFrom(response: Response, inputBuffer: InputStream, bytesOut: ByteArrayOutputStream,
                      requestDate: Long, responseDate: Long) returns (r: Result<HttpCacheEntry>)
    requires inputBuffer.Valid() && bytesOut.bytes == []
    modifies response, inputBuffer, bytesOut
    ensures r == ReadBody(old(response.headers), old(response.status), old(inputBuffer.Remaining()), requestDate, responseDate)
  {
    ghost var rest := inputBuffer.Remaining();
    var noBody := GetCachePseudoHeaderBooleanAndRemove(response, NO_CONTENT);
    var variantMap := GetVariantMapPseudoHeadersAndRemove(response);
    if variantMap.Failure? {
      return Failure(variantMap.error);
    }
    UnescapeHeaders(response);

    var resource: Option<Resource>;
    if noBody {
      resource := None;
    } else {
      CopyAll(inputBuffer, bytesOut);
      assert bytesOut.bytes == rest;
      resource := Some(Resource(|bytesOut.bytes|, bytesOut.bytes, None));
    }
    return Success(HttpCacheEntry(requestDate, responseDate, response.status, response.headers, resource, variantMap.value));
  }
}
