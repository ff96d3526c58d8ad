/**
 * What toByteArray and set promise together: decoding what was encoded gives back the storage
 * key, the dates, the status line, the variant map and the body, and the entry's headers up to
 * the reordering escaping causes, which keeps every header and what a first-match lookup finds.
 * Also the shape of the encoded bytes and the conditions under which encoding fails.
 */
module RoundTrip {
  import opened Outcomes
  import opened JavaText
  import opened HttpMessage
  import opened Escaping
  import opened PseudoHeaders
  import opened VariantMap
  import opened Cleanup
  import opened Codec

  /** Names that differ only outside letter case are told apart at position i. */
  lemma DifferAt(a: string, b: string, i: nat)
    requires i < |a| && i < |b| && LowerChar(a[i]) != LowerChar(b[i])
    ensures !EqualsIgnoreCase(a, b)
  {
    assert LowerAscii(a)[i] != LowerAscii(b)[i];
  }

  /** Two different reserved names never match each other, in any letter case. */
  lemma ReservedDistinct(h: Header, name: string)
    requires Reserved(h.name) && Reserved(name) && h.name != name
    ensures !NameMatches(h, name)
  {
    var a, b := h.name, name;
    if |a| == |b| {
      assert |a| == 13;
      if a[3] != b[3] {
        DifferAt(a, b, 3);
      } else {
        DifferAt(a, b, 10);
      }
    } else {
      assert |LowerAscii(a)| != |LowerAscii(b)|;
    }
  }

  /** Every header the encoder writes for the variant map is a variant header. */
  lemma {:induction false} VariantHeadersAreVariant(order: seq<string>, m: map<string, string>)
    requires forall k :: k in order ==> k in m
    ensures forall h :: h in VariantHeaders(order, m) ==> IsVariant(h)
  {
    if order != [] {
      VariantHeadersAreVariant(order[1..], m);
    }
  }

  /** Reserved headers of other names than `name` do not match it. */
  lemma OthersDoNotMatch(hs: seq<Header>, name: string)
    requires Reserved(name)
    requires forall h :: h in hs ==> Reserved(h.name) && h.name != name
    ensures forall h :: h in hs ==> !NameMatches(h, name)
    ensures forall k :: 0 <= k < |hs| ==> !NameMatches(hs[k], name)
  {
    forall h | h in hs
      ensures !NameMatches(h, name)
    {
      ReservedDistinct(h, name);
    }
  }

  /** No escaped header matches a reserved name, and none is a variant header. */
  lemma EscapedDoNotMatch(hs: seq<Header>, name: string)
    requires Reserved(name)
    ensures forall h :: h in Escaped(hs) ==> !NameMatches(h, name) && !IsVariant(h)
    ensures forall k :: 0 <= k < |Escaped(hs)| ==> !NameMatches(Escaped(hs)[k], name)
  {
    var e := Escaped(hs);
    EscapeRenamesExactly(hs);
    SafeListIsNotReserved(e, name);
    SafeListIsNotReserved(e, VARIANT_MAP_KEY);
    SafeListIsNotReserved(e, VARIANT_MAP_VALUE);
    forall h | h in e
      ensures !NameMatches(h, name) && !IsVariant(h)
    {
      var k :| 0 <= k < |e| && e[k] == h;
    }
  }

  /** The storage key is the first header named "hc-sk", and taking it leaves the rest in order. */
  lemma ReadStorageKey(e: seq<Header>, key: string, rest: seq<Header>)
    requires forall k :: 0 <= k < |e| ==> !NameMatches(e[k], STORAGE_KEY)
    ensures Required(e + ([Header(STORAGE_KEY, key)] + rest), STORAGE_KEY) == (Success(key), e + rest)
  {
    assert e + ([Header(STORAGE_KEY, key)] + rest) == e + [Header(STORAGE_KEY, key)] + rest;
    TakeFirstAfter(e, Header(STORAGE_KEY, key), rest, STORAGE_KEY);
  }

  /** The request date is read back, and no other header is touched. */
  lemma ReadRequestDate(e: seq<Header>, rd: Header, t: Long, tail: seq<Header>)
    requires forall h :: h in e ==> !NameMatches(h, REQUEST_DATE)
    requires rd.name == RESPONSE_DATE
    requires forall h :: h in tail ==> !NameMatches(h, REQUEST_DATE)
    ensures DateValue(e + ([rd, Header(REQUEST_DATE, LongToString(t))] + tail), REQUEST_DATE) == (Success(t), e + [rd] + tail)
  {
    var a := e + [rd];
    assert !NameMatches(rd, REQUEST_DATE) by {
      ReservedDistinct(rd, REQUEST_DATE);
    }
    assert e + ([rd, Header(REQUEST_DATE, LongToString(t))] + tail) == a + [Header(REQUEST_DATE, LongToString(t))] + tail;
    DateValueAfter(a, REQUEST_DATE, t, tail);
    WithoutNameNoMatch(a + tail, REQUEST_DATE);
  }

  /** The response date is read back, and no other header is touched. */
  lemma ReadResponseDate(e: seq<Header>, t: Long, tail: seq<Header>)
    requires forall h :: h in e ==> !NameMatches(h, RESPONSE_DATE)
    requires forall h :: h in tail ==> !NameMatches(h, RESPONSE_DATE)
    ensures DateValue(e + [Header(RESPONSE_DATE, LongToString(t))] + tail, RESPONSE_DATE) == (Success(t), e + tail)
  {
    DateValueAfter(e, RESPONSE_DATE, t, tail);
    WithoutNameNoMatch(e + tail, RESPONSE_DATE);
  }

  /** The no-content flag reads as true exactly when the encoder wrote it. */
  lemma ReadNoContent(ev: seq<Header>, entry: HttpCacheEntry)
    requires forall k :: 0 <= k < |ev| ==> !NameMatches(ev[k], NO_CONTENT)
    ensures FlagValue(ev + NoContentHeaders(entry), NO_CONTENT) == (entry.resource.None?, ev)
  {
    if entry.resource.None? {
      assert ev + NoContentHeaders(entry) == ev + [Header(NO_CONTENT, TRUE_STRING)] + [];
      FlagValueAfter(ev, NO_CONTENT, TRUE_STRING, []);
      assert ev + [] == ev;
    } else {
      assert ev + NoContentHeaders(entry) == ev;
      FlagValueAbsent(ev, NO_CONTENT);
    }
  }

  /** The entry toByteArray's bytes decode to: escaped headers unescaped, and the body copied. */
  function Reloaded(entry: HttpCacheEntry): HttpCacheEntry
    requires entry.resource.Some? ==> |entry.resource.value.data| >= entry.resource.value.length
  {
    entry.(
      headers := Unescaped(Escaped(entry.headers)),
      resource := if entry.resource.None? then None
                  else Some(Resource(entry.resource.value.length, BodyBytes(entry), None)))
  }

  /** The pseudo-headers after the storage key, as the encoder writes them. */
  function AfterStorageKey(entry: HttpCacheEntry, order: seq<string>): seq<Header>
    requires forall k :: k in order ==> k in entry.variantMap
  {
    [Header(RESPONSE_DATE, LongToString(entry.responseDate)), Header(REQUEST_DATE, LongToString(entry.requestDate))]
    + VariantHeaders(order, entry.variantMap) + NoContentHeaders(entry)
  }

  /** The storage key is read back first, and taking it leaves the rest of the block in order. */
  lemma ReadEncodedKey(key: string, entry: HttpCacheEntry, order: seq<string>)
    requires forall k :: k in order ==> k in entry.variantMap
    ensures Required(EncodedHeaders(Escape, key, entry, order), STORAGE_KEY)
      == (Success(key), Escaped(entry.headers) + AfterStorageKey(entry, order))
  {
    var e := Escaped(entry.headers);
    var rest := AfterStorageKey(entry, order);
    assert EncodedHeaders(Escape, key, entry, order) == e + ([Header(STORAGE_KEY, key)] + rest);
    EscapedDoNotMatch(entry.headers, STORAGE_KEY);
    ReadStorageKey(e, key, rest);
  }

  /** The request date is read back first, leaving the response date and what follows it. */
  lemma ReadEncodedRequestDate(entry: HttpCacheEntry, order: seq<string>)
    requires forall k :: k in order ==> k in entry.variantMap
    ensures var e, rest := Escaped(entry.headers), VariantHeaders(order, entry.variantMap) + NoContentHeaders(entry);
      var rd := Header(RESPONSE_DATE, LongToString(entry.responseDate));
      DateValue(e + AfterStorageKey(entry, order), REQUEST_DATE) == (Success(entry.requestDate), e + [rd] + rest)
  {
    var e := Escaped(entry.headers);
    var rest := VariantHeaders(order, entry.variantMap) + NoContentHeaders(entry);
    var rd := Header(RESPONSE_DATE, LongToString(entry.responseDate));
    VariantHeadersAreVariant(order, entry.variantMap);
    EscapedDoNotMatch(entry.headers, REQUEST_DATE);
    OthersDoNotMatch(rest, REQUEST_DATE);
    assert e + AfterStorageKey(entry, order) == e + ([rd, Header(REQUEST_DATE, LongToString(entry.requestDate))] + rest);
    ReadRequestDate(e, rd, entry.requestDate, rest);
  }

  /** Then the response date, leaving the escaped headers and the rest of the block. */
  lemma ReadEncodedResponseDate(entry: HttpCacheEntry, order: seq<string>)
    requires forall k :: k in order ==> k in entry.variantMap
    ensures var e, rest := Escaped(entry.headers), VariantHeaders(order, entry.variantMap) + NoContentHeaders(entry);
      var rd := Header(RESPONSE_DATE, LongToString(entry.responseDate));
      DateValue(e + [rd] + rest, RESPONSE_DATE) == (Success(entry.responseDate), e + rest)
  {
    var rest := VariantHeaders(order, entry.variantMap) + NoContentHeaders(entry);
    VariantHeadersAreVariant(order, entry.variantMap);
    EscapedDoNotMatch(entry.headers, RESPONSE_DATE);
    OthersDoNotMatch(rest, RESPONSE_DATE);
    ReadResponseDate(Escaped(entry.headers), entry.responseDate, rest);
  }

  /** The no-content flag is read back, and taking it leaves the escaped and variant headers. */
  lemma ReadEncodedFlag(entry: HttpCacheEntry, order: seq<string>)
    requires forall k :: k in order ==> k in entry.variantMap
    ensures var e, v := Escaped(entry.headers), VariantHeaders(order, entry.variantMap);
      FlagValue(e + (v + NoContentHeaders(entry)), NO_CONTENT) == (entry.resource.None?, e + v)
  {
    var e := Escaped(entry.headers);
    var v := VariantHeaders(order, entry.variantMap);
    VariantHeadersAreVariant(order, entry.variantMap);
    EscapedDoNotMatch(entry.headers, NO_CONTENT);
    OthersDoNotMatch(v, NO_CONTENT);
    assert e + (v + NoContentHeaders(entry)) == (e + v) + NoContentHeaders(entry);
    ReadNoContent(e + v, entry);
  }

  /** The variant map is read back, and taking it leaves the escaped headers. */
  lemma ReadEncodedVariants(entry: HttpCacheEntry, order: seq<string>)
    requires EnumeratesKeys(order, entry.variantMap)
    ensures var e, v := Escaped(entry.headers), VariantHeaders(order, entry.variantMap);
      DecodeVariants(e + v) == (Success(entry.variantMap), e)
  {
    var e := Escaped(entry.headers);
    var v := VariantHeaders(order, entry.variantMap);
    EscapedDoNotMatch(entry.headers, NO_CONTENT);
    DecodeVariantHeaders(e, order, entry.variantMap, []);
    assert e + v + [] == e + v && e + [] == e;
  }

  /** After the dates: the flag, the variant map, the unescaped headers and the body come back. */
  lemma ReadEncodedBody(entry: HttpCacheEntry, order: seq<string>, body: seq<Byte>)
    requires EnumeratesKeys(order, entry.variantMap)
    requires entry.resource.Some? ==> |entry.resource.value.data| >= entry.resource.value.length
    requires entry.resource.Some? ==> body == BodyBytes(entry)
    ensures ReadBody(Escaped(entry.headers) + (VariantHeaders(order, entry.variantMap) + NoContentHeaders(entry)),
                     entry.status, body, entry.requestDate, entry.responseDate)
      == Success(Reloaded(entry))
  {
    ReadEncodedFlag(entry, order);
    ReadEncodedVariants(entry, order);
  }

  /** Reading the rest of the block back gives the dates, the flag, the variant map and the headers. */
  lemma ReadEncodedFields(entry: HttpCacheEntry, order: seq<string>, body: seq<Byte>)
    requires EnumeratesKeys(order, entry.variantMap)
    requires entry.resource.Some? ==> |entry.resource.value.data| >= entry.resource.value.length
    requires entry.resource.Some? ==> body == BodyBytes(entry)
    ensures ReadEntryFields(Escaped(entry.headers) + AfterStorageKey(entry, order), entry.status, body)
      == Success(Reloaded(entry))
  {
    ReadEncodedRequestDate(entry, order);
    ReadEncodedResponseDate(entry, order);
    ReadEncodedBody(entry, order, body);
  }

  /**
   * The round trip: when toByteArray succeeds and the writer/parser pair reads back what it
   * writes, set on its bytes succeeds with the same storage key and the reloaded entry.
   */
  lemma RoundTrip(key: string, entry: HttpCacheEntry, f: Framing, order: seq<string>)
    requires RoundTrips(f)
    requires EnumeratesKeys(order, entry.variantMap)
    requires Encode(Some(key), Some(entry), f, order).Success?
    ensures entry.resource.Some? ==> |entry.resource.value.data| >= entry.resource.value.length
    ensures Decode(Encode(Some(key), Some(entry), f, order).value, f) == Success((key, Reloaded(entry)))
  {
    var head := EncodedHead(key, entry, order);
    var headerBytes := f.write(head);
    var body := ResourceData(entry)[..ResourceLength(entry)];
    assert Encode(Some(key), Some(entry), f, order).value == headerBytes + body;
    assert f.parse(headerBytes + body) == Some((head, body));
    ReadEncodedKey(key, entry, order);
    ReadEncodedFields(entry, order, body);
  }

  /** The test suite's comparison of an expected and a decoded (storage key, entry) pair. */
  predicate TestEquivalent(expected: (string, HttpCacheEntry), actual: (string, HttpCacheEntry)) {
    var (e, a) := (expected.1, actual.1);
    expected.0 == actual.0 &&
    e.requestDate == a.requestDate && e.responseDate == a.responseDate && e.status == a.status &&
    e.variantMap == a.variantMap &&
    (forall h :: h in e.headers ==> FirstHeader(a.headers, h.name) == Some(h)) &&
    (e.resource.None? <==> a.resource.None?) &&
    (e.resource.Some? && a.resource.Some? ==> Contents(e.resource.value) == Contents(a.resource.value))
  }

  /**
   * What the test suite reads from a resource: an array of its declared length, filled from the
   * stream as far as the stream goes and left zero after that.
   */
  function Contents(r: Resource): (c: seq<Byte>)
    ensures |c| == r.length
  {
    if |r.data| >= r.length then r.data[..r.length] else r.data + seq(r.length - |r.data|, _ => 0)
  }

  /**
   * The decoded entry passes the test suite's comparison whenever every header of the entry is
   * the first one of its name, the case the suite supports.
   */
  lemma RoundTripPassesTest(key: string, entry: HttpCacheEntry, f: Framing, order: seq<string>)
    requires RoundTrips(f)
    requires EnumeratesKeys(order, entry.variantMap)
    requires Encode(Some(key), Some(entry), f, order).Success?
    requires forall h :: h in entry.headers ==> FirstHeader(entry.headers, h.name) == Some(h)
    ensures Decode(Encode(Some(key), Some(entry), f, order).value, f).Success?
    ensures TestEquivalent((key, entry), Decode(Encode(Some(key), Some(entry), f, order).value, f).value)
  {
    RoundTrip(key, entry, f, order);
    var r := Reloaded(entry);
    assert forall h :: h in entry.headers ==> FirstHeader(r.headers, h.name) == Some(h) by {
      forall h | h in entry.headers
        ensures FirstHeader(r.headers, h.name) == Some(h)
      {
        UnescapeEscapeFirstHeader(entry.headers, h.name);
      }
    }
    if entry.resource.Some? {
      var res := entry.resource.value;
      assert Contents(r.resource.value) == res.data[..res.length] == Contents(res);
    }
  }

  /** Decoding what was encoded keeps every header of the entry, each as often as it occurred. */
  lemma RoundTripKeepsHeaders(key: string, entry: HttpCacheEntry, f: Framing, order: seq<string>)
    requires RoundTrips(f)
    requires EnumeratesKeys(order, entry.variantMap)
    requires Encode(Some(key), Some(entry), f, order).Success?
    ensures Decode(Encode(Some(key), Some(entry), f, order).value, f).Success?
    ensures multiset(Decode(Encode(Some(key), Some(entry), f, order).value, f).value.1.headers) == multiset(entry.headers)
  {
    RoundTrip(key, entry, f, order);
    UnescapeEscapeMultiset(entry.headers);
  }

  /**
   * toByteArray succeeds exactly when the resource (if any) fits an int, the head and body
   * together fit an int, the stream holds the declared number of bytes and closes quietly.
   */
  lemma EncodeOutcomes(key: string, entry: HttpCacheEntry, f: Framing, order: seq<string>)
    requires EnumeratesKeys(order, entry.variantMap)
    ensures Encode(Some(key), Some(entry), f, order).Success? <==>
      (entry.resource.None? && |f.write(EncodedHead(key, entry, order))| <= INT_MAX) ||
      (entry.resource.Some? &&
       entry.resource.value.length <= INT_MAX &&
       |f.write(EncodedHead(key, entry, order))| + entry.resource.value.length <= INT_MAX &&
       |entry.resource.value.data| >= entry.resource.value.length &&
       entry.resource.value.closeFailure.None?)
    ensures entry.resource.Some? && entry.resource.value.length > INT_MAX ==>
      Encode(Some(key), Some(entry), f, order) == Failure(EncodingError(ResourceTooBig(entry.resource.value.length)))
  {
  }

  /**
   * The encoded bytes are the head's bytes followed by exactly the declared number of body bytes,
   * the first ones the resource's stream delivers.
   */
  lemma EncodedLayout(key: string, entry: HttpCacheEntry, f: Framing, order: seq<string>)
    requires EnumeratesKeys(order, entry.variantMap)
    requires Encode(Some(key), Some(entry), f, order).Success?
    ensures var bytes := Encode(Some(key), Some(entry), f, order).value;
      var headerBytes := f.write(EncodedHead(key, entry, order));
      |bytes| == |headerBytes| + ResourceLength(entry) &&
      bytes[..|headerBytes|] == headerBytes &&
      bytes[|headerBytes|..] == ResourceData(entry)[..ResourceLength(entry)]
  {
    var headerBytes := f.write(EncodedHead(key, entry, order));
    var body := ResourceData(entry)[..ResourceLength(entry)];
    assert Encode(Some(key), Some(entry), f, order).value == headerBytes + body;
    assert (headerBytes + body)[..|headerBytes|] == headerBytes;
    assert (headerBytes + body)[|headerBytes|..] == body;
  }

  /** The encoded head carries the no-content flag exactly when the entry has no resource. */
  lemma NoContentFlagWritten(key: string, entry: HttpCacheEntry, order: seq<string>)
    requires EnumeratesKeys(order, entry.variantMap)
    ensures FirstHeader(EncodedHeaders(Escape, key, entry, order), NO_CONTENT).Some? <==> entry.resource.None?
  {
    var e := Escaped(entry.headers);
    var m := MetadataHeaders(key, entry, order);
    VariantHeadersAreVariant(order, entry.variantMap);
    EscapedDoNotMatch(entry.headers, NO_CONTENT);
    OthersDoNotMatch(m, NO_CONTENT);
    FirstIndexSpec(e, NO_CONTENT);
    FirstIndexSpec(m, NO_CONTENT);
    assert EncodedHeaders(Escape, key, entry, order) == (e + m) + NoContentHeaders(entry);
    FirstHeaderAppend(e, m, NO_CONTENT);
    FirstHeaderAppend(e + m, NoContentHeaders(entry), NO_CONTENT);
    if entry.resource.None? {
      FirstIndexSpec(NoContentHeaders(entry), NO_CONTENT);
    }
  }

  /** A parse failure is reported wrapped; a missing storage key is reported as it is. */
  lemma DecodeFailures(bytes: seq<Byte>, f: Framing)
    ensures f.parse(bytes).None? ==> Decode(bytes, f) == Failure(DeserializingError(MalformedMessage))
    ensures f.parse(bytes).Some? &&
      (forall k :: 0 <= k < |f.parse(bytes).value.0.headers| ==> !NameMatches(f.parse(bytes).value.0.headers[k], STORAGE_KEY))
      ==> Decode(bytes, f) == Failure(MissingHeader(STORAGE_KEY))
  {
    if f.parse(bytes).Some? {
      RequiredSpec(f.parse(bytes).value.0.headers, STORAGE_KEY);
    }
  }

  /**
   * On entries whose header names carry "hc-" only in lower case, the source's case-sensitive
   * escaping writes exactly the header block the model encodes, so the round trip and the layout
   * lemmas hold for the program as written on those entries.
   */
  lemma AsWrittenEncodesAlike(key: string, entry: HttpCacheEntry, order: seq<string>)
    requires forall k :: k in order ==> k in entry.variantMap
    requires NoMixedCasePrefix(entry.headers)
    ensures EncodedHeaders(EscapeAsWritten, key, entry, order) == EncodedHeaders(Escape, key, entry, order)
  {
    EscapeAsWrittenAgrees(entry.headers);
  }

  /**
   * The escaping the source performs tests for "hc-" case-sensitively, while the lookups that
   * read the pseudo-headers back ignore letter case. An original header named "HC-SK" is then
   * written unescaped ahead of the storage-key pseudo-header, and decoding returns its value as
   * the storage key.
   */
  lemma ShadowedStorageKey(key: string, entry: HttpCacheEntry, order: seq<string>)
    requires EnumeratesKeys(order, entry.variantMap)
    requires entry.headers == [Header("HC-SK", "forged")]
    ensures Required(EncodedHeaders(EscapeAsWritten, key, entry, order), STORAGE_KEY).0 == Success("forged")
    ensures Required(EncodedHeaders(Escape, key, entry, order), STORAGE_KEY).0 == Success(key)
  {
    var h := Header("HC-SK", "forged");
    assert !StartsWith(h.name, CACHE_ENTRY_PREFIX) by {
      assert h.name[..3] != CACHE_ENTRY_PREFIX by {
        assert h.name[0] == 'H';
      }
    }
    NoneSelected([h], EscapeAsWritten);
    assert RenameAll([], EscapeAsWritten) == [];
    assert Relocated([h], EscapeAsWritten) == [h];
    assert NameMatches(h, STORAGE_KEY) by {
      assert LowerAscii(h.name) == "hc-sk";
      assert LowerAscii(STORAGE_KEY) == "hc-sk";
    }
    var rest := PseudoHeaderBlock(key, entry, order);
    TakeFirstAfter([], h, rest, STORAGE_KEY);
    assert EncodedHeaders(EscapeAsWritten, key, entry, order) == [] + [h] + rest;
    ReadEncodedKey(key, entry, order);
  }
}
