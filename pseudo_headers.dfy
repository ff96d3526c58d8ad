/**
 * The codec's reserved pseudo-headers and the helpers that read one of them back and take it
 * out of the response: a first-match lookup (case-insensitive, like every lookup of the message
 * object), a required variant that fails naming the header, a date variant that also removes
 * every other copy and parses a decimal long, and a flag variant that defaults to false.
 */
module PseudoHeaders {
  import opened Outcomes
  import opened JavaText
  import opened HttpMessage
  import opened Escaping

  const STORAGE_KEY: string := "hc-sk"
  const RESPONSE_DATE: string := "hc-resp-date"
  const REQUEST_DATE: string := "hc-req-date"
  const NO_CONTENT: string := "hc-no-content"
  const VARIANT_MAP_KEY: string := "hc-varmap-key"
  const VARIANT_MAP_VALUE: string := "hc-varmap-val"

  /** The names the codec adds itself; none of them starts with the escape prefix. */
  predicate Reserved(name: string) {
    name in {STORAGE_KEY, RESPONSE_DATE, REQUEST_DATE, NO_CONTENT, VARIANT_MAP_KEY, VARIANT_MAP_VALUE}
  }

  /** A header name the escaping pass can leave behind: not "hc-" in any case, or escaped. */
  predicate Safe(name: string) {
    !Collides(name) || StartsWith(name, PRESERVE_PREFIX)
  }

  /**
   * getOptionalCachePseudoHeaderAndRemove on a header list: the value of the first header whose
   * name matches, and the list without that one header; no value and the list unchanged when
   * nothing matches.
   */
  function TakeFirst(hs: seq<Header>, name: string): (r: (Option<string>, seq<Header>))
    ensures r.0.None? ==> r.1 == hs
    ensures r.0.Some? ==> |r.1| == |hs| - 1
  {
    var i := FirstIndex(hs, name);
    if i < 0 then (None, hs) else (Some(hs[i].value), hs[..i] + hs[i + 1..])
  }

  /** The lookup finds a value exactly when some header matches. */
  lemma TakeFirstSpec(hs: seq<Header>, name: string)
    ensures TakeFirst(hs, name).0.None? <==> forall k :: 0 <= k < |hs| ==> !NameMatches(hs[k], name)
  {
    FirstIndexSpec(hs, name);
  }

  /**
   * The lookup returns the first matching header and removes exactly it: whatever precedes it
   * (which holds no match) and whatever follows it stay, in order.
   */
  lemma TakeFirstAfter(a: seq<Header>, h: Header, b: seq<Header>, name: string)
    requires forall k :: 0 <= k < |a| ==> !NameMatches(a[k], name)
    requires NameMatches(h, name)
    ensures TakeFirst(a + [h] + b, name) == (Some(h.value), a + b)
  {
    var hs := a + [h] + b;
    FirstIndexSpec(a, name);
    FirstIndexAppend(a, [h] + b, name);
    assert hs == a + ([h] + b);
    assert FirstIndex(hs, name) == |a|;
    assert hs[..|a|] == a;
    assert hs[|a| + 1..] == b;
  }

  /** getCachePseudoHeaderAndRemove: the first match's value, or an error naming the missing header. */
  function Required(hs: seq<Header>, name: string): (r: (Result<string>, seq<Header>))
    ensures r.0.Failure? ==> r.0.error == MissingHeader(name) && r.1 == hs
    ensures r.0.Success? ==> |r.1| == |hs| - 1
  {
    var (v, rest) := TakeFirst(hs, name);
    if v.None? then (Failure(MissingHeader(name)), rest) else (Success(v.value), rest)
  }

  /** The required lookup fails, naming the header, exactly when no header matches. */
  lemma RequiredSpec(hs: seq<Header>, name: string)
    ensures Required(hs, name).0 == Failure(MissingHeader(name)) <==>
      forall k :: 0 <= k < |hs| ==> !NameMatches(hs[k], name)
  {
    TakeFirstSpec(hs, name);
  }

  /**
   * getCachePseudoHeaderDateAndRemove: the first match's value read as a decimal long. Every
   * header of that name is gone afterwards, whether the lookup failed, the value is not a long,
   * or it succeeded.
   */
  function DateValue(hs: seq<Header>, name: string): (r: (Result<Long>, seq<Header>))
    ensures r.1 == WithoutName(hs, name)
    ensures r.0.Failure? ==> r.0.error in {MissingHeader(name), InvalidHeader(name)}
  {
    var (v, rest) := Required(hs, name);
    TakeFirstWithoutName(hs, name);
    match v
    case Failure(e) => (Failure(e), rest)
    case Success(s) =>
      var remaining := WithoutName(rest, name);
      match ParseLong(s)
      case None => (Failure(InvalidHeader(name)), remaining)
      case Some(t) => (Success(t), remaining)
  }

  /** The date lookup fails as missing exactly when no header matches. */
  lemma DateValueSpec(hs: seq<Header>, name: string)
    ensures DateValue(hs, name).0 == Failure(MissingHeader(name)) <==>
      forall k :: 0 <= k < |hs| ==> !NameMatches(hs[k], name)
  {
    RequiredSpec(hs, name);
  }

  /** Removing all copies after taking the first one leaves what removing all copies leaves. */
  lemma TakeFirstWithoutName(hs: seq<Header>, name: string)
    ensures WithoutName(TakeFirst(hs, name).1, name) == WithoutName(hs, name)
    ensures TakeFirst(hs, name).0.None? ==> WithoutName(hs, name) == hs
  {
    FirstIndexSpec(hs, name);
    var i := FirstIndex(hs, name);
    if i < 0 {
      WithoutNameMembers(hs, name);
      forall h | h in hs
        ensures !NameMatches(h, name)
      {
        var k :| 0 <= k < |hs| && hs[k] == h;
      }
      WithoutNameNoMatch(hs, name);
    } else {
      assert hs == hs[..i] + ([hs[i]] + hs[i + 1..]);
      WithoutNameAppend(hs[..i], [hs[i]] + hs[i + 1..], name);
      WithoutNameAppend([hs[i]], hs[i + 1..], name);
      WithoutNameAppend(hs[..i], hs[i + 1..], name);
      assert WithoutName([hs[i]], name) == [] by {
        assert [hs[i]][1..] == [];
      }
    }
  }

  /** A date written by Long.toString reads back as the same long, and the header is consumed. */
  lemma DateValueAfter(a: seq<Header>, name: string, t: Long, b: seq<Header>)
    requires forall k :: 0 <= k < |a| ==> !NameMatches(a[k], name)
    ensures DateValue(a + [Header(name, LongToString(t))] + b, name) == (Success(t), WithoutName(a + b, name))
  {
    var h := Header(name, LongToString(t));
    assert NameMatches(h, name);
    TakeFirstAfter(a, h, b, name);
    ParseLongToString(t);
  }

  /** A date header whose value is not a decimal long is a decode error naming the header. */
  lemma DateValueInvalid(a: seq<Header>, name: string, v: string, b: seq<Header>)
    requires forall k :: 0 <= k < |a| ==> !NameMatches(a[k], name)
    requires ParseLong(v).None?
    ensures DateValue(a + [Header(name, v)] + b, name).0 == Failure(InvalidHeader(name))
  {
    TakeFirstAfter(a, Header(name, v), b, name);
  }

  /**
   * getCachePseudoHeaderBooleanAndRemove: true exactly when the first match holds "true" in any
   * letter case; absent means false and is never an error.
   */
  function FlagValue(hs: seq<Header>, name: string): (r: (bool, seq<Header>))
    ensures r.0 ==> |r.1| == |hs| - 1
  {
    var (v, rest) := TakeFirst(hs, name);
    (ParseBoolean(v), rest)
  }

  /** An absent flag reads as false, and nothing is removed. */
  lemma FlagValueAbsent(hs: seq<Header>, name: string)
    requires forall k :: 0 <= k < |hs| ==> !NameMatches(hs[k], name)
    ensures FlagValue(hs, name) == (false, hs)
  {
    TakeFirstSpec(hs, name);
  }

  /** The flag written as "true" reads back as true and is consumed; any other value reads as false. */
  lemma FlagValueAfter(a: seq<Header>, name: string, v: string, b: seq<Header>)
    requires forall k :: 0 <= k < |a| ==> !NameMatches(a[k], name)
    ensures FlagValue(a + [Header(name, v)] + b, name) == (EqualsIgnoreCase(v, TRUE_STRING), a + b)
  {
    TakeFirstAfter(a, Header(name, v), b, name);
  }

  /** A header the escaping pass can leave behind never matches a reserved name. */
  lemma SafeIsNotReserved(h: Header, name: string)
    requires Safe(h.name) && Reserved(name)
    ensures !NameMatches(h, name)
  {
    var a, b := LowerAscii(h.name), LowerAscii(name);
    assert |b| > 3 && b[0] == 'h' && b[1] == 'c' && b[2] == '-' && b[3] in "srnv";
    if |a| <= 3 {
      assert |a| != |b|;
    } else if StartsWith(h.name, PRESERVE_PREFIX) {
      assert h.name[..|PRESERVE_PREFIX|][3] == 'e';
      assert a[3] == 'e' != b[3];
    } else if LowerChar(h.name[0]) != 'h' {
      assert a[0] != b[0];
    } else if LowerChar(h.name[1]) != 'c' {
      assert a[1] != b[1];
    } else {
      assert h.name[2] != '-';
      assert a[2] != b[2];
    }
  }

  /** The same for a whole list of headers. */
  lemma SafeListIsNotReserved(hs: seq<Header>, name: string)
    requires forall h :: h in hs ==> Safe(h.name)
    requires Reserved(name)
    ensures forall k :: 0 <= k < |hs| ==> !NameMatches(hs[k], name)
  {
    forall k | 0 <= k < |hs|
      ensures !NameMatches(hs[k], name)
    {
      SafeIsNotReserved(hs[k], name);
    }
  }

  /** getOptionalCachePseudoHeaderAndRemove */
  method GetOptionalCachePseudoHeaderAndRemove(response: Response, name: string) returns (v: Option<string>)
    modifies response
    ensures (v, response.headers) == TakeFirst(old(response.headers), name)
    ensures response.status == old(response.status)
  {
    var header := response.GetFirstHeader(name);
    if header.None? {
      return None;
    }
    RemoveFirstMatch(response.headers, name);
    response.RemoveHeader(header.value);
    return Some(header.value.value);
  }

  /** getCachePseudoHeaderAndRemove */
  method GetCachePseudoHeaderAndRemove(response: Response, name: string) returns (r: Result<string>)
    modifies response
    ensures (r, response.headers) == Required(old(response.headers), name)
    ensures response.status == old(response.status)
  {
    var headerValue := GetOptionalCachePseudoHeaderAndRemove(response, name);
    if headerValue.None? {
      return Failure(MissingHeader(name));
    }
    return Success(headerValue.value);
  }

  /** getCachePseudoHeaderDateAndRemove */
  method GetCachePseudoHeaderDateAndRemove(response: Response, name: string) returns (r: Result<Long>)
    modifies response
    ensures (r, response.headers) == DateValue(old(response.headers), name)
    ensures response.status == old(response.status)
  {
    var value := GetCachePseudoHeaderAndRemove(response, name);
    if value.Failure? {
      return Failure(value.error);
    }
    response.RemoveHeaders(name);
    var timestamp := ParseLong(value.value);
    if timestamp.None? {
      return Failure(InvalidHeader(name));
    }
    return Success(timestamp.value);
  }

  /** getCachePseudoHeaderBooleanAndRemove */
  method GetCachePseudoHeaderBooleanAndRemove(response: Response, name: string) returns (b: bool)
    modifies response
    ensures (b, response.headers) == FlagValue(old(response.headers), name)
    ensures response.status == old(response.status)
  {
    var value := GetOptionalCachePseudoHeaderAndRemove(response, name);
    b := ParseBoolean(value);
  }
}
