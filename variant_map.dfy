/**
 * The variant map travels as header pairs: for every entry a "hc-varmap-key" header holding the
 * key, immediately followed by a "hc-varmap-val" header holding its value. Decoding scans the
 * header list once with one pending key, removes every variant header it consumes, and rejects
 * a value without a pending key and a key still pending at the end. Both names are compared
 * exactly (String.equals), unlike the other pseudo-headers.
 */
module VariantMap {
  import opened Outcomes
  import opened HttpMessage
  import opened PseudoHeaders

  predicate IsVariant(h: Header) {
    h.name == VARIANT_MAP_KEY || h.name == VARIANT_MAP_VALUE
  }

  /** `order` lists every key of `m` exactly once: one iteration order of the map's entries. */
  predicate EnumeratesKeys(order: seq<string>, m: map<string, string>) {
    (forall k :: k in order ==> k in m) && (forall k :: k in m ==> k in order) &&
    (forall i, j :: 0 <= i < j < |order| ==> order[i] != order[j])
  }

  /** The header pairs the encoder adds, one pair per key, in the given order. */
  function VariantHeaders(order: seq<string>, m: map<string, string>): (r: seq<Header>)
    requires forall k :: k in order ==> k in m
    ensures |r| == 2 * |order|
  {
    if order == [] then []
    else [Header(VARIANT_MAP_KEY, order[0]), Header(VARIANT_MAP_VALUE, m[order[0]])] + VariantHeaders(order[1..], m)
  }

  /** The i-th key is written at position 2i, immediately followed by its value. */
  lemma {:induction false} VariantHeadersPairing(order: seq<string>, m: map<string, string>, i: nat)
    requires forall k :: k in order ==> k in m
    requires i < |order|
    ensures VariantHeaders(order, m)[2 * i] == Header(VARIANT_MAP_KEY, order[i])
    ensures VariantHeaders(order, m)[2 * i + 1] == Header(VARIANT_MAP_VALUE, m[order[i]])
  {
    if i > 0 {
      VariantHeadersPairing(order[1..], m, i - 1);
    }
  }

  lemma {:induction false} VariantHeadersAppend(order: seq<string>, k: string, m: map<string, string>)
    requires forall x :: x in order ==> x in m
    requires k in m
    ensures VariantHeaders(order + [k], m) ==
      VariantHeaders(order, m) + [Header(VARIANT_MAP_KEY, k), Header(VARIANT_MAP_VALUE, m[k])]
  {
    if order != [] {
      assert (order + [k])[1..] == order[1..] + [k];
      VariantHeadersAppend(order[1..], k, m);
    } else {
      assert [k][1..] == [];
    }
  }

  /** The headers that are not variant headers, in order. */
  function Others(hs: seq<Header>): seq<Header> {
    if hs == [] then []
    else if IsVariant(hs[0]) then Others(hs[1..])
    else [hs[0]] + Others(hs[1..])
  }

  /**
   * getVariantMapPseudoHeadersAndRemove, from some point of its scan on: the outcome, and the
   * headers of `hs` still on the response when it returns or throws. The scan throws at a value
   * header without a pending key (leaving that header and the rest in place), or at the end
   * while a key is pending; a key header replaces any pending key.
   */
  function Scan(hs: seq<Header>, lastKey: Option<string>, variants: map<string, string>)
    : (r: (Result<map<string, string>>, seq<Header>))
    ensures r.0.Failure? ==> r.0.error == MismatchedVariantHeaders
  {
    if hs == [] then
      (if lastKey.Some? then Failure(MismatchedVariantHeaders) else Success(variants), [])
    else
      var h := hs[0];
      if h.name == VARIANT_MAP_KEY then
        Scan(hs[1..], Some(h.value), variants)
      else if h.name == VARIANT_MAP_VALUE then
        if lastKey.None? then (Failure(MismatchedVariantHeaders), hs)
        else Scan(hs[1..], None, variants[lastKey.value := h.value])
      else
        var s := Scan(hs[1..], lastKey, variants);
        (s.0, [h] + s.1)
  }

  /** A scan that succeeds leaves exactly the headers that are not variant headers, in order. */
  lemma {:induction false} ScanKeepsOthers(hs: seq<Header>, lastKey: Option<string>, variants: map<string, string>)
    requires Scan(hs, lastKey, variants).0.Success?
    ensures Scan(hs, lastKey, variants).1 == Others(hs)
  {
    if hs != [] {
      var h := hs[0];
      if h.name == VARIANT_MAP_KEY {
        ScanKeepsOthers(hs[1..], Some(h.value), variants);
      } else if h.name == VARIANT_MAP_VALUE {
        ScanKeepsOthers(hs[1..], None, variants[lastKey.value := h.value]);
      } else {
        ScanKeepsOthers(hs[1..], lastKey, variants);
      }
    }
  }

  /** The whole scan, from its start with no pending key and an empty map. */
  function DecodeVariants(hs: seq<Header>): (Result<map<string, string>>, seq<Header>) {
    Scan(hs, None, map[])
  }

  /** Headers that are not variant headers pass through the scan untouched. */
  lemma {:induction false} ScanSkips(e: seq<Header>, rest: seq<Header>, lastKey: Option<string>, variants: map<string, string>)
    requires forall h :: h in e ==> !IsVariant(h)
    ensures Scan(e + rest, lastKey, variants) ==
      (Scan(rest, lastKey, variants).0, e + Scan(rest, lastKey, variants).1)
  {
    if e != [] {
      assert e[0] in e && !IsVariant(e[0]);
      assert (e + rest)[0] == e[0];
      assert (e + rest)[1..] == e[1..] + rest;
      ScanSkips(e[1..], rest, lastKey, variants);
      var x := Scan(rest, lastKey, variants);
      assert Scan(e + rest, lastKey, variants) == (x.0, [e[0]] + (e[1..] + x.1));
      assert [e[0]] + (e[1..] + x.1) == e + x.1;
    } else {
      assert e + rest == rest;
      assert e + Scan(rest, lastKey, variants).1 == Scan(rest, lastKey, variants).1;
    }
  }

  /** The entries of `m` under the keys of `order`. */
  function Entries(order: seq<string>, m: map<string, string>): (r: map<string, string>)
    requires forall k :: k in order ==> k in m
    ensures forall k :: k in r <==> k in order
    ensures forall k :: k in r ==> r[k] == m[k]
  {
    map k | k in order :: m[k]
  }

  /** Reading the pairs the encoder writes adds exactly their entries to the map being built. */
  lemma {:induction false} ScanPairs(order: seq<string>, m: map<string, string>, tail: seq<Header>, variants: map<string, string>)
    requires forall k :: k in order ==> k in m
    ensures Scan(VariantHeaders(order, m) + tail, None, variants) == Scan(tail, None, variants + Entries(order, m))
  {
    if order == [] {
      assert VariantHeaders(order, m) + tail == tail;
      assert variants + Entries(order, m) == variants;
    } else {
      var k := order[0];
      var pairs := VariantHeaders(order, m);
      var rest := VariantHeaders(order[1..], m);
      var hs := pairs + tail;
      assert hs[0] == Header(VARIANT_MAP_KEY, k);
      assert hs[1..][0] == Header(VARIANT_MAP_VALUE, m[k]);
      assert hs[1..][1..] == rest + tail;
      ScanPairs(order[1..], m, tail, variants[k := m[k]]);
      assert variants[k := m[k]] + Entries(order[1..], m) == variants + Entries(order, m);
    }
  }

  /**
   * Variant pairs round trip: decoding the encoder's pairs, surrounded by headers that are not
   * variant headers, gives back the same map and removes exactly the variant headers.
   */
  lemma DecodeVariantHeaders(e: seq<Header>, order: seq<string>, m: map<string, string>, t: seq<Header>)
    requires EnumeratesKeys(order, m)
    requires forall h :: h in e ==> !IsVariant(h)
    requires forall h :: h in t ==> !IsVariant(h)
    ensures DecodeVariants(e + VariantHeaders(order, m) + t) == (Success(m), e + t)
  {
    var v := VariantHeaders(order, m);
    assert e + v + t == e + (v + t);
    ScanSkips(e, v + t, None, map[]);
    ScanPairs(order, m, t, map[]);
    assert map[] + Entries(order, m) == m;
    ScanSkips(t, [], None, m);
    assert t + [] == t;
  }

  /** A value header with no pending key, after any complete prefix, is rejected as mismatched. */
  lemma ValueWithoutKey(e: seq<Header>, variants: map<string, string>, v: string, t: seq<Header>)
    requires Scan(e, None, map[]).0 == Success(variants)
    ensures DecodeVariants(e + [Header(VARIANT_MAP_VALUE, v)] + t).0 == Failure(MismatchedVariantHeaders)
  {
    ScanThrough(e, [Header(VARIANT_MAP_VALUE, v)] + t, None, map[]);
    assert e + [Header(VARIANT_MAP_VALUE, v)] + t == e + ([Header(VARIANT_MAP_VALUE, v)] + t);
  }

  /** A key header with no value header after it is rejected as mismatched. */
  lemma KeyWithoutValue(e: seq<Header>, variants: map<string, string>, k: string, t: seq<Header>)
    requires forall h :: h in t ==> !IsVariant(h)
    requires Scan(e, None, map[]).0 == Success(variants)
    ensures DecodeVariants(e + [Header(VARIANT_MAP_KEY, k)] + t).0 == Failure(MismatchedVariantHeaders)
  {
    ScanThrough(e, [Header(VARIANT_MAP_KEY, k)] + t, None, map[]);
    assert e + [Header(VARIANT_MAP_KEY, k)] + t == e + ([Header(VARIANT_MAP_KEY, k)] + t);
    var x := [Header(VARIANT_MAP_KEY, k)] + t;
    assert x[1..] == t;
    ScanSkips(t, [], Some(k), variants);
    assert t + [] == t;
  }

  /**
   * A scan that completes without a pending key continues, on whatever follows, from the map
   * it built.
   */
  lemma {:induction false} ScanThrough(e: seq<Header>, rest: seq<Header>, lastKey: Option<string>, variants: map<string, string>)
    requires Scan(e, lastKey, variants).0.Success?
    ensures Scan(e + rest, lastKey, variants).0 == Scan(rest, None, Scan(e, lastKey, variants).0.value).0
  {
    if e != [] {
      var h := e[0];
      assert (e + rest)[0] == h;
      assert (e + rest)[1..] == e[1..] + rest;
      if h.name == VARIANT_MAP_KEY {
        ScanThrough(e[1..], rest, Some(h.value), variants);
      } else if h.name == VARIANT_MAP_VALUE {
        ScanThrough(e[1..], rest, None, variants[lastKey.value := h.value]);
      } else {
        ScanThrough(e[1..], rest, lastKey, variants);
      }
    } else {
      assert e + rest == rest;
    }
  }

  /**
   * Two keys in a row, after any complete prefix: the first key is silently dropped, the second
   * gets the value, and the scan goes on from there.
   */
  lemma KeyOverwritten(e: seq<Header>, variants: map<string, string>, k1: string, k2: string, v: string, t: seq<Header>)
    requires Scan(e, None, map[]).0 == Success(variants)
    ensures DecodeVariants(e + [Header(VARIANT_MAP_KEY, k1), Header(VARIANT_MAP_KEY, k2), Header(VARIANT_MAP_VALUE, v)] + t).0
      == Scan(t, None, variants[k2 := v]).0
  {
    var x := [Header(VARIANT_MAP_KEY, k1), Header(VARIANT_MAP_KEY, k2), Header(VARIANT_MAP_VALUE, v)] + t;
    assert e + [Header(VARIANT_MAP_KEY, k1), Header(VARIANT_MAP_KEY, k2), Header(VARIANT_MAP_VALUE, v)] + t == e + x;
    ScanThrough(e, x, None, map[]);
    var x2 := [Header(VARIANT_MAP_KEY, k2), Header(VARIANT_MAP_VALUE, v)] + t;
    var x3 := [Header(VARIANT_MAP_VALUE, v)] + t;
    assert x[1..] == x2 && x2[1..] == x3 && x3[1..] == t;
    assert Scan(x, None, variants) == Scan(x2, Some(k1), variants) == Scan(x3, Some(k2), variants)
      == Scan(t, None, variants[k2 := v]);
  }

  /** getVariantMapPseudoHeadersAndRemove */
  method GetVariantMapPseudoHeadersAndRemove(response: Response) returns (r: Result<map<string, string>>)
    modifies response
    ensures (r, response.headers) == DecodeVariants(old(response.headers))
    ensures response.status == old(response.status)
  {
    var headers := response.headers;
    var variantMap: map<string, string> := map[];
    var lastKey: Option<string> := None;
    ghost var kept: seq<Header> := [];
    var i := 0;
    ScanStart(headers);
    while i < |headers|
      invariant i <= |headers|
      invariant ScanAt(headers, i, lastKey, variantMap, kept, response.headers)
      invariant response.status == old(response.status)
    {
      var header := headers[i];
      if header.name == VARIANT_MAP_KEY {
        ScanKey(headers, i, lastKey, variantMap, kept, response.headers);
        lastKey := Some(header.value);
        response.RemoveHeader(header);
      } else if header.name == VARIANT_MAP_VALUE {
        if lastKey.None? {
          ScanMismatch(headers, i, variantMap, kept, response.headers);
          return Failure(MismatchedVariantHeaders);
        }
        ScanValue(headers, i, lastKey, variantMap, kept, response.headers);
        variantMap := variantMap[lastKey.value := header.value];
        lastKey := None;
        response.RemoveHeader(header);
      } else {
        ScanOther(headers, i, lastKey, variantMap, kept, response.headers);
        kept := kept + [header];
      }
      i := i + 1;
    }
    ScanEnd(headers, lastKey, variantMap, kept, response.headers);
    if lastKey.Some? {
      return Failure(MismatchedVariantHeaders);
    }
    return Success(variantMap);
  }

  /**
   * The state of getVariantMapPseudoHeadersAndRemove after visiting i headers of its snapshot:
   * the response holds the visited headers it kept and the unvisited ones, and finishing the
   * scan from here gives the outcome of the whole scan.
   */
  ghost predicate ScanAt(hs: seq<Header>, i: nat, lastKey: Option<string>, variants: map<string, string>,
                         kept: seq<Header>, current: seq<Header>)
    requires i <= |hs|
  {
    (forall h :: h in kept ==> !IsVariant(h)) &&
    current == kept + hs[i..] &&
    ScanRest(hs, i, lastKey, variants, kept)
  }

  /** Finishing the scan from position i, after keeping `kept`, gives the outcome of the whole scan. */
  ghost predicate ScanRest(hs: seq<Header>, i: nat, lastKey: Option<string>, variants: map<string, string>,
                           kept: seq<Header>)
    requires i <= |hs|
  {
    DecodeVariants(hs) == (Scan(hs[i..], lastKey, variants).0, kept + Scan(hs[i..], lastKey, variants).1)
  }

  lemma ScanStart(hs: seq<Header>)
    ensures ScanAt(hs, 0, None, map[], [], hs)
  {
    assert hs[0..] == hs;
    assert [] + hs == hs;
    assert [] + DecodeVariants(hs).1 == DecodeVariants(hs).1;
  }

  lemma ScanKey(hs: seq<Header>, i: nat, lastKey: Option<string>, variants: map<string, string>,
                kept: seq<Header>, current: seq<Header>)
    requires i < |hs| && hs[i].name == VARIANT_MAP_KEY
    requires ScanAt(hs, i, lastKey, variants, kept, current)
    ensures ScanAt(hs, i + 1, Some(hs[i].value), variants, kept, RemoveFirst(current, hs[i]))
  {
    assert hs[i..][0] == hs[i] && hs[i..][1..] == hs[i + 1..];
    RemoveFirstAt(kept, hs[i..], hs[i]);
  }

  lemma ScanValue(hs: seq<Header>, i: nat, lastKey: Option<string>, variants: map<string, string>,
                  kept: seq<Header>, current: seq<Header>)
    requires i < |hs| && hs[i].name == VARIANT_MAP_VALUE && lastKey.Some?
    requires ScanAt(hs, i, lastKey, variants, kept, current)
    ensures ScanAt(hs, i + 1, None, variants[lastKey.value := hs[i].value], kept, RemoveFirst(current, hs[i]))
  {
    assert hs[i..][0] == hs[i] && hs[i..][1..] == hs[i + 1..];
    RemoveFirstAt(kept, hs[i..], hs[i]);
  }

  lemma ScanMismatch(hs: seq<Header>, i: nat, variants: map<string, string>, kept: seq<Header>, current: seq<Header>)
    requires i < |hs| && hs[i].name == VARIANT_MAP_VALUE
    requires ScanAt(hs, i, None, variants, kept, current)
    ensures DecodeVariants(hs) == (Failure(MismatchedVariantHeaders), current)
  {
    assert hs[i..][0] == hs[i];
  }

  lemma ScanOther(hs: seq<Header>, i: nat, lastKey: Option<string>, variants: map<string, string>,
                  kept: seq<Header>, current: seq<Header>)
    requires i < |hs| && !IsVariant(hs[i])
    requires ScanAt(hs, i, lastKey, variants, kept, current)
    ensures ScanAt(hs, i + 1, lastKey, variants, kept + [hs[i]], current)
  {
    var h := hs[i];
    assert hs[i..][0] == h && hs[i..][1..] == hs[i + 1..];
    var next := Scan(hs[i + 1..], lastKey, variants);
    assert Scan(hs[i..], lastKey, variants) == (next.0, [h] + next.1);
    assert kept + ([h] + next.1) == (kept + [h]) + next.1;
    assert kept + hs[i..] == (kept + [h]) + hs[i + 1..] by {
      assert hs[i..] == [h] + hs[i + 1..];
    }
  }

  lemma ScanEnd(hs: seq<Header>, lastKey: Option<string>, variants: map<string, string>,
                kept: seq<Header>, current: seq<Header>)
    requires ScanAt(hs, |hs|, lastKey, variants, kept, current)
    ensures DecodeVariants(hs) ==
      (if lastKey.Some? then Failure(MismatchedVariantHeaders) else Success(variants), current)
  {
    assert hs[|hs|..] == [];
    assert kept + [] == kept;
  }
}
