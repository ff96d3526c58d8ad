/**
 * Header escaping: before the codec adds its own "hc-" pseudo-headers, every original header
 * whose name could be taken for one is renamed to "hc-esc-" + name; decoding strips that prefix
 * again. Both passes walk a snapshot of the header list and, for each selected header, remove it
 * and append the renamed copy, so selected headers end up after the others, in their order.
 */
module Escaping {
  import opened Outcomes
  import opened JavaText
  import opened HttpMessage

  const CACHE_ENTRY_PREFIX: string := "hc-"
  const PRESERVE_PREFIX: string := "hc-esc-"

  /**
   * The three header passes. Escape is the escaping pass of this model (the "hc-" test ignores
   * letter case, like every header lookup of the message object); EscapeAsWritten is the source's
   * case-sensitive test, kept to exhibit the discrepancy; Unescape reverses Escape.
   */
  datatype Rewrite = Escape | EscapeAsWritten | Unescape

  /** The name starts with "hc-" in any letter case. */
  predicate Collides(name: string) {
    |name| >= 3 && LowerChar(name[0]) == 'h' && LowerChar(name[1]) == 'c' && name[2] == '-'
  }

  /** The headers a pass takes out and re-appends under a new name. */
  predicate Selects(w: Rewrite, name: string) {
    match w
    case Escape => Collides(name)
    case EscapeAsWritten => StartsWith(name, CACHE_ENTRY_PREFIX)
    case Unescape => StartsWith(name, PRESERVE_PREFIX)
  }

  function Renamed(w: Rewrite, name: string): string {
    match w
    case Unescape => if StartsWith(name, PRESERVE_PREFIX) then name[|PRESERVE_PREFIX|..] else name
    case _ => PRESERVE_PREFIX + name
  }

  function Rename(w: Rewrite, h: Header): Header {
    Header(Renamed(w, h.name), h.value)
  }

  /** The headers a pass leaves in place, in order. */
  function Kept(hs: seq<Header>, w: Rewrite): seq<Header> {
    if hs == [] then []
    else
      var last := hs[|hs| - 1];
      if Selects(w, last.name) then Kept(hs[..|hs| - 1], w) else Kept(hs[..|hs| - 1], w) + [last]
  }

  /** The headers a pass selects, in order, before renaming. */
  function Picked(hs: seq<Header>, w: Rewrite): seq<Header> {
    if hs == [] then []
    else
      var last := hs[|hs| - 1];
      if Selects(w, last.name) then Picked(hs[..|hs| - 1], w) + [last] else Picked(hs[..|hs| - 1], w)
  }

  function RenameAll(hs: seq<Header>, w: Rewrite): (r: seq<Header>)
    ensures |r| == |hs|
  {
    if hs == [] then [] else RenameAll(hs[..|hs| - 1], w) + [Rename(w, hs[|hs| - 1])]
  }

  /** The header list after one pass. */
  function Relocated(hs: seq<Header>, w: Rewrite): seq<Header> {
    Kept(hs, w) + RenameAll(Picked(hs, w), w)
  }

  function Escaped(hs: seq<Header>): seq<Header> {
    Relocated(hs, Escape)
  }

  function Unescaped(hs: seq<Header>): seq<Header> {
    Relocated(hs, Unescape)
  }

  /** Each header renamed where the pass selects it, in the original order. */
  function RenameEach(hs: seq<Header>, w: Rewrite): seq<Header> {
    if hs == [] then []
    else
      var last := hs[|hs| - 1];
      RenameEach(hs[..|hs| - 1], w) + [if Selects(w, last.name) then Rename(w, last) else last]
  }

  /**
   * The header list of a pass after it has visited the first i headers of its snapshot: the
   * visited headers it left in place, the unvisited ones, then the renamed ones it re-appended.
   */
  function PassState(hs: seq<Header>, i: nat, w: Rewrite): seq<Header>
    requires i <= |hs|
  {
    Kept(hs[..i], w) + hs[i..] + RenameAll(Picked(hs[..i], w), w)
  }

  /** escapeHeaders */
  method EscapeHeaders(response: Response)
    modifies response
    ensures response.headers == Escaped(old(response.headers))
    ensures response.status == old(response.status)
  {
    var headers := response.headers;
    var i := 0;
    assert response.headers == PassState(headers, 0, Escape) by {
      PassBounds(headers, Escape);
    }
    while i < |headers|
      invariant 0 <= i <= |headers|
      invariant response.headers == PassState(headers, i, Escape)
      invariant response.status == old(response.status)
    {
      var header := headers[i];
      if Collides(header.name) {
        response.RemoveHeader(header);
        response.AddHeader(PRESERVE_PREFIX + header.name, header.value);
        assert response.headers == PassState(headers, i + 1, Escape) by {
          PassStepMove(headers, i, Escape);
        }
      } else {
        assert response.headers == PassState(headers, i + 1, Escape) by {
          PassStepKeep(headers, i, Escape);
        }
      }
      i := i + 1;
    }
    assert response.headers == Escaped(headers) by {
      PassBounds(headers, Escape);
    }
  }

  /** unescapeHeaders */
  method UnescapeHeaders(response: Response)
    modifies response
    ensures response.headers == Unescaped(old(response.headers))
    ensures response.status == old(response.status)
  {
    var headers := response.headers;
    var i := 0;
    assert response.headers == PassState(headers, 0, Unescape) by {
      PassBounds(headers, Unescape);
    }
    while i < |headers|
      invariant 0 <= i <= |headers|
      invariant response.headers == PassState(headers, i, Unescape)
      invariant response.status == old(response.status)
    {
      var header := headers[i];
      if StartsWith(header.name, PRESERVE_PREFIX) {
        response.RemoveHeader(header);
        response.AddHeader(header.name[|PRESERVE_PREFIX|..], header.value);
        assert response.headers == PassState(headers, i + 1, Unescape) by {
          PassStepMove(headers, i, Unescape);
        }
      } else {
        assert response.headers == PassState(headers, i + 1, Unescape) by {
          PassStepKeep(headers, i, Unescape);
        }
      }
      i := i + 1;
    }
    assert response.headers == Unescaped(headers) by {
      PassBounds(headers, Unescape);
    }
  }

  lemma PassBounds(hs: seq<Header>, w: Rewrite)
    ensures PassState(hs, 0, w) == hs
    ensures PassState(hs, |hs|, w) == Relocated(hs, w)
  {
    assert hs[..0] == [] && hs[0..] == hs;
    assert hs[..|hs|] == hs && hs[|hs|..] == [];
  }

  /** Visiting a header the pass does not select changes nothing. */
  lemma PassStepKeep(hs: seq<Header>, i: nat, w: Rewrite)
    requires i < |hs| && !Selects(w, hs[i].name)
    ensures PassState(hs, i + 1, w) == PassState(hs, i, w)
  {
    var header := hs[i];
    var k := Kept(hs[..i], w);
    var m := RenameAll(Picked(hs[..i], w), w);
    assert Picked(hs[..i + 1], w) == Picked(hs[..i], w) && Kept(hs[..i + 1], w) == k + [header] by {
      assert hs[..i + 1] == hs[..i] + [header];
      Step(hs[..i], header, w);
    }
    assert PassState(hs, i, w) == k + [header] + hs[i + 1..] + m by {
      assert hs[i..] == [header] + hs[i + 1..];
    }
  }

  /** Visiting a selected header removes it and appends its renamed copy. */
  lemma PassStepMove(hs: seq<Header>, i: nat, w: Rewrite)
    requires i < |hs| && Selects(w, hs[i].name)
    ensures RemoveFirst(PassState(hs, i, w), hs[i]) + [Rename(w, hs[i])] == PassState(hs, i + 1, w)
  {
    var header := hs[i];
    var k := Kept(hs[..i], w);
    var m := RenameAll(Picked(hs[..i], w), w);
    PassAt(hs, i, w);
    PassAfterMove(hs, i, w);
    NotKept(hs[..i], header, w);
    MoveShape(k, header, hs[i + 1..], m, Rename(w, header));
  }

  /** Removing x and appending r: the list shape one move step produces. */
  lemma MoveShape(k: seq<Header>, x: Header, rest: seq<Header>, m: seq<Header>, r: Header)
    requires x !in k
    ensures RemoveFirst(k + [x] + (rest + m), x) + [r] == k + rest + (m + [r])
  {
    RemoveFirstAfter(k, x, rest + m);
    assert k + (rest + m) + [r] == k + rest + (m + [r]);
  }

  /** A header a pass selects is never among the ones it keeps. */
  lemma NotKept(hs: seq<Header>, x: Header, w: Rewrite)
    requires Selects(w, x.name)
    ensures x !in Kept(hs, w)
  {
    KeptSelection(hs, w);
  }

  lemma PickedIsSelected(hs: seq<Header>, y: Header, w: Rewrite)
    requires y in Picked(hs, w)
    ensures Selects(w, y.name)
  {
    KeptSelection(hs, w);
  }

  /** The pass state with the header about to be visited singled out. */
  lemma PassAt(hs: seq<Header>, i: nat, w: Rewrite)
    requires i < |hs|
    ensures PassState(hs, i, w) ==
      Kept(hs[..i], w) + [hs[i]] + (hs[i + 1..] + RenameAll(Picked(hs[..i], w), w))
  {
    Regroup(Kept(hs[..i], w), hs[i..], hs[i], hs[i + 1..], RenameAll(Picked(hs[..i], w), w));
  }

  /** k + rest + m with rest split into its first element and the others. */
  lemma Regroup(k: seq<Header>, rest: seq<Header>, x: Header, tail: seq<Header>, m: seq<Header>)
    requires |rest| > 0 && rest[0] == x && rest[1..] == tail
    ensures k + rest + m == k + [x] + (tail + m)
  {
    assert rest == [x] + tail;
  }

  lemma PassAfterMove(hs: seq<Header>, i: nat, w: Rewrite)
    requires i < |hs| && Selects(w, hs[i].name)
    ensures PassState(hs, i + 1, w) ==
      Kept(hs[..i], w) + hs[i + 1..] + (RenameAll(Picked(hs[..i], w), w) + [Rename(w, hs[i])])
  {
    var header := hs[i];
    assert hs[..i + 1] == hs[..i] + [header];
    Step(hs[..i], header, w);
    var p := Picked(hs[..i], w);
    Step(p, header, w);
  }

  /** One more header: each list grows by at most that header. */
  lemma Step(hs: seq<Header>, x: Header, w: Rewrite)
    ensures Kept(hs + [x], w) == if Selects(w, x.name) then Kept(hs, w) else Kept(hs, w) + [x]
    ensures Picked(hs + [x], w) == if Selects(w, x.name) then Picked(hs, w) + [x] else Picked(hs, w)
    ensures RenameAll(hs + [x], w) == RenameAll(hs, w) + [Rename(w, x)]
    ensures RenameEach(hs + [x], w) == RenameEach(hs, w) + [if Selects(w, x.name) then Rename(w, x) else x]
  {
    assert (hs + [x])[..|hs|] == hs;
  }

  lemma {:induction false} KeptSelection(hs: seq<Header>, w: Rewrite)
    ensures forall h :: h in Kept(hs, w) ==> h in hs && !Selects(w, h.name)
    ensures forall h :: h in Picked(hs, w) ==> h in hs && Selects(w, h.name)
  {
    if hs != [] {
      var hs' := hs[..|hs| - 1];
      KeptSelection(hs', w);
      assert hs' + [hs[|hs| - 1]] == hs;
      Step(hs', hs[|hs| - 1], w);
    }
  }

  lemma {:induction false} KeptAppend(a: seq<Header>, b: seq<Header>, w: Rewrite)
    ensures Kept(a + b, w) == Kept(a, w) + Kept(b, w)
    ensures Picked(a + b, w) == Picked(a, w) + Picked(b, w)
  {
    if b == [] {
      assert a + b == a;
    } else {
      var b' := b[..|b| - 1];
      assert (a + b)[..|a + b| - 1] == a + b';
      KeptAppend(a, b', w);
    }
  }

  /** A list none of whose headers a pass selects is left as it is. */
  lemma {:induction false} NoneSelected(hs: seq<Header>, w: Rewrite)
    requires forall h :: h in hs ==> !Selects(w, h.name)
    ensures Kept(hs, w) == hs && Picked(hs, w) == []
  {
    if hs != [] {
      NoneSelected(hs[..|hs| - 1], w);
      assert hs[..|hs| - 1] + [hs[|hs| - 1]] == hs;
    }
  }

  /** No header name starts with "hc-" in a letter case other than all lower case. */
  predicate NoMixedCasePrefix(hs: seq<Header>) {
    forall h :: h in hs ==> (Collides(h.name) <==> StartsWith(h.name, CACHE_ENTRY_PREFIX))
  }

  /** Where the two tests agree on every name, they keep and pick the same headers. */
  lemma {:induction false} AsWrittenSelection(hs: seq<Header>)
    requires NoMixedCasePrefix(hs)
    ensures Kept(hs, EscapeAsWritten) == Kept(hs, Escape)
    ensures Picked(hs, EscapeAsWritten) == Picked(hs, Escape)
  {
    if hs != [] {
      var hs' := hs[..|hs| - 1];
      assert hs[|hs| - 1] in hs;
      assert NoMixedCasePrefix(hs') by {
        forall h | h in hs'
          ensures h in hs
        {
          var k :| 0 <= k < |hs'| && hs'[k] == h;
          assert hs[k] == h;
        }
      }
      AsWrittenSelection(hs');
    }
  }

  /** Both escaping passes rename a header the same way. */
  lemma {:induction false} RenameAllAsWritten(hs: seq<Header>)
    ensures RenameAll(hs, EscapeAsWritten) == RenameAll(hs, Escape)
  {
    if hs != [] {
      RenameAllAsWritten(hs[..|hs| - 1]);
    }
  }

  /**
   * The source's case-sensitive escaping and the case-insensitive one give the same header
   * list whenever no name starts with "hc-" in mixed or upper case.
   */
  lemma EscapeAsWrittenAgrees(hs: seq<Header>)
    requires NoMixedCasePrefix(hs)
    ensures Relocated(hs, EscapeAsWritten) == Escaped(hs)
  {
    AsWrittenSelection(hs);
    RenameAllAsWritten(Picked(hs, Escape));
  }

  /** A name carrying the escape prefix starts with "hc-", whatever the case of the rest. */
  lemma PreservePrefixCollides(name: string)
    requires StartsWith(name, PRESERVE_PREFIX)
    ensures Collides(name)
  {
    assert name[..|PRESERVE_PREFIX|][0] == 'h';
    assert name[..|PRESERVE_PREFIX|][1] == 'c';
    assert name[..|PRESERVE_PREFIX|][2] == '-';
  }

  /** Every header renamed by the escaping pass carries the escape prefix. */
  lemma RenamedIsPrefixed(hs: seq<Header>)
    ensures forall h :: h in RenameAll(hs, Escape) ==> StartsWith(h.name, PRESERVE_PREFIX)
  {
    RenamedIsUnescaped(hs);
    KeptSelection(RenameAll(hs, Escape), Unescape);
  }

  /** Unescaping the renamed headers gives back the originals. */
  lemma {:induction false} EscapeThenStrip(hs: seq<Header>)
    ensures RenameAll(RenameAll(hs, Escape), Unescape) == hs
  {
    if hs != [] {
      var hs' := hs[..|hs| - 1];
      var last := hs[|hs| - 1];
      assert hs' + [last] == hs;
      EscapeThenStrip(hs');
      Step(hs', last, Escape);
      var e := Rename(Escape, last);
      assert e.name[..|PRESERVE_PREFIX|] == PRESERVE_PREFIX;
      assert e.name[|PRESERVE_PREFIX|..] == last.name;
      Step(RenameAll(hs', Escape), e, Unescape);
    }
  }

  /**
   * A pass renames exactly the headers it selects, keeps their values and leaves every other
   * header as it is: as a multiset, its result is the list with each header renamed in place.
   */
  lemma {:induction false} RelocatedMultiset(hs: seq<Header>, w: Rewrite)
    ensures multiset(Relocated(hs, w)) == multiset(RenameEach(hs, w))
  {
    if hs != [] {
      var hs' := hs[..|hs| - 1];
      var x := hs[|hs| - 1];
      assert hs' + [x] == hs;
      RelocatedMultiset(hs', w);
      RelocatedSnoc(hs', x, w);
      Step(hs', x, w);
    }
  }

  /** One more header adds that header, renamed where the pass selects it, to the result. */
  lemma RelocatedSnoc(hs: seq<Header>, x: Header, w: Rewrite)
    ensures multiset(Relocated(hs + [x], w)) ==
      multiset(Relocated(hs, w)) + multiset{if Selects(w, x.name) then Rename(w, x) else x}
  {
    Step(hs, x, w);
    var k, p := Kept(hs, w), Picked(hs, w);
    if Selects(w, x.name) {
      Step(p, x, w);
      assert Relocated(hs + [x], w) == k + (RenameAll(p, w) + [Rename(w, x)]);
    } else {
      assert Relocated(hs + [x], w) == k + [x] + RenameAll(p, w);
    }
  }

  /**
   * Escaping renames exactly the headers whose name starts with "hc-" (in any letter case) to
   * "hc-esc-" + name and keeps their values; afterwards no header name starts with "hc-" unless
   * it carries the escape prefix.
   */
  lemma EscapeRenamesExactly(hs: seq<Header>)
    ensures multiset(Escaped(hs)) == multiset(RenameEach(hs, Escape))
    ensures forall h :: h in Escaped(hs) ==> !Selects(Escape, h.name) || StartsWith(h.name, PRESERVE_PREFIX)
  {
    RelocatedMultiset(hs, Escape);
    KeptSelection(hs, Escape);
    RenamedIsPrefixed(Picked(hs, Escape));
  }

  /** The headers a pass keeps, followed by the ones it selects, are the same multiset as the list. */
  lemma {:induction false} PartitionMultiset(hs: seq<Header>, w: Rewrite)
    ensures multiset(Kept(hs, w) + Picked(hs, w)) == multiset(hs)
  {
    if hs != [] {
      var hs' := hs[..|hs| - 1];
      PartitionMultiset(hs', w);
      assert hs' + [hs[|hs| - 1]] == hs;
    }
  }

  /** The unescaping pass selects none of the headers the escaping pass left in place. */
  lemma {:induction false} KeptIsNotUnescaped(hs: seq<Header>)
    ensures Kept(Kept(hs, Escape), Unescape) == Kept(hs, Escape)
    ensures Picked(Kept(hs, Escape), Unescape) == []
  {
    if hs != [] {
      var hs' := hs[..|hs| - 1];
      var x := hs[|hs| - 1];
      assert hs' + [x] == hs;
      KeptIsNotUnescaped(hs');
      Step(hs', x, Escape);
      if !Selects(Escape, x.name) {
        if StartsWith(x.name, PRESERVE_PREFIX) {
          PreservePrefixCollides(x.name);
        }
        Step(Kept(hs', Escape), x, Unescape);
      }
    }
  }

  /** The unescaping pass selects every header the escaping pass renamed. */
  lemma {:induction false} RenamedIsUnescaped(hs: seq<Header>)
    ensures Kept(RenameAll(hs, Escape), Unescape) == []
    ensures Picked(RenameAll(hs, Escape), Unescape) == RenameAll(hs, Escape)
  {
    if hs != [] {
      var hs' := hs[..|hs| - 1];
      var x := hs[|hs| - 1];
      assert hs' + [x] == hs;
      RenamedIsUnescaped(hs');
      Step(hs', x, Escape);
      var e := Rename(Escape, x);
      assert e.name[..|PRESERVE_PREFIX|] == PRESERVE_PREFIX;
      Step(RenameAll(hs', Escape), e, Unescape);
    }
  }

  /**
   * Unescaping the escaped list gives back the untouched headers followed by the escaped ones,
   * each under its original name.
   */
  lemma UnescapeEscape(hs: seq<Header>)
    ensures Unescaped(Escaped(hs)) == Kept(hs, Escape) + Picked(hs, Escape)
  {
    var k := Kept(hs, Escape);
    var p := Picked(hs, Escape);
    var e := RenameAll(p, Escape);
    KeptIsNotUnescaped(hs);
    RenamedIsUnescaped(p);
    KeptAppend(k, e, Unescape);
    assert Kept(k + e, Unescape) == k + [];
    assert Picked(k + e, Unescape) == [] + e;
    EscapeThenStrip(p);
    assert k + [] == k && [] + e == e;
  }

  /** Escaping then unescaping keeps every header, with its value, as many times as it occurred. */
  lemma UnescapeEscapeMultiset(hs: seq<Header>)
    ensures multiset(Unescaped(Escaped(hs))) == multiset(hs)
  {
    UnescapeEscape(hs);
    PartitionMultiset(hs, Escape);
  }

  /** Two names equal up to letter case are escaped alike. */
  lemma SameClass(h: Header, h': Header, name: string)
    requires NameMatches(h, name) && NameMatches(h', name)
    ensures Selects(Escape, h.name) <==> Selects(Escape, h'.name)
  {
    var a, b := LowerAscii(h.name), LowerAscii(h'.name);
    assert a == b;
    if |h.name| >= 3 {
      assert a[0] == LowerChar(h.name[0]) && a[1] == LowerChar(h.name[1]) && a[2] == LowerChar(h.name[2]);
      assert b[0] == LowerChar(h'.name[0]) && b[1] == LowerChar(h'.name[1]) && b[2] == LowerChar(h'.name[2]);
    }
  }

  lemma {:induction false} PartitionFirstHeader(hs: seq<Header>, name: string)
    ensures FirstHeader(Kept(hs, Escape) + Picked(hs, Escape), name) == FirstHeader(hs, name)
  {
    if hs != [] {
      var p := hs[..|hs| - 1];
      var x := hs[|hs| - 1];
      assert p + [x] == hs;
      PartitionFirstHeader(p, name);
      FirstHeaderAppend(p, [x], name);
      var k, q := Kept(p, Escape), Picked(p, Escape);
      FirstHeaderAppend(k, q, name);
      if Selects(Escape, x.name) {
        assert k + (q + [x]) == (k + q) + [x];
        FirstHeaderAppend(k + q, [x], name);
      } else {
        assert k + [x] + q == k + ([x] + q);
        FirstHeaderAppend(k, [x] + q, name);
        FirstHeaderAppend([x], q, name);
        if NameMatches(x, name) {
          forall y | y in q
            ensures !NameMatches(y, name)
          {
            if NameMatches(y, name) {
              PickedIsSelected(p, y, Escape);
              SameClass(x, y, name);
            }
          }
          FirstIndexSpec(q, name);
        }
      }
    }
  }

  /**
   * Escaping then unescaping keeps, for every name, the header a first-match lookup finds,
   * although escaped headers move behind the others.
   */
  lemma UnescapeEscapeFirstHeader(hs: seq<Header>, name: string)
    ensures FirstHeader(Unescaped(Escaped(hs)), name) == FirstHeader(hs, name)
  {
    UnescapeEscape(hs);
    PartitionFirstHeader(hs, name);
  }
}
