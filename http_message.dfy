/**
 * The message object the codec works on: an HTTP response head (status line and an ordered
 * header list) held by a mutable response object, and the external writer/parser pair that
 * frames a head as bytes (section 3 of RFC 7230).
 *
 * The response object is the library's: header names compare case-insensitively
 * (section 3.2 of RFC 7230), getFirstHeader returns the first match, removeHeader removes one
 * header and removeHeaders(name) removes every match.
 */
module HttpMessage {
  import opened Outcomes
  import opened JavaText

  type Byte = b: int | 0 <= b < 256

  datatype Header = Header(name: string, value: string)

  datatype StatusLine = StatusLine(protocol: string, code: int, reason: string)

  datatype Head = Head(status: StatusLine, headers: seq<Header>)

  /** The library's header-name test: the names are equal ignoring letter case. */
  predicate NameMatches(h: Header, name: string) {
    EqualsIgnoreCase(h.name, name)
  }

  /** Index of the first header whose name matches `name`, or -1 when there is none. */
  function FirstIndex(hs: seq<Header>, name: string): (i: int)
    ensures -1 <= i < |hs|
  {
    if hs == [] then -1
    else if NameMatches(hs[0], name) then 0
    else
      var j := FirstIndex(hs[1..], name);
      if j == -1 then -1 else j + 1
  }

  /** The lookup finds a match exactly when there is one, and no match comes before the one it finds. */
  lemma {:induction false} FirstIndexSpec(hs: seq<Header>, name: string)
    ensures var i := FirstIndex(hs, name);
      (i == -1 <==> forall k :: 0 <= k < |hs| ==> !NameMatches(hs[k], name)) &&
      (i >= 0 ==> NameMatches(hs[i], name) && forall k :: 0 <= k < i ==> !NameMatches(hs[k], name))
  {
    if hs != [] && !NameMatches(hs[0], name) {
      FirstIndexSpec(hs[1..], name);
      assert forall k :: 1 <= k < |hs| ==> hs[k] == hs[1..][k - 1];
    }
  }

  /** getFirstHeader(name) */
  function FirstHeader(hs: seq<Header>, name: string): Option<Header> {
    var i := FirstIndex(hs, name);
    if i < 0 then None else Some(hs[i])
  }

  /** Looking up a name in a concatenation finds the first part's match, else the second's. */
  lemma {:induction false} FirstIndexAppend(a: seq<Header>, b: seq<Header>, name: string)
    ensures FirstIndex(a + b, name) ==
      if FirstIndex(a, name) >= 0 then FirstIndex(a, name)
      else if FirstIndex(b, name) >= 0 then |a| + FirstIndex(b, name)
      else -1
  {
    if a != [] {
      assert (a + b)[1..] == a[1..] + b;
      FirstIndexAppend(a[1..], b, name);
    } else {
      assert a + b == b;
    }
  }

  lemma FirstHeaderAppend(a: seq<Header>, b: seq<Header>, name: string)
    ensures FirstHeader(a + b, name) ==
      if FirstHeader(a, name).Some? then FirstHeader(a, name) else FirstHeader(b, name)
  {
    FirstIndexAppend(a, b, name);
  }

  /** List.remove(Object): drop the first header equal to h; nothing when there is none. */
  function RemoveFirst(hs: seq<Header>, h: Header): seq<Header> {
    if hs == [] then []
    else if hs[0] == h then hs[1..]
    else [hs[0]] + RemoveFirst(hs[1..], h)
  }

  /** Removing h skips every header before its first occurrence. */
  lemma {:induction false} RemoveFirstAfter(a: seq<Header>, h: Header, b: seq<Header>)
    requires h !in a
    ensures RemoveFirst(a + [h] + b, h) == a + b
  {
    if a != [] {
      var s := a + [h] + b;
      assert s[0] == a[0] != h;
      assert s[1..] == a[1..] + [h] + b;
      RemoveFirstAfter(a[1..], h, b);
      assert RemoveFirst(s, h) == [a[0]] + (a[1..] + b);
      assert [a[0]] + (a[1..] + b) == a + b;
    } else {
      assert a + [h] + b == [h] + b;
    }
  }

  /** Removing the first header of the part after `a`, which `a` does not hold. */
  lemma RemoveFirstAt(a: seq<Header>, rest: seq<Header>, h: Header)
    requires rest != [] && rest[0] == h && h !in a
    ensures RemoveFirst(a + rest, h) == a + rest[1..]
  {
    assert a + rest == a + [h] + rest[1..];
    RemoveFirstAfter(a, h, rest[1..]);
  }

  /** Removing the header found by a name lookup takes out exactly that position. */
  lemma RemoveFirstMatch(hs: seq<Header>, name: string)
    requires FirstIndex(hs, name) >= 0
    ensures var i := FirstIndex(hs, name);
      RemoveFirst(hs, hs[i]) == hs[..i] + hs[i + 1..]
  {
    var i := FirstIndex(hs, name);
    FirstIndexSpec(hs, name);
    assert hs[i] !in hs[..i] by {
      forall k | 0 <= k < i
        ensures hs[..i][k] != hs[i]
      {
        assert !NameMatches(hs[k], name);
      }
    }
    assert hs == hs[..i] + [hs[i]] + hs[i + 1..];
    RemoveFirstAfter(hs[..i], hs[i], hs[i + 1..]);
  }

  /** removeHeaders(name): the headers whose names do not match, in their order. */
  function WithoutName(hs: seq<Header>, name: string): (r: seq<Header>)
    ensures |r| <= |hs|
  {
    if hs == [] then []
    else if NameMatches(hs[0], name) then WithoutName(hs[1..], name)
    else [hs[0]] + WithoutName(hs[1..], name)
  }

  /** removeHeaders(name) keeps exactly the headers whose names do not match. */
  lemma {:induction false} WithoutNameMembers(hs: seq<Header>, name: string)
    ensures forall h :: h in WithoutName(hs, name) <==> h in hs && !NameMatches(h, name)
  {
    if hs != [] {
      WithoutNameMembers(hs[1..], name);
      assert hs == [hs[0]] + hs[1..];
    }
  }

  lemma {:induction false} WithoutNameAppend(a: seq<Header>, b: seq<Header>, name: string)
    ensures WithoutName(a + b, name) == WithoutName(a, name) + WithoutName(b, name)
  {
    if a != [] {
      assert (a + b)[1..] == a[1..] + b;
      WithoutNameAppend(a[1..], b, name);
      var x, y := WithoutName(a[1..], name), WithoutName(b, name);
      if !NameMatches(a[0], name) {
        assert [a[0]] + (x + y) == [a[0]] + x + y;
      }
    } else {
      assert a + b == b;
    }
  }

  lemma {:induction false} WithoutNameNoMatch(hs: seq<Header>, name: string)
    requires forall h :: h in hs ==> !NameMatches(h, name)
    ensures WithoutName(hs, name) == hs
  {
    if hs != [] {
      WithoutNameNoMatch(hs[1..], name);
    }
  }

  /** The response object of the message library, with the header operations the codec uses. */
  class Response {
    var status: StatusLine
    var headers: seq<Header>

    constructor (head: Head)
      ensures status == head.status && headers == head.headers
    {
      status := head.status;
      headers := head.headers;
    }

    function GetHead(): Head
      reads this
    {
      Head(status, headers)
    }

    /** getFirstHeader(name) */
    function GetFirstHeader(name: string): Option<Header>
      reads this
    {
      FirstHeader(headers, name)
    }

    /** addHeader(name, value): appends at the end. */
    method AddHeader(name: string, value: string)
      modifies this
      ensures headers == old(headers) + [Header(name, value)]
      ensures status == old(status)
    {
      headers := headers + [Header(name, value)];
    }

    /** removeHeader(header) */
    method RemoveHeader(h: Header)
      modifies this
      ensures headers == RemoveFirst(old(headers), h)
      ensures status == old(status)
    {
      headers := RemoveFirst(headers, h);
    }

    /** removeHeaders(name) */
    method RemoveHeaders(name: string)
      modifies this
      ensures headers == WithoutName(old(headers), name)
      ensures status == old(status)
    {
      headers := WithoutName(headers, name);
    }
  }

  /**
   * The external HTTP/1.1 message writer (status line and header block, ending with the blank
   * line) and parser (a head and the bytes that follow it, or a parse error).
   */
  datatype Framing = Framing(write: Head -> seq<Byte>, parse: seq<Byte> -> Option<(Head, seq<Byte>)>)

  /** The parser reads back exactly the head the writer wrote, and leaves what follows untouched. */
  ghost predicate RoundTrips(f: Framing) {
    forall head, body :: f.parse(f.write(head) + body) == Some((head, body))
  }
}
