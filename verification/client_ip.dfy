/** The origin identifier of a request (`getClientIp`, defined identically in
    the games and complaints routers): the first entry of `x-forwarded-for`,
    else the socket's peer address, else the literal "unknown". */
module ClientIp {
  import opened Common

  /** The `x-forwarded-for` header as the request object presents it. Only a
      plain string passes the handler's `typeof` test. */
  datatype Forwarded = NoHeader | Header(value: string) | HeaderList(values: seq<string>)

  /** `remoteAddress` is the socket's peer address, which may be missing. */
  function GetClientIp(forwarded: Forwarded, remoteAddress: Option<string>): (ip: string)
    ensures forwarded.Header? ==> Trimmed(ip) && ',' !in ip
    ensures !forwarded.Header? && remoteAddress.Some? && remoteAddress.value != [] ==>
      ip == remoteAddress.value
    ensures !forwarded.Header? && (remoteAddress.None? || remoteAddress.value == []) ==>
      ip == "unknown"
  {
    if forwarded.Header? then
      var first := FirstField(forwarded.value, ',');
      TrimAddsNothing(first, ',');
      Trim(first)
    else if remoteAddress.Some? && remoteAddress.value != [] then remoteAddress.value
    else "unknown"
  }

  /** Trimming takes characters away and adds none. */
  lemma TrimAddsNothing(s: string, c: char)
    requires c !in s
    ensures c !in Trim(s)
  {
    var r := Trim(s);
    if r != [] {
      var i := LeadingSpace(s);
      forall k | 0 <= k < |r| ensures r[k] != c {
        assert r[k] == s[i + k];
      }
    }
  }

  /** The entry before the first comma is the whole first field. */
  lemma {:induction false} FirstFieldOfJoin(a: string, rest: string)
    requires ',' !in a
    ensures FirstField(a + [','] + rest, ',') == a
  {
    if |a| > 0 {
      assert (a + [','] + rest)[1..] == a[1..] + [','] + rest;
      FirstFieldOfJoin(a[1..], rest);
    }
  }

  /** A proxy chain "client, proxy1, proxy2" identifies the client: the first
      entry, trimmed, whatever follows it and whatever the peer address is. */
  lemma ForwardedChainYieldsFirstHop(first: string, rest: string, remoteAddress: Option<string>)
    requires ',' !in first
    ensures GetClientIp(Header(first + [','] + rest), remoteAddress) == Trim(first)
  {
    FirstFieldOfJoin(first, rest);
  }

  /** A header without commas is used whole, trimmed. */
  lemma SingleEntryHeader(h: string, remoteAddress: Option<string>)
    requires ',' !in h
    ensures GetClientIp(Header(h), remoteAddress) == Trim(h)
  {
    var first := FirstField(h, ',');
    assert |first| == |h|;
    assert first == h;
  }

  /** A string header wins over the peer address, even when it is empty:
      an empty header yields the empty identifier, not "unknown". */
  lemma EmptyHeaderIsEmptyIp(remoteAddress: Option<string>)
    ensures GetClientIp(Header([]), remoteAddress) == []
  {
  }
}
