/** getServer, mongo.php:105-114: the server setting is one URI or a list
    of URIs, and the `mongo_server` cookie picks one of a list by index. */
module Servers {
  import opened Results
  import opened Decimal
  import opened PhpValues

  datatype ServerSetting = Single(uri: string) | Choices(uris: seq<string>)

  /** The list position a cookie names: `$server[$cookie]` is set when the
      cookie's text is the integer key of one of the list's entries. */
  function CookieChoice(uris: seq<string>, cookie: Option<string>): (r: Option<nat>)
    ensures r.Some? ==> r.value < |uris| && cookie.Some? && IntToString(r.value) == cookie.value
  {
    if cookie.None? then None
    else
      var k := ArrayKey(cookie.value);
      if k.Index? && 0 <= k.n < |uris| then Some(k.n) else None
  }

  /** The URI to connect to; `None` stands for the null `$server[0]` of an
      empty list. */
  function GetServer(setting: ServerSetting, cookie: Option<string>): (r: Option<string>)
    ensures setting.Single? ==> r == Some(setting.uri)
    ensures setting.Choices? ==> (r.Some? <==> |setting.uris| > 0)
    ensures setting.Choices? && r.Some? ==> r.value in setting.uris
  {
    match setting
    case Single(uri) => Some(uri)
    case Choices(uris) =>
      match CookieChoice(uris, cookie)
      case Some(i) => Some(uris[i])
      case None => if |uris| > 0 then Some(uris[0]) else None
  }

  /** The cookie holding a position's decimal text selects that position. */
  lemma CookieSelectsServer(uris: seq<string>, i: nat)
    requires i < |uris|
    ensures GetServer(Choices(uris), Some(NatToString(i))) == Some(uris[i])
  {
    ArrayKeyOfIntString(i);
  }

  /** Without a cookie naming a position of the list, the first entry is
      used. */
  lemma OtherCookiesPickFirst(uris: seq<string>, cookie: Option<string>)
    requires |uris| > 0
    requires forall i :: 0 <= i < |uris| ==> cookie != Some(NatToString(i))
    ensures GetServer(Choices(uris), cookie) == Some(uris[0])
  {
  }
}
