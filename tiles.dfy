/**
 * `get_session_url` (app.py): once the `createSession` request has been
 * answered, the tile URL template is plain string concatenation.
 */
module Tiles {
  import opened Wrappers

  /** The template before the session token; `{z}`, `{x}` and `{y}` are
      left for the map library to fill in. */
  const TILE_URL_PREFIX: string := "https://tile.googleapis.com/v1/2dtiles/{z}/{x}/{y}?session="
  /** Between the session token and the API key. */
  const KEY_PARAMETER: string := "&key="
  /** The only status code accepted from `createSession`. */
  const STATUS_OK: int := 200

  /** A 200 response without a `session` field: `.get('session')` gives
      None, and concatenating it to the prefix raises TypeError. */
  datatype UrlError = MissingSessionToken

  /** The URL for a 200 response carrying session token `token`: the
      prefix, then the token, then `&key=`, then the key. */
  function TileUrl(token: string, apiKey: string): (u: string)
    ensures var p := |TILE_URL_PREFIX|;
      && |u| == p + |token| + |KEY_PARAMETER| + |apiKey|
      && u[..p] == TILE_URL_PREFIX
      && u[p..p + |token|] == token
      && u[p + |token|..p + |token| + |KEY_PARAMETER|] == KEY_PARAMETER
      && u[|u| - |apiKey|..] == apiKey
  {
    TILE_URL_PREFIX + token + KEY_PARAMETER + apiKey
  }

  /** `get_session_url` after the POST: `status` is the response's status
      code, `session` its `session` field. Any status but 200 gives None
      (the error message it shows is not modelled). */
  function SessionUrl(status: int, session: Option<string>, apiKey: string): (r: Result<Option<string>, UrlError>)
    ensures status != STATUS_OK ==> r == Success(None)
    ensures status == STATUS_OK && session.None? ==> r == Failure(MissingSessionToken)
    ensures status == STATUS_OK && session.Some? ==> r == Success(Some(TileUrl(session.value, apiKey)))
  {
    if status != STATUS_OK then Success(None)
    else match session
      case None => Failure(MissingSessionToken)
      case Some(token) => Success(Some(TileUrl(token, apiKey)))
  }

  /** The first position of `c` in `s`, or `|s|` when there is none. */
  function IndexOf(s: string, c: char): (r: nat)
    ensures r <= |s| && c !in s[..r]
    ensures r < |s| ==> s[r] == c
  {
    if s == [] then 0
    else if s[0] == c then 0
    else
      var k := IndexOf(s[1..], c);
      assert s[..k + 1] == [s[0]] + s[1..][..k];
      1 + k
  }

  /** Reads a tile URL back into its session token and API key: the token
      runs from the end of the prefix to the first `&`, and `&key=` must
      follow. */
  function SplitTileUrl(u: string): Option<(string, string)> {
    var p := |TILE_URL_PREFIX|;
    if |u| < p || u[..p] != TILE_URL_PREFIX then None
    else
      var rest := u[p..];
      var i := IndexOf(rest, '&');
      if i + |KEY_PARAMETER| <= |rest| && rest[i..i + |KEY_PARAMETER|] == KEY_PARAMETER
      then Some((rest[..i], rest[i + |KEY_PARAMETER|..]))
      else None
  }

  /** Round trip: a token without `&` and any API key are read back from
      the URL a 200 response produces. */
  lemma TileUrlRoundTrip(token: string, apiKey: string)
    requires '&' !in token
    ensures SessionUrl(STATUS_OK, Some(token), apiKey) == Success(Some(TileUrl(token, apiKey)))
    ensures SplitTileUrl(TileUrl(token, apiKey)) == Some((token, apiKey))
  {
    var u := TileUrl(token, apiKey);
    var p := |TILE_URL_PREFIX|;
    assert u[..p] == TILE_URL_PREFIX;
    var rest := u[p..];
    assert rest == token + KEY_PARAMETER + apiKey;
    assert rest[..|token|] == token;
    assert rest[|token|] == '&';
    var i := IndexOf(rest, '&');
    assert i == |token|;
    assert rest[i..i + |KEY_PARAMETER|] == KEY_PARAMETER;
    assert rest[i + |KEY_PARAMETER|..] == apiKey;
  }
}
