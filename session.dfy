/**
 * The session state of app.py and one rerun of the script over it. The
 * script runs top to bottom on every interaction; only the keys of
 * `st.session_state` survive between runs. The network answers (the
 * `createSession` response, the geocoder's match), the checkbox values
 * and the boundary files are inputs.
 */
module Session {
  import opened Wrappers
  import opened Slots
  import opened Tiles
  import Kml
  import opened Selection

  /** The zoom stored with the first map centre. */
  const FIRST_ZOOM: real := 17.5

  /** A map centre: `{"lat": ..., "lon": ...}`. */
  datatype Center = Center(lat: real, lon: real)

  /** A geocoder match. */
  datatype Location = Location(latitude: real, longitude: real, address: string)

  /** The answer to the `createSession` POST: status code and the
      `session` field of its JSON body. */
  datatype SessionResponse = SessionResponse(status: int, session: Option<string>)

  /** Why a rerun stopped with an exception. */
  datatype RerunError = UrlFailed(urlError: UrlError) | BoundaryFailed(kmlError: Kml.KmlError)

  /** What a rerun shows: no map (empty address, no tile URL, no match),
      the map, or nothing because it raised. */
  datatype Rerun =
    | NoMap
    | Map(tileUrl: string, center: Center, zoom: real, marker: Location, overlays: seq<Overlay>)
    | Raised(error: RerunError)

  /** What a rerun's `tiles_url` guard would store: the URL (None after a
      refused session), or nothing when building it raises. */
  function TilesOffer(apiKey: string, response: SessionResponse): (r: Option<Option<string>>)
    ensures r.None? <==> response.status == STATUS_OK && response.session.None?
    ensures response.status != STATUS_OK ==> r == Some(None)
    ensures r.Some? && r.value.Some? ==> r.value == Some(TileUrl(response.session.value, apiKey))
  {
    match SessionUrl(response.status, response.session, apiKey)
    case Success(u) => Some(u)
    case Failure(_) => None
  }

  /** Python truthiness of the stored `tiles_url`: None and the empty
      string are false. */
  predicate Truthy(url: Option<string>) {
    url.Some? && url.value != []
  }

  class SessionState {
    var tilesUrl: Slot<Option<string>>
    var mapCenter: Slot<Center>
    var zoom: Slot<real>
    var selectedOption: Slot<Option<string>>

    /** `zoom` is written together with `map_center` and only then. */
    ghost predicate Valid()
      reads this
    {
      (zoom.Present? <==> mapCenter.Present?) && (zoom.Present? ==> zoom.value == FIRST_ZOOM)
    }

    /** A new session: every key absent. */
    constructor ()
      ensures Valid()
      ensures tilesUrl == Absent && mapCenter == Absent && zoom == Absent && selectedOption == Absent
    {
      tilesUrl, mapCenter, zoom, selectedOption := Absent, Absent, Absent, Absent;
    }

    /** `if 'tiles_url' not in st.session_state: ... = get_session_url(...)`.
        The response is only consulted while the key is absent; a failing
        URL build raises before the assignment. Returns the exception, if
        any. */
    method EnsureTilesUrl(apiKey: string, response: SessionResponse) returns (raised: Option<UrlError>)
      modifies this`tilesUrl
      ensures tilesUrl == Offer(old(tilesUrl), TilesOffer(apiKey, response))
      ensures old(tilesUrl).Present? ==> raised.None?
      ensures old(tilesUrl).Absent? ==>
        match SessionUrl(response.status, response.session, apiKey)
        case Success(_) => raised.None?
        case Failure(e) => raised == Some(e)
    {
      raised := None;
      if tilesUrl.Absent? {
        var u := SessionUrl(response.status, response.session, apiKey);
        if u.Failure? {
          raised := Some(u.error);
          return;
        }
        tilesUrl := Present(u.value);
      }
    }

    /** `if 'map_center' not in st.session_state:` store the centre and the
        zoom; a later match changes neither. */
    method RecordCenter(location: Location)
      requires Valid()
      modifies this`mapCenter, this`zoom
      ensures Valid()
      ensures mapCenter == Offer(old(mapCenter), Some(Center(location.latitude, location.longitude)))
      ensures zoom == (if old(mapCenter).Absent? then Present(FIRST_ZOOM) else old(zoom))
    {
      if mapCenter.Absent? {
        mapCenter := Present(Center(location.latitude, location.longitude));
        zoom := Present(FIRST_ZOOM);
      }
    }

    /** The loop over the option rows: reads the selection once, then per
        row either selects it and draws its boundary, clears the selection,
        or does nothing. */
    method SelectionPass(rows: seq<Row>, checks: seq<bool>,
                         coordinatesOf: string -> Option<string>, parse: string -> Option<real>)
      returns (r: Result<seq<Overlay>, Kml.KmlError>)
      requires |checks| == |rows|
      modifies this`selectedOption
      ensures PassOutcome(old(selectedOption), rows, checks, BoundaryLoader(coordinatesOf, parse), selectedOption, r)
    {
      ghost var start := selectedOption;
      var selected := Read(selectedOption);
      var overlays: seq<Overlay> := [];
      ghost var boundaryOf := BoundaryLoader(coordinatesOf, parse);
      for i := 0 to |rows|
        invariant PassSoFar(start, rows, checks, boundaryOf, i, selectedOption, overlays)
      {
        var row := rows[i];
        ghost var sel := selectedOption;
        if checks[i] {
          selectedOption := Present(Some(row.name));
          var boundary := Kml.ParseKml(coordinatesOf(BoundaryPath(row)), parse);
          assert boundary == boundaryOf(row);
          if boundary.Failure? {
            PassStopsAt(start, rows, checks, boundaryOf, i, sel, overlays, boundary.error);
            return Failure(boundary.error);
          }
          PassTicked(start, rows, checks, boundaryOf, i, sel, overlays, boundary.value);
          overlays := overlays + [Overlay(row.name, boundary.value)];
        } else {
          PassUnticked(start, rows, checks, boundaryOf, i, sel, overlays);
          if selected == Some(row.name) {
            selectedOption := Present(None);
          }
        }
      }
      PassCompletes(start, rows, checks, boundaryOf, selectedOption, overlays);
      return Success(overlays);
    }

    /** One run of the script, from the address box on (app.py lines
        113-189): the tile URL guard, then, for a non-empty address, a tile
        URL and a geocoder match, the map centre guard and the selection
        pass. `location` is the geocoder's answer for `address`. */
    method RunOnce(address: string, apiKey: string, response: SessionResponse, location: Option<Location>,
                   rows: seq<Row>, checks: seq<bool>,
                   coordinatesOf: string -> Option<string>, parse: string -> Option<real>)
      returns (shown: Rerun)
      requires Valid() && |checks| == |rows|
      modifies this
      ensures Valid()
      ensures tilesUrl == Offer(old(tilesUrl), TilesOffer(apiKey, response))
      ensures tilesUrl.Absent? && old(tilesUrl).Absent? ==>
        && shown == Raised(UrlFailed(SessionUrl(response.status, response.session, apiKey).error))
        && mapCenter == old(mapCenter) && zoom == old(zoom) && selectedOption == old(selectedOption)
      ensures tilesUrl.Present? ==>
        var searched := address != [] && Truthy(tilesUrl.value) && location.Some?;
        && mapCenter == Offer(old(mapCenter), if searched then Some(Center(location.value.latitude, location.value.longitude)) else None)
        && zoom == (if searched && old(mapCenter).Absent? then Present(FIRST_ZOOM) else old(zoom))
        && (!searched ==> shown == NoMap && selectedOption == old(selectedOption))
        && (searched ==>
              && mapCenter.Present? && zoom.Present?
              && (shown.Map? || shown.Raised?)
              && (shown.Raised? ==> shown.error.BoundaryFailed?)
              && PassOutcome(old(selectedOption), rows, checks, BoundaryLoader(coordinatesOf, parse), selectedOption,
                             if shown.Map? then Success(shown.overlays) else Failure(shown.error.kmlError))
              && (shown.Map? ==> shown == Map(tilesUrl.value.value, mapCenter.value, zoom.value, location.value, shown.overlays)))
    {
      var raised := EnsureTilesUrl(apiKey, response);
      if raised.Some? {
        return Raised(UrlFailed(raised.value));
      }
      if address == [] || !Truthy(tilesUrl.value) || location.None? {
        return NoMap;
      }
      RecordCenter(location.value);
      var pass := SelectionPass(rows, checks, coordinatesOf, parse);
      if pass.Failure? {
        return Raised(BoundaryFailed(pass.error));
      }
      shown := Map(tilesUrl.value.value, mapCenter.value, zoom.value, location.value, pass.value);
    }
  }
}
