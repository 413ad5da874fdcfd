/**
 * `parse_kml` (app.py): the text of the `<coordinates>` node of a KML 2.2
 * boundary file, a whitespace-separated list of `lon,lat,alt` tuples, is
 * turned into two parallel lists `(lats, lons)` in file order.
 *
 * `float` is the parameter `parse` (None where Python raises ValueError);
 * the numbers themselves stay abstract.
 */
module Kml {
  import opened Wrappers
  import opened Text

  /** What `parse_kml` returns: `lats` and `lons`, in that order. */
  datatype Polygon<T> = Polygon(lats: seq<T>, lons: seq<T>)

  datatype KmlError =
      /** No `<coordinates>` node, or one without text: `.text.strip()`
          raises AttributeError. */
    | MissingCoordinates
      /** Token `index` (0-based) made the `lon, lat, _ = map(float, ...)`
          line raise ValueError: its comma split does not have exactly
          three fields, or one of the fields is not a number. */
    | BadToken(index: nat, token: string)

  /** A token the unpacking line accepts: three comma fields, each a number. */
  predicate IsTuple<T>(token: string, parse: string -> Option<T>) {
    var f := SplitOn(token, ',');
    |f| == 3 && parse(f[0]).Some? && parse(f[1]).Some? && parse(f[2]).Some?
  }

  /** `lon` is the first comma field of `token` and `lat` the second; the
      third (the altitude) is a number and is dropped. */
  ghost predicate Denotes<T>(token: string, parse: string -> Option<T>, lon: T, lat: T) {
    var f := SplitOn(token, ',');
    |f| == 3 && parse(f[0]) == Some(lon) && parse(f[1]) == Some(lat) && parse(f[2]).Some?
  }

  /** One token: `(lon, lat)`, or None where the unpacking line raises. */
  function ParseTuple<T>(token: string, parse: string -> Option<T>): (r: Option<(T, T)>)
    ensures r.Some? <==> IsTuple(token, parse)
    ensures r.Some? ==> Denotes(token, parse, r.value.0, r.value.1)
  {
    var f := SplitOn(token, ',');
    if IsTuple(token, parse) then Some((parse(f[0]).value, parse(f[1]).value)) else None
  }

  /** The loop over the tokens, appending to `lons` and `lats`, stopping at
      the first token that raises. */
  function ParseTokens<T>(tokens: seq<string>, parse: string -> Option<T>): (r: Result<Polygon<T>, KmlError>)
    ensures r.Success? ==> |r.value.lats| == |tokens| && |r.value.lons| == |tokens|
    ensures r.Failure? ==> r.error.BadToken? && r.error.index < |tokens| && r.error.token == tokens[r.error.index]
    decreases |tokens|
  {
    if tokens == [] then Success(Polygon([], []))
    else
      var n := |tokens| - 1;
      match ParseTokens(tokens[..n], parse)
      case Failure(e) => Failure(e)
      case Success(p) =>
        match ParseTuple(tokens[n], parse)
        case None => Failure(BadToken(n, tokens[n]))
        case Some((lon, lat)) => Success(Polygon(p.lats + [lat], p.lons + [lon]))
  }

  /** `parse_kml`, from the coordinates node text on. */
  function ParseCoordinates<T>(text: Option<string>, parse: string -> Option<T>): (r: Result<Polygon<T>, KmlError>)
    ensures r == Failure(MissingCoordinates) <==> text.None?
  {
    match text
    case None => Failure(MissingCoordinates)
    case Some(t) => ParseTokens(Words(Strip(t)), parse)
  }

  /** The loop of `parse_kml` as written: strip, split on whitespace, then
      split every token on commas and append its longitude and latitude. */
  method ParseKml<T>(coordinates: Option<string>, parse: string -> Option<T>) returns (r: Result<Polygon<T>, KmlError>)
    ensures r == ParseCoordinates(coordinates, parse)
  {
    if coordinates.None? {
      return Failure(MissingCoordinates);
    }
    var pairs := Words(Strip(coordinates.value));
    var lons: seq<T> := [];
    var lats: seq<T> := [];
    for i := 0 to |pairs|
      invariant ParseTokens(pairs[..i], parse) == Success(Polygon(lats, lons))
    {
      ParseTokensNext(pairs, i, parse);
      var fields := SplitOn(pairs[i], ',');
      if |fields| != 3 {
        assert ParseTuple(pairs[i], parse).None?;
        FailureSticks(pairs, i + 1, parse);
        return Failure(BadToken(i, pairs[i]));
      }
      var lon, lat, alt := parse(fields[0]), parse(fields[1]), parse(fields[2]);
      if lon.None? || lat.None? || alt.None? {
        assert ParseTuple(pairs[i], parse).None?;
        FailureSticks(pairs, i + 1, parse);
        return Failure(BadToken(i, pairs[i]));
      }
      assert ParseTuple(pairs[i], parse) == Some((lon.value, lat.value));
      lons := lons + [lon.value];
      lats := lats + [lat.value];
    }
    assert pairs[..|pairs|] == pairs;
    return Success(Polygon(lats, lons));
  }

  // ---------------------------------------------------------------------
  // What the parser computes

  /** One more token: the loop body. */
  lemma ParseTokensNext<T>(tokens: seq<string>, i: nat, parse: string -> Option<T>)
    requires i < |tokens|
    ensures ParseTokens(tokens[..i + 1], parse) ==
      match ParseTokens(tokens[..i], parse)
      case Failure(e) => Failure(e)
      case Success(p) =>
        match ParseTuple(tokens[i], parse)
        case None => Failure(BadToken(i, tokens[i]))
        case Some((lon, lat)) => Success(Polygon(p.lats + [lat], p.lons + [lon]))
  {
    assert tokens[..i + 1][..i] == tokens[..i];
  }

  /** Once the loop has raised, the later tokens are never looked at. */
  lemma {:induction false} FailureSticks<T>(tokens: seq<string>, k: nat, parse: string -> Option<T>)
    requires k <= |tokens| && ParseTokens(tokens[..k], parse).Failure?
    ensures ParseTokens(tokens, parse) == ParseTokens(tokens[..k], parse)
    decreases |tokens| - k
  {
    if k < |tokens| {
      var n := |tokens| - 1;
      assert tokens[..n][..k] == tokens[..k];
      FailureSticks(tokens[..n], k, parse);
    } else {
      assert tokens[..k] == tokens;
    }
  }

  /** The parser succeeds exactly when every token is a tuple; it then
      returns one latitude and one longitude per token, in token order,
      with the axes swapped from the file's lon/lat order. */
  lemma {:induction false} ParseTokensSucceeds<T>(tokens: seq<string>, parse: string -> Option<T>)
    ensures ParseTokens(tokens, parse).Success? <==> forall i :: 0 <= i < |tokens| ==> IsTuple(tokens[i], parse)
    ensures ParseTokens(tokens, parse).Success? ==>
      var p := ParseTokens(tokens, parse).value;
      |p.lats| == |tokens| && |p.lons| == |tokens|
      && forall i :: 0 <= i < |tokens| ==> Denotes(tokens[i], parse, p.lons[i], p.lats[i])
    decreases |tokens|
  {
    if tokens != [] {
      var n := |tokens| - 1;
      var init := tokens[..n];
      ParseTokensSucceeds(init, parse);
      assert forall i :: 0 <= i < n ==> init[i] == tokens[i];
      match ParseTokens(init, parse)
      case Failure(_) =>
        assert ParseTokens(tokens, parse).Failure?;
      case Success(p) =>
        match ParseTuple(tokens[n], parse)
        case None =>
          assert !IsTuple(tokens[n], parse);
        case Some((lon, lat)) =>
          var q := Polygon(p.lats + [lat], p.lons + [lon]);
          assert ParseTokens(tokens, parse) == Success(q);
          assert Denotes(tokens[n], parse, lon, lat);
          assert forall i :: 0 <= i < n ==> q.lats[i] == p.lats[i] && q.lons[i] == p.lons[i];
    }
  }

  /** On failure the error names the first token that is not a tuple. */
  lemma {:induction false} ParseTokensFails<T>(tokens: seq<string>, parse: string -> Option<T>)
    ensures ParseTokens(tokens, parse).Failure? ==>
      var e := ParseTokens(tokens, parse).error;
      && e.BadToken? && e.index < |tokens| && e.token == tokens[e.index]
      && !IsTuple(tokens[e.index], parse)
      && forall j :: 0 <= j < e.index ==> IsTuple(tokens[j], parse)
    decreases |tokens|
  {
    if tokens != [] {
      var n := |tokens| - 1;
      var init := tokens[..n];
      ParseTokensFails(init, parse);
      ParseTokensSucceeds(init, parse);
      assert forall i :: 0 <= i < n ==> init[i] == tokens[i];
    }
  }

  /** Empty or all-whitespace coordinates give two empty lists. */
  lemma BlankCoordinates<T>(t: string, parse: string -> Option<T>)
    requires AllSpace(t)
    ensures ParseCoordinates(Some(t), parse) == Success(Polygon([], []))
  {
    WordsOfStrip(t);
    WordsEmptyIffAllSpace(t);
  }

  /** Leading and trailing whitespace has no effect. */
  lemma SurroundingSpaceIgnored<T>(pre: string, t: string, post: string, parse: string -> Option<T>)
    requires AllSpace(pre) && AllSpace(post)
    ensures ParseCoordinates(Some(pre + t + post), parse) == ParseCoordinates(Some(t), parse)
  {
    WordsOfStrip(pre + t + post);
    WordsOfStrip(t);
    WordsSurroundingSpace(pre, t, post);
  }

  /** The length of a whitespace run between tokens has no effect. */
  lemma SpaceRunsIgnored<T>(a: string, sp1: string, sp2: string, b: string, parse: string -> Option<T>)
    requires sp1 != [] && AllSpace(sp1) && sp2 != [] && AllSpace(sp2)
    ensures ParseCoordinates(Some(a + sp1 + b), parse) == ParseCoordinates(Some(a + sp2 + b), parse)
  {
    WordsOfStrip(a + sp1 + b);
    WordsOfStrip(a + sp2 + b);
    WordsSplitAtSpaceRun(a, sp1, b);
    WordsSplitAtSpaceRun(a, sp2, b);
  }

  // ---------------------------------------------------------------------
  // Round trip: writing tuples out as KML coordinates and parsing them back

  /** The three fields of one tuple as they stand in the file. */
  datatype Tuple = Tuple(lon: string, lat: string, alt: string)

  function TupleText(t: Tuple): string {
    t.lon + [','] + t.lat + [','] + t.alt
  }

  /** The tokens of rendered tuples. */
  function TupleTexts(ts: seq<Tuple>): seq<string> {
    seq(|ts|, i requires 0 <= i < |ts| => TupleText(ts[i]))
  }

  /** Tuples written one after another, separated by blanks. */
  function Render(ts: seq<Tuple>): string {
    JoinWords(TupleTexts(ts))
  }

  /** A field that can stand in a tuple: no blank, no comma, a number. */
  predicate PlainField<T>(f: string, parse: string -> Option<T>) {
    NoSpace(f) && ',' !in f && parse(f).Some?
  }

  lemma TupleTextFields(t: Tuple)
    requires ',' !in t.lon && ',' !in t.lat && ',' !in t.alt
    ensures SplitOn(TupleText(t), ',') == [t.lon, t.lat, t.alt]
  {
    var fs := [t.lon, t.lat, t.alt];
    assert fs[1..] == [t.lat, t.alt];
    assert fs[1..][1..] == [t.alt];
    assert JoinOn(fs[1..], ',') == t.lat + [','] + t.alt;
    assert JoinOn(fs, ',') == t.lon + [','] + (t.lat + [','] + t.alt);
    assert JoinOn(fs, ',') == TupleText(t);
    SplitOnJoinOn(fs, ',');
  }

  lemma TupleTextIsWord(t: Tuple)
    requires NoSpace(t.lon) && NoSpace(t.lat) && NoSpace(t.alt)
    ensures TupleText(t) != [] && NoSpace(TupleText(t))
  {
    var s := TupleText(t);
    assert s[|t.lon|] == ',';
    forall i | 0 <= i < |s| ensures !IsSpace(s[i]) {
      if i < |t.lon| {
        assert s[i] == t.lon[i];
      } else if i == |t.lon| {
      } else if i < |t.lon| + 1 + |t.lat| {
        assert s[i] == t.lat[i - |t.lon| - 1];
      } else if i == |t.lon| + 1 + |t.lat| {
      } else {
        assert s[i] == t.alt[i - |t.lon| - 2 - |t.lat|];
      }
    }
  }

  lemma RenderedTokens(ts: seq<Tuple>)
    requires forall i :: 0 <= i < |ts| ==> NoSpace(ts[i].lon) && NoSpace(ts[i].lat) && NoSpace(ts[i].alt)
    ensures Words(Strip(Render(ts))) == TupleTexts(ts)
  {
    var tokens := TupleTexts(ts);
    forall i | 0 <= i < |ts| ensures tokens[i] != [] && NoSpace(tokens[i]) {
      TupleTextIsWord(ts[i]);
    }
    WordsOfJoinWords(tokens);
    WordsOfStrip(Render(ts));
  }

  /** Parsing rendered tuples gives back, in order, their latitudes and
      their longitudes, one of each per tuple. */
  lemma RenderRoundTrip<T>(ts: seq<Tuple>, parse: string -> Option<T>)
    requires forall i :: 0 <= i < |ts| ==>
      PlainField(ts[i].lon, parse) && PlainField(ts[i].lat, parse) && PlainField(ts[i].alt, parse)
    ensures var r := ParseCoordinates(Some(Render(ts)), parse);
      && r.Success? && |r.value.lats| == |ts| && |r.value.lons| == |ts|
      && forall i :: 0 <= i < |ts| ==>
           Some(r.value.lats[i]) == parse(ts[i].lat) && Some(r.value.lons[i]) == parse(ts[i].lon)
  {
    var tokens := TupleTexts(ts);
    RenderedTokens(ts);
    var r := ParseCoordinates(Some(Render(ts)), parse);
    assert r == ParseTokens(tokens, parse);
    forall i | 0 <= i < |ts| ensures IsTuple(tokens[i], parse) {
      TupleTextFields(ts[i]);
    }
    ParseTokensSucceeds(tokens, parse);
    var p := r.value;
    forall i | 0 <= i < |ts| ensures Some(p.lats[i]) == parse(ts[i].lat) && Some(p.lons[i]) == parse(ts[i].lon) {
      TupleTextFields(ts[i]);
      assert Denotes(tokens[i], parse, p.lons[i], p.lats[i]);
    }
  }
}
