# Shift Planning: a verified model of the map app's core logic

Shift Planning is a single-page Streamlit app. It geocodes an address and shows a
satellite map through a Google map-tiles session. It lets the user tick one of several
"permitted development" options and draws that option's boundary polygon over the map.
The polygon is parsed from a KML file. The app's logic lives in `app.py`. This project
models four pieces of it in Dafny and proves what each one promises. Each piece is
separated from the library calls around it, which become inputs:

- **The boundary parser** (`parse_kml`). It takes the text of the KML `<coordinates>`
  node, a whitespace-separated list of `lon,lat,alt` tuples. It strips the text and
  splits it on whitespace, then splits each token on commas into exactly three fields.
  It returns `(lats, lons)` in file order. Python's `float` is the parameter `parse`,
  which returns `None` where `float` raises. (`wrappers.dfy`, `text.dfy`, `kml.dfy`)
- **The tile URL** (`get_session_url` after its POST). A 200 answer gives
  `https://tile.googleapis.com/v1/2dtiles/{z}/{x}/{y}?session=` + token + `&key=` + key.
  Any other status gives `None`. A 200 answer without a `session` field raises a
  TypeError. (`tiles.dfy`)
- **The write-once session keys**. The script reruns top to bottom on every interaction,
  and only `st.session_state` survives between runs. The guard on `tiles_url` and the
  guard on `map_center`/`zoom` each write their key the first time only. (`slots.dfy`)
- **The selection pass**. It reads `selected_option` once, then walks the option rows in
  order:
  - a ticked row becomes the selection, and its boundary is drawn;
  - an unticked row named like the earlier selection clears it;
  - any other row leaves it alone.

  The pure specification is in `selection.dfy`. `session.dfy` holds the imperative pass
  over a `SessionState` object and one whole rerun (`RunOnce`).

The session state is a class whose fields are the session keys. Its methods change them
in place. `parse_kml` and the selection pass are imperative loops, proved against the
specification functions. The tile URL is a pure function.

Three behaviours of the code are worth knowing, and the model keeps each as written:
- The comment at app.py:172 says a ticked checkbox should "clear other selections".
  The loop does not do that by itself. Every ticked row is drawn, and the last row that
  writes the selection decides it (`Selection.LastActiveRowDecides`,
  `Selection.TwoTickedRows`). When option names are unique, the pass keeps the selection
  and draws at most one overlay exactly when each checkbox shows whether its row is the
  current selection (`Selection.Fixpoint` for one direction, `Selection.FixpointOnlyIf`
  for the other). Without unique names the converse fails: two rows both named like the
  selection, the first unticked and the second ticked, also keep it with one overlay.
- The tile URL is plain concatenation, so a token that also occurs in the key occurs twice
  in the URL. The model proves where each part stands in the URL (`Tiles.TileUrl`), and
  that the token and key can be read back when the token has no `&`
  (`Tiles.TileUrlRoundTrip`).
- The map centre and zoom are set on the first successful search only
  (`Slots.FirstOfferWins`, `Session.SessionState.RunOnce`).

## Model

| member | source | states |
|---|---|---|
| `Text.TrimLeft` | app.py:83 | the leading part `strip()` removes is all whitespace; what remains is a suffix of the text that does not start with whitespace |
| `Text.TrimRight` | app.py:83 | the trailing part `strip()` removes is all whitespace; what remains is a prefix of the text that does not end with whitespace |
| `Text.Strip` | app.py:83 | the stripped text is a slice of the text with only whitespace before and after it, and it is empty or starts and ends with a non-whitespace character |
| `Text.TakeWord` | app.py:86 | the first token is the longest whitespace-free prefix |
| `Text.Words` | app.py:86 | `split()` yields only non-empty, whitespace-free tokens |
| `Text.SplitOn` | app.py:92 | `split(',')` yields at least one field, and no field contains a comma |
| `Text.SplitOnCount` | app.py:92 | `split(',')` yields one field more than the token has commas |
| `Text.WordsEmptyIffAllSpace` | app.py:86 | the token list is empty exactly when the text is empty or all whitespace |
| `Text.WordsLeadingSpace` | app.py:86 | leading whitespace does not change the tokens |
| `Text.WordsTrailingSpace` | app.py:86 | trailing whitespace does not change the tokens |
| `Text.WordsSplitAtSpace` | app.py:86 | a whitespace character separates: the tokens of `a + [c] + b` are those of `a` followed by those of `b` |
| `Text.WordsSplitAtSpaceRun` | app.py:86 | a whitespace run of any length between two texts separates their tokens in the same way |
| `Text.WordsSurroundingSpace` | app.py:86 | whitespace on both sides does not change the tokens |
| `Text.WordsOfTrimLeft` | app.py:83-86 | removing leading whitespace before `split()` changes nothing |
| `Text.WordsOfTrimRight` | app.py:83-86 | removing trailing whitespace before `split()` changes nothing |
| `Text.WordsOfStrip` | app.py:83-86 | `strip()` before `split()` changes nothing |
| `Text.WordsOfJoinWords` | app.py:86 | round trip: non-empty whitespace-free tokens joined by blanks split back into the same tokens |
| `Text.JoinOnSplitOn` | app.py:92 | rejoining the comma fields with commas gives back the token |
| `Text.SplitOnJoinOn` | app.py:92 | round trip: comma-free fields joined with commas split back into the same fields |
| `Kml.ParseTuple` | app.py:92 | one token gives `(lon, lat)` exactly when it is a three-number tuple, and the pair is its first and second field |
| `Kml.ParseTokens` | app.py:88-94 | the loop over the tokens, stopping at the first that raises: on success both lists have one entry per token; on failure the error gives a token's index and the token itself |
| `Kml.ParseCoordinates` | app.py:83-96 | `parse_kml` from the coordinates text on: the missing-node error arises exactly when there is no coordinates text |
| `Kml.ParseKml` | app.py:78-96 | the loop returns exactly what `ParseCoordinates` specifies: a missing node is an error; otherwise the strip, split, per-token unpacking and appends, stopping at the first bad token |
| `Kml.FailureSticks` | app.py:91-92 | once a token raises, the later tokens do not change the outcome |
| `Kml.ParseTokensSucceeds` | app.py:88-96 | parsing succeeds if and only if every token has exactly three numeric comma fields; then `lats` and `lons` both have one entry per token, in token order, `lons[i]` from field 1 and `lats[i]` from field 2 of token i, while field 3 (altitude) is only checked to be a number |
| `Kml.ParseTokensFails` | app.py:91-92 | on failure the error names the first token whose comma split is not three numbers, gives its index and the token itself, and every earlier token is well formed |
| `Kml.BlankCoordinates` | app.py:83-96 | empty or all-whitespace coordinates give two empty lists |
| `Kml.SurroundingSpaceIgnored` | app.py:83-86 | leading and trailing whitespace has no effect on the result |
| `Kml.SpaceRunsIgnored` | app.py:86 | replacing one whitespace run between tokens with another has no effect on the result |
| `Kml.TupleTextFields` | app.py:92 | a tuple written `lon,lat,alt` with comma-free fields splits into exactly those three fields |
| `Kml.RenderRoundTrip` | app.py:86-96 | round trip: tuples written out and parsed back give one latitude and one longitude per tuple, in order, with the axes swapped to lat/lon |
| `Tiles.TileUrl` | app.py:51-54 | the URL is exactly the fixed prefix, then the token, then `&key=`, then the key, and its length is the sum of theirs |
| `Tiles.SessionUrl` | app.py:45-54 | a non-200 status gives None; a 200 status without a token raises; a 200 status with a token gives the `TileUrl` of that token and the key |
| `Tiles.TileUrlRoundTrip` | app.py:45-54 | round trip: splitting the built URL after the prefix at the first `&` gives back a token without `&` and the key |
| `Slots.Offer` | app.py:115-116 | one pass over a write-once guard: a present key is kept; an absent key takes the offered value, and stays absent when none is offered |
| `Slots.PresentStays` | app.py:115-116 | once a guarded key is present, no later rerun changes it |
| `Slots.NoOfferStaysAbsent` | app.py:118-124 | a key no rerun offers a value to stays absent |
| `Slots.FirstOfferWins` | app.py:122-124 | an absent guarded key ends up holding the first value offered to it, whatever later reruns offer |
| `Selection.Read` | app.py:143 | `.get('selected_option', None)`: a name is read exactly when the key is present and holds that name |
| `Selection.SelectionAfter` | app.py:173-189 | definition, no contract of its own: the key after the rows, each compared with the value read before the loop; its meaning is stated by the lemmas below |
| `Selection.SelectionAfterValues` | app.py:173-189 | the key after the loop is the old key, None, or the name of a ticked row |
| `Selection.LastActiveRowDecides` | app.py:173-189 | the last row that is ticked, or unticked but named like the earlier selection, decides the selection: its name if ticked, None if unticked |
| `Selection.NoActiveRowKeeps` | app.py:173-189 | if no row is ticked and none is named like the earlier selection, the selection key is left exactly as it was |
| `Selection.CheckedRows` | app.py:173-186 | definition, no contract of its own: the ticked rows in row order, which the lemmas below relate to the checkboxes |
| `Selection.CheckedRowsCount` | app.py:173-186 | exactly one overlay per ticked row |
| `Selection.CheckedRowsInOrder` | app.py:151-186 | the rows drawn are exactly the ticked rows, at strictly increasing row positions |
| `Selection.NothingCheckedNothingDrawn` | app.py:173-186 | nothing is drawn if and only if no row is ticked |
| `Selection.TwoTickedRows` | app.py:173-186 | two ticked rows are both drawn, and the later one ends up selected |
| `Selection.TwoTickedTwoDrawn` | app.py:173-186 | any two distinct ticked rows give at least two overlays |
| `Selection.Fixpoint` | app.py:155-189 | with unique option names and each checkbox showing whether its row is the current selection, the pass leaves the selection key exactly as it was and draws at most one boundary |
| `Selection.FixpointOnlyIf` | app.py:155-189 | the converse, with unique option names: a pass that keeps the selection key and draws at most one boundary had every checkbox equal to whether its row is the current selection |
| `Selection.Boundary` | app.py:177 | definition, no contract of its own: a row's boundary is `parse_kml` of `'kml/' + row['kml']`, through `Kml.ParseCoordinates` |
| `Selection.DrawnAppend` | app.py:178-186 | drawing one more ticked row appends its overlay, with the row's name and its parsed boundary |
| `Selection.PassOutcomeUnique` | app.py:151-189 | the outcome of a pass is unique: two outcomes of the same pass have the same selection key and the same result, overlays or error |
| `Session.TilesOffer` | app.py:115-116 | what one rerun's guard offers `tiles_url`: nothing exactly when a 200 answer has no token, None after a non-200 status, else the tile URL |
| `Session.Truthy` | app.py:118 | definition, no contract of its own: Python truthiness of the stored URL, false for None and the empty string |
| `Session.SessionState.constructor` | app.py:115-124 | a new session starts with every key absent |
| `Session.SessionState.EnsureTilesUrl` | app.py:115-116 | `tiles_url` is written only while absent, with the URL or None; a raising URL build leaves it absent and reports the error |
| `Session.SessionState.RecordCenter` | app.py:122-124 | `map_center` and zoom 17.5 are written only while `map_center` is absent |
| `Session.SessionState.SelectionPass` | app.py:143-189 | the loop leaves exactly the pass outcome: the new selection and the overlays, or the first boundary error together with the selection as it stood at that row |
| `Session.SessionState.RunOnce` | app.py:113-189 | one rerun: the tile guard may raise; with an empty address, no usable tile URL or no geocoder match, no map is shown and the selection is untouched; otherwise the centre guard runs, then the selection pass, and the map shows the stored centre and zoom and the drawn overlays |

## Left out

- Page layout, logo, titles, option thumbnails and descriptions, the checkbox widgets and
  `st.plotly_chart` (app.py:9-14, 99-113, 147-170, 192) are UI rendering. Checkbox values
  are plain boolean inputs. Whether a checkbox shows `value=is_checked` on later reruns
  is widget behaviour of the framework, and it is not modelled.
- Plotly layout, figure, marker and polygon styling (app.py:57-69, 127-140, 178-186)
  belong to a foreign library. The map shown is the `Session.Rerun` record: tile URL,
  centre, zoom, marker and a list of (name, polygon) overlays.
- Nominatim geocoding (app.py:72-75) is network I/O. The match is an input
  `Option<Location>`.
- The `createSession` POST, with its JSON payload and headers (app.py:30-43), is network
  I/O. The status code and the `session` field of the answer are inputs.
- The `st.error` message shown after a refused session (app.py:48) is UI output and is
  not modelled.
- `ET.parse` and the namespaced `find` (app.py:79-83) are XML and file I/O. The input is
  the text of the `<coordinates>` node. `None` stands for every failure up to `.strip()`:
  a missing node or a node without text (both AttributeError). A missing file or
  malformed XML raises a different exception in the source; here it is the same
  `MissingCoordinates` error.
- Floating point (`float`, app.py:92) is not modelled. Conversion is the parameter
  `parse`, and the coordinate values stay abstract in the parser. Coordinates and the
  zoom in the session state are `real`; nothing computes with them.
- CSV loading (app.py:17-23) and `st.secrets` (app.py:26) are file and configuration
  I/O. The rows are a given sequence and the API key is a given string.
- Kml.ParseKml: the three exceptions the unpacking line can raise are all the same
  `BadToken` error, because only which tokens fail matters to the caller. Those
  exceptions are "not enough values", "too many values" and "could not convert".
  Python's lazy `map` runs `float` before the field-count check, but that order changes
  only the message. The model checks the field count first.
