# Construction-site dashboard and footprint filter, modelled in Dafny

This project models the two pieces of record-set logic in the
unauthorized-construction monitoring repository.

- **The footprint preprocessing script** (`preprocess.py`). It keeps the
  building rows whose confidence is at least 0.90 and whose centroid lies in
  the closed box latitude 28.55–28.60, longitude 77.20–77.25. It then parses
  each row's WKT geometry, simplifies it, and reports how many buildings
  remain.
- **The dashboard's site-status state** (`app.py`). The store is a list of
  site records. The status callback revokes or approves every record with the
  selected id. The refresh callback derives the two count cards, the
  authorized and unauthorized tables, and their dropdown options. The
  inspection callback looks a site up by id.

Modules:

- `Wrappers` holds `Option`/`Result`.
- `Sequences` holds order-preserving selection (the boolean-mask filter),
  element-wise map and subsequence, with their general lemmas.
- `Decimal` renders Python's `str` of an int and parses it back.
- `Footprints` models `preprocess.py`.
- `Dashboard` models the callbacks of `app.py`.

Geometries are an abstract type parameter. The WKT parser and the simplifier
are function parameters: `load` returns `None` where the text is not WKT.

Python's truthiness is kept. A dropdown value is an `Option<int>`, and both
`None` and `0` count as "no selection" (`Dashboard.Truthy`). A frame built
from an empty record list has no columns, so indexing a column raises. The
model returns `Failure(MissingColumn)` for this. `Dashboard.SessionNeverEmpty`
shows that this case cannot arise from the mock records the store starts
with.

Preprocessing behaviour the model reproduces:

- A row whose WKT does not parse is not skipped. `apply(wkt.loads)` raises
  and the whole run stops; the model returns `Failure(MalformedWkt(position))`.
- Non-polygon WKT such as `POINT` parses and is kept.
- WKT is parsed only for rows that survive both filters, so a malformed row
  that is filtered out does no harm.

## Model

| member | source | states |
|---|---|---|
| Footprints.ConfidenceFilter | preprocess.py:9 | keeps exactly the input rows with confidence >= 0.90, never more rows than it was given |
| Footprints.MeetsConfidence | preprocess.py:9 | the confidence condition `confidence >= 0.90`; FilterRowsMembership states it as part of the survival iff |
| Footprints.InBox | preprocess.py:14-17 | the box condition with all four bounds inclusive; FilterRowsMembership and ExampleBoundaryKept state it |
| Footprints.Survives | preprocess.py:9-17 | both conditions together; FilterRowsFused shows the two masks select exactly the rows satisfying it |
| Footprints.BoxFilter | preprocess.py:14-17 | keeps exactly the input rows whose latitude is in [28.55, 28.60] and longitude in [77.20, 77.25], all bounds inclusive |
| Footprints.FilterRows | preprocess.py:9-17 | every output row is an input row passing both conditions, every passing input row is in the output, and the output is no longer than the input |
| Footprints.FilterRowsFused | preprocess.py:9-17 | the two masks in sequence are one selection with the conjunction of both conditions |
| Footprints.FilterRowsMembership | preprocess.py:9-17 | a row is in the output if and only if it is in the input, has confidence >= 0.90, and lies in the closed box |
| Footprints.FilterRowsSubseq | preprocess.py:9-17 | the output is a subsequence of the input: order kept, nothing duplicated, surviving rows unchanged in every field |
| Footprints.FilterRowsMultiplicity | preprocess.py:9-17 | each surviving row value occurs as often as in the input; a dropped value occurs zero times |
| Footprints.FilterRowsCharacterized | preprocess.py:9-17 | any order-preserving subsequence with exactly the surviving occurrences equals the filter's output, so the output is uniquely determined |
| Footprints.FilterRowsIdempotent | preprocess.py:9-17 | filtering already-filtered rows returns them unchanged |
| Footprints.FiltersCommute | preprocess.py:9-17 | box mask then confidence mask gives the same rows as confidence mask then box mask |
| Footprints.LoadGeometries | preprocess.py:19 | succeeds if and only if every row's WKT parses; on success it gives one row per input row with attributes unchanged and the parsed geometry; on failure it names the first row that does not parse |
| Footprints.SimplifyGeometries | preprocess.py:22 | the row count is unchanged; each row keeps its attributes and gets its geometry simplified |
| Footprints.Preprocess | preprocess.py:19-27 | succeeds if and only if every surviving row's WKT parses; on success there is one feature per surviving row, and the message reports that number |
| Footprints.CompletionMessage | preprocess.py:27 | the printed line starts and ends with the fixed text, and between them is `str(n)`: canonical digits with no leading zero that read back as n |
| Footprints.PreprocessFeatures | preprocess.py:19-22 | feature k carries surviving row k's attributes and the simplification of its parsed geometry |
| Footprints.PreprocessReportsSurvivors | preprocess.py:27 | the number printed in the completion message is canonical decimal text (no leading zero) that reads back as the number of rows that passed both filters |
| Footprints.ExampleLowConfidenceDropped | preprocess.py:9 | of two rows at (28.58, 77.22) with confidence 0.95 and 0.80, only the first survives |
| Footprints.ExampleBoundaryKept | preprocess.py:14-17 | rows lying exactly on the lower corner with confidence 0.90, and exactly on the upper corner, both survive |
| Decimal.NatToString | app.py:451-452 | `str` of a count is a non-empty string of decimal digits with no leading zero |
| Decimal.ParseNatToString | app.py:451-452 | reading the decimal text of n gives back n |
| Decimal.ParseIntToString | app.py:457-458 | reading `str(i)` of any int, negatives included, gives back i |
| Decimal.IntToString | app.py:457-458 | `str` of an id is non-empty and holds no space; ParseIntToString and ParseIntExact show it is read back exactly |
| Decimal.ParseIntExact | app.py:457-458 | any text the parser reads as `i` is exactly `str(i)`, so the parser accepts no leading zeros and no "-0" |
| Decimal.CanonicalIsRendering | app.py:451-452 | a digit string without leading zeros is the rendering of its own value |
| Dashboard.SetAuthorized | app.py:481-484 | the masked assignment: same length; each record with the id gets the new flag with its other fields kept; every other record is unchanged |
| Dashboard.UpdateStatus | app.py:472-486 | fails only when the store is empty and the pressed button's selection is truthy; otherwise it keeps the record count and the id sequence |
| Dashboard.Truthy | app.py:481-484 | `if auth_id` / `if unauth_id`: None and 0 are no selection; NoSelectionUnchanged and UpdateInspection state its effect |
| Dashboard.RevokeClearsMatching | app.py:481-482 | Revoke with a truthy authorized-side selection clears `is_authorized` on every record with that id; other records and other fields are unchanged |
| Dashboard.ApproveSetsMatching | app.py:483-484 | Approve with a truthy unauthorized-side selection sets `is_authorized` on every record with that id; nothing else changes |
| Dashboard.NoSelectionUnchanged | app.py:475-486 | with no trigger, or when the pressed button's own selection is falsy, the store comes back unchanged |
| Dashboard.RevokeAuthorizedIds | app.py:481-482 | after Revoke, the set of authorized ids is the old set minus the selected id |
| Dashboard.ApproveAuthorizedIds | app.py:483-484 | after Approve, the set of authorized ids is the old set plus the selected id, if some record carries that id |
| Dashboard.UpdateStatusIdempotent | app.py:481-484 | pressing the same button again with the same selection changes nothing more |
| Dashboard.UpdateAll | app.py:451-458 | fails if and only if the store is empty; otherwise the two tables together have one row per record, and each option list has one entry per row of its table |
| Dashboard.CountAuthorized | app.py:451 | `df['is_authorized'].sum()`; CountAuthorizedIsSelection shows it equals the number of authorized records |
| Dashboard.CountUnauthorized | app.py:452 | `(~df['is_authorized']).sum()`; CountAuthorizedIsSelection shows it equals the number of unauthorized records |
| Dashboard.CountAuthorizedIsSelection | app.py:451-452 | the two sums equal the sizes of the authorized and unauthorized selections |
| Dashboard.Project | app.py:454-455 | the `[['id', 'location_name']]` projection; the table lemmas state the tables are its image of each side |
| Dashboard.UpdateAllCounts | app.py:451-452 | the count cards are canonical decimal text (no leading zero), reading back as the number of true flags and the number of false flags; these equal the table sizes and sum to the number of records |
| Dashboard.UpdateAllTablesPartition | app.py:454-455 | each projected `{id, location_name}` occurrence lands in exactly one of the two tables |
| Dashboard.UpdateAllTablesOrdered | app.py:454-455 | both tables are subsequences of the projected store, so store order is kept |
| Dashboard.UpdateAllAuthorizedOrder | app.py:454 | the authorized table is the projection of the unique subsequence of the store holding exactly the authorized occurrences, so its order is the store's order of authorized records |
| Dashboard.UpdateAllUnauthorizedOrder | app.py:455 | the unauthorized table is the projection of the unique subsequence of the store holding exactly the unauthorized occurrences |
| Dashboard.UpdateAllAuthorizedTable | app.py:454 | a row is in the authorized table if and only if it is the projection of an authorized record |
| Dashboard.UpdateAllUnauthorizedTable | app.py:455 | a row is in the unauthorized table if and only if it is the projection of an unauthorized record |
| Dashboard.UpdateAllOptions | app.py:457-458 | option j's value is row j's id, and its label `"{id} - {location_name}"` reads back as row j |
| Dashboard.ChoiceLabel | app.py:457-458 | the label `f"{id} - {location_name}"`; ParseChoiceLabelRoundTrip and ParseChoiceLabelExact show it is decoded back and nothing else decodes to the same row |
| Dashboard.ParseChoiceLabelRoundTrip | app.py:457-458 | every label decodes back to the id and name it was built from, because the id's text holds no space |
| Dashboard.ParseChoiceLabelExact | app.py:457-458 | a caption that decodes to a row is exactly that row's label text, so the decoder is injective |
| Dashboard.FirstMatch | app.py:502 | gives the position of the first record with the id, with no earlier record carrying it; otherwise it gives None, and then no record carries the id |
| Dashboard.UpdateInspection | app.py:497-512 | a falsy selection gives the four empty outputs; a truthy one fails if and only if no record carries the id; otherwise it shows details |
| Dashboard.InspectionShowsFirstMatch | app.py:501-509 | shows the first record with the id: its image, `"Site {id} - {name}"` and coordinates; the status is "Authorized" with class text-success if and only if that record is authorized, and "**UNAUTHORIZED**" with class text-danger if and only if it is not |
| Dashboard.StatusOf | app.py:504-505 | the status text is "Authorized" with class text-success if and only if the record is authorized, and "**UNAUTHORIZED**" with class text-danger if and only if it is not |
| Dashboard.RunPreservesIds | app.py:472-486 | any sequence of button presses keeps the number of records and their ids |
| Dashboard.Step | app.py:472-486 | one press, keeping the store when the callback raises, preserves the number of records and their ids |
| Dashboard.Run | app.py:472-486 | a sequence of presses folded over the store; RunPreservesIds and SessionNeverEmpty state what it keeps |
| Dashboard.SessionNeverEmpty | app.py:247-266 | starting from the mock records, the store always holds ids 101-104, and neither the status callback nor the refresh callback can hit the empty-store error |
| Dashboard.InitialCounts | app.py:277-284 | the first-rendered cards show "2" authorized and "2" unauthorized |
| Sequences.Select | preprocess.py:9-17 | a mask filter: every kept element is an input element satisfying the predicate, every satisfying element is kept, and it is never longer |
| Sequences.MapSelectMembers | app.py:454-455 | the projection of a mask filter holds the projection of every selected element, and only such projections |

## Left out

- File I/O is not modelled. This covers the CSV read (preprocess.py:7), directory creation and the GeoJSON write (preprocess.py:24-25), and the startup JSON load (app.py:10-11).
- The Dash/Bootstrap layout, the HTML template and the component wiring are not modelled. They are presentation only.
- The Plotly map figure and its tile layers (app.py:398-448) are not modelled. They are rendering-library calls.
- WKT parsing and topology-preserving simplification are left to the geometry library. They are the `load` and `simplify` parameters. The 0.0001 tolerance sits inside `simplify`. Ring validity after simplification is not modelled.
- Dash's `callback_context` string parsing (app.py:475-479) is abstracted. It becomes the `Trigger` value.
- The `globals()` fallback of the mock data (app.py:262-263) is not modelled. The store starts from the mock records.
- The unused `lat_center`/`margin` constants (preprocess.py:11-12) are omitted.
- Centroid computation and the compliance-report join are not modelled. Neither appears in these two files.
- Dashboard.UpdateInspection: the coordinates line `f"Coordinates: {lat}, {lon}"` is not rendered as text. The view carries the two reals, because Python's float-to-text formatting is not modelled.
- Footprints.FilterRows: latitudes, longitudes and confidences are exact reals, not IEEE doubles. A CSV value written as a bound's decimal text parses to that bound on both sides, so boundary rows are kept in both.
- Dashboard.Step: when a callback raises, Dash keeps the store as it was. The model treats the raising step the same way, and does not model Dash's error reporting.
