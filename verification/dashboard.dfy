/** The dashboard callbacks of app.py over the list of site records held
    in the browser-side store: the status transition behind the two
    buttons, the statistics, tables and dropdown options derived from the
    store, and the inspection lookup. */
module Dashboard {
  import opened Wrappers
  import opened Sequences
  import Decimal

  /** One record of the store. */
  datatype Site = Site(id: int, locationName: string, lat: real, lon: real,
                       isAuthorized: bool, imageUrl: string)

  /** Which button fired the status callback, if any did. */
  datatype Trigger = NoTrigger | Revoke | Approve

  /** A column lookup on the frame built from an empty record list (it has
      no columns), or `.iloc[0]` on an empty match. */
  datatype StoreError = MissingColumn | NoSuchSite(id: int)

  /** Python's `if value:` on a dropdown value: None and 0 are falsy. */
  predicate Truthy(sel: Option<int>) {
    sel.Some? && sel.value != 0
  }

  function SiteId(s: Site): int {
    s.id
  }

  /** The store's ids, in order. */
  function Ids(data: seq<Site>): seq<int> {
    MapSeq(data, SiteId)
  }

  /** The ids of the records currently marked authorized. */
  ghost function AuthorizedIds(data: seq<Site>): set<int> {
    set k | 0 <= k < |data| && data[k].isAuthorized :: data[k].id
  }

  ghost function IdSet(data: seq<Site>): set<int> {
    set k | 0 <= k < |data| :: data[k].id
  }

  /** The masked assignment `df.loc[df['id'] == id, 'is_authorized'] = value`. */
  function SetAuthorized(data: seq<Site>, id: int, value: bool): (r: seq<Site>)
    ensures |r| == |data|
    ensures forall k :: 0 <= k < |data| ==>
              r[k] == if data[k].id == id then data[k].(isAuthorized := value) else data[k]
    decreases |data|
  {
    if |data| == 0 then []
    else
      var head := if data[0].id == id then data[0].(isAuthorized := value) else data[0];
      [head] + SetAuthorized(data[1..], id, value)
  }

  /** The status callback: Revoke reads the authorized-side dropdown,
      Approve the unauthorized-side one. */
  function UpdateStatus(trigger: Trigger, authSel: Option<int>, unauthSel: Option<int>,
                        data: seq<Site>): (r: Result<seq<Site>, StoreError>)
    ensures r.Failure? <==>
              |data| == 0 &&
              ((trigger == Revoke && Truthy(authSel)) || (trigger == Approve && Truthy(unauthSel)))
    ensures r.Success? ==> |r.value| == |data| && Ids(r.value) == Ids(data)
  {
    match trigger
    case NoTrigger => Success(data)
    case Revoke =>
      if !Truthy(authSel) then Success(data)
      else if |data| == 0 then Failure(MissingColumn)
      else Success(SetAuthorized(data, authSel.value, false))
    case Approve =>
      if !Truthy(unauthSel) then Success(data)
      else if |data| == 0 then Failure(MissingColumn)
      else Success(SetAuthorized(data, unauthSel.value, true))
  }

  /** Revoke clears the flag on every record with the selected id; every
      other record, and every other field, stays as it was. */
  lemma RevokeClearsMatching(authSel: Option<int>, unauthSel: Option<int>, data: seq<Site>)
    requires Truthy(authSel) && |data| > 0
    ensures var r := UpdateStatus(Revoke, authSel, unauthSel, data);
            r.Success? && |r.value| == |data| &&
            forall k :: 0 <= k < |data| ==>
              (data[k].id == authSel.value ==> r.value[k] == data[k].(isAuthorized := false)) &&
              (data[k].id != authSel.value ==> r.value[k] == data[k])
  {
  }

  /** Approve sets the flag on every record with the selected id; nothing
      else changes. */
  lemma ApproveSetsMatching(authSel: Option<int>, unauthSel: Option<int>, data: seq<Site>)
    requires Truthy(unauthSel) && |data| > 0
    ensures var r := UpdateStatus(Approve, authSel, unauthSel, data);
            r.Success? && |r.value| == |data| &&
            forall k :: 0 <= k < |data| ==>
              (data[k].id == unauthSel.value ==> r.value[k] == data[k].(isAuthorized := true)) &&
              (data[k].id != unauthSel.value ==> r.value[k] == data[k])
  {
  }

  /** Without a trigger, or when the button's own dropdown holds a falsy
      value, the store comes back unchanged. */
  lemma NoSelectionUnchanged(trigger: Trigger, authSel: Option<int>, unauthSel: Option<int>, data: seq<Site>)
    requires trigger == NoTrigger ||
             (trigger == Revoke && !Truthy(authSel)) ||
             (trigger == Approve && !Truthy(unauthSel))
    ensures UpdateStatus(trigger, authSel, unauthSel, data) == Success(data)
  {
  }

  /** Seen through the set of authorized ids, Revoke removes the selected id. */
  lemma RevokeAuthorizedIds(authSel: Option<int>, unauthSel: Option<int>, data: seq<Site>)
    requires Truthy(authSel) && |data| > 0
    ensures var r := UpdateStatus(Revoke, authSel, unauthSel, data);
            r.Success? && AuthorizedIds(r.value) == AuthorizedIds(data) - {authSel.value}
  {
    var x := authSel.value;
    var d := UpdateStatus(Revoke, authSel, unauthSel, data).value;
    forall i | i in AuthorizedIds(d)
      ensures i in AuthorizedIds(data) - {x}
    {
      var k :| 0 <= k < |d| && d[k].isAuthorized && d[k].id == i;
      assert data[k].isAuthorized && data[k].id == i;
    }
    forall i | i in AuthorizedIds(data) - {x}
      ensures i in AuthorizedIds(d)
    {
      var k :| 0 <= k < |data| && data[k].isAuthorized && data[k].id == i;
      assert d[k].isAuthorized && d[k].id == i;
    }
  }

  /** Approve adds the selected id to the authorized ids, provided some
      record carries it. */
  lemma ApproveAuthorizedIds(authSel: Option<int>, unauthSel: Option<int>, data: seq<Site>)
    requires Truthy(unauthSel) && |data| > 0
    ensures var r := UpdateStatus(Approve, authSel, unauthSel, data);
            var x := unauthSel.value;
            r.Success? &&
            AuthorizedIds(r.value) == AuthorizedIds(data) + (if x in IdSet(data) then {x} else {})
  {
    var x := unauthSel.value;
    var d := UpdateStatus(Approve, authSel, unauthSel, data).value;
    var added: set<int> := if x in IdSet(data) then {x} else {};
    forall i | i in AuthorizedIds(d)
      ensures i in AuthorizedIds(data) + added
    {
      var k :| 0 <= k < |d| && d[k].isAuthorized && d[k].id == i;
      if data[k].id == x {
        assert x in IdSet(data);
      } else {
        assert data[k].isAuthorized;
      }
    }
    forall i | i in AuthorizedIds(data) + added
      ensures i in AuthorizedIds(d)
    {
      if i in AuthorizedIds(data) {
        var k :| 0 <= k < |data| && data[k].isAuthorized && data[k].id == i;
        assert d[k].isAuthorized && d[k].id == i;
      } else {
        var k :| 0 <= k < |data| && data[k].id == x;
        assert d[k].isAuthorized && d[k].id == i;
      }
    }
  }

  /** Pressing the same button twice with the same selection is pressing it once. */
  lemma {:induction false} UpdateStatusIdempotent(trigger: Trigger, authSel: Option<int>,
                                                  unauthSel: Option<int>, data: seq<Site>)
    requires UpdateStatus(trigger, authSel, unauthSel, data).Success?
    ensures var once := UpdateStatus(trigger, authSel, unauthSel, data).value;
            UpdateStatus(trigger, authSel, unauthSel, once) == Success(once)
  {
    var once := UpdateStatus(trigger, authSel, unauthSel, data).value;
    var twice := UpdateStatus(trigger, authSel, unauthSel, once);
    if trigger == Revoke && Truthy(authSel) {
      assert twice.value == SetAuthorized(once, authSel.value, false);
      assert twice.value == once;
    } else if trigger == Approve && Truthy(unauthSel) {
      assert twice.value == SetAuthorized(once, unauthSel.value, true);
      assert twice.value == once;
    }
  }

  // ---- Statistics, tables and dropdown options ------------------------

  /** A row of the two site tables: the record projected to id and name. */
  datatype TableRow = TableRow(id: int, locationName: string)

  /** A dropdown entry. */
  datatype Choice = Choice(caption: string, value: int)

  /** What the refresh callback returns besides the map figure. */
  datatype Panel = Panel(authCount: string, unauthCount: string,
                         authTable: seq<TableRow>, unauthTable: seq<TableRow>,
                         authOptions: seq<Choice>, unauthOptions: seq<Choice>)

  predicate IsAuthorized(s: Site) {
    s.isAuthorized
  }

  predicate IsUnauthorized(s: Site) {
    !s.isAuthorized
  }

  function Project(s: Site): TableRow {
    TableRow(s.id, s.locationName)
  }

  /** `df['is_authorized'].sum()`: the number of true flags. */
  function CountAuthorized(data: seq<Site>): nat
    decreases |data|
  {
    if |data| == 0 then 0
    else (if data[0].isAuthorized then 1 else 0) + CountAuthorized(data[1..])
  }

  /** `(~df['is_authorized']).sum()`: the number of false flags. */
  function CountUnauthorized(data: seq<Site>): nat
    decreases |data|
  {
    if |data| == 0 then 0
    else (if data[0].isAuthorized then 0 else 1) + CountUnauthorized(data[1..])
  }

  /** The caption `f"{id} - {name}"`. */
  function ChoiceLabel(id: int, name: string): string {
    Decimal.IntToString(id) + " - " + name
  }

  function ChoiceFor(row: TableRow): Choice {
    Choice(ChoiceLabel(row.id, row.locationName), row.id)
  }

  /** The refresh callback's statistics, tables and options. */
  function UpdateAll(data: seq<Site>): (r: Result<Panel, StoreError>)
    ensures r.Failure? <==> |data| == 0
    ensures r.Success? ==>
              |r.value.authTable| + |r.value.unauthTable| == |data| &&
              |r.value.authOptions| == |r.value.authTable| &&
              |r.value.unauthOptions| == |r.value.unauthTable|
  {
    if |data| == 0 then Failure(MissingColumn)
    else
      var authRows := MapSeq(Select(data, IsAuthorized), Project);
      var unauthRows := MapSeq(Select(data, IsUnauthorized), Project);
      SelectPartition(data, IsAuthorized, IsUnauthorized);
      Success(Panel(Decimal.NatToString(CountAuthorized(data)),
                    Decimal.NatToString(CountUnauthorized(data)),
                    authRows, unauthRows,
                    MapSeq(authRows, ChoiceFor), MapSeq(unauthRows, ChoiceFor)))
  }

  lemma {:induction false} CountAuthorizedIsSelection(data: seq<Site>)
    ensures CountAuthorized(data) == |Select(data, IsAuthorized)|
    ensures CountUnauthorized(data) == |Select(data, IsUnauthorized)|
    decreases |data|
  {
    if |data| > 0 {
      CountAuthorizedIsSelection(data[1..]);
    }
  }

  /** The two count cards read back as the sizes of the two tables, and
      together as the number of records. */
  lemma UpdateAllCounts(data: seq<Site>)
    requires |data| > 0
    ensures var p := UpdateAll(data).value;
            Decimal.Canonical(p.authCount) && Decimal.Canonical(p.unauthCount) &&
            Decimal.ParseDigits(p.authCount) == CountAuthorized(data) == |p.authTable| &&
            Decimal.ParseDigits(p.unauthCount) == CountUnauthorized(data) == |p.unauthTable| &&
            Decimal.ParseDigits(p.authCount) + Decimal.ParseDigits(p.unauthCount) == |data|
  {
    CountAuthorizedIsSelection(data);
    SelectPartition(data, IsAuthorized, IsUnauthorized);
    Decimal.ParseNatToString(CountAuthorized(data));
    Decimal.ParseNatToString(CountUnauthorized(data));
  }

  /** The tables split the projected records: each occurrence of a
      projected record lands in exactly one of them. */
  lemma UpdateAllTablesPartition(data: seq<Site>)
    requires |data| > 0
    ensures var p := UpdateAll(data).value;
            multiset(p.authTable) + multiset(p.unauthTable) == multiset(MapSeq(data, Project))
  {
    MapSelectPartition(data, IsAuthorized, IsUnauthorized, Project);
  }

  /** Each table keeps the store's order. */
  lemma UpdateAllTablesOrdered(data: seq<Site>)
    requires |data| > 0
    ensures var p := UpdateAll(data).value;
            Subseq(p.authTable, MapSeq(data, Project)) &&
            Subseq(p.unauthTable, MapSeq(data, Project))
  {
    SelectSubseq(data, IsAuthorized);
    SelectSubseq(data, IsUnauthorized);
    MapSubseq(Select(data, IsAuthorized), data, Project);
    MapSubseq(Select(data, IsUnauthorized), data, Project);
  }

  /** The authorized table is pinned down in order: it projects the one
      subsequence of the store that holds every authorized occurrence and
      nothing else. */
  lemma UpdateAllAuthorizedOrder(data: seq<Site>, t: seq<Site>)
    requires |data| > 0
    requires Subseq(t, data)
    requires forall x :: multiset(t)[x] == if x.isAuthorized then multiset(data)[x] else 0
    ensures UpdateAll(data).value.authTable == MapSeq(t, Project)
  {
    SelectUnique(data, IsAuthorized, t);
  }

  /** Likewise for the unauthorized table. */
  lemma UpdateAllUnauthorizedOrder(data: seq<Site>, u: seq<Site>)
    requires |data| > 0
    requires Subseq(u, data)
    requires forall x :: multiset(u)[x] == if x.isAuthorized then 0 else multiset(data)[x]
    ensures UpdateAll(data).value.unauthTable == MapSeq(u, Project)
  {
    SelectUnique(data, IsUnauthorized, u);
  }

  /** A row is in the authorized table exactly when it projects an
      authorized record. */
  lemma UpdateAllAuthorizedTable(data: seq<Site>)
    requires |data| > 0
    ensures var p := UpdateAll(data).value;
            (forall k :: 0 <= k < |data| && data[k].isAuthorized ==> Project(data[k]) in p.authTable) &&
            (forall j :: 0 <= j < |p.authTable| ==>
               exists k :: 0 <= k < |data| && data[k].isAuthorized && Project(data[k]) == p.authTable[j])
  {
    MapSelectMembers(data, IsAuthorized, Project);
  }

  /** A row is in the unauthorized table exactly when it projects an
      unauthorized record. */
  lemma UpdateAllUnauthorizedTable(data: seq<Site>)
    requires |data| > 0
    ensures var p := UpdateAll(data).value;
            (forall k :: 0 <= k < |data| && !data[k].isAuthorized ==> Project(data[k]) in p.unauthTable) &&
            (forall j :: 0 <= j < |p.unauthTable| ==>
               exists k :: 0 <= k < |data| && !data[k].isAuthorized && Project(data[k]) == p.unauthTable[j])
  {
    MapSelectMembers(data, IsUnauthorized, Project);
  }

  /** Index of the first space, or the length when there is none. */
  function FirstSpace(s: string): (k: nat)
    ensures k <= |s|
    ensures forall i :: 0 <= i < k ==> s[i] != ' '
    ensures k < |s| ==> s[k] == ' '
    decreases |s|
  {
    if |s| == 0 then 0 else if s[0] == ' ' then 0 else 1 + FirstSpace(s[1..])
  }

  /** Reads a dropdown caption back into the id and name it shows. */
  function ParseChoiceLabel(caption: string): Option<TableRow> {
    var k := FirstSpace(caption);
    if k + 3 <= |caption| && caption[k..k + 3] == " - " then
      match Decimal.ParseInt(caption[..k])
      case Some(id) => Some(TableRow(id, caption[k + 3..]))
      case None => None
    else None
  }

  /** A caption determines its id and name: the id's digits hold no space,
      so the first " - " is the separator. */
  lemma ParseChoiceLabelRoundTrip(row: TableRow)
    ensures ParseChoiceLabel(ChoiceLabel(row.id, row.locationName)) == Some(row)
  {
    var digits := Decimal.IntToString(row.id);
    var caption := ChoiceLabel(row.id, row.locationName);
    assert caption == digits + (" - " + row.locationName);
    assert caption[|digits|] == ' ';
    assert FirstSpace(caption) == |digits|;
    assert caption[..|digits|] == digits;
    assert caption[|digits|..|digits| + 3] == " - ";
    assert caption[|digits| + 3..] == row.locationName;
    Decimal.ParseIntToString(row.id);
  }

  /** The decoder accepts only labels built by `ChoiceLabel`: a caption
      that reads as a row is exactly that row's label text. */
  lemma ParseChoiceLabelExact(caption: string, row: TableRow)
    requires ParseChoiceLabel(caption) == Some(row)
    ensures caption == ChoiceLabel(row.id, row.locationName)
  {
    var k := FirstSpace(caption);
    Decimal.ParseIntExact(caption[..k], row.id);
    assert caption == caption[..k] + caption[k..k + 3] + caption[k + 3..];
  }

  /** One dropdown entry per table row, in the same order, whose value is
      the row's id and whose caption reads back as the row. */
  lemma UpdateAllOptions(data: seq<Site>)
    requires |data| > 0
    ensures var p := UpdateAll(data).value;
            |p.authOptions| == |p.authTable| && |p.unauthOptions| == |p.unauthTable| &&
            (forall j :: 0 <= j < |p.authTable| ==>
               p.authOptions[j].value == p.authTable[j].id &&
               ParseChoiceLabel(p.authOptions[j].caption) == Some(p.authTable[j]) &&
               p.authOptions[j].caption ==
                 Decimal.IntToString(p.authTable[j].id) + " - " + p.authTable[j].locationName) &&
            (forall j :: 0 <= j < |p.unauthTable| ==>
               p.unauthOptions[j].value == p.unauthTable[j].id &&
               ParseChoiceLabel(p.unauthOptions[j].caption) == Some(p.unauthTable[j]) &&
               p.unauthOptions[j].caption ==
                 Decimal.IntToString(p.unauthTable[j].id) + " - " + p.unauthTable[j].locationName)
  {
    var p := UpdateAll(data).value;
    forall j | 0 <= j < |p.authTable|
      ensures ParseChoiceLabel(p.authOptions[j].caption) == Some(p.authTable[j])
    {
      ParseChoiceLabelRoundTrip(p.authTable[j]);
    }
    forall j | 0 <= j < |p.unauthTable|
      ensures ParseChoiceLabel(p.unauthOptions[j].caption) == Some(p.unauthTable[j])
    {
      ParseChoiceLabelRoundTrip(p.unauthTable[j]);
    }
  }

  // ---- Inspection ------------------------------------------------------

  /** The status line: its text and its colour class. */
  datatype StatusSpan = StatusSpan(text: string, cssClass: string)

  /** The inspection outputs. `Blank` is the four empty strings. */
  datatype Inspection =
    | Blank
    | Details(imageUrl: string, title: string, status: StatusSpan, lat: real, lon: real)

  /** Position of the first record with this id, as `df[df['id'] == id].iloc[0]`. */
  function FirstMatch(data: seq<Site>, id: int): (r: Option<nat>)
    ensures r.Some? ==>
              r.value < |data| && data[r.value].id == id &&
              forall j :: 0 <= j < r.value ==> data[j].id != id
    ensures r.None? ==> forall k :: 0 <= k < |data| ==> data[k].id != id
    decreases |data|
  {
    if |data| == 0 then None
    else if data[0].id == id then Some(0)
    else match FirstMatch(data[1..], id)
      case None => None
      case Some(k) => Some(k + 1)
  }

  function StatusOf(s: Site): (r: StatusSpan)
    ensures r.text == "Authorized" <==> s.isAuthorized
    ensures r.text == "**UNAUTHORIZED**" <==> !s.isAuthorized
    ensures r.cssClass == "text-success" <==> s.isAuthorized
    ensures r.cssClass == "text-danger" <==> !s.isAuthorized
  {
    if s.isAuthorized then StatusSpan("Authorized", "text-success")
    else StatusSpan("**UNAUTHORIZED**", "text-danger")
  }

  /** The inspection callback. */
  function UpdateInspection(sel: Option<int>, data: seq<Site>): (r: Result<Inspection, StoreError>)
    ensures !Truthy(sel) ==> r == Success(Blank)
    ensures Truthy(sel) ==>
              (r.Failure? <==> forall k :: 0 <= k < |data| ==> data[k].id != sel.value)
    ensures r.Success? ==> (r.value.Blank? <==> !Truthy(sel))
  {
    if !Truthy(sel) then Success(Blank)
    else if |data| == 0 then Failure(MissingColumn)
    else
      var id := sel.value;
      match FirstMatch(data, id)
      case None => Failure(NoSuchSite(id))
      case Some(k) =>
        var row := data[k];
        Success(Details(row.imageUrl, "Site " + ChoiceLabel(id, row.locationName),
                        StatusOf(row), row.lat, row.lon))
  }

  /** With a truthy id some record carries, the panel shows the FIRST such
      record, and says "Authorized" exactly when that record is authorized. */
  lemma InspectionShowsFirstMatch(sel: Option<int>, data: seq<Site>, k: nat)
    requires Truthy(sel) && k < |data| && data[k].id == sel.value
    requires forall j :: 0 <= j < k ==> data[j].id != sel.value
    ensures var r := UpdateInspection(sel, data);
            r.Success? && r.value.Details? &&
            r.value.imageUrl == data[k].imageUrl &&
            r.value.lat == data[k].lat && r.value.lon == data[k].lon &&
            r.value.title == "Site " + ChoiceLabel(sel.value, data[k].locationName) &&
            (r.value.status.text == "Authorized" <==> data[k].isAuthorized) &&
            (r.value.status.text == "**UNAUTHORIZED**" <==> !data[k].isAuthorized) &&
            (r.value.status.cssClass == "text-success" <==> data[k].isAuthorized) &&
            (r.value.status.cssClass == "text-danger" <==> !data[k].isAuthorized)
  {
    var m := FirstMatch(data, sel.value);
    if m.Some? && m.value != k {
      assert false;
    }
  }

  // ---- The store over a session ----------------------------------------

  /** One firing of the status callback with the dropdown values it reads. */
  datatype Event = Event(trigger: Trigger, authSel: Option<int>, unauthSel: Option<int>)

  /** A callback that raises leaves the store as it was. */
  function Step(data: seq<Site>, e: Event): (r: seq<Site>)
    ensures |r| == |data| && Ids(r) == Ids(data)
  {
    match UpdateStatus(e.trigger, e.authSel, e.unauthSel, data)
    case Success(d) => d
    case Failure(_) => data
  }

  function Run(data: seq<Site>, events: seq<Event>): seq<Site>
    decreases |events|
  {
    if |events| == 0 then data else Run(Step(data, events[0]), events[1..])
  }

  /** The mock records the store starts from. */
  const InitialSites: seq<Site> := [
    Site(101, "Downtown Plaza", 28.6139, 77.2090, true,
         "https://via.placeholder.com/400x300.png?text=Site+101+Authorized"),
    Site(102, "North Suburb", 28.7041, 77.1025, false,
         "https://via.placeholder.com/400x300.png?text=Site+102+Violation"),
    Site(103, "East Industrial", 28.5355, 77.3910, false,
         "https://via.placeholder.com/400x300.png?text=Site+103+Violation"),
    Site(104, "West Riverside", 28.6500, 77.0500, true,
         "https://via.placeholder.com/400x300.png?text=Site+104+Authorized")
  ]

  /** Any sequence of button presses keeps the records' number and ids. */
  lemma {:induction false} RunPreservesIds(data: seq<Site>, events: seq<Event>)
    ensures |Run(data, events)| == |data| && Ids(Run(data, events)) == Ids(data)
    decreases |events|
  {
    if |events| > 0 {
      RunPreservesIds(Step(data, events[0]), events[1..]);
    }
  }

  /** From the mock records, no callback ever hits the empty-store error:
      the store always holds the four sites 101-104. */
  lemma SessionNeverEmpty(events: seq<Event>, e: Event)
    ensures var d := Run(InitialSites, events);
            Ids(d) == [101, 102, 103, 104] &&
            UpdateStatus(e.trigger, e.authSel, e.unauthSel, d).Success? &&
            UpdateAll(d).Success?
  {
    RunPreservesIds(InitialSites, events);
    assert Ids(InitialSites) == [101, 102, 103, 104];
  }

  /** The count cards as first rendered: two authorized, two unauthorized. */
  lemma InitialCounts()
    ensures UpdateAll(InitialSites).Success?
    ensures UpdateAll(InitialSites).value.authCount == "2"
    ensures UpdateAll(InitialSites).value.unauthCount == "2"
  {
    var d := InitialSites;
    assert d[1..][1..][1..][1..] == [];
    assert CountAuthorized(d[1..][1..][1..]) == 1 && CountUnauthorized(d[1..][1..][1..]) == 0;
    assert CountAuthorized(d[1..][1..]) == 1 && CountUnauthorized(d[1..][1..]) == 1;
    assert CountAuthorized(d[1..]) == 1 && CountUnauthorized(d[1..]) == 2;
    assert CountAuthorized(d) == 2 && CountUnauthorized(d) == 2;
  }
}
