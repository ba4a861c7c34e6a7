/**
 * The row loop of `Data.fromSheetData`: every data row is read through the column
 * layout the header produced, filling the parent and child dictionaries, the car
 * list and the address list.
 */
module Rows {
  import opened Wrappers
  import opened Text
  import JsObject
  import opened Header
  import opened HeaderLemmas
  import opened Schema

  /** A map coordinate. The parser leaves both coordinates of every address `NaN`;
      geocoding fills them in later. */
  datatype Coordinate = NaN | Degrees(value: real)

  /** A value of `d.parents`: the group's attribute values on the row it was read
      from, the child names of that row, and the index of that row's address. */
  datatype Parent = Parent(data: map<string, string>, children: seq<string>, address: nat)

  /** A value of `d.children`, the mirror image of `Parent`. */
  datatype Child = Child(data: map<string, string>, parents: seq<string>, address: nat)

  /** An element of `d.cars`; a capacity of `None` is the `NaN` of `parseInt`. */
  datatype Car = Car(parents: seq<string>, address: nat, capacity: Option<nat>)

  /** An element of `d.addresses`. */
  datatype Address = Address(x: Coordinate, y: Coordinate, name: string)

  /** The four fields of a `Data`. */
  datatype Tables = Tables(
    parents: map<string, Parent>,
    children: map<string, Child>,
    cars: seq<Car>,
    addresses: seq<Address>)

  /** A fresh `Data`. */
  const NoTables := Tables(map[], map[], [], [])

  type Row = seq<string>

  predicate ColumnsIn(cols: seq<(string, nat)>, width: nat)
  {
    forall j :: 0 <= j < |cols| ==> cols[j].1 < width
  }

  /** The `data` object of a name after the attribute loop has run over the first
      `n` pairs `(datapt, idx)` of the group's list. */
  function FieldValues(row: Row, cols: seq<(string, nat)>, n: nat): map<string, string>
    requires n <= |cols| && ColumnsIn(cols, |row|)
  {
    if n == 0 then map[] else FieldValues(row, cols, n - 1)[cols[n - 1].0 := row[cols[n - 1].1]]
  }

  /** A non-blank name cell of a row, with the attribute values its group reads. */
  datatype Member = Member(name: string, data: map<string, string>)

  /** The group loop of one kind over the first `n` groups, in `Object.entries`
      order: a blank name is skipped; a name whose group has no attribute list is
      the `TypeError` of iterating `undefined`. */
  function Members(s: Schema, kind: Kind, row: Row, n: nat): Result<seq<Member>, ParseError>
    requires Fits(s, |row|) && n <= |Groups(s, kind)|
  {
    if n == 0 then Ok([])
    else
      match Members(s, kind, row, n - 1)
      case Err(e) => Err(e)
      case Ok(ms) =>
        var (g, c) := Groups(s, kind)[n - 1];
        if row[c] == "" then Ok(ms)
        else if g !in Data(s, kind) then Err(NoFieldColumns(kind, g))
        else Ok(ms + [Member(row[c], FieldValues(row, Data(s, kind)[g], |Data(s, kind)[g]|))])
  }

  /** `parent_names` / `child_names`. */
  function Names(ms: seq<Member>): (r: seq<string>)
    ensures |r| == |ms| && forall j :: 0 <= j < |ms| ==> r[j] == ms[j].name
  {
    seq(|ms|, j requires 0 <= j < |ms| => ms[j].name)
  }

  /** `d.parents[name] = …` (or `d.children[name] = …`) for every member in turn,
      the entry built from the member's attribute values by `entry`. */
  function Enter<R>(t: map<string, R>, ms: seq<Member>, entry: map<string, string> -> R): map<string, R>
  {
    if |ms| == 0 then t
    else Enter(t, ms[..|ms| - 1], entry)[ms[|ms| - 1].name := entry(ms[|ms| - 1].data)]
  }

  /** The back-patch loop `d.parents[pname].children = child_names` over `names`. */
  function Relink(t: map<string, Parent>, names: seq<string>, children: seq<string>): map<string, Parent>
  {
    if |names| == 0 then t
    else
      var t' := Relink(t, names[..|names| - 1], children);
      var name := names[|names| - 1];
      if name in t' then t'[name := t'[name].(children := children)] else t'
  }

  /** A parent entry read on row `i`, linked to `children`. */
  function ParentEntry(children: seq<string>, i: nat): map<string, string> -> Parent
  {
    data => Parent(data, children, i)
  }

  /** A child entry read on row `i`, linked to `parents`. */
  function ChildEntry(parents: seq<string>, i: nat): map<string, string> -> Child
  {
    data => Child(data, parents, i)
  }

  /** One iteration of the row loop on data row `i` (sheet row `i + 2`): parents,
      children and their links, the car when the capacity cell is non-blank, and
      the address, which must not be blank. */
  function RowStep(s: Schema, t: Tables, row: Row, i: nat): Result<Tables, ParseError>
    requires Fits(s, |row|)
  {
    match Members(s, ParentKind, row, |s.parentIdx|)
    case Err(e) => Err(e)
    case Ok(ps) =>
      match Members(s, ChildKind, row, |s.childIdx|)
      case Err(e) => Err(e)
      case Ok(cs) =>
        var parentNames := Names(ps);
        var childNames := Names(cs);
        var cars := if row[s.capacityIdx] != "" then t.cars + [Car(parentNames, i, ParseInt(row[s.capacityIdx]))] else t.cars;
        if row[s.addressIdx] == "" then Err(BlankAddress(i + 2))
        else Ok(Tables(
          Enter(t.parents, ps, ParentEntry(childNames, i)),
          Enter(t.children, cs, ChildEntry(parentNames, i)),
          cars,
          t.addresses + [Address(NaN, NaN, row[s.addressIdx])]))
  }

  predicate RowsFit(s: Schema, rows: seq<Row>)
  {
    forall r :: 0 <= r < |rows| ==> Fits(s, |rows[r]|)
  }

  /** The row loop over the first `n` data rows. */
  function ParseRows(s: Schema, rows: seq<Row>, n: nat): Result<Tables, ParseError>
    requires n <= |rows| && RowsFit(s, rows)
  {
    if n == 0 then Ok(NoTables)
    else
      match ParseRows(s, rows, n - 1)
      case Err(e) => Err(e)
      case Ok(t) => RowStep(s, t, rows[n - 1], n - 1)
  }

  /** No data row is narrower than the header. */
  predicate WideRows(data: seq<Row>)
  {
    forall r :: 0 <= r < |data| ==> |data[0]| <= |data[r]|
  }

  /** `Data.fromSheetData` on a whole sheet: the header checks, then the row loop;
      an empty sheet has no header to read. */
  function ParseSheet(data: seq<Row>): Result<Tables, ParseError>
    requires WideRows(data)
  {
    if |data| == 0 then Err(EmptySheet)
    else
      match DiscoverSchema(data[0])
      case Err(e) => Err(e)
      case Ok(s) =>
        RowsFitSheet(s, data);
        ParseRows(s, data[1..], |data| - 1)
  }

  lemma FitsWider(s: Schema, w: nat, w': nat)
    requires Fits(s, w) && w <= w'
    ensures Fits(s, w')
  {
  }

  lemma RowsFitSheet(s: Schema, data: seq<Row>)
    requires |data| > 0 && WideRows(data) && Fits(s, |data[0]|)
    ensures RowsFit(s, data[1..])
  {
    forall r | 0 <= r < |data| - 1 ensures Fits(s, |data[1..][r]|) {
      FitsWider(s, |data[0]|, |data[r + 1]|);
    }
  }
}
