/**
 * What `Data.fromSheetData` produces from a sheet, stated against the cells of
 * the sheet itself: the capacity and address columns, the names a row
 * contributes, the attribute values stored for a name, and the cars, addresses,
 * parents and children of a parsed sheet.
 */
module SheetFacts {
  import opened Wrappers
  import opened Text
  import JsObject
  import opened Header
  import opened HeaderLemmas
  import opened Schema
  import opened Rows
  import opened RowLemmas

  // ---------------------------------------------------------------------------
  // The header cells behind a column layout

  /** A header cell that names group `g` of `kind`, such as `Parent A`. */
  predicate NameHeader(h: string, kind: Kind, g: string)
  {
    Tokens(h) == [Keyword(kind), g]
  }

  /** The capacity and address columns of a parsed header are cells reading
      `Passenger Capacity` and `Address`, and its headers are distinct. */
  lemma SchemaColumns(hs: seq<string>)
    requires DiscoverSchema(hs).Ok?
    ensures !HasDuplicate(hs)
    ensures Tokens(hs[DiscoverSchema(hs).value.capacityIdx]) == ["Passenger", "Capacity"]
    ensures Tokens(hs[DiscoverSchema(hs).value.addressIdx]) == ["Address"]
  {
    DuplicateHeaderMeaning(hs);
    CapacityIndex(Roles(hs), |hs|);
    AddressIndex(Roles(hs), |hs|);
    var s := DiscoverSchema(hs).value;
    RolesAt(hs, s.capacityIdx);
    RoleCells(hs[s.capacityIdx], ParentKind, "");
    RolesAt(hs, s.addressIdx);
    RoleCells(hs[s.addressIdx], ParentKind, "");
  }

  /** Entry `p` of a group dictionary is a group and the column of its name cell. */
  lemma GroupEntry(hs: seq<string>, kind: Kind, p: nat)
    requires DiscoverSchema(hs).Ok? && p < |Groups(DiscoverSchema(hs).value, kind)|
    ensures var (g, c) := Groups(DiscoverSchema(hs).value, kind)[p];
      c < |hs| && NameHeader(hs[c], kind, g)
  {
    var e := Groups(DiscoverSchema(hs).value, kind);
    var (g, c) := e[p];
    SchemaGroups(hs, kind, g);
    JsObject.GetAt(e, p);
    RoleCells(hs[c], kind, g);
  }

  /** A name cell of the header has an entry in its kind's group dictionary. */
  lemma NameHeaderEntry(hs: seq<string>, kind: Kind, g: string, c: nat) returns (p: nat)
    requires DiscoverSchema(hs).Ok? && c < |hs| && NameHeader(hs[c], kind, g)
    ensures p < |Groups(DiscoverSchema(hs).value, kind)| && Groups(DiscoverSchema(hs).value, kind)[p] == (g, c)
  {
    var e := Groups(DiscoverSchema(hs).value, kind);
    RoleCells(hs[c], kind, g);
    SchemaGroups(hs, kind, g);
    JsObject.GetDefined(e, g);
    var p0 :| 0 <= p0 < |e| && JsObject.Keys(e)[p0] == g;
    JsObject.GetAt(e, p0);
    p := p0;
  }

  /** No attribute is listed twice for a group, as the headers are distinct. */
  lemma DistinctAttributes(hs: seq<string>, kind: Kind, g: string)
    requires DiscoverSchema(hs).Ok? && g in Data(DiscoverSchema(hs).value, kind)
    ensures var cols := Data(DiscoverSchema(hs).value, kind)[g];
      forall j, j' :: 0 <= j < j' < |cols| ==> cols[j].0 != cols[j'].0
  {
    var cols := Data(DiscoverSchema(hs).value, kind)[g];
    SchemaFields(hs, kind, g);
    SchemaColumns(hs);
    forall j, j' | 0 <= j < j' < |cols| ensures cols[j].0 != cols[j'].0 {
      var (f, a) := cols[j];
      var (f', b) := cols[j'];
      assert (f, a) in cols && (f', b) in cols;
      if f == f' {
        assert !DuplicatePair(hs, a, b);
        FieldDeterminesHeader(hs[a], hs[b]);
        assert false;
      }
    }
  }

  // ---------------------------------------------------------------------------
  // One row

  /** The cell under the header `<kind> <group> f` is the value of `f` in the
      member of that group. */
  lemma MemberValue(hs: seq<string>, s: Schema, row: Row, kind: Kind, p: nat, f: string, c: nat)
    requires DiscoverSchema(hs) == Ok(s) && |hs| <= |row| && Fits(s, |row|)
    requires p < |Groups(s, kind)| && Groups(s, kind)[p].0 in Data(s, kind)
    requires c < |hs| && FieldOf(hs[c]) == Some(FieldColumn(kind, Groups(s, kind)[p].0, f))
    ensures f in MemberAt(s, kind, row, p).data && MemberAt(s, kind, row, p).data[f] == row[c]
  {
    var g := Groups(s, kind)[p].0;
    SchemaFields(hs, kind, g);
    DistinctAttributes(hs, kind, g);
    var cols := Data(s, kind)[g];
    assert (f, c) in cols;
    var j :| 0 <= j < |cols| && cols[j] == (f, c);
    FieldValuesAt(row, cols, |cols|, j);
  }

  /** The attributes of the member of a group are exactly the `f` of its
      headers `<kind> <group> f`. */
  lemma MemberKeys(hs: seq<string>, s: Schema, row: Row, kind: Kind, p: nat, f: string)
    requires DiscoverSchema(hs) == Ok(s) && |hs| <= |row| && Fits(s, |row|)
    requires p < |Groups(s, kind)| && Groups(s, kind)[p].0 in Data(s, kind)
    ensures f in MemberAt(s, kind, row, p).data <==>
      exists c :: 0 <= c < |hs| && FieldOf(hs[c]) == Some(FieldColumn(kind, Groups(s, kind)[p].0, f))
  {
    var g := Groups(s, kind)[p].0;
    SchemaFields(hs, kind, g);
    var cols := Data(s, kind)[g];
    FieldValuesKeys(row, cols, |cols|);
    if f in MemberAt(s, kind, row, p).data {
      var j :| 0 <= j < |cols| && cols[j].0 == f;
      assert (f, cols[j].1) in cols;
    }
    if exists c :: 0 <= c < |hs| && FieldOf(hs[c]) == Some(FieldColumn(kind, g, f)) {
      var c :| 0 <= c < |hs| && FieldOf(hs[c]) == Some(FieldColumn(kind, g, f));
      assert (f, c) in cols;
    }
  }

  /** The member a named group contributes: its name is the cell under the
      group's name header, and its `data` maps each attribute `f` of the group to
      the cell under the header `<kind> <group> f`, and holds nothing else. */
  lemma MemberData(hs: seq<string>, s: Schema, row: Row, kind: Kind, p: nat)
    requires DiscoverSchema(hs) == Ok(s) && |hs| <= |row| && Fits(s, |row|)
    requires p < |Groups(s, kind)| && Groups(s, kind)[p].0 in Data(s, kind)
    ensures Groups(s, kind)[p].1 < |hs| && NameHeader(hs[Groups(s, kind)[p].1], kind, Groups(s, kind)[p].0)
    ensures MemberAt(s, kind, row, p).name == row[Groups(s, kind)[p].1]
    ensures forall f :: f in MemberAt(s, kind, row, p).data <==>
      exists c :: 0 <= c < |hs| && FieldOf(hs[c]) == Some(FieldColumn(kind, Groups(s, kind)[p].0, f))
    ensures forall f, c :: 0 <= c < |hs| && FieldOf(hs[c]) == Some(FieldColumn(kind, Groups(s, kind)[p].0, f)) ==>
      f in MemberAt(s, kind, row, p).data && MemberAt(s, kind, row, p).data[f] == row[c]
  {
    GroupEntry(hs, kind, p);
    forall f {
      MemberKeys(hs, s, row, kind, p, f);
    }
    forall f, c | 0 <= c < |hs| && FieldOf(hs[c]) == Some(FieldColumn(kind, Groups(s, kind)[p].0, f)) {
      MemberValue(hs, s, row, kind, p, f, c);
    }
  }

  /** On a row whose group loop of `kind` succeeds, the names it lists are exactly
      the non-blank cells under that kind's name headers. */
  lemma RowNames(hs: seq<string>, row: Row, kind: Kind, name: string)
    requires DiscoverSchema(hs).Ok? && |hs| <= |row| && Fits(DiscoverSchema(hs).value, |row|)
    requires Members(DiscoverSchema(hs).value, kind, row, |Groups(DiscoverSchema(hs).value, kind)|).Ok?
    ensures name in Names(RowMembers(DiscoverSchema(hs).value, kind, row)) <==>
      name != "" && exists c, g :: 0 <= c < |hs| && NameHeader(hs[c], kind, g) && row[c] == name
  {
    var s := DiscoverSchema(hs).value;
    var e := Groups(s, kind);
    var ms := Members(s, kind, row, |e|).value;
    var ks := MembersSelect(s, kind, row, |e|);
    if name in Names(ms) {
      var j :| 0 <= j < |ms| && Names(ms)[j] == name;
      GroupEntry(hs, kind, ks[j]);
      assert NameHeader(hs[e[ks[j]].1], kind, e[ks[j]].0) && row[e[ks[j]].1] == name;
    }
    if name != "" && exists c, g :: 0 <= c < |hs| && NameHeader(hs[c], kind, g) && row[c] == name {
      var c, g :| 0 <= c < |hs| && NameHeader(hs[c], kind, g) && row[c] == name;
      var p := NameHeaderEntry(hs, kind, g, c);
      assert NamedAt(s, kind, row, p);
      var j :| 0 <= j < |ks| && ks[j] == p;
      assert Names(ms)[j] == name;
    }
  }

  // ---------------------------------------------------------------------------
  // A whole sheet

  /** `d.addresses`: one per data row, in row order, named by the row's cell in
      the `Address` column, which is never blank, with both coordinates `NaN`. */
  lemma SheetAddresses(data: seq<Row>, s: Schema, t: Tables)
    requires |data| > 0 && WideRows(data) && DiscoverSchema(data[0]) == Ok(s) && ParseSheet(data) == Ok(t)
    ensures Tokens(data[0][s.addressIdx]) == ["Address"]
    ensures |t.addresses| == |data| - 1
    ensures forall i :: 1 <= i < |data| ==>
      data[i][s.addressIdx] != "" && t.addresses[i - 1] == Address(NaN, NaN, data[i][s.addressIdx])
  {
    SchemaColumns(data[0]);
    SheetRows(data, s);
    ParseRowsAddresses(s, data[1..], |data[1..]|);
    assert forall i :: 1 <= i < |data| ==> data[1..][i - 1] == data[i];
  }

  /** Past the header checks, the parse is the row loop over the data rows. */
  lemma SheetRows(data: seq<Row>, s: Schema)
    requires |data| > 0 && WideRows(data) && DiscoverSchema(data[0]) == Ok(s)
    ensures RowsFit(s, data[1..]) && ParseSheet(data) == ParseRows(s, data[1..], |data[1..]|)
  {
    RowsFitSheet(s, data);
    assert |data[1..]| == |data| - 1;
  }

  /** A data row the loop cannot get through makes it fail. */
  lemma RowsRejected(s: Schema, rows: seq<Row>, i: nat)
    requires RowsFit(s, rows) && i < |rows| && !RowAccepted(s, rows[i])
    ensures ParseRows(s, rows, |rows|).Err?
  {
    ParseRowsAccepted(s, rows, |rows|);
  }

  /** A data row with a blank address cell makes the whole parse fail. */
  lemma SheetBlankAddress(data: seq<Row>, s: Schema, i: nat)
    requires |data| > 0 && WideRows(data) && DiscoverSchema(data[0]) == Ok(s) && 1 <= i < |data|
    requires data[i][s.addressIdx] == ""
    ensures ParseSheet(data).Err?
  {
    RowsFitSheet(s, data);
    assert data[1..][i - 1] == data[i];
    RowsRejected(s, data[1..], i - 1);
    SheetRows(data, s);
  }

  /** The header checks never report a blank address. */
  lemma HeaderErrorIsNotBlankAddress(hs: seq<string>)
    ensures DiscoverSchema(hs).Err? ==> !DiscoverSchema(hs).error.BlankAddress?
  {
    RolesAndFieldsDisjoint(hs);
    SchemaFromNoFault(Roles(hs), Fields(hs));
  }

  /** The row loop's blank-address error names the spreadsheet row (counting the
      header as row 1) of the first data row it cannot get through; that row's
      address cell is blank and every earlier row was read in full. */
  lemma RowsBlankAddress(s: Schema, rows: seq<Row>, k: nat)
    requires RowsFit(s, rows) && ParseRows(s, rows, |rows|) == Err(BlankAddress(k))
    ensures 2 <= k <= |rows| + 1 && rows[k - 2][s.addressIdx] == ""
    ensures forall i :: 0 <= i < k - 2 ==> RowAccepted(s, rows[i])
  {
    ParseRowsAccepted(s, rows, |rows|);
    var i :| 0 <= i < |rows| && StopsAt(s, rows, i, BlankAddress(k));
    MembersOk(s, ParentKind, rows[i], |s.parentIdx|);
    MembersOk(s, ChildKind, rows[i], |s.childIdx|);
  }

  /** A sheet rejected for a blank address got past the header checks, and the
      row the error names is the first sheet row read in part only. */
  lemma SheetBlankAddressReported(data: seq<Row>, k: nat)
    requires WideRows(data) && ParseSheet(data) == Err(BlankAddress(k))
    ensures |data| > 0 && DiscoverSchema(data[0]).Ok?
    ensures 2 <= k <= |data| && data[k - 1][DiscoverSchema(data[0]).value.addressIdx] == ""
    ensures forall i :: 1 <= i < k - 1 ==> RowAccepted(DiscoverSchema(data[0]).value, data[i])
  {
    assert |data| > 0;
    HeaderErrorIsNotBlankAddress(data[0]);
    var s := DiscoverSchema(data[0]).value;
    SheetRows(data, s);
    RowsBlankAddress(s, data[1..], k);
    assert data[1..][k - 2] == data[k - 1];
    forall i | 1 <= i < k - 1 ensures RowAccepted(s, data[i]) {
      assert data[1..][i - 1] == data[i];
    }
  }

  /** A non-blank name under a name header whose group has no attribute header is
      the `TypeError` of iterating a missing attribute list: the row is not read. */
  lemma GroupWithoutAttributes(hs: seq<string>, s: Schema, row: Row, c: nat, kind: Kind, g: string)
    requires DiscoverSchema(hs) == Ok(s) && Fits(s, |row|) && |hs| <= |row|
    requires c < |hs| && NameHeader(hs[c], kind, g) && row[c] != ""
    requires forall c' :: 0 <= c' < |hs| && FieldOf(hs[c']).Some? ==>
      FieldOf(hs[c']).value.kind != kind || FieldOf(hs[c']).value.group != g
    ensures !RowAccepted(s, row)
  {
    var p := NameHeaderEntry(hs, kind, g, c);
    SchemaFields(hs, kind, g);
    assert Unlisted(s, kind, row, p);
    MembersOk(s, kind, row, |Groups(s, kind)|);
  }

  /** Such a name on any data row makes the whole parse fail. */
  lemma SheetGroupWithoutAttributes(data: seq<Row>, s: Schema, i: nat, c: nat, kind: Kind, g: string)
    requires |data| > 0 && WideRows(data) && DiscoverSchema(data[0]) == Ok(s) && 1 <= i < |data|
    requires c < |data[0]| && NameHeader(data[0][c], kind, g) && data[i][c] != ""
    requires forall c' :: 0 <= c' < |data[0]| && FieldOf(data[0][c']).Some? ==>
      FieldOf(data[0][c']).value.kind != kind || FieldOf(data[0][c']).value.group != g
    ensures ParseSheet(data).Err?
  {
    RowsFitSheet(s, data);
    assert data[1..][i - 1] == data[i];
    GroupWithoutAttributes(data[0], s, data[i], c, kind, g);
    RowsRejected(s, data[1..], i - 1);
    SheetRows(data, s);
  }

  /** `d.cars` of a parsed sheet, against the `Passenger Capacity` column. */
  lemma SheetCars(data: seq<Row>, s: Schema, t: Tables)
    requires |data| > 0 && WideRows(data) && DiscoverSchema(data[0]) == Ok(s) && ParseSheet(data) == Ok(t)
    ensures Tokens(data[0][s.capacityIdx]) == ["Passenger", "Capacity"]
    ensures RowsFit(s, data[1..]) && CarsOf(s, data[1..], |data| - 1, t.cars)
  {
    SchemaColumns(data[0]);
    SheetRows(data, s);
    ParseRowsCars(s, data[1..], |data[1..]|);
  }

  /** `d.parents` of a parsed sheet, name by name. */
  lemma SheetParents(data: seq<Row>, s: Schema, t: Tables, name: string)
    requires |data| > 0 && WideRows(data) && DiscoverSchema(data[0]) == Ok(s) && ParseSheet(data) == Ok(t)
    ensures RowsFit(s, data[1..]) && ParentsOf(s, data[1..], |data| - 1, t.parents, name)
  {
    SheetRows(data, s);
    ParseRowsParents(s, data[1..], |data[1..]|, name);
  }

  /** `d.children` of a parsed sheet, name by name. */
  lemma SheetChildren(data: seq<Row>, s: Schema, t: Tables, name: string)
    requires |data| > 0 && WideRows(data) && DiscoverSchema(data[0]) == Ok(s) && ParseSheet(data) == Ok(t)
    ensures RowsFit(s, data[1..]) && ChildrenOf(s, data[1..], |data| - 1, t.children, name)
  {
    SheetRows(data, s);
    ParseRowsChildren(s, data[1..], |data[1..]|, name);
  }
}
