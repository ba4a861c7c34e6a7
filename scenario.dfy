/**
 * The one-row example sheet worked through the model: as written its child group
 * has no attribute column, so the row loop stops with the `TypeError`; with a
 * `Child 1 Age` column added the sheet reads into one parent, one child, one car
 * and one address.
 */
module Scenario {
  import opened Wrappers
  import opened Text
  import JsObject
  import opened Header
  import opened HeaderLemmas
  import opened Schema
  import opened Rows
  import opened Sheet
  import opened SheetFacts

  /** Text with no white space at either end is its own `trim()`. */
  lemma TrimUnpadded(s: string)
    requires |s| > 0 && !IsSpace(s[0]) && !IsSpace(s[|s| - 1])
    ensures Trim(s) == s
  {
  }

  /** The tokens of a header written with single spaces and no padding. */
  lemma TokensOf(h: string, ts: seq<string>)
    requires |ts| >= 1 && (forall t :: t in ts ==> ' ' !in t) && h == Join(ts)
    requires |h| > 0 && !IsSpace(h[0]) && !IsSpace(h[|h| - 1])
    ensures Tokens(h) == ts
  {
    TrimUnpadded(h);
    SplitJoin(ts);
  }

  const ExampleHeader: seq<string> := ["Parent 1", "Parent 1 Phone", "Child 1", "Passenger Capacity", "Address"]
  const ExampleRow: Row := ["Alice", "555-1000", "Bob", "4", "123 Main St"]

  const FixedHeader: seq<string> := ["Parent 1", "Parent 1 Phone", "Child 1", "Passenger Capacity", "Address", "Child 1 Age"]
  const FixedRow: Row := ["Alice", "555-1000", "Bob", "4", "123 Main St", "7"]

  // Each header cell: its tokens, then what the two passes read in it.

  /** A name cell `<keyword> 1`. */
  lemma NameTokens(keyword: string)
    requires keyword == "Parent" || keyword == "Child"
    ensures Tokens(keyword + " 1") == [keyword, "1"]
  {
    var ts := [keyword, "1"];
    assert Join(ts) == keyword + " 1";
    TokensOf(keyword + " 1", ts);
  }

  lemma ParentNameCell(h: string)
    requires Tokens(h) == ["Parent", "1"]
    ensures RoleOf(h) == Some(ParentName("1")) && FieldOf(h).None?
  {
  }

  lemma ParentPhoneTokens()
    ensures Tokens("Parent 1 Phone") == ["Parent", "1", "Phone"]
  {
    var ts := ["Parent", "1", "Phone"];
    assert Join(ts) == "Parent 1 Phone";
    TokensOf("Parent 1 Phone", ts);
  }

  lemma ParentPhoneCell(h: string)
    requires Tokens(h) == ["Parent", "1", "Phone"]
    ensures RoleOf(h).None? && FieldOf(h) == Some(FieldColumn(ParentKind, "1", "Phone"))
  {
    assert Join(["Parent", "1", "Phone"][2..]) == "Phone";
  }

  lemma ChildNameCell(h: string)
    requires Tokens(h) == ["Child", "1"]
    ensures RoleOf(h) == Some(ChildName("1")) && FieldOf(h).None?
  {
  }

  lemma CapacityTokens()
    ensures Tokens("Passenger Capacity") == ["Passenger", "Capacity"]
  {
    var ts := ["Passenger", "Capacity"];
    assert Join(ts) == "Passenger Capacity";
    TokensOf("Passenger Capacity", ts);
  }

  lemma CapacityCell(h: string)
    requires Tokens(h) == ["Passenger", "Capacity"]
    ensures RoleOf(h) == Some(CapacityColumn) && FieldOf(h).None?
  {
  }

  lemma AddressTokens()
    ensures Tokens("Address") == ["Address"]
  {
    var ts := ["Address"];
    assert Join(ts) == "Address";
    TokensOf("Address", ts);
  }

  lemma AddressCell(h: string)
    requires Tokens(h) == ["Address"]
    ensures RoleOf(h) == Some(AddressColumn) && FieldOf(h).None?
  {
  }

  lemma ChildAgeTokens()
    ensures Tokens("Child 1 Age") == ["Child", "1", "Age"]
  {
    var ts := ["Child", "1", "Age"];
    assert Join(ts) == "Child 1 Age";
    TokensOf("Child 1 Age", ts);
  }

  lemma ChildAgeCell(h: string)
    requires Tokens(h) == ["Child", "1", "Age"]
    ensures RoleOf(h).None? && FieldOf(h) == Some(FieldColumn(ChildKind, "1", "Age"))
  {
    assert Join(["Child", "1", "Age"][2..]) == "Age";
  }

  /** What the two passes read in the cells of each header. */
  const ExampleRoles: seq<Option<Role>> := [Some(ParentName("1")), None, Some(ChildName("1")), Some(CapacityColumn), Some(AddressColumn)]
  const ExampleFields: seq<Option<FieldColumn>> := [None, Some(FieldColumn(ParentKind, "1", "Phone")), None, None, None]
  const FixedRoles: seq<Option<Role>> := [Some(ParentName("1")), None, Some(ChildName("1")), Some(CapacityColumn), Some(AddressColumn), None]
  const FixedFields: seq<Option<FieldColumn>> := [None, Some(FieldColumn(ParentKind, "1", "Phone")), None, None, None, Some(FieldColumn(ChildKind, "1", "Age"))]

  lemma FiveItems<T>(s: seq<T>)
    requires |s| == 5
    ensures s == [s[0], s[1], s[2], s[3], s[4]]
  {
  }

  /** The readings of a five-cell header, cell by cell. */
  lemma RolesOfFive(hs: seq<string>)
    requires |hs| == 5
    ensures Roles(hs) == [RoleOf(hs[0]), RoleOf(hs[1]), RoleOf(hs[2]), RoleOf(hs[3]), RoleOf(hs[4])]
  {
    var rs := Roles(hs);
    FiveItems(rs);
    RolesAt(hs, 0);
    RolesAt(hs, 1);
    RolesAt(hs, 2);
    RolesAt(hs, 3);
    RolesAt(hs, 4);
  }

  lemma FieldsOfFive(hs: seq<string>)
    requires |hs| == 5
    ensures Fields(hs) == [FieldOf(hs[0]), FieldOf(hs[1]), FieldOf(hs[2]), FieldOf(hs[3]), FieldOf(hs[4])]
  {
    var fs := Fields(hs);
    FiveItems(fs);
    FieldsAt(hs, 0);
    FieldsAt(hs, 1);
    FieldsAt(hs, 2);
    FieldsAt(hs, 3);
    FieldsAt(hs, 4);
  }

  lemma ExampleReadings()
    ensures Roles(ExampleHeader) == ExampleRoles && Fields(ExampleHeader) == ExampleFields
  {
    NameTokens("Parent");
    assert "Parent" + " 1" == "Parent 1";
    ParentNameCell("Parent 1");
    ParentPhoneTokens();
    ParentPhoneCell("Parent 1 Phone");
    NameTokens("Child");
    assert "Child" + " 1" == "Child 1";
    ChildNameCell("Child 1");
    CapacityTokens();
    CapacityCell("Passenger Capacity");
    AddressTokens();
    AddressCell("Address");
    RolesOfFive(ExampleHeader);
    FieldsOfFive(ExampleHeader);
  }

  /** A cell added to a header adds its readings at the end. */
  lemma ReadingsExtend(hs: seq<string>, h: string)
    ensures Roles(hs + [h]) == Roles(hs) + [RoleOf(h)]
    ensures Fields(hs + [h]) == Fields(hs) + [FieldOf(h)]
  {
    assert (hs + [h])[..|hs|] == hs;
  }

  lemma FixedReadings()
    ensures Roles(FixedHeader) == FixedRoles && Fields(FixedHeader) == FixedFields
  {
    assert FixedHeader == ExampleHeader + ["Child 1 Age"];
    ReadingsExtend(ExampleHeader, "Child 1 Age");
    ExampleReadings();
    ChildAgeTokens();
    ChildAgeCell("Child 1 Age");
  }

  /** A header cell with no white space at either end. */
  predicate Unpadded(h: string)
  {
    |h| > 0 && !IsSpace(h[0]) && !IsSpace(h[|h| - 1])
  }

  /** Distinct unpadded headers are never taken for duplicates. */
  lemma PlainHeadersUnique(hs: seq<string>)
    requires forall k :: 0 <= k < |hs| ==> Unpadded(hs[k])
    requires forall i, j :: 0 <= i < j < |hs| ==> hs[i] != hs[j]
    ensures FirstDuplicate(hs).None?
  {
    forall k | 0 <= k < |hs| ensures Trim(hs[k]) == hs[k] {
      TrimUnpadded(hs[k]);
    }
    DuplicateHeaderMeaning(hs);
  }

  lemma ExampleUnique()
    ensures FirstDuplicate(ExampleHeader).None?
  {
    PlainHeadersUnique(ExampleHeader);
  }

  lemma FixedUnique()
    ensures FirstDuplicate(FixedHeader).None?
  {
    var hs := FixedHeader;
    assert Unpadded(hs[0]) && Unpadded(hs[1]) && Unpadded(hs[2]);
    assert Unpadded(hs[3]) && Unpadded(hs[4]) && Unpadded(hs[5]);
    assert |hs[0]| == 8 && |hs[1]| == 14 && |hs[2]| == 7 && |hs[3]| == 18 && |hs[4]| == 7 && |hs[5]| == 11;
    assert hs[2][0] == 'C' && hs[4][0] == 'A';
    PlainHeadersUnique(hs);
  }

  /** The state pass 1 ends in on the example header: every column but the phone
      column is claimed. */
  const ExampleRoleState := RoleScan([("1", 0)], [("1", 2)], 3, 4, {1})

  /** The same with the `Child 1 Age` column, left for pass 2 as well. */
  const FixedRoleState := RoleScan([("1", 0)], [("1", 2)], 3, 4, {1, 5})

  lemma ExampleRoleScan()
    ensures ScanRoles(ExampleRoles, 5) == Ok(ExampleRoleState)
  {
    var rs := ExampleRoles;
    var cols := AllColumns(5);
    assert ScanRoles(rs, 1) == Ok(RoleScan([("1", 0)], [], -1, -1, cols - {0}));
    assert ScanRoles(rs, 2) == Ok(RoleScan([("1", 0)], [], -1, -1, cols - {0}));
    assert ScanRoles(rs, 3) == Ok(RoleScan([("1", 0)], [("1", 2)], -1, -1, cols - {0} - {2}));
    assert ScanRoles(rs, 4) == Ok(RoleScan([("1", 0)], [("1", 2)], 3, -1, cols - {0} - {2} - {3}));
    assert ScanRoles(rs, 5) == Ok(RoleScan([("1", 0)], [("1", 2)], 3, 4, cols - {0} - {2} - {3} - {4}));
    assert cols - {0} - {2} - {3} - {4} == {1};
  }

  lemma FixedRoleScan()
    ensures ScanRoles(FixedRoles, 6) == Ok(FixedRoleState)
  {
    var rs := FixedRoles;
    var cols := AllColumns(6);
    assert ScanRoles(rs, 1) == Ok(RoleScan([("1", 0)], [], -1, -1, cols - {0}));
    assert ScanRoles(rs, 2) == Ok(RoleScan([("1", 0)], [], -1, -1, cols - {0}));
    assert ScanRoles(rs, 3) == Ok(RoleScan([("1", 0)], [("1", 2)], -1, -1, cols - {0} - {2}));
    assert ScanRoles(rs, 4) == Ok(RoleScan([("1", 0)], [("1", 2)], 3, -1, cols - {0} - {2} - {3}));
    assert ScanRoles(rs, 5) == Ok(RoleScan([("1", 0)], [("1", 2)], 3, 4, cols - {0} - {2} - {3} - {4}));
    assert ScanRoles(rs, 6) == ScanRoles(rs, 5);
    assert cols - {0} - {2} - {3} - {4} == {1, 5};
  }

  lemma PushFirst(g: string, x: (string, nat))
    ensures Push(map[], g, x) == map[g := [x]]
  {
    assert [] + [x] == [x];
  }

  /** Pass 2 on the example header files the phone column under parent group `1`. */
  lemma ExampleFieldScan()
    ensures ScanFields(ExampleFields, 5, ExampleRoleState)
         == Ok(FieldScan(map["1" := [("Phone", 1)]], map[], {}))
  {
    var fs, roles := ExampleFields, ExampleRoleState;
    assert ScanFields(fs, 1, roles) == Ok(FieldScan(map[], map[], {1}));
    assert JsObject.Get(roles.parentIdx, "1") == Some(0);
    PushFirst("1", ("Phone", 1));
    assert {1} - {1} == {};
    assert ScanFields(fs, 2, roles) == Ok(FieldScan(map["1" := [("Phone", 1)]], map[], {}));
    assert ScanFields(fs, 5, roles) == ScanFields(fs, 2, roles);
  }

  lemma FixedFieldScan()
    ensures ScanFields(FixedFields, 6, FixedRoleState)
         == Ok(FieldScan(map["1" := [("Phone", 1)]], map["1" := [("Age", 5)]], {}))
  {
    var fs, roles := FixedFields, FixedRoleState;
    assert ScanFields(fs, 1, roles) == Ok(FieldScan(map[], map[], {1, 5}));
    assert JsObject.Get(roles.parentIdx, "1") == Some(0);
    assert JsObject.Get(roles.childIdx, "1") == Some(2);
    PushFirst("1", ("Phone", 1));
    PushFirst("1", ("Age", 5));
    assert {1, 5} - {1} == {5} && {5} - {5} == {};
    assert ScanFields(fs, 2, roles) == Ok(FieldScan(map["1" := [("Phone", 1)]], map[], {5}));
    assert ScanFields(fs, 5, roles) == ScanFields(fs, 2, roles);
    assert ScanFields(fs, 6, roles) == Ok(FieldScan(map["1" := [("Phone", 1)]], map["1" := [("Age", 5)]], {}));
  }

  /** The layout of the example header: parent group `1` named in column 0 with its
      phone in column 1, child group `1` named in column 2 with no attribute column. */
  const ExampleSchema := Schema([("1", 0)], [("1", 2)], 3, 4, map["1" := [("Phone", 1)]], map[])

  /** The layout of the header with the `Child 1 Age` column added. */
  const FixedSchema := Schema([("1", 0)], [("1", 2)], 3, 4, map["1" := [("Phone", 1)]], map["1" := [("Age", 5)]])

  /** A header with no duplicates whose two passes end in `roles` and `fields`,
      with both required columns found, gives the schema they hold. */
  lemma HeaderGives(hs: seq<string>, roles: RoleScan, fields: FieldScan)
    requires FirstDuplicate(hs).None? && ScanRoles(Roles(hs), |hs|) == Ok(roles)
    requires roles.capacityIdx >= 0 && roles.addressIdx >= 0
    requires ScanFields(Fields(hs), |hs|, roles) == Ok(fields)
    ensures DiscoverSchema(hs) == Ok(Schema(roles.parentIdx, roles.childIdx, roles.capacityIdx as nat,
                                            roles.addressIdx as nat, fields.parentData, fields.childData))
  {
  }

  lemma ExampleHeaderAccepted()
    ensures DiscoverSchema(ExampleHeader) == Ok(ExampleSchema)
  {
    ExampleUnique();
    ExampleReadings();
    ExampleRoleScan();
    ExampleFieldScan();
    HeaderGives(ExampleHeader, ExampleRoleState, FieldScan(map["1" := [("Phone", 1)]], map[], {}));
  }

  lemma FixedHeaderAccepted()
    ensures DiscoverSchema(FixedHeader) == Ok(FixedSchema)
  {
    FixedUnique();
    FixedReadings();
    FixedRoleScan();
    FixedFieldScan();
    HeaderGives(FixedHeader, FixedRoleState,
                FieldScan(map["1" := [("Phone", 1)]], map["1" := [("Age", 5)]], {}));
  }

  const ExampleSheet: seq<Row> := [ExampleHeader, ExampleRow]
  const FixedSheet: seq<Row> := [FixedHeader, FixedRow]

  lemma ExampleSheetsWide()
    ensures WideRows(ExampleSheet) && WideRows(FixedSheet)
  {
  }

  /** A sheet of one data row is one step of the row loop from a fresh `Data`. */
  lemma OneRowSheet(data: seq<Row>, s: Schema)
    requires |data| == 2 && WideRows(data) && DiscoverSchema(data[0]) == Ok(s)
    ensures Fits(s, |data[1]|) && ParseSheet(data) == RowStep(s, NoTables, data[1], 0)
  {
    SheetRows(data, s);
    var rows := data[1..];
    assert |rows| == 1 && rows[0] == data[1];
    assert ParseRows(s, rows, 0) == Ok(NoTables);
  }

  /** The data row of the example sheet names child `Bob` in a group with no
      attribute list, so the row loop stops with the `TypeError` and no table
      is returned. */
  lemma ExampleSheetRejected()
    ensures WideRows(ExampleSheet) && ParseSheet(ExampleSheet) == Err(NoFieldColumns(ChildKind, "1"))
  {
    ExampleSheetsWide();
    ExampleHeaderAccepted();
    OneRowSheet(ExampleSheet, ExampleSchema);
    var s, row := ExampleSchema, ExampleRow;
    assert Members(s, ParentKind, row, 1).Ok?;
    assert Members(s, ChildKind, row, 1) == Err(NoFieldColumns(ChildKind, "1"));
  }

  /** The parent, child, car and address the sheet with `Child 1 Age` reads to. */
  const FixedTables := Tables(
    map["Alice" := Parent(map["Phone" := "555-1000"], ["Bob"], 0)],
    map["Bob" := Child(map["Age" := "7"], ["Alice"], 0)],
    [Car(["Alice"], 0, Some(4))],
    [Address(NaN, NaN, "123 Main St")])

  lemma CapacityFour()
    ensures ParseInt("4") == Some(4)
  {
    ParseIntOfNatToString(4, []);
    assert NatToString(4) + [] == "4";
  }

  lemma FixedMembers()
    ensures Fits(FixedSchema, |FixedRow|)
    ensures Members(FixedSchema, ParentKind, FixedRow, 1) == Ok([Member("Alice", map["Phone" := "555-1000"])])
    ensures Members(FixedSchema, ChildKind, FixedRow, 1) == Ok([Member("Bob", map["Age" := "7"])])
  {
    var s, row := FixedSchema, FixedRow;
    assert FieldValues(row, [("Phone", 1)], 1) == map["Phone" := "555-1000"];
    assert FieldValues(row, [("Age", 5)], 1) == map["Age" := "7"];
    assert Groups(s, ParentKind)[0] == ("1", 0) && Groups(s, ChildKind)[0] == ("1", 2);
    assert row[0] == "Alice" && row[2] == "Bob";
    assert [] + [Member("Alice", map["Phone" := "555-1000"])] == [Member("Alice", map["Phone" := "555-1000"])];
    assert [] + [Member("Bob", map["Age" := "7"])] == [Member("Bob", map["Age" := "7"])];
  }

  lemma FixedRowRead()
    ensures Fits(FixedSchema, |FixedRow|) && RowStep(FixedSchema, NoTables, FixedRow, 0) == Ok(FixedTables)
  {
    FixedMembers();
    CapacityFour();
    var ps := [Member("Alice", map["Phone" := "555-1000"])];
    var cs := [Member("Bob", map["Age" := "7"])];
    assert Names(ps) == ["Alice"] && Names(cs) == ["Bob"];
    assert FixedRow[3] == "4" && FixedRow[4] == "123 Main St";
    assert ps[..0] == [] && cs[..0] == [];
    assert [] + [Car(["Alice"], 0, Some(4))] == [Car(["Alice"], 0, Some(4))];
    assert [] + [Address(NaN, NaN, "123 Main St")] == [Address(NaN, NaN, "123 Main St")];
    assert Enter(map[], ps, ParentEntry(["Bob"], 0)) == map["Alice" := Parent(map["Phone" := "555-1000"], ["Bob"], 0)];
    assert Enter(map[], cs, ChildEntry(["Alice"], 0)) == map["Bob" := Child(map["Age" := "7"], ["Alice"], 0)];
  }

  /** With an attribute column for the child group, the example row reads to one
      parent `Alice` with the phone number and child `Bob`, one child `Bob` with
      parent `Alice`, one car of capacity 4 driven from row 0, and row 0's address. */
  lemma FixedSheetAccepted()
    ensures WideRows(FixedSheet) && ParseSheet(FixedSheet) == Ok(FixedTables)
  {
    ExampleSheetsWide();
    FixedHeaderAccepted();
    OneRowSheet(FixedSheet, FixedSchema);
    FixedRowRead();
  }

  /** The two lines pass 1 logs for one parent group and one child group. */
  const OneGroupEach: seq<string> := ["Found " + "1" + " parents groups per row", "Found " + "1" + " child groups per row"]

  lemma OneGroupEachCounted(roles: RoleScan)
    requires |roles.parentIdx| == 1 && |roles.childIdx| == 1
    ensures GroupCounts(roles) == OneGroupEach
  {
    assert NatToString(1) == "1";
  }

  /** The example sheet logs the group counts and nothing more: the `TypeError`
      escapes without a log line. */
  lemma ExampleSheetLog()
    ensures WideRows(ExampleSheet) && SheetLog(ExampleSheet) == OneGroupEach
  {
    ExampleSheetRejected();
    ExampleHeaderAccepted();
    ExampleUnique();
    ExampleReadings();
    ExampleRoleScan();
    OneGroupEachCounted(ExampleRoleState);
    assert Thrown(NoFieldColumns(ChildKind, "1")) == [];
    assert HeaderLog(ExampleHeader) == OneGroupEach + [];
  }

  /** The sheet with `Child 1 Age` logs the group counts only. */
  lemma FixedSheetLog()
    ensures WideRows(FixedSheet) && SheetLog(FixedSheet) == OneGroupEach
  {
    FixedSheetAccepted();
    FixedHeaderAccepted();
    FixedUnique();
    FixedReadings();
    FixedRoleScan();
    OneGroupEachCounted(FixedRoleState);
    assert HeaderLog(FixedHeader) == OneGroupEach + [];
  }

  /** `Data.fromSheetData` on the example sheet throws the `TypeError` after
      logging the group counts. */
  method ReadExampleSheet(log: Log) returns (r: Result<Data, ParseError>)
    modifies log
    ensures r == Err(NoFieldColumns(ChildKind, "1"))
    ensures log.lines == old(log.lines) + OneGroupEach
  {
    ExampleSheetsWide();
    r := Data.FromSheetData(ExampleSheet, log);
    ExampleSheetRejected();
    ExampleSheetLog();
  }

  /** `Data.fromSheetData` on the sheet with `Child 1 Age` returns a new `Data`
      holding exactly the expected parent, child, car and address. */
  method ReadFixedSheet(log: Log) returns (r: Result<Data, ParseError>)
    modifies log
    ensures r.Ok? && fresh(r.value) && r.value.Contents() == FixedTables
    ensures log.lines == old(log.lines) + OneGroupEach
  {
    ExampleSheetsWide();
    r := Data.FromSheetData(FixedSheet, log);
    FixedSheetAccepted();
    FixedSheetLog();
  }
}
