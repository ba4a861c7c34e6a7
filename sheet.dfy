/**
 * The class `Data` and its factory `fromSheetData`, which reads a spreadsheet
 * (a matrix of cells whose first row is the header) into the parent and child
 * dictionaries, the car list and the address list, reporting progress and
 * errors through a log callback.
 */
module Sheet {
  import opened Wrappers
  import opened Text
  import JsObject
  import opened Header
  import opened HeaderLemmas
  import opened Schema
  import opened Rows
  import opened RowLemmas

  // ---------------------------------------------------------------------------
  // The log

  const Aborting := "!Aborting..."

  /** The text `logThrow` logs for an error; the two `TypeError`s are thrown
      without a log line. */
  function Message(e: ParseError): (m: Option<string>)
    ensures m.None? <==> e.EmptySheet? || e.NoFieldColumns?
    ensures m.Some? ==> Fatal(m.value)
  {
    match e
    case DuplicateHeader(h) => Some("!Duplicate header found: " + h)
    case ColumnClaimedTwice(_) =>
      Some("!" + "This is a bug! Same columns triggered twice, check logs\n")
    case NoCapacityColumn => Some("!No Passenger Capacity column set")
    case NoAddressColumn => Some("!No Address column set")
    case UnknownGroup(kind, g, c) =>
      Some("!Unknown " + (if kind == ParentKind then "parent" else "child") + " column: " + Keyword(kind) + " " + g +
           " referenced in column " + NatToString(c))
    case BlankAddress(r) => Some("!Address for row " + NatToString(r) + " is blank!")
    case EmptySheet => None
    case NoFieldColumns(_, _) => None
  }

  /** The log lines of an error: `logThrow` logs its message, then `!Aborting...`. */
  function Thrown(e: ParseError): seq<string>
  {
    if Message(e).Some? then [Message(e).value, Aborting] else []
  }

  /** The two lines logged after pass 1. */
  function GroupCounts(roles: RoleScan): seq<string>
  {
    ["Found " + NatToString(|roles.parentIdx|) + " parents groups per row",
     "Found " + NatToString(|roles.childIdx|) + " child groups per row"]
  }

  /** What the header checks pass to `addToLog`. */
  function HeaderLog(hs: seq<string>): seq<string>
  {
    match FirstDuplicate(hs)
    case Some(j) => Thrown(DuplicateHeader(hs[j]))
    case None =>
      match ScanRoles(Roles(hs), |hs|)
      case Err(e) => Thrown(e)
      case Ok(roles) => GroupCounts(roles) + (if DiscoverSchema(hs).Err? then Thrown(DiscoverSchema(hs).error) else [])
  }

  lemma HeaderLogAfterRoles(hs: seq<string>, roles: RoleScan)
    requires FirstDuplicate(hs).None? && ScanRoles(Roles(hs), |hs|) == Ok(roles)
    ensures HeaderLog(hs) == GroupCounts(roles) + (if DiscoverSchema(hs).Err? then Thrown(DiscoverSchema(hs).error) else [])
  {
  }

  /** Everything `fromSheetData` passes to `addToLog`. */
  function SheetLog(data: seq<Row>): seq<string>
    requires WideRows(data)
  {
    if |data| == 0 then []
    else if DiscoverSchema(data[0]).Err? then HeaderLog(data[0])
    else HeaderLog(data[0]) + (if ParseSheet(data).Err? then Thrown(ParseSheet(data).error) else [])
  }

  /** A sheet whose header checks fail. */
  lemma HeaderRejected(data: seq<Row>)
    requires WideRows(data) && |data| > 0 && DiscoverSchema(data[0]).Err?
    ensures ParseSheet(data) == Err(DiscoverSchema(data[0]).error)
    ensures SheetLog(data) == HeaderLog(data[0])
  {
  }

  /** A sheet whose header checks pass and whose row loop ends with `r`. */
  lemma RowsOutcome(data: seq<Row>, s: Schema, r: Result<Tables, ParseError>)
    requires WideRows(data) && |data| > 0 && DiscoverSchema(data[0]) == Ok(s)
    requires RowsFit(s, data[1..]) && ParseRows(s, data[1..], |data[1..]|) == r
    ensures ParseSheet(data) == r
    ensures SheetLog(data) == HeaderLog(data[0]) + (if r.Err? then Thrown(r.error) else [])
  {
    assert |data[1..]| == |data| - 1;
  }

  /** A line `logThrow` logs: it starts with `!`. */
  predicate Fatal(line: string)
  {
    |line| > 0 && line[0] == '!'
  }

  /** `log` ends with the lines `tail`. */
  predicate EndsWith(log: seq<string>, tail: seq<string>)
  {
    |tail| <= |log| && log[|log| - |tail|..] == tail
  }

  /** Header checks that pass log no fatal line. */
  lemma HeaderLogClean(hs: seq<string>, s: Schema)
    requires DiscoverSchema(hs) == Ok(s)
    ensures forall k :: 0 <= k < |HeaderLog(hs)| ==> !Fatal(HeaderLog(hs)[k])
  {
    var roles := ScanRoles(Roles(hs), |hs|).value;
    HeaderLogAfterRoles(hs, roles);
  }

  /** Header checks that fail end their log with what `logThrow` logs for the error. */
  lemma HeaderLogThrown(hs: seq<string>, e: ParseError)
    requires DiscoverSchema(hs) == Err(e)
    ensures EndsWith(HeaderLog(hs), Thrown(e))
  {
    match FirstDuplicate(hs)
    case Some(j) =>
      assert HeaderLog(hs) == Thrown(e);
    case None =>
      match ScanRoles(Roles(hs), |hs|)
      case Err(e') =>
        assert HeaderLog(hs) == Thrown(e);
      case Ok(roles) =>
        assert HeaderLog(hs) == GroupCounts(roles) + Thrown(e);
  }

  /** A parse that succeeds logs no fatal line; one that fails ends its log with
      what `logThrow` logs for the error: its message, then `!Aborting...` (for
      every error but the two `TypeError`s, which log nothing). */
  lemma LogMarksFailure(data: seq<Row>)
    requires WideRows(data)
    ensures ParseSheet(data).Ok? ==> forall k :: 0 <= k < |SheetLog(data)| ==> !Fatal(SheetLog(data)[k])
    ensures ParseSheet(data).Err? ==> EndsWith(SheetLog(data), Thrown(ParseSheet(data).error))
  {
    if |data| > 0 {
      match DiscoverSchema(data[0])
      case Err(e) =>
        HeaderRejected(data);
        HeaderLogThrown(data[0], e);
      case Ok(s) =>
        HeaderLogClean(data[0], s);
        var r := ParseSheet(data);
        assert SheetLog(data) == HeaderLog(data[0]) + (if r.Err? then Thrown(r.error) else []);
        if r.Err? {
          assert SheetLog(data)[|SheetLog(data)| - |Thrown(r.error)|..] == Thrown(r.error);
        }
    }
  }

  /** The `addToLog` callback, as the lines it has received. */
  class Log {
    var lines: seq<string>

    constructor()
      ensures lines == []
    {
      lines := [];
    }

    method Add(line: string)
      modifies this
      ensures lines == old(lines) + [line]
    {
      lines := lines + [line];
    }
  }

  /** `logThrow` up to the `throw`, which the caller makes by returning the error. */
  method LogThrow(log: Log, e: ParseError)
    modifies log
    ensures log.lines == old(log.lines) + Thrown(e)
  {
    var message := Message(e);
    if message.Some? {
      log.Add(message.value);
      log.Add(Aborting);
    }
  }

  // ---------------------------------------------------------------------------
  // The class

  class Data {
    var parents: map<string, Parent>
    var children: map<string, Child>
    var cars: seq<Car>
    var addresses: seq<Address>

    function Contents(): Tables
      reads this
    {
      Tables(parents, children, cars, addresses)
    }

    constructor()
      ensures Contents() == NoTables
    {
      parents := map[];
      children := map[];
      cars := [];
      addresses := [];
    }

    /** `for (const [datapt, idx] of data_idx) d.parents[name].data[datapt] = row[idx]`
        on the entry just written with an empty `data`. */
    method FillParentData(name: string, row: Row, cols: seq<(string, nat)>)
      requires ColumnsIn(cols, |row|) && name in parents && parents[name].data == map[]
      modifies this
      ensures parents == old(parents)[name := old(parents)[name].(data := FieldValues(row, cols, |cols|))]
      ensures children == old(children) && cars == old(cars) && addresses == old(addresses)
    {
      for j := 0 to |cols|
        invariant parents == old(parents)[name := old(parents)[name].(data := FieldValues(row, cols, j))]
        invariant children == old(children) && cars == old(cars) && addresses == old(addresses)
      {
        var (datapt, idx) := cols[j];
        parents := parents[name := parents[name].(data := parents[name].data[datapt := row[idx]])];
      }
    }

    /** The attribute loop of a child entry, as `FillParentData`. */
    method FillChildData(name: string, row: Row, cols: seq<(string, nat)>)
      requires ColumnsIn(cols, |row|) && name in children && children[name].data == map[]
      modifies this
      ensures children == old(children)[name := old(children)[name].(data := FieldValues(row, cols, |cols|))]
      ensures parents == old(parents) && cars == old(cars) && addresses == old(addresses)
    {
      for j := 0 to |cols|
        invariant children == old(children)[name := old(children)[name].(data := FieldValues(row, cols, j))]
        invariant parents == old(parents) && cars == old(cars) && addresses == old(addresses)
      {
        var (datapt, idx) := cols[j];
        children := children[name := children[name].(data := children[name].data[datapt := row[idx]])];
      }
    }

    /** One iteration of the parent loop, on group `k`: a non-blank name is pushed
        to `parent_names` and written to `d.parents` with the values of its
        group's attributes and no children yet. */
    method ReadParent(s: Schema, row: Row, i: nat, k: nat, names0: seq<string>, ghost ps0: seq<Member>, ghost t0: map<string, Parent>)
      returns (names: seq<string>, ghost ps: seq<Member>, err: Option<ParseError>)
      requires Fits(s, |row|) && k < |s.parentIdx|
      requires Members(s, ParentKind, row, k) == Ok(ps0) && names0 == Names(ps0)
      requires parents == Enter(t0, ps0, ParentEntry([], i))
      modifies this
      ensures err.None? ==> && Members(s, ParentKind, row, k + 1) == Ok(ps) && names == Names(ps)
                            && parents == Enter(t0, ps, ParentEntry([], i))
      ensures err.Some? ==> Members(s, ParentKind, row, k + 1) == Err(err.value)
      ensures children == old(children) && cars == old(cars) && addresses == old(addresses)
    {
      names, ps, err := names0, ps0, None;
      MembersShape(s, ParentKind, row, k + 1);
      var (g, c) := s.parentIdx[k];
      var name := row[c];
      if name == "" {
        return;
      }
      names := names + [name];
      parents := parents[name := Parent(map[], [], i)];
      if g !in s.parentData {
        // iterating the undefined attribute list of `g`
        err := Some(NoFieldColumns(ParentKind, g));
        return;
      }
      var cols := s.parentData[g];
      assert ColumnsIn(cols, |row|);
      FillParentData(name, row, cols);
      EnterSnoc(t0, ps, Member(name, FieldValues(row, cols, |cols|)), ParentEntry([], i));
      ps := ps + [Member(name, FieldValues(row, cols, |cols|))];
    }

    /** The parent loop of a row. */
    method ReadParents(s: Schema, row: Row, i: nat) returns (names: seq<string>, ghost ps: seq<Member>, err: Option<ParseError>)
      requires Fits(s, |row|)
      modifies this
      ensures err.None? ==> && Members(s, ParentKind, row, |s.parentIdx|) == Ok(ps) && names == Names(ps)
                            && parents == Enter(old(parents), ps, ParentEntry([], i))
      ensures err.Some? ==> Members(s, ParentKind, row, |s.parentIdx|) == Err(err.value)
      ensures children == old(children) && cars == old(cars) && addresses == old(addresses)
    {
      ghost var t0 := parents;
      names, ps := [], [];
      for k := 0 to |s.parentIdx|
        invariant Members(s, ParentKind, row, k) == Ok(ps) && names == Names(ps)
        invariant parents == Enter(t0, ps, ParentEntry([], i))
        invariant children == old(children) && cars == old(cars) && addresses == old(addresses)
      {
        names, ps, err := ReadParent(s, row, i, k, names, ps, t0);
        if err.Some? {
          LaterMembersKeepError(s, ParentKind, row, k + 1, |s.parentIdx|);
          return;
        }
      }
      err := None;
    }

    /** One iteration of the child loop, on group `k`: a non-blank name is pushed
        to `child_names` and written to `d.children` with the values of its
        group's attributes and the row's parent names. */
    method ReadChild(s: Schema, row: Row, i: nat, parentNames: seq<string>, k: nat, names0: seq<string>, ghost cs0: seq<Member>, ghost t0: map<string, Child>)
      returns (names: seq<string>, ghost cs: seq<Member>, err: Option<ParseError>)
      requires Fits(s, |row|) && k < |s.childIdx|
      requires Members(s, ChildKind, row, k) == Ok(cs0) && names0 == Names(cs0)
      requires children == Enter(t0, cs0, ChildEntry(parentNames, i))
      modifies this
      ensures err.None? ==> && Members(s, ChildKind, row, k + 1) == Ok(cs) && names == Names(cs)
                            && children == Enter(t0, cs, ChildEntry(parentNames, i))
      ensures err.Some? ==> Members(s, ChildKind, row, k + 1) == Err(err.value)
      ensures parents == old(parents) && cars == old(cars) && addresses == old(addresses)
    {
      names, cs, err := names0, cs0, None;
      MembersShape(s, ChildKind, row, k + 1);
      var (g, c) := s.childIdx[k];
      var name := row[c];
      if name == "" {
        return;
      }
      names := names + [name];
      children := children[name := Child(map[], parentNames, i)];
      if g !in s.childData {
        // iterating the undefined attribute list of `g`
        err := Some(NoFieldColumns(ChildKind, g));
        return;
      }
      var cols := s.childData[g];
      assert ColumnsIn(cols, |row|);
      FillChildData(name, row, cols);
      EnterSnoc(t0, cs, Member(name, FieldValues(row, cols, |cols|)), ChildEntry(parentNames, i));
      cs := cs + [Member(name, FieldValues(row, cols, |cols|))];
    }

    /** The child loop of a row. */
    method ReadChildren(s: Schema, row: Row, i: nat, parentNames: seq<string>) returns (names: seq<string>, ghost cs: seq<Member>, err: Option<ParseError>)
      requires Fits(s, |row|)
      modifies this
      ensures err.None? ==> && Members(s, ChildKind, row, |s.childIdx|) == Ok(cs) && names == Names(cs)
                            && children == Enter(old(children), cs, ChildEntry(parentNames, i))
      ensures err.Some? ==> Members(s, ChildKind, row, |s.childIdx|) == Err(err.value)
      ensures parents == old(parents) && cars == old(cars) && addresses == old(addresses)
    {
      ghost var t0 := children;
      names, cs := [], [];
      for k := 0 to |s.childIdx|
        invariant Members(s, ChildKind, row, k) == Ok(cs) && names == Names(cs)
        invariant children == Enter(t0, cs, ChildEntry(parentNames, i))
        invariant parents == old(parents) && cars == old(cars) && addresses == old(addresses)
      {
        names, cs, err := ReadChild(s, row, i, parentNames, k, names, cs, t0);
        if err.Some? {
          LaterMembersKeepError(s, ChildKind, row, k + 1, |s.childIdx|);
          return;
        }
      }
      err := None;
    }

    /** `for (const pname of parent_names) d.parents[pname].children = child_names`. */
    method LinkChildren(ghost ps: seq<Member>, ghost t0: map<string, Parent>, i: nat, parentNames: seq<string>, childNames: seq<string>)
      requires parentNames == Names(ps) && parents == Enter(t0, ps, ParentEntry([], i))
      modifies this
      ensures parents == Enter(t0, ps, ParentEntry(childNames, i))
      ensures children == old(children) && cars == old(cars) && addresses == old(addresses)
    {
      ghost var p1 := parents;
      EnterMeaning(t0, ps, ParentEntry([], i));
      for j := 0 to |parentNames|
        invariant parents == Relink(p1, parentNames[..j], childNames)
        invariant children == old(children) && cars == old(cars) && addresses == old(addresses)
      {
        var pname := parentNames[j];
        RelinkMeaning(p1, parentNames[..j], childNames);
        assert parentNames[..j + 1][..j] == parentNames[..j];
        parents := parents[pname := parents[pname].(children := childNames)];
      }
      assert parentNames[..|parentNames|] == parentNames;
      EnterThenRelink(t0, ps, childNames, i);
    }

    /** One iteration of the row loop on data row `i`. */
    method AddRow(s: Schema, row: Row, i: nat) returns (err: Option<ParseError>)
      requires Fits(s, |row|)
      modifies this
      ensures err.None? ==> RowStep(s, old(Contents()), row, i) == Ok(Contents())
      ensures err.Some? ==> RowStep(s, old(Contents()), row, i) == Err(err.value)
    {
      ghost var t0 := Contents();
      // process parents
      var parentNames, ps, perr := ReadParents(s, row, i);
      if perr.Some? {
        return perr;
      }
      // process children
      var childNames, cs, cerr := ReadChildren(s, row, i, parentNames);
      if cerr.Some? {
        return cerr;
      }
      // add children to parents
      LinkChildren(ps, t0.parents, i, parentNames, childNames);
      // process cars
      if row[s.capacityIdx] != "" {
        var capacity := ParseInt(row[s.capacityIdx]);
        cars := cars + [Car(parentNames, i, capacity)];
      }
      // process addresses
      if row[s.addressIdx] == "" {
        return Some(BlankAddress(i + 2));
      }
      addresses := addresses + [Address(NaN, NaN, row[s.addressIdx])];
      err := None;
    }

    /** The header checks of `fromSheetData`: duplicates, pass 1, the two required
        columns, pass 2. */
    static method ReadHeader(headers: seq<string>, log: Log) returns (r: Result<Schema, ParseError>)
      modifies log
      ensures r == DiscoverSchema(headers)
      ensures log.lines == old(log.lines) + HeaderLog(headers)
    {
      var dup := FindDuplicateHeader(headers);
      if dup.Some? {
        r := Err(DuplicateHeader(headers[dup.value]));
        LogThrow(log, r.error);
        return;
      }

      var pass1 := ScanRoleColumns(headers);
      if pass1.Err? {
        r := Err(pass1.error);
        LogThrow(log, r.error);
        return;
      }
      var roles := pass1.value;
      log.Add("Found " + NatToString(|roles.parentIdx|) + " parents groups per row");
      log.Add("Found " + NatToString(|roles.childIdx|) + " child groups per row");
      ghost var counted := log.lines;
      assert counted == old(log.lines) + GroupCounts(roles);
      HeaderLogAfterRoles(headers, roles);
      r := CheckColumns(headers, roles, log);
    }

    /** The rest of the header checks once pass 1 has run: the two required
        columns, then pass 2. */
    static method CheckColumns(headers: seq<string>, roles: RoleScan, log: Log) returns (r: Result<Schema, ParseError>)
      requires FirstDuplicate(headers).None? && ScanRoles(Roles(headers), |headers|) == Ok(roles)
      modifies log
      ensures r == DiscoverSchema(headers)
      ensures log.lines == old(log.lines) + (if r.Err? then Thrown(r.error) else [])
    {
      if roles.capacityIdx == -1 {
        r := Err(NoCapacityColumn);
        LogThrow(log, r.error);
        return;
      }
      if roles.addressIdx == -1 {
        r := Err(NoAddressColumn);
        LogThrow(log, r.error);
        return;
      }

      var pass2 := ScanFieldColumns(headers, roles);
      if pass2.Err? {
        r := Err(pass2.error);
        LogThrow(log, r.error);
        return;
      }
      var fields := pass2.value;
      RolesFit(Roles(headers));
      r := Ok(Schema(roles.parentIdx, roles.childIdx, roles.capacityIdx as nat, roles.addressIdx as nat,
                     fields.parentData, fields.childData));
    }

    /** `Data.fromSheetData(data, addToLog)`: a new `Data` read from the sheet, or
        the error it throws; the log receives exactly `SheetLog(data)`. */
    static method FromSheetData(data: seq<Row>, log: Log) returns (r: Result<Data, ParseError>)
      requires WideRows(data)
      modifies log
      ensures r.Ok? ==> fresh(r.value) && ParseSheet(data) == Ok(r.value.Contents())
      ensures r.Err? ==> ParseSheet(data) == Err(r.error)
      ensures log.lines == old(log.lines) + SheetLog(data)
    {
      if |data| == 0 {
        // `data[0]` is undefined and iterating it throws
        return Err(EmptySheet);
      }
      var d := new Data();
      var header := ReadHeader(data[0], log);
      if header.Err? {
        HeaderRejected(data);
        return Err(header.error);
      }
      RowsFitSheet(header.value, data);
      ghost var l0 := log.lines;
      r := ReadRows(header.value, data[1..], d);
      assert log.lines == l0;
      if r.Err? {
        RowsOutcome(data, header.value, Err(r.error));
        LogThrow(log, r.error);
      } else {
        RowsOutcome(data, header.value, Ok(d.Contents()));
      }
    }

    /** The row loop of `fromSheetData`, filling the fresh `d`. */
    static method ReadRows(s: Schema, rows: seq<Row>, d: Data) returns (r: Result<Data, ParseError>)
      requires RowsFit(s, rows) && d.Contents() == NoTables
      modifies d
      ensures r.Ok? ==> r.value == d && ParseRows(s, rows, |rows|) == Ok(d.Contents())
      ensures r.Err? ==> ParseRows(s, rows, |rows|) == Err(r.error)
    {
      for i := 0 to |rows|
        invariant ParseRows(s, rows, i) == Ok(d.Contents())
      {
        var err := d.AddRow(s, rows[i], i);
        if err.Some? {
          r := Err(err.value);
          LaterRowsKeepError(s, rows, i + 1, |rows|);
          return;
        }
      }
      r := Ok(d);
    }
  }
}
