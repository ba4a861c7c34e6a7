/**
 * What the row loop of `Data.fromSheetData` computes: which names a row
 * contributes, what their entries hold, which entry survives when a name recurs,
 * and the cars and addresses the loop collects.
 */
module RowLemmas {
  import opened Wrappers
  import opened Text
  import JsObject
  import opened Header
  import opened HeaderLemmas
  import opened Schema
  import opened Rows

  // ---------------------------------------------------------------------------
  // Attribute values

  /** The `data` object has exactly the attribute names of the list. */
  lemma {:induction false} FieldValuesKeys(row: Row, cols: seq<(string, nat)>, n: nat)
    requires n <= |cols| && ColumnsIn(cols, |row|)
    ensures forall f :: f in FieldValues(row, cols, n) <==> exists j :: 0 <= j < n && cols[j].0 == f
  {
    if n > 0 {
      FieldValuesKeys(row, cols, n - 1);
    }
  }

  /** An attribute holds the cell of the last pair that names it. */
  lemma {:induction false} FieldValuesAt(row: Row, cols: seq<(string, nat)>, n: nat, j: nat)
    requires n <= |cols| && ColumnsIn(cols, |row|) && j < n
    requires forall j' :: j < j' < n ==> cols[j'].0 != cols[j].0
    ensures cols[j].0 in FieldValues(row, cols, n)
    ensures FieldValues(row, cols, n)[cols[j].0] == row[cols[j].1]
  {
    if j < n - 1 {
      FieldValuesAt(row, cols, n - 1, j);
    }
  }

  // ---------------------------------------------------------------------------
  // The names of one kind on one row

  /** Group `k` (in `Object.entries` order) has a name on this row. */
  predicate NamedAt(s: Schema, kind: Kind, row: Row, k: nat)
    requires Fits(s, |row|) && k < |Groups(s, kind)|
  {
    row[Groups(s, kind)[k].1] != ""
  }

  /** Group `k` has a name on this row but no attribute list. */
  predicate Unlisted(s: Schema, kind: Kind, row: Row, k: nat)
    requires Fits(s, |row|) && k < |Groups(s, kind)|
  {
    NamedAt(s, kind, row, k) && Groups(s, kind)[k].0 !in Data(s, kind)
  }

  /** The member that named group `k` contributes. */
  function MemberAt(s: Schema, kind: Kind, row: Row, k: nat): Member
    requires Fits(s, |row|) && k < |Groups(s, kind)| && Groups(s, kind)[k].0 in Data(s, kind)
  {
    var (g, c) := Groups(s, kind)[k];
    Member(row[c], FieldValues(row, Data(s, kind)[g], |Data(s, kind)[g]|))
  }

  /** One iteration of the group loop on group `n - 1`, once the loop has got
      that far. */
  lemma MembersShape(s: Schema, kind: Kind, row: Row, n: nat)
    requires Fits(s, |row|) && 0 < n <= |Groups(s, kind)| && Members(s, kind, row, n - 1).Ok?
    ensures Members(s, kind, row, n).Err? <==> Unlisted(s, kind, row, n - 1)
    ensures Members(s, kind, row, n).Err? ==> Members(s, kind, row, n).error == NoFieldColumns(kind, Groups(s, kind)[n - 1].0)
    ensures Members(s, kind, row, n).Ok? ==>
      if NamedAt(s, kind, row, n - 1)
      then Groups(s, kind)[n - 1].0 in Data(s, kind) &&
        Members(s, kind, row, n).value == Members(s, kind, row, n - 1).value + [MemberAt(s, kind, row, n - 1)]
      else Members(s, kind, row, n).value == Members(s, kind, row, n - 1).value
  {
  }

  /** The group loop fails exactly when a named group has no attribute list, and
      reports the first such group. */
  lemma {:induction false} MembersOk(s: Schema, kind: Kind, row: Row, n: nat)
    requires Fits(s, |row|) && n <= |Groups(s, kind)|
    ensures Members(s, kind, row, n).Ok? <==> forall k :: 0 <= k < n ==> !Unlisted(s, kind, row, k)
    ensures Members(s, kind, row, n).Err? ==> exists k ::
      && 0 <= k < n && Unlisted(s, kind, row, k) && (forall k' :: 0 <= k' < k ==> !Unlisted(s, kind, row, k'))
      && Members(s, kind, row, n).error == NoFieldColumns(kind, Groups(s, kind)[k].0)
  {
    if n > 0 {
      MembersOk(s, kind, row, n - 1);
      if Members(s, kind, row, n - 1).Ok? {
        MembersShape(s, kind, row, n);
      } else {
        assert Members(s, kind, row, n) == Members(s, kind, row, n - 1);
      }
    }
  }

  /** Once the group loop has failed, later groups change nothing. */
  lemma {:induction false} LaterMembersKeepError(s: Schema, kind: Kind, row: Row, n: nat, m: nat)
    requires Fits(s, |row|) && n <= m <= |Groups(s, kind)| && Members(s, kind, row, n).Err?
    ensures Members(s, kind, row, m) == Members(s, kind, row, n)
    decreases m - n
  {
    if n < m {
      LaterMembersKeepError(s, kind, row, n, m - 1);
    }
  }

  /** `ms` lists, in group order, the members of exactly the named groups below `n`;
      `ks` says which group each came from. */
  predicate Selection(s: Schema, kind: Kind, row: Row, ms: seq<Member>, ks: seq<nat>, n: nat)
    requires Fits(s, |row|) && n <= |Groups(s, kind)|
  {
    && |ks| == |ms|
    && (forall j :: 0 <= j < |ks| ==>
          && ks[j] < n && NamedAt(s, kind, row, ks[j]) && Groups(s, kind)[ks[j]].0 in Data(s, kind)
          && ms[j] == MemberAt(s, kind, row, ks[j]))
    && (forall j, j' :: 0 <= j < j' < |ks| ==> ks[j] < ks[j'])
    && (forall k :: 0 <= k < n && NamedAt(s, kind, row, k) ==> k in ks)
  }

  lemma SelectionNamed(s: Schema, kind: Kind, row: Row, ms0: seq<Member>, ks0: seq<nat>, n: nat)
    requires Fits(s, |row|) && 0 < n <= |Groups(s, kind)| && Selection(s, kind, row, ms0, ks0, n - 1)
    requires NamedAt(s, kind, row, n - 1) && Groups(s, kind)[n - 1].0 in Data(s, kind)
    ensures Selection(s, kind, row, ms0 + [MemberAt(s, kind, row, n - 1)], ks0 + [n - 1], n)
  {
  }

  lemma SelectionBlank(s: Schema, kind: Kind, row: Row, ms0: seq<Member>, ks0: seq<nat>, n: nat)
    requires Fits(s, |row|) && 0 < n <= |Groups(s, kind)| && Selection(s, kind, row, ms0, ks0, n - 1)
    requires !NamedAt(s, kind, row, n - 1)
    ensures Selection(s, kind, row, ms0, ks0, n)
  {
  }

  lemma {:induction false} MembersSelect(s: Schema, kind: Kind, row: Row, n: nat) returns (ks: seq<nat>)
    requires Fits(s, |row|) && n <= |Groups(s, kind)| && Members(s, kind, row, n).Ok?
    ensures Selection(s, kind, row, Members(s, kind, row, n).value, ks, n)
  {
    if n == 0 {
      ks := [];
    } else {
      assert Members(s, kind, row, n - 1).Ok?;
      var ks0 := MembersSelect(s, kind, row, n - 1);
      MembersShape(s, kind, row, n);
      if NamedAt(s, kind, row, n - 1) {
        SelectionNamed(s, kind, row, Members(s, kind, row, n - 1).value, ks0, n);
        ks := ks0 + [n - 1];
      } else {
        SelectionBlank(s, kind, row, Members(s, kind, row, n - 1).value, ks0, n);
        ks := ks0;
      }
    }
  }

  // ---------------------------------------------------------------------------
  // Writing entries: the last write of a name wins

  /** `ms[j]` is the last member called `name`. */
  predicate LastNamed(ms: seq<Member>, j: nat, name: string)
  {
    j < |ms| && ms[j].name == name && forall j' :: j < j' < |ms| ==> ms[j'].name != name
  }

  lemma LastNamedExists(ms: seq<Member>, name: string) returns (j: nat)
    requires name in Names(ms)
    ensures LastNamed(ms, j, name)
  {
    var j0 :| 0 <= j0 < |ms| && ms[j0].name == name;
    j := j0;
    while j + 1 < |ms| && exists j' :: j < j' < |ms| && ms[j'].name == name
      invariant j < |ms| && ms[j].name == name
      decreases |ms| - j
    {
      var j' :| j < j' < |ms| && ms[j'].name == name;
      j := j';
    }
  }

  /** Writing members adds exactly their names; a name written more than once
      holds the entry of its last member; other names keep their entries. */
  lemma {:induction false} EnterMeaning<R>(t: map<string, R>, ms: seq<Member>, entry: map<string, string> -> R)
    ensures forall name :: name in Enter(t, ms, entry) <==> name in t || name in Names(ms)
    ensures forall name :: name in t && name !in Names(ms) ==> Enter(t, ms, entry)[name] == t[name]
    ensures forall j :: 0 <= j < |ms| && LastNamed(ms, j, ms[j].name) ==>
      ms[j].name in Enter(t, ms, entry) && Enter(t, ms, entry)[ms[j].name] == entry(ms[j].data)
  {
    if |ms| > 0 {
      var ms0 := ms[..|ms| - 1];
      EnterMeaning(t, ms0, entry);
      assert Names(ms) == Names(ms0) + [ms[|ms| - 1].name];
      forall j | 0 <= j < |ms| - 1 && LastNamed(ms, j, ms[j].name)
        ensures LastNamed(ms0, j, ms0[j].name)
      {
      }
    }
  }

  /** The name an entry is stored under holds the entry of its last member. */
  lemma EnterLast<R>(t: map<string, R>, ms: seq<Member>, entry: map<string, string> -> R, name: string) returns (j: nat)
    requires name in Names(ms)
    ensures LastNamed(ms, j, name) && name in Enter(t, ms, entry) && Enter(t, ms, entry)[name] == entry(ms[j].data)
  {
    j := LastNamedExists(ms, name);
    EnterMeaning(t, ms, entry);
  }

  /** A name no member carries keeps its entry, or its absence. */
  lemma EnterOther<R>(t: map<string, R>, ms: seq<Member>, entry: map<string, string> -> R, name: string)
    requires name !in Names(ms)
    ensures name in Enter(t, ms, entry) <==> name in t
    ensures name in t ==> Enter(t, ms, entry)[name] == t[name]
  {
    EnterMeaning(t, ms, entry);
  }

  lemma EnterSnoc<R>(t: map<string, R>, ms: seq<Member>, m: Member, entry: map<string, string> -> R)
    ensures Enter(t, ms + [m], entry) == Enter(t, ms, entry)[m.name := entry(m.data)]
    ensures Names(ms + [m]) == Names(ms) + [m.name]
  {
    assert (ms + [m])[..|ms|] == ms;
  }

  /** The back-patch loop relinks the names it visits that are present, and
      changes nothing else. */
  lemma {:induction false} RelinkMeaning(t: map<string, Parent>, names: seq<string>, children: seq<string>)
    ensures forall name :: name in Relink(t, names, children) <==> name in t
    ensures forall name :: name in t ==>
      Relink(t, names, children)[name] == if name in names then t[name].(children := children) else t[name]
  {
    if |names| > 0 {
      RelinkMeaning(t, names[..|names| - 1], children);
      assert names == names[..|names| - 1] + [names[|names| - 1]];
    }
  }

  /** Writing the parents of a row childless and then relinking them to the row's
      children gives the entries of `RowStep`. */
  lemma EnterThenRelink(t: map<string, Parent>, ms: seq<Member>, children: seq<string>, i: nat)
    ensures Relink(Enter(t, ms, ParentEntry([], i)), Names(ms), children) == Enter(t, ms, ParentEntry(children, i))
  {
    var e0 := Enter(t, ms, ParentEntry([], i));
    RelinkMeaning(e0, Names(ms), children);
    EnterMeaning(t, ms, ParentEntry([], i));
    EnterRelinked(t, ms, children, i);
  }

  /** The back-patch `d.parents[pname].children = child_names`, run for every parent
      name of the row over entries written childless, gives the entries written
      with `children` in the first place. */
  lemma EnterRelinked(t: map<string, Parent>, ms: seq<Member>, children: seq<string>, i: nat)
    ensures forall name :: name in Enter(t, ms, ParentEntry(children, i)) <==> name in Enter(t, ms, ParentEntry([], i))
    ensures forall name :: name in Names(ms) ==>
      (&& name in Enter(t, ms, ParentEntry([], i)) && name in Enter(t, ms, ParentEntry(children, i))
       && Enter(t, ms, ParentEntry(children, i))[name] == Enter(t, ms, ParentEntry([], i))[name].(children := children))
    ensures forall name :: name in t && name !in Names(ms) ==>
      (&& name in Enter(t, ms, ParentEntry([], i)) && name in Enter(t, ms, ParentEntry(children, i))
       && Enter(t, ms, ParentEntry(children, i))[name] == Enter(t, ms, ParentEntry([], i))[name])
  {
    EnterMeaning(t, ms, ParentEntry(children, i));
    EnterMeaning(t, ms, ParentEntry([], i));
    forall name | name in Names(ms)
      ensures name in Enter(t, ms, ParentEntry([], i))
      ensures Enter(t, ms, ParentEntry(children, i))[name] == Enter(t, ms, ParentEntry([], i))[name].(children := children)
    {
      var j := LastNamedExists(ms, name);
    }
  }

  // ---------------------------------------------------------------------------
  // The row loop

  /** The members of one kind a row contributes (none when the group loop fails). */
  function RowMembers(s: Schema, kind: Kind, row: Row): seq<Member>
    requires Fits(s, |row|)
  {
    var r := Members(s, kind, row, |Groups(s, kind)|);
    if r.Ok? then r.value else []
  }

  /** `parent_names` of a row. */
  function ParentNames(s: Schema, row: Row): seq<string>
    requires Fits(s, |row|)
  {
    Names(RowMembers(s, ParentKind, row))
  }

  /** `child_names` of a row. */
  function ChildNames(s: Schema, row: Row): seq<string>
    requires Fits(s, |row|)
  {
    Names(RowMembers(s, ChildKind, row))
  }

  /** A row the loop gets through: both group loops succeed and the address cell
      is not blank. */
  predicate RowAccepted(s: Schema, row: Row)
    requires Fits(s, |row|)
  {
    && Members(s, ParentKind, row, |s.parentIdx|).Ok?
    && Members(s, ChildKind, row, |s.childIdx|).Ok?
    && row[s.addressIdx] != ""
  }

  /** What stops the loop on a row it does not get through, in the order the body
      meets the failures. */
  function RowError(s: Schema, row: Row, i: nat): ParseError
    requires Fits(s, |row|)
  {
    var ps := Members(s, ParentKind, row, |s.parentIdx|);
    var cs := Members(s, ChildKind, row, |s.childIdx|);
    if ps.Err? then ps.error else if cs.Err? then cs.error else BlankAddress(i + 2)
  }

  /** The car list after a row. */
  function CarsAfter(s: Schema, cars: seq<Car>, row: Row, i: nat): seq<Car>
    requires Fits(s, |row|)
  {
    if row[s.capacityIdx] != "" then cars + [Car(ParentNames(s, row), i, ParseInt(row[s.capacityIdx]))] else cars
  }

  /** The tables after a row the loop gets through. */
  function RowTables(s: Schema, t: Tables, row: Row, i: nat): Tables
    requires Fits(s, |row|)
  {
    Tables(
      Enter(t.parents, RowMembers(s, ParentKind, row), ParentEntry(ChildNames(s, row), i)),
      Enter(t.children, RowMembers(s, ChildKind, row), ChildEntry(ParentNames(s, row), i)),
      CarsAfter(s, t.cars, row, i),
      t.addresses + [Address(NaN, NaN, row[s.addressIdx])])
  }

  lemma RowStepShape(s: Schema, t: Tables, row: Row, i: nat)
    requires Fits(s, |row|)
    ensures RowStep(s, t, row, i).Ok? <==> RowAccepted(s, row)
    ensures RowStep(s, t, row, i).Ok? ==> RowStep(s, t, row, i).value == RowTables(s, t, row, i)
    ensures RowStep(s, t, row, i).Err? ==> RowStep(s, t, row, i).error == RowError(s, row, i)
  {
  }

  /** The last iteration of a loop that got through `n` rows. */
  lemma ParseRowsStep(s: Schema, rows: seq<Row>, n: nat)
    requires 0 < n <= |rows| && RowsFit(s, rows) && ParseRows(s, rows, n).Ok?
    ensures ParseRows(s, rows, n - 1).Ok? && RowAccepted(s, rows[n - 1])
    ensures ParseRows(s, rows, n).value == RowTables(s, ParseRows(s, rows, n - 1).value, rows[n - 1], n - 1)
  {
    RowStepShape(s, ParseRows(s, rows, n - 1).value, rows[n - 1], n - 1);
  }

  lemma ParseRowsUnfold(s: Schema, rows: seq<Row>, n: nat)
    requires 0 < n <= |rows| && RowsFit(s, rows)
    ensures ParseRows(s, rows, n - 1).Err? ==> ParseRows(s, rows, n) == ParseRows(s, rows, n - 1)
    ensures ParseRows(s, rows, n - 1).Ok? ==>
      ParseRows(s, rows, n) == RowStep(s, ParseRows(s, rows, n - 1).value, rows[n - 1], n - 1)
  {
  }

  /** Once the row loop has failed, later rows change nothing. */
  lemma {:induction false} LaterRowsKeepError(s: Schema, rows: seq<Row>, n: nat, m: nat)
    requires n <= m <= |rows| && RowsFit(s, rows) && ParseRows(s, rows, n).Err?
    ensures ParseRows(s, rows, m) == ParseRows(s, rows, n)
    decreases m - n
  {
    if n < m {
      LaterRowsKeepError(s, rows, n, m - 1);
    }
  }

  /** The loop gets through each of the first `n` rows. */
  predicate AllAccepted(s: Schema, rows: seq<Row>, n: nat)
    requires n <= |rows| && RowsFit(s, rows)
  {
    forall i :: 0 <= i < n ==> RowAccepted(s, rows[i])
  }

  /** Row `i` is the first the loop cannot get through, and `e` is its error. */
  ghost predicate StopsAt(s: Schema, rows: seq<Row>, i: nat, e: ParseError)
    requires i < |rows| && RowsFit(s, rows)
  {
    && !RowAccepted(s, rows[i])
    && AllAccepted(s, rows, i)
    && e == RowError(s, rows[i], i)
  }

  /** The loop succeeds exactly when it gets through every row; otherwise it stops
      at the first row it cannot get through, with that row's error. */
  lemma ParseRowsAccepted(s: Schema, rows: seq<Row>, n: nat)
    requires n <= |rows| && RowsFit(s, rows)
    ensures ParseRows(s, rows, n).Ok? <==> forall i :: 0 <= i < n ==> RowAccepted(s, rows[i])
    ensures ParseRows(s, rows, n).Err? ==> exists i :: 0 <= i < n && StopsAt(s, rows, i, ParseRows(s, rows, n).error)
  {
    ParseRowsOk(s, rows, n);
    if ParseRows(s, rows, n).Err? {
      ParseRowsStops(s, rows, n);
    }
  }

  lemma AllAcceptedStep(s: Schema, rows: seq<Row>, n: nat)
    requires 0 < n <= |rows| && RowsFit(s, rows)
    ensures AllAccepted(s, rows, n) <==> AllAccepted(s, rows, n - 1) && RowAccepted(s, rows[n - 1])
  {
  }

  lemma {:induction false} ParseRowsOk(s: Schema, rows: seq<Row>, n: nat)
    requires n <= |rows| && RowsFit(s, rows)
    ensures ParseRows(s, rows, n).Ok? <==> AllAccepted(s, rows, n)
  {
    if n > 0 {
      ParseRowsOk(s, rows, n - 1);
      ParseRowsOkStep(s, rows, n);
      AllAcceptedStep(s, rows, n);
    }
  }

  /** The loop gets through `n` rows exactly when it gets through `n - 1` and the
      body accepts row `n - 1`. */
  lemma ParseRowsOkStep(s: Schema, rows: seq<Row>, n: nat)
    requires 0 < n <= |rows| && RowsFit(s, rows)
    ensures ParseRows(s, rows, n).Ok? <==> ParseRows(s, rows, n - 1).Ok? && RowAccepted(s, rows[n - 1])
  {
    ParseRowsUnfold(s, rows, n);
    if ParseRows(s, rows, n - 1).Ok? {
      RowStepShape(s, ParseRows(s, rows, n - 1).value, rows[n - 1], n - 1);
    }
  }

  lemma {:induction false} ParseRowsStops(s: Schema, rows: seq<Row>, n: nat)
    requires n <= |rows| && RowsFit(s, rows) && ParseRows(s, rows, n).Err?
    ensures exists i :: 0 <= i < n && StopsAt(s, rows, i, ParseRows(s, rows, n).error)
  {
    assert n > 0;
    ParseRowsErrStep(s, rows, n);
    if ParseRows(s, rows, n - 1).Err? {
      ParseRowsStops(s, rows, n - 1);
    } else {
      ParseRowsOk(s, rows, n - 1);
      assert StopsAt(s, rows, n - 1, ParseRows(s, rows, n).error);
    }
  }

  /** A loop that fails within `n` rows failed within `n - 1`, or fails on row
      `n - 1` with that row's error. */
  lemma ParseRowsErrStep(s: Schema, rows: seq<Row>, n: nat)
    requires 0 < n <= |rows| && RowsFit(s, rows) && ParseRows(s, rows, n).Err?
    ensures ParseRows(s, rows, n - 1).Err? ==> ParseRows(s, rows, n).error == ParseRows(s, rows, n - 1).error
    ensures ParseRows(s, rows, n - 1).Ok? ==>
      !RowAccepted(s, rows[n - 1]) && ParseRows(s, rows, n).error == RowError(s, rows[n - 1], n - 1)
  {
    ParseRowsUnfold(s, rows, n);
    if ParseRows(s, rows, n - 1).Ok? {
      RowStepShape(s, ParseRows(s, rows, n - 1).value, rows[n - 1], n - 1);
    }
  }

  /** One address per row, in row order, named by the row's (non-blank) address
      cell and not yet located. */
  predicate AddressesOf(s: Schema, rows: seq<Row>, n: nat, addresses: seq<Address>)
    requires n <= |rows| && RowsFit(s, rows)
  {
    && |addresses| == n
    && forall i :: 0 <= i < n ==> rows[i][s.addressIdx] != "" && addresses[i] == Address(NaN, NaN, rows[i][s.addressIdx])
  }

  lemma AddressesStep(s: Schema, rows: seq<Row>, n: nat, addresses0: seq<Address>, addresses: seq<Address>)
    requires 0 < n <= |rows| && RowsFit(s, rows) && AddressesOf(s, rows, n - 1, addresses0)
    requires rows[n - 1][s.addressIdx] != ""
    requires addresses == addresses0 + [Address(NaN, NaN, rows[n - 1][s.addressIdx])]
    ensures AddressesOf(s, rows, n, addresses)
  {
  }

  lemma {:induction false} ParseRowsAddresses(s: Schema, rows: seq<Row>, n: nat)
    requires n <= |rows| && RowsFit(s, rows) && ParseRows(s, rows, n).Ok?
    ensures AddressesOf(s, rows, n, ParseRows(s, rows, n).value.addresses)
  {
    if n > 0 {
      ParseRowsStep(s, rows, n);
      ParseRowsAddresses(s, rows, n - 1);
      AddressesStep(s, rows, n, ParseRows(s, rows, n - 1).value.addresses, ParseRows(s, rows, n).value.addresses);
    }
  }

  /** One car per row whose capacity cell is not blank, in row order, at that row's
      address, carrying the row's parent names and the `parseInt` of the cell. */
  predicate CarsOf(s: Schema, rows: seq<Row>, n: nat, cars: seq<Car>)
    requires n <= |rows| && RowsFit(s, rows)
  {
    && (forall j :: 0 <= j < |cars| ==>
          && cars[j].address < n && rows[cars[j].address][s.capacityIdx] != ""
          && cars[j] == Car(ParentNames(s, rows[cars[j].address]), cars[j].address, ParseInt(rows[cars[j].address][s.capacityIdx])))
    && (forall j, j' :: 0 <= j < j' < |cars| ==> cars[j].address < cars[j'].address)
    && (forall i :: 0 <= i < n && rows[i][s.capacityIdx] != "" ==> exists j :: 0 <= j < |cars| && cars[j].address == i)
  }

  lemma CarsStep(s: Schema, rows: seq<Row>, n: nat, cars0: seq<Car>, cars: seq<Car>)
    requires 0 < n <= |rows| && RowsFit(s, rows) && CarsOf(s, rows, n - 1, cars0)
    requires cars == CarsAfter(s, cars0, rows[n - 1], n - 1)
    ensures CarsOf(s, rows, n, cars)
  {
    if rows[n - 1][s.capacityIdx] != "" {
      CarsAdded(s, rows, n, cars0, cars);
    } else {
      CarsKept(s, rows, n, cars0, cars);
    }
  }

  /** A row with a blank capacity cell adds no car. */
  lemma CarsKept(s: Schema, rows: seq<Row>, n: nat, cars0: seq<Car>, cars: seq<Car>)
    requires 0 < n <= |rows| && RowsFit(s, rows) && CarsOf(s, rows, n - 1, cars0)
    requires rows[n - 1][s.capacityIdx] == "" && cars == cars0
    ensures CarsOf(s, rows, n, cars)
  {
    forall i | 0 <= i < n && rows[i][s.capacityIdx] != "" ensures exists j :: 0 <= j < |cars| && cars[j].address == i {
      assert i < n - 1;
    }
  }

  /** A row with a capacity adds its car at the end. */
  lemma CarsAdded(s: Schema, rows: seq<Row>, n: nat, cars0: seq<Car>, cars: seq<Car>)
    requires 0 < n <= |rows| && RowsFit(s, rows) && CarsOf(s, rows, n - 1, cars0)
    requires rows[n - 1][s.capacityIdx] != ""
    requires cars == cars0 + [Car(ParentNames(s, rows[n - 1]), n - 1, ParseInt(rows[n - 1][s.capacityIdx]))]
    ensures CarsOf(s, rows, n, cars)
  {
    var last := |cars| - 1;
    assert cars[last].address == n - 1;
    forall j | 0 <= j < |cars|
      ensures && cars[j].address < n && rows[cars[j].address][s.capacityIdx] != ""
              && cars[j] == Car(ParentNames(s, rows[cars[j].address]), cars[j].address, ParseInt(rows[cars[j].address][s.capacityIdx]))
    {
      if j < last {
        assert cars[j] == cars0[j];
      }
    }
    forall j, j' | 0 <= j < j' < |cars| ensures cars[j].address < cars[j'].address {
      assert cars[j] == cars0[j];
      if j' < last {
        assert cars[j'] == cars0[j'];
      }
    }
    forall i | 0 <= i < n && rows[i][s.capacityIdx] != "" ensures exists j :: 0 <= j < |cars| && cars[j].address == i {
      if i == n - 1 {
        assert cars[last].address == i;
      } else {
        var j :| 0 <= j < |cars0| && cars0[j].address == i;
        assert cars[j].address == i;
      }
    }
  }

  lemma {:induction false} ParseRowsCars(s: Schema, rows: seq<Row>, n: nat)
    requires n <= |rows| && RowsFit(s, rows) && ParseRows(s, rows, n).Ok?
    ensures CarsOf(s, rows, n, ParseRows(s, rows, n).value.cars)
  {
    if n > 0 {
      ParseRowsStep(s, rows, n);
      ParseRowsCars(s, rows, n - 1);
      CarsStep(s, rows, n, ParseRows(s, rows, n - 1).value.cars, ParseRows(s, rows, n).value.cars);
    }
  }

  /** `d.parents` after `n` rows, for one name: present exactly when some row lists
      it among its parents; its entry comes from the last such row, holds that
      row's child names and the values of the last group on that row that gave
      the name. */
  ghost predicate ParentsOf(s: Schema, rows: seq<Row>, n: nat, ps: map<string, Parent>, name: string)
    requires n <= |rows| && RowsFit(s, rows)
  {
    && (name in ps <==> exists i :: 0 <= i < n && name in ParentNames(s, rows[i]))
    && (name in ps ==>
          && ps[name].address < n && name in ParentNames(s, rows[ps[name].address])
          && (forall i :: ps[name].address < i < n ==> name !in ParentNames(s, rows[i]))
          && ps[name].children == ChildNames(s, rows[ps[name].address])
          && exists j: nat :: LastNamed(RowMembers(s, ParentKind, rows[ps[name].address]), j, name) &&
               ps[name].data == RowMembers(s, ParentKind, rows[ps[name].address])[j].data)
  }

  lemma ParentsStep(s: Schema, rows: seq<Row>, n: nat, ps0: map<string, Parent>, ps: map<string, Parent>, name: string)
    requires 0 < n <= |rows| && RowsFit(s, rows) && ParentsOf(s, rows, n - 1, ps0, name)
    requires ps == Enter(ps0, RowMembers(s, ParentKind, rows[n - 1]), ParentEntry(ChildNames(s, rows[n - 1]), n - 1))
    ensures ParentsOf(s, rows, n, ps, name)
  {
    var ms := RowMembers(s, ParentKind, rows[n - 1]);
    var entry := ParentEntry(ChildNames(s, rows[n - 1]), n - 1);
    if name in Names(ms) {
      var j := EnterLast(ps0, ms, entry, name);
      ParentsListed(s, rows, n, ps, name, j);
    } else {
      EnterOther(ps0, ms, entry, name);
      ParentsUnlisted(s, rows, n, ps0, ps, name);
    }
  }

  /** A row that lists the name as a parent rewrites its entry. */
  lemma ParentsListed(s: Schema, rows: seq<Row>, n: nat, ps: map<string, Parent>, name: string, j: nat)
    requires 0 < n <= |rows| && RowsFit(s, rows)
    requires LastNamed(RowMembers(s, ParentKind, rows[n - 1]), j, name)
    requires name in ps && ps[name] == Parent(RowMembers(s, ParentKind, rows[n - 1])[j].data, ChildNames(s, rows[n - 1]), n - 1)
    ensures ParentsOf(s, rows, n, ps, name)
  {
    assert ParentNames(s, rows[n - 1])[j] == name;
  }

  /** A row that does not list the name leaves its entry, if any, alone. */
  lemma ParentsUnlisted(s: Schema, rows: seq<Row>, n: nat, ps0: map<string, Parent>, ps: map<string, Parent>, name: string)
    requires 0 < n <= |rows| && RowsFit(s, rows) && ParentsOf(s, rows, n - 1, ps0, name)
    requires name !in ParentNames(s, rows[n - 1])
    requires (name in ps <==> name in ps0) && (name in ps0 ==> ps[name] == ps0[name])
    ensures ParentsOf(s, rows, n, ps, name)
  {
  }

  lemma {:induction false} ParseRowsParents(s: Schema, rows: seq<Row>, n: nat, name: string)
    requires n <= |rows| && RowsFit(s, rows) && ParseRows(s, rows, n).Ok?
    ensures ParentsOf(s, rows, n, ParseRows(s, rows, n).value.parents, name)
  {
    if n > 0 {
      ParseRowsStep(s, rows, n);
      ParseRowsParents(s, rows, n - 1, name);
      ParentsStep(s, rows, n, ParseRows(s, rows, n - 1).value.parents, ParseRows(s, rows, n).value.parents, name);
    }
  }

  /** `d.children` after `n` rows, the mirror image of `ParentsOf`: an entry holds
      the parent names of the row it comes from. */
  ghost predicate ChildrenOf(s: Schema, rows: seq<Row>, n: nat, cs: map<string, Child>, name: string)
    requires n <= |rows| && RowsFit(s, rows)
  {
    && (name in cs <==> exists i :: 0 <= i < n && name in ChildNames(s, rows[i]))
    && (name in cs ==>
          && cs[name].address < n && name in ChildNames(s, rows[cs[name].address])
          && (forall i :: cs[name].address < i < n ==> name !in ChildNames(s, rows[i]))
          && cs[name].parents == ParentNames(s, rows[cs[name].address])
          && exists j: nat :: LastNamed(RowMembers(s, ChildKind, rows[cs[name].address]), j, name) &&
               cs[name].data == RowMembers(s, ChildKind, rows[cs[name].address])[j].data)
  }

  lemma ChildrenStep(s: Schema, rows: seq<Row>, n: nat, cs0: map<string, Child>, cs: map<string, Child>, name: string)
    requires 0 < n <= |rows| && RowsFit(s, rows) && ChildrenOf(s, rows, n - 1, cs0, name)
    requires cs == Enter(cs0, RowMembers(s, ChildKind, rows[n - 1]), ChildEntry(ParentNames(s, rows[n - 1]), n - 1))
    ensures ChildrenOf(s, rows, n, cs, name)
  {
    var ms := RowMembers(s, ChildKind, rows[n - 1]);
    var entry := ChildEntry(ParentNames(s, rows[n - 1]), n - 1);
    if name in Names(ms) {
      var j := EnterLast(cs0, ms, entry, name);
      ChildrenListed(s, rows, n, cs, name, j);
    } else {
      EnterOther(cs0, ms, entry, name);
      ChildrenUnlisted(s, rows, n, cs0, cs, name);
    }
  }

  /** A row that lists the name as a child rewrites its entry. */
  lemma ChildrenListed(s: Schema, rows: seq<Row>, n: nat, cs: map<string, Child>, name: string, j: nat)
    requires 0 < n <= |rows| && RowsFit(s, rows)
    requires LastNamed(RowMembers(s, ChildKind, rows[n - 1]), j, name)
    requires name in cs && cs[name] == Child(RowMembers(s, ChildKind, rows[n - 1])[j].data, ParentNames(s, rows[n - 1]), n - 1)
    ensures ChildrenOf(s, rows, n, cs, name)
  {
    assert ChildNames(s, rows[n - 1])[j] == name;
  }

  /** A row that does not list the name leaves its entry, if any, alone. */
  lemma ChildrenUnlisted(s: Schema, rows: seq<Row>, n: nat, cs0: map<string, Child>, cs: map<string, Child>, name: string)
    requires 0 < n <= |rows| && RowsFit(s, rows) && ChildrenOf(s, rows, n - 1, cs0, name)
    requires name !in ChildNames(s, rows[n - 1])
    requires (name in cs <==> name in cs0) && (name in cs0 ==> cs[name] == cs0[name])
    ensures ChildrenOf(s, rows, n, cs, name)
  {
  }

  lemma {:induction false} ParseRowsChildren(s: Schema, rows: seq<Row>, n: nat, name: string)
    requires n <= |rows| && RowsFit(s, rows) && ParseRows(s, rows, n).Ok?
    ensures ChildrenOf(s, rows, n, ParseRows(s, rows, n).value.children, name)
  {
    if n > 0 {
      ParseRowsStep(s, rows, n);
      ParseRowsChildren(s, rows, n - 1, name);
      ChildrenStep(s, rows, n, ParseRows(s, rows, n - 1).value.children, ParseRows(s, rows, n).value.children, name);
    }
  }
}
