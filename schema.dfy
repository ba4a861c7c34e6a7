/**
 * The header row as a whole: the checks `Data.fromSheetData` makes before it
 * reads any data row, and the column layout it then uses for every row.
 */
module Schema {
  import opened Wrappers
  import opened Text
  import JsObject
  import opened Header
  import opened HeaderLemmas

  /** What the header passes leave for the row loop: `parent_idx`, `child_idx`,
      `passenger_capacity_idx`, `address_idx`, `parent_data_idx`, `child_data_idx`. */
  datatype Schema = Schema(
    parentIdx: JsObject.Entries<nat>,
    childIdx: JsObject.Entries<nat>,
    capacityIdx: nat,
    addressIdx: nat,
    parentData: FieldLists,
    childData: FieldLists)

  /** The group dictionary of one kind. */
  function Groups(s: Schema, kind: Kind): JsObject.Entries<nat>
  {
    if kind == ParentKind then s.parentIdx else s.childIdx
  }

  /** The attribute lists of one kind. */
  function Data(s: Schema, kind: Kind): FieldLists
  {
    if kind == ParentKind then s.parentData else s.childData
  }

  /** Every column the schema points at lies inside a header of `width` cells. */
  predicate Fits(s: Schema, width: nat)
  {
    && s.capacityIdx < width && s.addressIdx < width
    && ColumnsBelow(s.parentIdx, width) && ColumnsBelow(s.childIdx, width)
    && ListsBelow(s.parentData, width) && ListsBelow(s.childData, width)
  }

  predicate ListsBelow(m: FieldLists, width: nat)
  {
    forall g, j :: g in m && 0 <= j < |m[g]| ==> m[g][j].1 < width
  }

  /** The header checks in the order the code makes them. */
  function DiscoverSchema(hs: seq<string>): (r: Result<Schema, ParseError>)
    ensures r.Ok? ==> Fits(r.value, |hs|)
  {
    match FirstDuplicate(hs)
    case Some(j) => Err(DuplicateHeader(hs[j]))
    case None => SchemaFrom(Roles(hs), Fields(hs))
  }

  /** Pass 1, the two required columns and pass 2, on the readings of the cells. */
  function SchemaFrom(rs: seq<Option<Role>>, fs: seq<Option<FieldColumn>>): (r: Result<Schema, ParseError>)
    requires |rs| == |fs|
    ensures r.Ok? ==> Fits(r.value, |rs|)
  {
    match ScanRoles(rs, |rs|)
    case Err(e) => Err(e)
    case Ok(roles) =>
      if roles.capacityIdx == -1 then Err(NoCapacityColumn)
      else if roles.addressIdx == -1 then Err(NoAddressColumn)
      else
        match ScanFields(fs, |fs|, roles)
        case Err(e) => Err(e)
        case Ok(fields) =>
          RolesFit(rs);
          FieldsFit(fs, roles);
          Ok(Schema(roles.parentIdx, roles.childIdx, roles.capacityIdx as nat, roles.addressIdx as nat,
                    fields.parentData, fields.childData))
  }

  /** The indices pass 1 records are header columns. */
  lemma RolesFit(rs: seq<Option<Role>>)
    ensures ScanRoles(rs, |rs|).Ok?
    ensures var roles := ScanRoles(rs, |rs|).value;
      && (roles.capacityIdx != -1 ==> 0 <= roles.capacityIdx < |rs|)
      && (roles.addressIdx != -1 ==> 0 <= roles.addressIdx < |rs|)
      && ColumnsBelow(roles.parentIdx, |rs|) && ColumnsBelow(roles.childIdx, |rs|)
  {
    CapacityIndex(rs, |rs|);
    AddressIndex(rs, |rs|);
    GroupsWellFormed(rs, |rs|, ParentKind);
    GroupsWellFormed(rs, |rs|, ChildKind);
  }

  /** The columns pass 2 records are header columns. */
  lemma FieldsFit(fs: seq<Option<FieldColumn>>, roles: RoleScan)
    requires ScanFields(fs, |fs|, roles).Ok?
    ensures ListsBelow(ScanFields(fs, |fs|, roles).value.parentData, |fs|)
    ensures ListsBelow(ScanFields(fs, |fs|, roles).value.childData, |fs|)
  {
    var st := ScanFields(fs, |fs|, roles).value;
    forall kind, g | g in FieldData(st, kind)
      ensures forall j :: 0 <= j < |FieldData(st, kind)[g]| ==> FieldData(st, kind)[g][j].1 < |fs|
    {
      FieldListsContents(fs, |fs|, roles, kind, g);
    }
    assert FieldData(st, ParentKind) == st.parentData;
    assert FieldData(st, ChildKind) == st.childData;
  }

  // ---------------------------------------------------------------------------
  // The checks on the readings of the cells

  lemma SchemaFromNoFault(rs: seq<Option<Role>>, fs: seq<Option<FieldColumn>>)
    requires Disjoint(rs, fs)
    ensures SchemaFrom(rs, fs).Err? ==> SchemaFrom(rs, fs).error in {NoCapacityColumn, NoAddressColumn} || SchemaFrom(rs, fs).error.UnknownGroup?
  {
    RoleColumnsClaimed(rs, |rs|);
    FieldColumnsClaimed(rs, fs, |fs|);
  }

  lemma SchemaFromCapacity(rs: seq<Option<Role>>, fs: seq<Option<FieldColumn>>)
    requires |rs| == |fs|
    ensures SchemaFrom(rs, fs) == Err(NoCapacityColumn) <==> forall k :: 0 <= k < |rs| ==> rs[k] != Some(CapacityColumn)
  {
    CapacityIndex(rs, |rs|);
    if ScanRoles(rs, |rs|).value.capacityIdx != -1 && ScanRoles(rs, |rs|).value.addressIdx != -1
       && ScanFields(fs, |fs|, ScanRoles(rs, |rs|).value).Err? {
      RoleColumnsClaimed(rs, |rs|);
      FieldErrorIsNotMissingColumn(fs, ScanRoles(rs, |rs|).value);
    }
  }

  lemma SchemaFromAddress(rs: seq<Option<Role>>, fs: seq<Option<FieldColumn>>)
    requires |rs| == |fs|
    requires exists k :: 0 <= k < |rs| && rs[k] == Some(CapacityColumn)
    ensures SchemaFrom(rs, fs) == Err(NoAddressColumn) <==> forall k :: 0 <= k < |rs| ==> rs[k] != Some(AddressColumn)
  {
    CapacityIndex(rs, |rs|);
    AddressIndex(rs, |rs|);
    if ScanRoles(rs, |rs|).value.addressIdx != -1 && ScanFields(fs, |fs|, ScanRoles(rs, |rs|).value).Err? {
      FieldErrorIsNotMissingColumn(fs, ScanRoles(rs, |rs|).value);
    }
  }

  /** Pass 2 only ever fails on an unknown group or a column claimed twice. */
  lemma {:induction false} FieldErrorIsNotMissingColumn(fs: seq<Option<FieldColumn>>, roles: RoleScan)
    ensures ScanFields(fs, |fs|, roles).Err? ==>
      ScanFields(fs, |fs|, roles).error.UnknownGroup? || ScanFields(fs, |fs|, roles).error.ColumnClaimedTwice?
  {
    FieldErrorKinds(fs, |fs|, roles);
  }

  lemma {:induction false} FieldErrorKinds(fs: seq<Option<FieldColumn>>, n: nat, roles: RoleScan)
    requires n <= |fs|
    ensures ScanFields(fs, n, roles).Err? ==>
      ScanFields(fs, n, roles).error.UnknownGroup? || ScanFields(fs, n, roles).error.ColumnClaimedTwice?
  {
    if n > 0 {
      FieldErrorKinds(fs, n - 1, roles);
    }
  }

  /** Past the two required columns, pass 2 fails exactly when some attribute's
      group has no name cell, and reports the first such attribute. */
  lemma SchemaFromUnknown(rs: seq<Option<Role>>, fs: seq<Option<FieldColumn>>)
    requires Disjoint(rs, fs)
    requires exists k :: 0 <= k < |rs| && rs[k] == Some(CapacityColumn)
    requires exists k :: 0 <= k < |rs| && rs[k] == Some(AddressColumn)
    ensures var r := SchemaFrom(rs, fs);
      && (r.Err? <==> exists c :: 0 <= c < |fs| && Unnamed(rs, fs, c))
      && (r.Err? ==> exists c :: 0 <= c < |fs| && Unnamed(rs, fs, c) && (forall c' :: 0 <= c' < c ==> !Unnamed(rs, fs, c'))
                       && r.error == UnknownGroup(fs[c].value.kind, fs[c].value.group, c + 1))
  {
    CapacityIndex(rs, |rs|);
    AddressIndex(rs, |rs|);
    FieldColumnsClaimed(rs, fs, |fs|);
    OrphansUnnamed(rs, fs);
  }

  /** Cell `c` is an attribute of a group that no cell names (`Parent <g>` for a
      parent attribute, `Child <g>` for a child attribute). */
  predicate Unnamed(rs: seq<Option<Role>>, fs: seq<Option<FieldColumn>>, c: nat)
    requires c < |fs|
  {
    fs[c].Some? && forall k :: 0 <= k < |rs| ==> rs[k] != Some(NameRole(fs[c].value.kind, fs[c].value.group))
  }

  /** An orphan of pass 2 is exactly an attribute whose group has no name cell. */
  lemma OrphansUnnamed(rs: seq<Option<Role>>, fs: seq<Option<FieldColumn>>)
    requires |rs| == |fs|
    ensures ScanRoles(rs, |rs|).Ok?
    ensures forall c :: 0 <= c < |fs| ==> (Orphan(fs, ScanRoles(rs, |rs|).value, c) <==> Unnamed(rs, fs, c))
  {
    RoleColumnsClaimed(rs, |rs|);
    forall c | 0 <= c < |fs| ensures Orphan(fs, ScanRoles(rs, |rs|).value, c) <==> Unnamed(rs, fs, c) {
      if fs[c].Some? {
        GroupsRegistered(rs, |rs|, fs[c].value.kind, fs[c].value.group);
      }
    }
  }

  /** The group dictionary of a schema: `g` maps to the one cell that is its name
      column, or is absent when no cell is; the dictionary is in `Object.entries`
      order and groups whose names are not array indices are in column order. */
  lemma SchemaFromGroups(rs: seq<Option<Role>>, fs: seq<Option<FieldColumn>>, kind: Kind, g: string)
    requires |rs| == |fs| && DistinctRoles(rs) && SchemaFrom(rs, fs).Ok?
    ensures var e := Groups(SchemaFrom(rs, fs).value, kind);
      && JsObject.OwnKeyOrder(e) && NamedInColumnOrder(e)
      && match JsObject.Get<nat>(e, g)
         case Some(k) =>
           && k < |rs| && rs[k] == Some(NameRole(kind, g))
           && forall k' :: 0 <= k' < |rs| && rs[k'] == Some(NameRole(kind, g)) ==> k' == k
         case None => forall k :: 0 <= k < |rs| ==> rs[k] != Some(NameRole(kind, g))
  {
    RoleColumnsClaimed(rs, |rs|);
    assert Groups(SchemaFrom(rs, fs).value, kind) == GroupsAfter(rs, |rs|, kind);
    GroupsWellFormed(rs, |rs|, kind);
    GroupsInColumnOrder(rs, |rs|, kind);
    GroupsRegistered(rs, |rs|, kind, g);
  }

  /** The attribute lists of a schema: group `g` has a list exactly when some cell
      is one of its attributes, and then it is registered; the list holds `(f, c)`
      exactly when cell `c` is attribute `f` of `g`, in column order. */
  lemma SchemaFromFields(rs: seq<Option<Role>>, fs: seq<Option<FieldColumn>>, kind: Kind, g: string)
    requires Disjoint(rs, fs) && SchemaFrom(rs, fs).Ok?
    ensures var s := SchemaFrom(rs, fs).value;
      var m := Data(s, kind);
      && (g in m <==> exists c :: 0 <= c < |fs| && fs[c].Some? && fs[c].value.kind == kind && fs[c].value.group == g)
      && (g in m ==> SortedColumns(m[g]) && JsObject.Get<nat>(Groups(s, kind), g).Some?)
      && (forall f, c: nat :: g in m && (f, c) in m[g] <==> c < |fs| && fs[c] == Some(FieldColumn(kind, g, f)))
  {
    RoleColumnsClaimed(rs, |rs|);
    var roles := ScanRoles(rs, |rs|).value;
    var st := ScanFields(fs, |fs|, roles).value;
    assert Data(SchemaFrom(rs, fs).value, kind) == FieldData(st, kind);
    assert Groups(SchemaFrom(rs, fs).value, kind) == GroupIdx(roles, kind);
    FieldListsContents(fs, |fs|, roles, kind, g);
    FieldColumnsClaimed(rs, fs, |fs|);
    if g in FieldData(st, kind) {
      var c :| 0 <= c < |fs| && fs[c].Some? && fs[c].value.kind == kind && fs[c].value.group == g;
      assert !Orphan(fs, roles, c);
    }
  }

  // ---------------------------------------------------------------------------
  // What the header checks promise, on the header text

  /** Pass 1 reads a cell as `Passenger Capacity`, `Address` or the name column of
      a group exactly when its trimmed text splits into those words. */
  lemma RoleCells(h: string, kind: Kind, g: string)
    ensures RoleOf(h) == Some(CapacityColumn) <==> Tokens(h) == ["Passenger", "Capacity"]
    ensures RoleOf(h) == Some(AddressColumn) <==> Tokens(h) == ["Address"]
    ensures RoleOf(h) == Some(NameRole(kind, g)) <==> Tokens(h) == [Keyword(kind), g]
  {
  }

  /** The `rmvCol` bug branch is unreachable: no header row makes the code claim a
      column twice. */
  lemma NoColumnFault(hs: seq<string>)
    ensures DiscoverSchema(hs).Err? ==> !DiscoverSchema(hs).error.ColumnClaimedTwice?
  {
    RolesAndFieldsDisjoint(hs);
    SchemaFromNoFault(Roles(hs), Fields(hs));
  }

  /** `j` is the first header equal, once trimmed, to an earlier one. */
  predicate FirstRepeat(hs: seq<string>, j: nat)
  {
    && j < |hs|
    && (exists i :: 0 <= i < j && DuplicatePair(hs, i, j))
    && (forall a, b :: 0 <= a < b < j ==> !DuplicatePair(hs, a, b))
  }

  /** A header row is rejected as having a duplicate exactly when two headers are
      equal once trimmed, and the error names the first repeating header. */
  lemma DuplicateRejected(hs: seq<string>)
    ensures (DiscoverSchema(hs).Err? && DiscoverSchema(hs).error.DuplicateHeader?) <==> HasDuplicate(hs)
    ensures HasDuplicate(hs) ==> exists j :: 0 <= j && FirstRepeat(hs, j) && DiscoverSchema(hs) == Err(DuplicateHeader(hs[j]))
  {
    DuplicateHeaderMeaning(hs);
    RolesAndFieldsDisjoint(hs);
    SchemaFromNoFault(Roles(hs), Fields(hs));
    if HasDuplicate(hs) {
      assert FirstRepeat(hs, FirstDuplicate(hs).value);
    }
  }

  /** With distinct headers, parsing stops for want of a capacity column exactly
      when no header is `Passenger Capacity`. */
  lemma CapacityRequired(hs: seq<string>)
    requires !HasDuplicate(hs)
    ensures DiscoverSchema(hs) == Err(NoCapacityColumn) <==>
      forall k :: 0 <= k < |hs| ==> Tokens(hs[k]) != ["Passenger", "Capacity"]
  {
    DuplicateHeaderMeaning(hs);
    SchemaFromCapacity(Roles(hs), Fields(hs));
    forall k | 0 <= k < |hs| ensures Roles(hs)[k] == Some(CapacityColumn) <==> Tokens(hs[k]) == ["Passenger", "Capacity"] {
      RolesAt(hs, k);
      RoleCells(hs[k], ParentKind, "");
    }
  }

  /** With distinct headers and a capacity column, parsing stops for want of an
      address column exactly when no header is `Address`. */
  lemma AddressRequired(hs: seq<string>)
    requires !HasDuplicate(hs)
    requires exists k :: 0 <= k < |hs| && Tokens(hs[k]) == ["Passenger", "Capacity"]
    ensures DiscoverSchema(hs) == Err(NoAddressColumn) <==>
      forall k :: 0 <= k < |hs| ==> Tokens(hs[k]) != ["Address"]
  {
    DuplicateHeaderMeaning(hs);
    var k0 :| 0 <= k0 < |hs| && Tokens(hs[k0]) == ["Passenger", "Capacity"];
    RolesAt(hs, k0);
    RoleCells(hs[k0], ParentKind, "");
    SchemaFromAddress(Roles(hs), Fields(hs));
    forall k | 0 <= k < |hs| ensures Roles(hs)[k] == Some(AddressColumn) <==> Tokens(hs[k]) == ["Address"] {
      RolesAt(hs, k);
      RoleCells(hs[k], ParentKind, "");
    }
  }

  lemma RequiredCells(hs: seq<string>)
    requires exists k :: 0 <= k < |hs| && Tokens(hs[k]) == ["Passenger", "Capacity"]
    requires exists k :: 0 <= k < |hs| && Tokens(hs[k]) == ["Address"]
    ensures exists k :: 0 <= k < |hs| && Roles(hs)[k] == Some(CapacityColumn)
    ensures exists k :: 0 <= k < |hs| && Roles(hs)[k] == Some(AddressColumn)
  {
    var kc :| 0 <= kc < |hs| && Tokens(hs[kc]) == ["Passenger", "Capacity"];
    var ka :| 0 <= ka < |hs| && Tokens(hs[ka]) == ["Address"];
    RolesAt(hs, kc);
    RoleCells(hs[kc], ParentKind, "");
    RolesAt(hs, ka);
    RoleCells(hs[ka], ParentKind, "");
  }

  /** Cell `c` is an attribute of a group that no cell names (`Parent <g>` for a
      parent attribute, `Child <g>` for a child attribute). */
  predicate UnknownAttribute(hs: seq<string>, c: nat)
  {
    && c < |hs| && FieldOf(hs[c]).Some?
    && forall k :: 0 <= k < |hs| ==> RoleOf(hs[k]) != Some(NameRole(FieldOf(hs[c]).value.kind, FieldOf(hs[c]).value.group))
  }

  lemma UnknownAttributeIsUnnamed(hs: seq<string>, c: nat)
    requires c < |hs|
    ensures UnknownAttribute(hs, c) <==> Unnamed(Roles(hs), Fields(hs), c)
  {
    FieldsAt(hs, c);
    forall k | 0 <= k < |hs| { RolesAt(hs, k); }
  }

  /** Once the header has distinct cells, a capacity column and an address column,
      it is rejected exactly when some attribute column belongs to a group without
      a name column, and the error gives the kind, the group and the 1-based column
      of the first such attribute. */
  lemma UnknownGroupReported(hs: seq<string>)
    requires !HasDuplicate(hs)
    requires exists k :: 0 <= k < |hs| && Tokens(hs[k]) == ["Passenger", "Capacity"]
    requires exists k :: 0 <= k < |hs| && Tokens(hs[k]) == ["Address"]
    ensures DiscoverSchema(hs).Err? <==> exists c :: 0 <= c && UnknownAttribute(hs, c)
    ensures DiscoverSchema(hs).Err? ==> exists c ::
      && 0 <= c && UnknownAttribute(hs, c) && (forall c' :: 0 <= c' < c ==> !UnknownAttribute(hs, c'))
      && DiscoverSchema(hs) == Err(UnknownGroup(FieldOf(hs[c]).value.kind, FieldOf(hs[c]).value.group, c + 1))
  {
    DuplicateHeaderMeaning(hs);
    var rs, fs := Roles(hs), Fields(hs);
    RequiredCells(hs);
    RolesAndFieldsDisjoint(hs);
    SchemaFromUnknown(rs, fs);
    forall c | 0 <= c < |hs| ensures UnknownAttribute(hs, c) <==> Unnamed(rs, fs, c) {
      UnknownAttributeIsUnnamed(hs, c);
    }
    if DiscoverSchema(hs).Err? {
      var c :| 0 <= c < |fs| && Unnamed(rs, fs, c) && (forall c' :: 0 <= c' < c ==> !Unnamed(rs, fs, c'))
               && SchemaFrom(rs, fs).error == UnknownGroup(fs[c].value.kind, fs[c].value.group, c + 1);
      FieldsAt(hs, c);
      assert UnknownAttribute(hs, c);
    }
  }

  /** The group dictionary of a parsed header: `g` maps to the one cell that is its
      name column, or is absent when no cell is; the dictionary is in
      `Object.entries` order and groups whose names are not array indices are in
      column order. */
  lemma SchemaGroups(hs: seq<string>, kind: Kind, g: string)
    requires DiscoverSchema(hs).Ok?
    ensures var e := Groups(DiscoverSchema(hs).value, kind);
      && JsObject.OwnKeyOrder(e) && NamedInColumnOrder(e)
      && match JsObject.Get<nat>(e, g)
         case Some(k) =>
           && k < |hs| && RoleOf(hs[k]) == Some(NameRole(kind, g))
           && forall k' :: 0 <= k' < |hs| && RoleOf(hs[k']) == Some(NameRole(kind, g)) ==> k' == k
         case None => forall k :: 0 <= k < |hs| ==> RoleOf(hs[k]) != Some(NameRole(kind, g))
  {
    DuplicateHeaderMeaning(hs);
    NoDuplicateRoles(hs);
    SchemaFromGroups(Roles(hs), Fields(hs), kind, g);
    forall k | 0 <= k < |hs| { RolesAt(hs, k); }
  }

  /** The attribute lists of a parsed header: group `g` has a list exactly when
      some cell is one of its attributes, and then its name column exists; the
      list holds `(f, c)` exactly when cell `c` is attribute `f` of `g`, in column
      order. */
  lemma SchemaFields(hs: seq<string>, kind: Kind, g: string)
    requires DiscoverSchema(hs).Ok?
    ensures var s := DiscoverSchema(hs).value;
      var m := Data(s, kind);
      && (g in m <==> exists c :: 0 <= c < |hs| && FieldOf(hs[c]).Some? && FieldOf(hs[c]).value.kind == kind && FieldOf(hs[c]).value.group == g)
      && (g in m ==> SortedColumns(m[g]) && JsObject.Get<nat>(Groups(s, kind), g).Some?)
      && (forall f, c: nat :: g in m && (f, c) in m[g] <==> c < |hs| && FieldOf(hs[c]) == Some(FieldColumn(kind, g, f)))
  {
    DuplicateHeaderMeaning(hs);
    RolesAndFieldsDisjoint(hs);
    SchemaFromFields(Roles(hs), Fields(hs), kind, g);
    forall c | 0 <= c < |hs| { FieldsAt(hs, c); }
  }
}
