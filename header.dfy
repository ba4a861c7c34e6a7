/**
 * The two header passes of `Data.fromSheetData`: the duplicate-header check, the
 * role columns of pass 1 (`Parent <g>`, `Child <g>`, `Passenger Capacity`,
 * `Address`), the attribute columns of pass 2 (`Parent <g> <field…>`,
 * `Child <g> <field…>`), and the `columns` set through which every column is
 * claimed at most once (`rmvCol`).
 */
module Header {
  import opened Wrappers
  import opened Text
  import JsObject

  /** The two kinds of group a column can belong to. */
  datatype Kind = ParentKind | ChildKind

  /** Why parsing aborts. Every case but the last two is logged and then thrown by
      `logThrow`; `EmptySheet` and `NoFieldColumns` are the `TypeError`s the code
      runs into (reading the header of an empty matrix, iterating the attribute
      list of a group that has none). */
  datatype ParseError =
    | DuplicateHeader(header: string)
    | ColumnClaimedTwice(column: nat)
    | NoCapacityColumn
    | NoAddressColumn
    | UnknownGroup(kind: Kind, group: string, column: nat)  // 1-based column
    | BlankAddress(row: nat)                                // 1-based sheet row
    | EmptySheet
    | NoFieldColumns(kind: Kind, group: string)

  /** What pass 1 makes of a header cell. */
  datatype Role = ParentName(group: string) | CapacityColumn | ChildName(group: string) | AddressColumn

  /** What pass 2 makes of a header cell: an attribute `field` of group `group`. */
  datatype FieldColumn = FieldColumn(kind: Kind, group: string, field: string)

  /** `header.trim().split(' ')`. */
  function Tokens(h: string): seq<string>
  {
    Split(Trim(h))
  }

  /** The text the duplicate check compares: `header.trim().split(' ').join(' ')`. */
  function HeaderKey(h: string): string
  {
    Join(Tokens(h))
  }

  /** Splitting and rejoining changes nothing, so the check compares trimmed text. */
  lemma HeaderKeyIsTrim(h: string)
    ensures HeaderKey(h) == Trim(h)
  {
    JoinSplit(Trim(h));
  }

  /** The if-chain of pass 1. */
  function RoleOf(h: string): Option<Role>
  {
    var t := Tokens(h);
    if |t| == 2 && t[0] == "Parent" then Some(ParentName(t[1]))
    else if |t| == 2 && t[0] == "Passenger" && t[1] == "Capacity" then Some(CapacityColumn)
    else if |t| == 2 && t[0] == "Child" then Some(ChildName(t[1]))
    else if |t| == 1 && t[0] == "Address" then Some(AddressColumn)
    else None
  }

  /** The if-chain of pass 2; the field name is the remaining tokens rejoined with spaces. */
  function FieldOf(h: string): Option<FieldColumn>
  {
    var t := Tokens(h);
    if |t| >= 3 && t[0] == "Parent" then Some(FieldColumn(ParentKind, t[1], Join(t[2..])))
    else if |t| >= 3 && t[0] == "Child" then Some(FieldColumn(ChildKind, t[1], Join(t[2..])))
    else None
  }

  /** A column is never both a role column and an attribute column. */
  lemma RoleFieldDisjoint(h: string)
    ensures RoleOf(h).Some? ==> FieldOf(h).None?
  {
  }

  /** The keyword a kind of group uses in the header. */
  function Keyword(kind: Kind): string
  {
    if kind == ParentKind then "Parent" else "Child"
  }

  /** Two headers that pass 1 reads as the same role are equal once trimmed. */
  lemma RoleDeterminesHeader(a: string, b: string)
    requires RoleOf(a).Some? && RoleOf(a) == RoleOf(b)
    ensures Trim(a) == Trim(b)
  {
    JoinSplit(Trim(a));
    JoinSplit(Trim(b));
    assert Tokens(a) == Tokens(b);
  }

  /** Two headers that pass 2 reads as the same attribute of the same group are
      equal once trimmed. */
  lemma FieldDeterminesHeader(a: string, b: string)
    requires FieldOf(a).Some? && FieldOf(a) == FieldOf(b)
    ensures Trim(a) == Trim(b)
  {
    var ta, tb := Tokens(a), Tokens(b);
    SplitPiecesHaveNoSpace(Trim(a));
    SplitPiecesHaveNoSpace(Trim(b));
    assert forall t :: t in ta[2..] ==> t in ta;
    assert forall t :: t in tb[2..] ==> t in tb;
    SplitJoin(ta[2..]);
    SplitJoin(tb[2..]);
    assert ta[2..] == tb[2..];
    assert ta == ta[..2] + ta[2..] && tb == tb[..2] + tb[2..];
    JoinSplit(Trim(a));
    JoinSplit(Trim(b));
  }

  /** Pass 1's reading of every header cell (`RolesAt` gives each one). */
  function Roles(hs: seq<string>): (rs: seq<Option<Role>>)
    ensures |rs| == |hs|
  {
    if |hs| == 0 then [] else Roles(hs[..|hs| - 1]) + [RoleOf(hs[|hs| - 1])]
  }

  /** Pass 2's reading of every header cell (`FieldsAt` gives each one). */
  function Fields(hs: seq<string>): (fs: seq<Option<FieldColumn>>)
    ensures |fs| == |hs|
  {
    if |hs| == 0 then [] else Fields(hs[..|hs| - 1]) + [FieldOf(hs[|hs| - 1])]
  }

  /** The duplicate check's key of every header cell (`HeaderKeysAt` gives each one). */
  function HeaderKeys(hs: seq<string>): (ks: seq<string>)
    ensures |ks| == |hs|
  {
    if |hs| == 0 then [] else HeaderKeys(hs[..|hs| - 1]) + [HeaderKey(hs[|hs| - 1])]
  }

  lemma {:induction false} RolesAt(hs: seq<string>, k: nat)
    requires k < |hs|
    ensures Roles(hs)[k] == RoleOf(hs[k])
  {
    if k < |hs| - 1 {
      assert hs[..|hs| - 1][k] == hs[k];
      RolesAt(hs[..|hs| - 1], k);
    }
  }

  lemma {:induction false} FieldsAt(hs: seq<string>, k: nat)
    requires k < |hs|
    ensures Fields(hs)[k] == FieldOf(hs[k])
  {
    if k < |hs| - 1 {
      assert hs[..|hs| - 1][k] == hs[k];
      FieldsAt(hs[..|hs| - 1], k);
    }
  }

  lemma {:induction false} HeaderKeysAt(hs: seq<string>, k: nat)
    requires k < |hs|
    ensures HeaderKeys(hs)[k] == HeaderKey(hs[k])
  {
    if k < |hs| - 1 {
      assert hs[..|hs| - 1][k] == hs[k];
      HeaderKeysAt(hs[..|hs| - 1], k);
    }
  }

  // ---------------------------------------------------------------------------
  // Duplicate headers (the `seenHeaders` loop)

  /** The loop over the first `n` keys: the set of keys seen so far, or the index
      of the first key that was seen before. */
  function DuplicateScan(ks: seq<string>, n: nat): (r: Result<set<string>, nat>)
    requires n <= |ks|
    ensures r.Err? ==> r.error < n
  {
    if n == 0 then Ok({})
    else
      match DuplicateScan(ks, n - 1)
      case Err(j) => Err(j)
      case Ok(seen) => if ks[n - 1] in seen then Err(n - 1) else Ok(seen + {ks[n - 1]})
  }

  /** The header the check rejects, if any. */
  function FirstDuplicate(hs: seq<string>): (r: Option<nat>)
    ensures r.Some? ==> r.value < |hs|
  {
    match DuplicateScan(HeaderKeys(hs), |hs|)
    case Err(j) => Some(j)
    case Ok(_) => None
  }

  /** Two distinct columns whose headers are equal once trimmed. */
  predicate DuplicatePair(hs: seq<string>, i: nat, j: nat)
  {
    i < j < |hs| && Trim(hs[i]) == Trim(hs[j])
  }

  predicate HasDuplicate(hs: seq<string>)
  {
    exists i, j :: 0 <= i < j < |hs| && DuplicatePair(hs, i, j)
  }

  method FindDuplicateHeader(hs: seq<string>) returns (dup: Option<nat>)
    ensures dup == FirstDuplicate(hs)
  {
    var seen: set<string> := {};
    for n := 0 to |hs|
      invariant DuplicateScan(HeaderKeys(hs), n) == Ok(seen)
    {
      var h := HeaderKey(hs[n]);
      HeaderKeysAt(hs, n);
      if h in seen {
        LaterScansKeepError(HeaderKeys(hs), n + 1, |hs|);
        return Some(n);
      }
      seen := seen + {h};
    }
    return None;
  }

  lemma {:induction false} LaterScansKeepError(ks: seq<string>, n: nat, m: nat)
    requires n <= m <= |ks| && DuplicateScan(ks, n).Err?
    ensures DuplicateScan(ks, m) == DuplicateScan(ks, n)
    decreases m - n
  {
    if n < m {
      LaterScansKeepError(ks, n, m - 1);
    }
  }

  // ---------------------------------------------------------------------------
  // Pass 1: role columns

  /** The columns not yet claimed, initially every header column. */
  function AllColumns(width: nat): (cols: set<nat>)
    ensures forall k: nat :: k in cols <==> k < width
  {
    if width == 0 then {} else AllColumns(width - 1) + {width - 1}
  }

  /** The state of pass 1: `parent_idx`, `child_idx`, `passenger_capacity_idx`,
      `address_idx` (both -1 while unset) and `columns`. */
  datatype RoleScan = RoleScan(
    parentIdx: JsObject.Entries<nat>,
    childIdx: JsObject.Entries<nat>,
    capacityIdx: int,
    addressIdx: int,
    columns: set<nat>)

  /** One iteration of pass 1 on column `i`; `rmvCol(i)` runs before the assignment. */
  function RoleStep(st: RoleScan, role: Option<Role>, i: nat): Result<RoleScan, ParseError>
  {
    match role
    case None => Ok(st)
    case Some(role) =>
      if i !in st.columns then Err(ColumnClaimedTwice(i))
      else
        var st := st.(columns := st.columns - {i});
        match role
        case ParentName(g) => Ok(st.(parentIdx := JsObject.Put<nat>(st.parentIdx, g, i)))
        case CapacityColumn => Ok(st.(capacityIdx := i))
        case ChildName(g) => Ok(st.(childIdx := JsObject.Put<nat>(st.childIdx, g, i)))
        case AddressColumn => Ok(st.(addressIdx := i))
  }

  /** Pass 1 over the first `n` cells of a header read by `RoleOf`. */
  function ScanRoles(rs: seq<Option<Role>>, n: nat): Result<RoleScan, ParseError>
    requires n <= |rs|
  {
    if n == 0 then Ok(RoleScan([], [], -1, -1, AllColumns(|rs|)))
    else
      match ScanRoles(rs, n - 1)
      case Err(e) => Err(e)
      case Ok(st) => RoleStep(st, rs[n - 1], n - 1)
  }

  method ScanRoleColumns(hs: seq<string>) returns (r: Result<RoleScan, ParseError>)
    ensures r == ScanRoles(Roles(hs), |hs|)
  {
    var columns: set<nat> := {};
    for i := 0 to |hs|
      invariant columns == AllColumns(i)
    {
      columns := columns + {i};
    }
    var parentIdx: JsObject.Entries<nat> := [];
    var childIdx: JsObject.Entries<nat> := [];
    var capacityIdx := -1;
    var addressIdx := -1;
    for i := 0 to |hs|
      invariant ScanRoles(Roles(hs), i) == Ok(RoleScan(parentIdx, childIdx, capacityIdx, addressIdx, columns))
    {
      var role := RoleOf(hs[i]);
      RolesAt(hs, i);
      if role.Some? {
        // rmvCol(i)
        if i !in columns {
          r := Err(ColumnClaimedTwice(i));
          LaterRoleScansKeepError(Roles(hs), i + 1, |hs|);
          return;
        }
        columns := columns - {i};
        match role.value
        case ParentName(g) => parentIdx := JsObject.Put<nat>(parentIdx, g, i);
        case CapacityColumn => capacityIdx := i;
        case ChildName(g) => childIdx := JsObject.Put<nat>(childIdx, g, i);
        case AddressColumn => addressIdx := i;
      }
    }
    r := Ok(RoleScan(parentIdx, childIdx, capacityIdx, addressIdx, columns));
  }

  lemma {:induction false} LaterRoleScansKeepError(rs: seq<Option<Role>>, n: nat, m: nat)
    requires n <= m <= |rs| && ScanRoles(rs, n).Err?
    ensures ScanRoles(rs, m) == ScanRoles(rs, n)
    decreases m - n
  {
    if n < m {
      LaterRoleScansKeepError(rs, n, m - 1);
    }
  }

  // ---------------------------------------------------------------------------
  // Pass 2: attribute columns

  /** The attribute list of each group: (field name, column) pairs. */
  type FieldLists = map<string, seq<(string, nat)>>

  /** The state of pass 2: `parent_data_idx`, `child_data_idx` and `columns`. */
  datatype FieldScan = FieldScan(parentData: FieldLists, childData: FieldLists, columns: set<nat>)

  /** `data_idx[g] ??= []; data_idx[g].push(x)`. */
  function Push(m: FieldLists, g: string, x: (string, nat)): FieldLists
  {
    m[g := (if g in m then m[g] else []) + [x]]
  }

  /** The group dictionary of pass 1 for one kind. */
  function GroupIdx(st: RoleScan, kind: Kind): JsObject.Entries<nat>
  {
    if kind == ParentKind then st.parentIdx else st.childIdx
  }

  /** One iteration of pass 2 on column `i`: the group must have a name column,
      then `rmvCol(i)` claims the column. */
  function FieldStep(st: FieldScan, roles: RoleScan, field: Option<FieldColumn>, i: nat): Result<FieldScan, ParseError>
  {
    match field
    case None => Ok(st)
    case Some(FieldColumn(kind, g, f)) =>
      if JsObject.Get(GroupIdx(roles, kind), g).None? then Err(UnknownGroup(kind, g, i + 1))
      else if i !in st.columns then Err(ColumnClaimedTwice(i))
      else if kind == ParentKind then Ok(FieldScan(Push(st.parentData, g, (f, i)), st.childData, st.columns - {i}))
      else Ok(FieldScan(st.parentData, Push(st.childData, g, (f, i)), st.columns - {i}))
  }

  /** Pass 2 over the first `n` cells of a header read by `FieldOf`, starting from
      pass 1's `columns`. */
  function ScanFields(fs: seq<Option<FieldColumn>>, n: nat, roles: RoleScan): Result<FieldScan, ParseError>
    requires n <= |fs|
  {
    if n == 0 then Ok(FieldScan(map[], map[], roles.columns))
    else
      match ScanFields(fs, n - 1, roles)
      case Err(e) => Err(e)
      case Ok(st) => FieldStep(st, roles, fs[n - 1], n - 1)
  }

  method ScanFieldColumns(hs: seq<string>, roles: RoleScan) returns (r: Result<FieldScan, ParseError>)
    ensures r == ScanFields(Fields(hs), |hs|, roles)
  {
    ghost var fs := Fields(hs);
    var parentData: FieldLists := map[];
    var childData: FieldLists := map[];
    var columns := roles.columns;
    for i := 0 to |hs|
      invariant ScanFields(fs, i, roles) == Ok(FieldScan(parentData, childData, columns))
    {
      var field := FieldOf(hs[i]);
      FieldsAt(hs, i);
      if field.Some? {
        var FieldColumn(kind, g, f) := field.value;
        if JsObject.Get(GroupIdx(roles, kind), g).None? {
          r := Err(UnknownGroup(kind, g, i + 1));
          LaterFieldScansKeepError(fs, roles, i + 1, |hs|);
          return;
        }
        // rmvCol(i)
        if i !in columns {
          r := Err(ColumnClaimedTwice(i));
          LaterFieldScansKeepError(fs, roles, i + 1, |hs|);
          return;
        }
        columns := columns - {i};
        if kind == ParentKind {
          parentData := Push(parentData, g, (f, i));
        } else {
          childData := Push(childData, g, (f, i));
        }
      }
    }
    r := Ok(FieldScan(parentData, childData, columns));
  }

  lemma {:induction false} LaterFieldScansKeepError(fs: seq<Option<FieldColumn>>, roles: RoleScan, n: nat, m: nat)
    requires n <= m <= |fs| && ScanFields(fs, n, roles).Err?
    ensures ScanFields(fs, m, roles) == ScanFields(fs, n, roles)
    decreases m - n
  {
    if n < m {
      LaterFieldScansKeepError(fs, roles, n, m - 1);
    }
  }
}
