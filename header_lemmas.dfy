/**
 * Invariants of the two header passes: which columns each pass claims (so that
 * `rmvCol` never meets a column twice), the ranges of the indices it records, the
 * groups pass 1 registers and the attribute lists pass 2 builds.
 */
module HeaderLemmas {
  import opened Wrappers
  import opened Text
  import JsObject
  import opened Header

  // ---------------------------------------------------------------------------
  // Duplicate headers

  /** No two of the first `n` keys are equal. */
  predicate DistinctPrefix(ks: seq<string>, n: nat)
    requires n <= |ks|
  {
    forall a, b :: 0 <= a < b < n ==> ks[a] != ks[b]
  }

  /** The `seenHeaders` loop holds exactly the keys seen so far, all distinct, and
      stops at the first key equal to an earlier one. */
  lemma {:induction false} DuplicateScanMeaning(ks: seq<string>, n: nat)
    requires n <= |ks|
    ensures match DuplicateScan(ks, n)
      case Ok(seen) => (forall x :: x in seen <==> x in ks[..n]) && DistinctPrefix(ks, n)
      case Err(j) => j < n && DistinctPrefix(ks, j) && ks[j] in ks[..j]
  {
    if n > 0 {
      DuplicateScanMeaning(ks, n - 1);
      assert ks[..n] == ks[..n - 1] + [ks[n - 1]];
      match DuplicateScan(ks, n - 1)
      case Err(j) =>
        assert DuplicateScan(ks, n) == Err(j);
      case Ok(seen) =>
        if ks[n - 1] in seen {
          assert DuplicateScan(ks, n) == Err(n - 1);
        } else {
          assert DuplicateScan(ks, n) == Ok(seen + {ks[n - 1]});
          forall a, b | 0 <= a < b < n ensures ks[a] != ks[b] {
            if b == n - 1 {
              assert ks[a] == ks[..n - 1][a];
              assert ks[..n - 1][a] in ks[..n - 1];
            } else {
              assert DistinctPrefix(ks, n - 1);
            }
          }
        }
    }
  }

  /** The check rejects a header row exactly when two of its headers are equal once
      trimmed, and it names the first header that repeats an earlier one. */
  lemma DuplicateHeaderMeaning(hs: seq<string>)
    ensures FirstDuplicate(hs).None? <==> !HasDuplicate(hs)
    ensures FirstDuplicate(hs).Some? ==>
      var j := FirstDuplicate(hs).value;
      && (exists i :: 0 <= i < j && DuplicatePair(hs, i, j))
      && (forall a, b :: 0 <= a < b < j ==> !DuplicatePair(hs, a, b))
  {
    var ks := HeaderKeys(hs);
    forall k | 0 <= k < |hs| ensures ks[k] == Trim(hs[k]) {
      HeaderKeysAt(hs, k);
      HeaderKeyIsTrim(hs[k]);
    }
    DuplicateScanMeaning(ks, |hs|);
    match DuplicateScan(ks, |hs|)
    case Ok(_) =>
    case Err(j) =>
      var i :| 0 <= i < j && ks[..j][i] == ks[j];
      assert DuplicatePair(hs, i, j);
  }

  /** With no duplicate headers, no role is read from two cells. */
  lemma NoDuplicateRoles(hs: seq<string>)
    requires !HasDuplicate(hs)
    ensures DistinctRoles(Roles(hs))
  {
    var rs := Roles(hs);
    forall i, j | 0 <= i < j < |rs| && rs[i].Some? ensures rs[i] != rs[j] {
      if rs[i] == rs[j] {
        RolesAt(hs, i);
        RolesAt(hs, j);
        RoleDeterminesHeader(hs[i], hs[j]);
        assert DuplicatePair(hs, i, j);
      }
    }
  }

  /** No header cell is both a role column and an attribute column. */
  lemma RolesAndFieldsDisjoint(hs: seq<string>)
    ensures Disjoint(Roles(hs), Fields(hs))
  {
    forall k | 0 <= k < |hs| && Roles(hs)[k].Some? ensures Fields(hs)[k].None? {
      RolesAt(hs, k);
      FieldsAt(hs, k);
      RoleFieldDisjoint(hs[k]);
    }
  }

  // ---------------------------------------------------------------------------
  // Pass 1

  /** Pass 1 always completes, and column `k` is still unclaimed after `n` steps
      exactly when it lies beyond `n` or is not a role column. */
  lemma {:induction false} RoleColumnsClaimed(rs: seq<Option<Role>>, n: nat)
    requires n <= |rs|
    ensures ScanRoles(rs, n).Ok?
    ensures forall k: nat :: k in ScanRoles(rs, n).value.columns <==>
              k < |rs| && (k >= n || rs[k].None?)
  {
    if n > 0 {
      RoleColumnsClaimed(rs, n - 1);
    }
  }

  /** The group dictionary pass 1 builds for one kind. */
  function GroupsAfter(rs: seq<Option<Role>>, n: nat, kind: Kind): JsObject.Entries<nat>
    requires n <= |rs|
  {
    RoleColumnsClaimed(rs, n);
    GroupIdx(ScanRoles(rs, n).value, kind)
  }

  /** The name column pass 1 records for a group. */
  function NameRole(kind: Kind, g: string): Role
  {
    if kind == ParentKind then ParentName(g) else ChildName(g)
  }

  /** Whether a cell is the name column of some group of this kind. */
  predicate IsNameOf(role: Option<Role>, kind: Kind)
  {
    role.Some? && (if kind == ParentKind then role.value.ParentName? else role.value.ChildName?)
  }

  /** A name column of the kind assigns its group; any other cell leaves the
      dictionary as it is. */
  lemma GroupsStepName(rs: seq<Option<Role>>, n: nat, kind: Kind)
    requires 0 < n <= |rs| && IsNameOf(rs[n - 1], kind)
    ensures GroupsAfter(rs, n, kind) == JsObject.Put<nat>(GroupsAfter(rs, n - 1, kind), rs[n - 1].value.group, n - 1)
  {
    GroupsStep(rs, n, kind);
  }

  lemma GroupsStepOther(rs: seq<Option<Role>>, n: nat, kind: Kind)
    requires 0 < n <= |rs| && !IsNameOf(rs[n - 1], kind)
    ensures GroupsAfter(rs, n, kind) == GroupsAfter(rs, n - 1, kind)
  {
    GroupsStep(rs, n, kind);
  }

  lemma GroupsStep(rs: seq<Option<Role>>, n: nat, kind: Kind)
    requires 0 < n <= |rs|
    ensures GroupsAfter(rs, n, kind) ==
      if IsNameOf(rs[n - 1], kind) then JsObject.Put<nat>(GroupsAfter(rs, n - 1, kind), rs[n - 1].value.group, n - 1)
      else GroupsAfter(rs, n - 1, kind)
  {
    RoleColumnsClaimed(rs, n - 1);
    RoleColumnsClaimed(rs, n);
    var st := ScanRoles(rs, n - 1).value;
    var st' := ScanRoles(rs, n).value;
    assert ScanRoles(rs, n) == RoleStep(st, rs[n - 1], n - 1);
    assert GroupsAfter(rs, n - 1, kind) == GroupIdx(st, kind);
    assert GroupsAfter(rs, n, kind) == GroupIdx(st', kind);
    match rs[n - 1]
    case None =>
    case Some(role) =>
      assert n - 1 in st.columns;
      match role
      case ParentName(g) =>
        assert st'.parentIdx == JsObject.Put<nat>(st.parentIdx, g, n - 1) && st'.childIdx == st.childIdx;
      case ChildName(g) =>
        assert st'.childIdx == JsObject.Put<nat>(st.childIdx, g, n - 1) && st'.parentIdx == st.parentIdx;
      case CapacityColumn =>
        assert st'.parentIdx == st.parentIdx && st'.childIdx == st.childIdx;
      case AddressColumn =>
        assert st'.parentIdx == st.parentIdx && st'.childIdx == st.childIdx;
  }

  /** Every column a group dictionary records is a column seen so far, and the
      dictionary keeps the order `Object.entries` promises. */
  lemma {:induction false} GroupsWellFormed(rs: seq<Option<Role>>, n: nat, kind: Kind)
    requires n <= |rs|
    ensures JsObject.OwnKeyOrder(GroupsAfter(rs, n, kind))
    ensures ColumnsBelow(GroupsAfter(rs, n, kind), n)
  {
    if n > 0 {
      GroupsWellFormed(rs, n - 1, kind);
      if !IsNameOf(rs[n - 1], kind) {
        GroupsStepOther(rs, n, kind);
      } else {
        GroupsStepName(rs, n, kind);
        PutKeepsWellFormed(GroupsAfter(rs, n - 1, kind), rs[n - 1].value.group, n - 1);
      }
    }
  }

  predicate ColumnsBelow(e: JsObject.Entries<nat>, n: nat)
  {
    forall j :: 0 <= j < |e| ==> e[j].1 < n
  }

  lemma PutKeepsWellFormed(e: JsObject.Entries<nat>, g: string, c: nat)
    requires JsObject.OwnKeyOrder(e) && ColumnsBelow(e, c)
    ensures JsObject.OwnKeyOrder(JsObject.Put<nat>(e, g, c)) && ColumnsBelow(JsObject.Put<nat>(e, g, c), c + 1)
  {
    JsObject.PutEntries<nat>(e, g, c);
    JsObject.PutSpec<nat>(e, g, c);
    var e' := JsObject.Put<nat>(e, g, c);
    forall j | 0 <= j < |e'| ensures e'[j].1 < c + 1 {
      if e'[j] != (g, c) {
        var i :| 0 <= i < |e| && e[i] == e'[j];
      }
    }
  }

  /** A group is registered after `n` steps exactly when one of the first `n`
      cells is its name column, and the column recorded is such a cell. */
  lemma {:induction false} GroupsRegistered(rs: seq<Option<Role>>, n: nat, kind: Kind, g: string)
    requires n <= |rs|
    ensures Registered(rs, n, kind, g, JsObject.Get(GroupsAfter(rs, n, kind), g))
  {
    if n > 0 {
      GroupsRegistered(rs, n - 1, kind, g);
      var e := GroupsAfter(rs, n - 1, kind);
      if !IsNameOf(rs[n - 1], kind) {
        GroupsStepOther(rs, n, kind);
      } else {
        GroupsStepName(rs, n, kind);
        GroupsWellFormed(rs, n - 1, kind);
        var g' := rs[n - 1].value.group;
        JsObject.PutSpec<nat>(e, g', n - 1);
        if g == g' {
          assert JsObject.Get(GroupsAfter(rs, n, kind), g) == Some(n - 1);
        } else {
          assert JsObject.Get(GroupsAfter(rs, n, kind), g) == JsObject.Get(e, g);
        }
      }
    }
  }

  /** What a lookup of group `g` after `n` steps means. */
  predicate Registered(rs: seq<Option<Role>>, n: nat, kind: Kind, g: string, r: Option<nat>)
    requires n <= |rs|
  {
    match r
    case Some(k) => k < n && rs[k] == Some(NameRole(kind, g))
    case None => forall k :: 0 <= k < n ==> rs[k] != Some(NameRole(kind, g))
  }

  /** No role of a header row is read from two cells: with distinct headers, pass 1
      never reassigns a role. */
  predicate DistinctRoles(rs: seq<Option<Role>>)
  {
    forall i, j :: 0 <= i < j < |rs| && rs[i].Some? ==> rs[i] != rs[j]
  }

  /** Entries whose keys are not array indices appear in increasing column order. */
  predicate NamedInColumnOrder(e: JsObject.Entries<nat>)
  {
    forall i, j :: 0 <= i < j < |e| && !JsObject.IsArrayIndex(e[i].0) && !JsObject.IsArrayIndex(e[j].0) ==>
      e[i].1 < e[j].1
  }

  /** With distinct roles no assignment of pass 1 overwrites a group, so groups whose
      names are not array indices appear in column order. */
  lemma {:induction false} GroupsInColumnOrder(rs: seq<Option<Role>>, n: nat, kind: Kind)
    requires n <= |rs| && DistinctRoles(rs)
    ensures NamedInColumnOrder(GroupsAfter(rs, n, kind))
  {
    if n > 0 {
      GroupsInColumnOrder(rs, n - 1, kind);
      if IsNameOf(rs[n - 1], kind) {
        NameKeepsColumnOrder(rs, n, kind);
      } else {
        GroupsStepOther(rs, n, kind);
      }
    }
  }

  lemma NameKeepsColumnOrder(rs: seq<Option<Role>>, n: nat, kind: Kind)
    requires 0 < n <= |rs| && DistinctRoles(rs) && IsNameOf(rs[n - 1], kind)
    requires NamedInColumnOrder(GroupsAfter(rs, n - 1, kind))
    ensures NamedInColumnOrder(GroupsAfter(rs, n, kind))
  {
    GroupsStepName(rs, n, kind);
    GroupsWellFormed(rs, n - 1, kind);
    NotYetRegistered(rs, n, kind);
    InsertKeepsColumnOrder(GroupsAfter(rs, n - 1, kind), GroupsAfter(rs, n, kind), rs[n - 1].value.group, n - 1);
  }

  /** With distinct roles, a name column meets a group not registered before. */
  lemma NotYetRegistered(rs: seq<Option<Role>>, n: nat, kind: Kind)
    requires 0 < n <= |rs| && DistinctRoles(rs) && IsNameOf(rs[n - 1], kind)
    ensures rs[n - 1].value.group !in JsObject.Keys(GroupsAfter(rs, n - 1, kind))
  {
    var g := rs[n - 1].value.group;
    var e := GroupsAfter(rs, n - 1, kind);
    GroupsWellFormed(rs, n - 1, kind);
    GroupsRegistered(rs, n - 1, kind, g);
    JsObject.GetDefined(e, g);
    assert rs[n - 1] == Some(NameRole(kind, g));
  }

  lemma InsertKeepsColumnOrder(e: JsObject.Entries<nat>, e': JsObject.Entries<nat>, g: string, c: nat)
    requires JsObject.OwnKeyOrder(e) && ColumnsBelow(e, c) && NamedInColumnOrder(e) && g !in JsObject.Keys(e)
    requires e' == JsObject.Put<nat>(e, g, c)
    ensures NamedInColumnOrder(e')
  {
    assert forall j :: 0 <= j < |e| ==> e[j].0 != g by {
      forall j | 0 <= j < |e| ensures e[j].0 != g { assert JsObject.Keys(e)[j] == e[j].0; }
    }
    var p := JsObject.PutNewKey<nat>(e, g, c);
    var r := e[..p] + [(g, c)] + e[p..];
    JsObject.SplicePointwise<nat>(e, g, c, p);
    SpliceKeepsColumnOrder(e, r, g, c, p);
  }

  lemma SpliceKeepsColumnOrder(e: JsObject.Entries<nat>, r: JsObject.Entries<nat>, g: string, c: nat, p: nat)
    requires p <= |e| && |r| == |e| + 1 && JsObject.NewKeyPlace(e, g, p)
    requires forall j {:trigger r[j]} :: 0 <= j < p ==> r[j] == e[j]
    requires r[p] == (g, c)
    requires forall j {:trigger r[j]} :: p < j < |r| ==> r[j] == e[j - 1]
    requires ColumnsBelow(e, c) && NamedInColumnOrder(e)
    ensures NamedInColumnOrder(r)
  {
    forall i, j | 0 <= i < j < |r| && !JsObject.IsArrayIndex(r[i].0) && !JsObject.IsArrayIndex(r[j].0)
      ensures r[i].1 < r[j].1
    {
      if j < p { assert r[i] == e[i] && r[j] == e[j]; }
      else if i > p { assert r[i] == e[i - 1] && r[j] == e[j - 1]; }
      else if j == p { assert r[i] == e[i]; }
    }
  }

  /** `passenger_capacity_idx` stays -1 exactly when no cell so far is
      `Passenger Capacity`; otherwise it is such a cell. */
  lemma {:induction false} CapacityIndex(rs: seq<Option<Role>>, n: nat)
    requires n <= |rs|
    ensures ScanRoles(rs, n).Ok?
    ensures var c := ScanRoles(rs, n).value.capacityIdx;
      && (c == -1 <==> forall k :: 0 <= k < n ==> rs[k] != Some(CapacityColumn))
      && (c != -1 ==> 0 <= c < n && rs[c] == Some(CapacityColumn))
  {
    RoleColumnsClaimed(rs, n);
    if n > 0 {
      CapacityIndex(rs, n - 1);
      RoleColumnsClaimed(rs, n - 1);
    }
  }

  /** `address_idx` stays -1 exactly when no cell so far is `Address`; otherwise it
      is such a cell. */
  lemma {:induction false} AddressIndex(rs: seq<Option<Role>>, n: nat)
    requires n <= |rs|
    ensures ScanRoles(rs, n).Ok?
    ensures var a := ScanRoles(rs, n).value.addressIdx;
      && (a == -1 <==> forall k :: 0 <= k < n ==> rs[k] != Some(AddressColumn))
      && (a != -1 ==> 0 <= a < n && rs[a] == Some(AddressColumn))
  {
    RoleColumnsClaimed(rs, n);
    if n > 0 {
      AddressIndex(rs, n - 1);
      RoleColumnsClaimed(rs, n - 1);
    }
  }

  // ---------------------------------------------------------------------------
  // Pass 2

  /** Role and attribute readings of one header row: no cell is both. */
  predicate Disjoint(rs: seq<Option<Role>>, fs: seq<Option<FieldColumn>>)
  {
    |rs| == |fs| && forall k :: 0 <= k < |rs| && rs[k].Some? ==> fs[k].None?
  }

  /** An attribute cell whose group `roles` has not registered. */
  predicate Orphan(fs: seq<Option<FieldColumn>>, roles: RoleScan, c: nat)
    requires c < |fs|
  {
    fs[c].Some? && JsObject.Get(GroupIdx(roles, fs[c].value.kind), fs[c].value.group).None?
  }

  /** Starting from the columns pass 1 left, pass 2 fails only on an orphan
      attribute cell and names the first one (1-based); otherwise it has claimed
      exactly the attribute columns it has seen. */
  lemma {:induction false} FieldColumnsClaimed(rs: seq<Option<Role>>, fs: seq<Option<FieldColumn>>, n: nat)
    requires Disjoint(rs, fs) && n <= |fs|
    ensures ScanRoles(rs, |rs|).Ok?
    ensures var roles := ScanRoles(rs, |rs|).value;
      match ScanFields(fs, n, roles)
      case Ok(st) =>
        && (forall c :: 0 <= c < n ==> !Orphan(fs, roles, c))
        && (forall k: nat :: k in st.columns <==> k < |fs| && rs[k].None? && (k >= n || fs[k].None?))
      case Err(e) =>
        exists c :: 0 <= c < n && Orphan(fs, roles, c) && (forall c' :: 0 <= c' < c ==> !Orphan(fs, roles, c'))
          && e == UnknownGroup(fs[c].value.kind, fs[c].value.group, c + 1)
  {
    RoleColumnsClaimed(rs, |rs|);
    if n > 0 {
      FieldColumnsClaimed(rs, fs, n - 1);
    }
  }

  predicate SortedColumns(fl: seq<(string, nat)>)
  {
    forall i, j :: 0 <= i < j < |fl| ==> fl[i].1 < fl[j].1
  }

  function FieldData(st: FieldScan, kind: Kind): FieldLists
  {
    if kind == ParentKind then st.parentData else st.childData
  }

  /** After `n` steps the attribute list of group `g` holds `(f, c)` exactly
      when cell `c` is attribute `f` of `g`, in column order; a group has a list
      exactly when it has an attribute cell. */
  lemma {:induction false} FieldListsContents(fs: seq<Option<FieldColumn>>, n: nat, roles: RoleScan, kind: Kind, g: string)
    requires n <= |fs| && ScanFields(fs, n, roles).Ok?
    ensures var m := FieldData(ScanFields(fs, n, roles).value, kind);
      && (g in m <==> exists c :: 0 <= c < n && fs[c].Some? && fs[c].value.kind == kind && fs[c].value.group == g)
      && (g in m ==> SortedColumns(m[g]) && forall j :: 0 <= j < |m[g]| ==> m[g][j].1 < n)
      && (forall f, c: nat :: g in m && (f, c) in m[g] <==> c < n && fs[c] == Some(FieldColumn(kind, g, f)))
  {
    if n > 0 {
      FieldListsContents(fs, n - 1, roles, kind, g);
    }
  }
}
