# fromSheetData in Dafny

A model of the spreadsheet parser of the carpool planner: the class `Data` and
its factory `Data.fromSheetData` (`src/lib/index.ts`). The factory reads a matrix
of string cells whose first row is the header. It makes two passes over the
header and one over the data rows:

- the duplicate-header check (`seenHeaders`);
- pass 1, which registers the role columns `Parent <g>`, `Child <g>`,
  `Passenger Capacity` and `Address`;
- the check that the capacity and address columns exist;
- pass 2, which attaches the attribute columns `Parent <g> <field…>` and
  `Child <g> <field…>` to groups registered in pass 1;
- the row loop, which fills `d.parents`, `d.children`, `d.cars` and
  `d.addresses`.

Every column is claimed through the `columns` set (`rmvCol`). Every fatal
condition goes through `logThrow`: it logs a message and `!Aborting...`, then
throws.

The model keeps the shape of the code. Each loop that builds state is a method
with a loop. The loop invariant ties the state after `n` iterations to a
function that folds the same step over the first `n` items. The functions are:
- `DuplicateScan`, `ScanRoles` and `ScanFields` for the header loops;
- `Members` and `Enter` for the group loops;
- `Relink` for the back-patch;
- `ParseRows` for the row loop.

`Data` is a class whose four fields the methods update in place. The
`addToLog` callback is a `Log` object that collects its lines.
`Sheet.Data.FromSheetData` promises three things:
- its result is `Rows.ParseSheet(data)`;
- the log receives exactly `Sheet.SheetLog(data)`;
- on failure no `Data` is returned.
The lemmas then state, for the cells of the sheet, what `ParseSheet` accepts,
what it reports and what it builds.

Modules:

- `Wrappers`: `Option` and `Result`.
- `Text`: `trim`, `split(' ')`, `join(' ')`, a decimal `Number.parseInt`, and
  the rendering of a number in a template literal.
- `JsObject`: a `{ [key: string]: V }` dictionary, kept as its entries in the
  order `Object.entries` lists them. Array-index keys come first, in numeric
  order, then other keys in order of first assignment.
- `Header`: the duplicate check and both header passes, as functions and as the
  loops that compute them.
- `HeaderLemmas`: what the passes claim, register and record.
- `Schema`: the header checks as a whole (`DiscoverSchema`) and what they
  promise, stated on the header text.
- `Rows`: the row loop (`RowStep`, `ParseRows`) and a whole sheet
  (`ParseSheet`).
- `RowLemmas`: what the row loop builds, row by row and name by name.
- `Sheet`: the log, the class `Data`, and the methods that mirror
  `fromSheetData`.
- `SheetFacts`: what a parsed sheet holds, stated on the sheet's cells.
- `Scenario`: a one-row sheet worked through the model, as written and with a
  `Child 1 Age` column added.

How the code behaves in cases a reader might expect otherwise:
- A name written twice, on a later row or by a later group of the same row,
  overwrites the earlier entry, and no warning is logged (`src/lib/index.ts:103`,
  `:121`).
- An address holds only `x`, `y` and `name`, with no link to a car or to
  people (`:145-149`).
- The duplicate check compares trimmed text only. `split(' ').join(' ')` changes
  nothing (`Header.HeaderKeyIsTrim`), so inner runs of spaces are not
  normalised (`:31`).
- A car is added for every non-blank capacity cell (`:134-141`). Its capacity
  is the value of the cell's leading run of decimal digits, or `None` (the
  `NaN` of `parseInt`) when the cell does not start with a digit. The
  "Text.ParseInt" line under "## Left out" lists where this differs from
  `Number.parseInt`.
- A one-row sheet with header `Parent 1`, `Parent 1 Phone`, `Child 1`,
  `Passenger Capacity`, `Address` and data row `Alice`, `555-1000`, `Bob`, `4`,
  `123 Main St` does not parse. Child group `1` has no attribute column, so
  reading `Bob` iterates `undefined` at `:126` and throws
  (`Scenario.ExampleSheetRejected`). With a `Child 1 Age` column added, the
  sheet reads to one parent, one child, one car and one address
  (`Scenario.FixedSheetAccepted`).

## Model

| member | source | states |
|---|---|---|
| Text.TrimIsInfix | src/lib/index.ts:31 | `trim()` leaves an infix of the text that neither starts nor ends with white space, and everything it cuts off is white space |
| Text.Split | src/lib/index.ts:55 | `split(' ')` always yields at least one piece |
| Text.SplitPiecesHaveNoSpace | src/lib/index.ts:55 | no piece of `split(' ')` contains a space |
| Text.JoinSplit | src/lib/index.ts:31 | `join(' ')` after `split(' ')` gives back the text |
| Text.SplitJoin | src/lib/index.ts:81 | `split(' ')` after `join(' ')` of space-free pieces gives back the pieces |
| Text.LeadingDigits | src/lib/index.ts:135 | the length of the longest prefix of decimal digits: all of it is digits and the next character is not |
| Text.ParseInt | src/lib/index.ts:135 | `parseInt` is `NaN` (`None`) exactly when the text does not start with a digit |
| Text.NatToString | src/lib/index.ts:78 | `${n}` is a non-empty run of digits with no leading zero |
| Text.DigitsValueOfNatToString | src/lib/index.ts:78 | reading the digits of `${n}` gives `n` |
| Text.ParseIntOfNatToString | src/lib/index.ts:135 | `parseInt` of `${n}` followed by non-digit text is `n` |
| JsObject.GetDefined | src/lib/index.ts:77 | `o[k] === undefined` exactly when `k` is not an own key of `o` |
| JsObject.PutSpec | src/lib/index.ts:57 | `o[k] = v` keeps the `Object.entries` order, makes `o[k]` be `v`, keeps every other key's value and adds only `k` to the keys |
| JsObject.PutPresentShape | src/lib/index.ts:57 | assigning a key that is present overwrites its entry in place |
| JsObject.PutNewKey | src/lib/index.ts:57 | a new key is inserted at the end, unless it is an array index, which goes among the array indices in numeric order; the other entries keep their order |
| JsObject.IndexValueInjective | src/lib/index.ts:96 | two array-index keys with the same numeric value are the same key |
| Header.HeaderKeyIsTrim | src/lib/index.ts:31 | the text the duplicate check compares is the trimmed header |
| Header.RoleFieldDisjoint | src/lib/index.ts:54-88 | no header is read both as a role column by pass 1 and as an attribute column by pass 2 |
| Header.RoleDeterminesHeader | src/lib/index.ts:55-64 | two headers that pass 1 reads as the same role are equal once trimmed |
| Header.FieldDeterminesHeader | src/lib/index.ts:75-87 | two headers that pass 2 reads as the same attribute of the same group are equal once trimmed |
| Header.FindDuplicateHeader | src/lib/index.ts:29-36 | the loop over `seenHeaders` stops at the header `DuplicateScan` rejects, or at none |
| Header.DuplicateScan | src/lib/index.ts:29-36 | the index a failing scan reports lies among the keys scanned |
| Header.LaterScansKeepError | src/lib/index.ts:33 | once the duplicate check has thrown, later headers change nothing |
| Header.AllColumns | src/lib/index.ts:38-39 | `columns` starts as exactly the header's column indices |
| Header.ScanRoleColumns | src/lib/index.ts:49-65 | pass 1, with `rmvCol` and the -1 defaults, computes `ScanRoles` over the header |
| Header.LaterRoleScansKeepError | src/lib/index.ts:40-46 | once pass 1 has thrown, later columns change nothing |
| Header.ScanFieldColumns | src/lib/index.ts:72-89 | pass 2, with the unknown-group check and `rmvCol`, computes `ScanFields` over the header |
| Header.LaterFieldScansKeepError | src/lib/index.ts:76-88 | once pass 2 has thrown, later columns change nothing |
| HeaderLemmas.DuplicateScanMeaning | src/lib/index.ts:29-36 | `seenHeaders` holds exactly the keys seen so far, all distinct; the scan stops at the first key equal to an earlier one |
| HeaderLemmas.DuplicateHeaderMeaning | src/lib/index.ts:29-36 | the check rejects a header row exactly when two headers are equal once trimmed, and it names the first header that repeats an earlier one |
| HeaderLemmas.NoDuplicateRoles | src/lib/index.ts:54-65 | with distinct headers, pass 1 never reads one role from two cells |
| HeaderLemmas.RolesAndFieldsDisjoint | src/lib/index.ts:54-88 | no cell of a header row is claimed by both passes |
| HeaderLemmas.RoleColumnsClaimed | src/lib/index.ts:38-65 | pass 1 never hits the `rmvCol` bug branch; after `n` cells, column `k` is unclaimed exactly when it lies beyond `n` or is not a role column |
| HeaderLemmas.GroupsStep | src/lib/index.ts:57-61 | a name column of the kind assigns its group in the dictionary; any other cell leaves it as it is |
| HeaderLemmas.GroupsWellFormed | src/lib/index.ts:54-65 | every group dictionary keeps `Object.entries` order and records only columns already seen |
| HeaderLemmas.PutKeepsWellFormed | src/lib/index.ts:57 | assigning a group keeps `Object.entries` order and the recorded columns below the current one |
| HeaderLemmas.GroupsRegistered | src/lib/index.ts:54-65 | a group is registered exactly when one of the cells seen is its name column, and the recorded column is such a cell |
| HeaderLemmas.GroupsInColumnOrder | src/lib/index.ts:54-65 | with distinct roles, the groups whose names are not array indices appear in column order |
| HeaderLemmas.CapacityIndex | src/lib/index.ts:51-59 | `passenger_capacity_idx` stays -1 exactly when no cell is `Passenger Capacity`; otherwise it is such a cell |
| HeaderLemmas.AddressIndex | src/lib/index.ts:52-63 | `address_idx` stays -1 exactly when no cell is `Address`; otherwise it is such a cell |
| HeaderLemmas.FieldColumnsClaimed | src/lib/index.ts:74-88 | pass 2 fails only on an attribute of an unregistered group and names the first one (1-based); otherwise it has claimed exactly the attribute columns seen |
| HeaderLemmas.FieldListsContents | src/lib/index.ts:72-88 | a group's attribute list holds `(f, c)` exactly when cell `c` is attribute `f` of that group, in column order; a group has a list exactly when it has an attribute cell |
| Schema.DiscoverSchema | src/lib/index.ts:20-89 | every column a passing header check records is a column of the header |
| Schema.SchemaFrom | src/lib/index.ts:54-89 | every column recorded by the passes is a column of the header |
| Schema.RolesFit | src/lib/index.ts:54-65 | the indices pass 1 records are header columns |
| Schema.FieldsFit | src/lib/index.ts:74-88 | the columns pass 2 records are header columns |
| Schema.SchemaFromNoFault | src/lib/index.ts:38-88 | on cells no pass claims twice, the header checks fail only for a missing required column or an unknown group |
| Schema.SchemaFromCapacity | src/lib/index.ts:69 | the missing-capacity error is raised exactly when no cell is the capacity column |
| Schema.SchemaFromAddress | src/lib/index.ts:70 | given a capacity column, the missing-address error is raised exactly when no cell is the address column |
| Schema.FieldErrorIsNotMissingColumn | src/lib/index.ts:74-88 | pass 2 fails only on an unknown group or a column claimed twice |
| Schema.SchemaFromUnknown | src/lib/index.ts:76-84 | past the required columns, pass 2 fails exactly when some attribute's group has no name cell, and reports the first such attribute |
| Schema.OrphansUnnamed | src/lib/index.ts:77-84 | the `=== undefined` test of pass 2 holds exactly for attributes whose group has no name cell |
| Schema.SchemaFromGroups | src/lib/index.ts:54-61 | a group maps to its one name cell, or is absent when none exists; the dictionary is in `Object.entries` order |
| Schema.SchemaFromFields | src/lib/index.ts:72-88 | the attribute lists hold exactly the attribute cells of each group, in column order, and only registered groups have one |
| Schema.RoleCells | src/lib/index.ts:55-64 | pass 1 reads a cell as `Passenger Capacity`, `Address` or `<Keyword> <g>` exactly when its trimmed text splits into those words |
| Schema.NoColumnFault | src/lib/index.ts:38-47 | no header row makes `rmvCol` meet a column twice: the bug branch is unreachable |
| Schema.DuplicateRejected | src/lib/index.ts:29-36 | a header row is rejected as a duplicate exactly when two headers are equal once trimmed, and the error names the first repeating header |
| Schema.CapacityRequired | src/lib/index.ts:69 | with distinct headers, parsing stops for want of a capacity column exactly when no header is `Passenger Capacity` |
| Schema.AddressRequired | src/lib/index.ts:70 | with distinct headers and a capacity column, parsing stops for want of an address column exactly when no header is `Address` |
| Schema.UnknownGroupReported | src/lib/index.ts:74-89 | once the earlier checks pass, the header is rejected exactly when an attribute column's group has no name column, and the error names the kind, the group and the 1-based column of the first one |
| Schema.SchemaGroups | src/lib/index.ts:49-65 | in a parsed header, a group maps to its one name cell or is absent when no cell names it; the dictionary is in `Object.entries` order and non-index groups are in column order |
| Schema.SchemaFields | src/lib/index.ts:72-89 | in a parsed header, a group's attribute list exists exactly when some header is one of its attributes; its group then has a name column; the list holds exactly those attributes, in column order |
| Rows.Names | src/lib/index.ts:102 | `parent_names` / `child_names` holds the members' names in order |
| Rows.RowsFitSheet | src/lib/index.ts:92 | every column the header checks record is a cell of every data row |
| RowLemmas.FieldValuesKeys | src/lib/index.ts:108-110 | a name's `data` has exactly the attribute names of its group's list |
| RowLemmas.FieldValuesAt | src/lib/index.ts:108-110 | an attribute holds the cell of the last pair that names it |
| RowLemmas.MembersShape | src/lib/index.ts:96-111 | one iteration of the group loop skips a blank name, fails on a named group without an attribute list, and otherwise adds that member |
| RowLemmas.MembersOk | src/lib/index.ts:96-111 | the group loop fails exactly when a named group has no attribute list, and reports the first such group |
| RowLemmas.LaterMembersKeepError | src/lib/index.ts:108 | once the group loop has thrown, later groups change nothing |
| RowLemmas.MembersSelect | src/lib/index.ts:96-102 | the members of a row are, in group order, those of exactly the groups with a non-blank name |
| RowLemmas.LastNamedExists | src/lib/index.ts:103 | a name among the members has a last member carrying it |
| RowLemmas.EnterMeaning | src/lib/index.ts:103-107 | writing the members adds exactly their names; a name written twice holds its last member's entry; other names keep theirs |
| RowLemmas.EnterLast | src/lib/index.ts:103-107 | the entry stored under a member's name is built from the last member carrying it |
| RowLemmas.EnterOther | src/lib/index.ts:121-125 | a name no member carries keeps its entry, or its absence |
| RowLemmas.EnterSnoc | src/lib/index.ts:102-103 | writing one more member assigns its name and appends it to the name list |
| RowLemmas.RelinkMeaning | src/lib/index.ts:131 | the back-patch relinks exactly the visited names that are present and changes nothing else |
| RowLemmas.EnterThenRelink | src/lib/index.ts:103-131 | writing the parents childless and then back-patching them gives entries that hold the row's child names |
| RowLemmas.EnterRelinked | src/lib/index.ts:131 | the back-patch changes only the `children` of the row's parents and keeps every name |
| RowLemmas.RowStepShape | src/lib/index.ts:92-149 | the loop body accepts a row exactly when both group loops succeed and the address is not blank, and gives the row's tables or its error |
| RowLemmas.ParseRowsStep | src/lib/index.ts:91-150 | a loop that got through `n` rows got through `n - 1`, accepted row `n - 1`, and then applied that row |
| RowLemmas.ParseRowsUnfold | src/lib/index.ts:91-150 | the row loop over `n` rows is its run over `n - 1` rows followed by one step, or that run's error |
| RowLemmas.LaterRowsKeepError | src/lib/index.ts:91-150 | once the row loop has thrown, later rows change nothing |
| RowLemmas.ParseRowsAccepted | src/lib/index.ts:91-150 | the row loop succeeds exactly when every row is accepted; otherwise it stops at the first row it cannot get through, with that row's error |
| RowLemmas.AllAcceptedStep | src/lib/index.ts:91 | every one of `n` rows is accepted exactly when the first `n - 1` are and row `n - 1` is |
| RowLemmas.ParseRowsOk | src/lib/index.ts:91-150 | the row loop succeeds exactly when it accepts every row |
| RowLemmas.ParseRowsOkStep | src/lib/index.ts:91-150 | the loop gets through `n` rows exactly when it gets through `n - 1` and accepts row `n - 1` |
| RowLemmas.ParseRowsStops | src/lib/index.ts:91-150 | a failing row loop stops at a row it cannot get through, with that row's error, every earlier row accepted |
| RowLemmas.ParseRowsErrStep | src/lib/index.ts:91-150 | a loop failing within `n` rows failed within `n - 1`, or fails on row `n - 1` with that row's error |
| RowLemmas.AddressesStep | src/lib/index.ts:145-149 | appending the row's address extends the address list by that row |
| RowLemmas.ParseRowsAddresses | src/lib/index.ts:143-149 | one address per row, in row order, named by the row's non-blank address cell, with both coordinates `NaN` |
| RowLemmas.CarsStep | src/lib/index.ts:134-141 | the car step, a car or none, keeps the car list in step with the rows |
| RowLemmas.CarsKept | src/lib/index.ts:134 | a row with a blank capacity cell adds no car |
| RowLemmas.CarsAdded | src/lib/index.ts:134-141 | a row with a capacity cell adds its car at the end |
| RowLemmas.ParseRowsCars | src/lib/index.ts:134-141 | one car per row with a non-blank capacity cell, in row order, with `address = i`, the row's parent names and the `parseInt` of the cell |
| RowLemmas.ParentsStep | src/lib/index.ts:95-111 | one row keeps `d.parents`, name by name, in step with the rows |
| RowLemmas.ParentsListed | src/lib/index.ts:103-107 | a row that lists a name as a parent rewrites its entry from that row |
| RowLemmas.ParentsUnlisted | src/lib/index.ts:95-111 | a row that does not list a name leaves its entry, if any, alone |
| RowLemmas.ParseRowsParents | src/lib/index.ts:95-131 | a name is in `d.parents` exactly when some row lists it; its entry comes from the last such row and holds that row's index, that row's child names, and the attribute values of the last group there that gave the name |
| RowLemmas.ChildrenStep | src/lib/index.ts:113-129 | one row keeps `d.children`, name by name, in step with the rows |
| RowLemmas.ChildrenListed | src/lib/index.ts:121-125 | a row that lists a name as a child rewrites its entry from that row |
| RowLemmas.ChildrenUnlisted | src/lib/index.ts:113-129 | a row that does not list a name leaves its entry, if any, alone |
| RowLemmas.ParseRowsChildren | src/lib/index.ts:113-129 | a name is in `d.children` exactly when some row lists it; its entry comes from the last such row and holds that row's index, that row's parent names, and the attribute values of the last group there that gave the name |
| Sheet.Message | src/lib/index.ts:22-26 | every error but the two `TypeError`s has a log message, and every message starts with `!` |
| Sheet.HeaderLogAfterRoles | src/lib/index.ts:66-70 | after pass 1, the header log is the two group counts followed by what is thrown, if anything |
| Sheet.HeaderRejected | src/lib/index.ts:16-89 | a sheet whose header checks fail is rejected with exactly that error and logs only the header log |
| Sheet.RowsOutcome | src/lib/index.ts:91-153 | past the header checks, the parse is the row loop's outcome and the log gains what that outcome throws |
| Sheet.HeaderLogClean | src/lib/index.ts:66-67 | header checks that pass log no line starting with `!` |
| Sheet.HeaderLogThrown | src/lib/index.ts:22-26 | header checks that fail end their log with the error's message and `!Aborting...` |
| Sheet.LogMarksFailure | src/lib/index.ts:22-26 | a successful parse logs no line starting with `!`; a failed one ends its log with what `logThrow` logs for the error |
| Sheet.Log.Add | src/lib/index.ts:16 | `addToLog` appends one line |
| Sheet.LogThrow | src/lib/index.ts:22-26 | `logThrow` appends the error's message and `!Aborting...` (nothing for a `TypeError`) |
| Sheet.Data.constructor | src/lib/index.ts:9-14 | a new `Data` has empty dictionaries and lists |
| Sheet.Data.FillParentData | src/lib/index.ts:108-110 | the attribute loop sets the parent entry's `data` to the group's attribute values and changes nothing else |
| Sheet.Data.FillChildData | src/lib/index.ts:126-128 | the attribute loop sets the child entry's `data` to the group's attribute values and changes nothing else |
| Sheet.Data.ReadParent | src/lib/index.ts:96-111 | one iteration of the parent loop is one step of `Members` and writes that member to `d.parents` |
| Sheet.Data.ReadParents | src/lib/index.ts:95-111 | the parent loop computes `parent_names` and writes every member, childless, to `d.parents`, or fails with the group loop's error |
| Sheet.Data.ReadChild | src/lib/index.ts:114-129 | one iteration of the child loop is one step of `Members` and writes that member to `d.children` |
| Sheet.Data.ReadChildren | src/lib/index.ts:113-129 | the child loop computes `child_names` and writes every member, with the row's parent names, to `d.children`, or fails with the group loop's error |
| Sheet.Data.LinkChildren | src/lib/index.ts:131 | the back-patch gives every parent written on the row the row's child names |
| Sheet.Data.AddRow | src/lib/index.ts:92-149 | one iteration of the row loop changes the four fields of `d` exactly as `RowStep` does, or fails with its error |
| Sheet.Data.ReadHeader | src/lib/index.ts:19-89 | the header checks compute `DiscoverSchema` and log exactly `HeaderLog` |
| Sheet.Data.CheckColumns | src/lib/index.ts:69-89 | after pass 1, the required-column checks and pass 2 complete `DiscoverSchema` and log only what they throw |
| Sheet.Data.ReadRows | src/lib/index.ts:91-150 | the row loop fills the fresh `d` with `ParseRows` of the data rows, or returns that loop's error |
| Sheet.Data.FromSheetData | src/lib/index.ts:16-153 | `fromSheetData` returns a fresh `Data` holding exactly `ParseSheet(data)` or fails with its error, and logs exactly `SheetLog(data)` |
| SheetFacts.SchemaColumns | src/lib/index.ts:54-70 | a parsed header has distinct headers, and its capacity and address columns read `Passenger Capacity` and `Address` |
| SheetFacts.GroupEntry | src/lib/index.ts:54-61 | every group-dictionary entry is a group and its name header `<Keyword> <g>` |
| SheetFacts.NameHeaderEntry | src/lib/index.ts:54-61 | every name header `<Keyword> <g>` has its entry in the group dictionary |
| SheetFacts.DistinctAttributes | src/lib/index.ts:72-88 | no attribute name is listed twice for a group of a parsed header |
| SheetFacts.MemberValue | src/lib/index.ts:108-110 | the cell under header `<Keyword> <g> f` is the value of `f` in the member of group `g` |
| SheetFacts.MemberKeys | src/lib/index.ts:108-110 | the attributes of a group's member are exactly the `f` of its headers `<Keyword> <g> f` |
| SheetFacts.MemberData | src/lib/index.ts:96-110 | a group's member is named by the cell under its name header, and its `data` maps each attribute header's field to the cell under it, and holds nothing else |
| SheetFacts.RowNames | src/lib/index.ts:95-102 | the names a row lists are exactly its non-blank cells under name headers of that kind |
| SheetFacts.SheetAddresses | src/lib/index.ts:143-149 | a parsed sheet has `data.length - 1` addresses; the one for data row `i` is named by the row's non-blank `Address` cell and has both coordinates `NaN` |
| SheetFacts.SheetRows | src/lib/index.ts:91-92 | past the header checks, the parse is the row loop over the data rows |
| SheetFacts.RowsRejected | src/lib/index.ts:91-150 | a data row the loop body cannot get through makes the row loop fail |
| SheetFacts.SheetBlankAddress | src/lib/index.ts:144 | a data row with a blank address cell makes the whole parse fail |
| SheetFacts.HeaderErrorIsNotBlankAddress | src/lib/index.ts:20-89 | the header checks never report a blank address |
| SheetFacts.RowsBlankAddress | src/lib/index.ts:144 | the blank-address error names the 1-based sheet row of the first row the loop cannot get through; that row's address is blank and every earlier row was read in full |
| SheetFacts.SheetBlankAddressReported | src/lib/index.ts:144 | a sheet rejected for a blank address passed the header checks; the named sheet row has a blank address and every earlier data row was read in full |
| SheetFacts.GroupWithoutAttributes | src/lib/index.ts:98-108 | a non-blank name under a group with no attribute header makes the row unreadable (the `TypeError` of iterating `undefined`) |
| SheetFacts.SheetGroupWithoutAttributes | src/lib/index.ts:108 | such a name on any data row makes the whole parse fail |
| SheetFacts.SheetCars | src/lib/index.ts:134-141 | the cars of a parsed sheet against the `Passenger Capacity` column: one per row with a non-blank cell, in row order, with the row's parent names and the `parseInt` of the cell |
| SheetFacts.SheetParents | src/lib/index.ts:95-131 | `d.parents` of a parsed sheet, name by name: filled from the last data row listing the name, with that row's child names |
| SheetFacts.SheetChildren | src/lib/index.ts:113-129 | `d.children` of a parsed sheet, name by name: filled from the last data row listing the name, with that row's parent names |
| Scenario.TokensOf | src/lib/index.ts:55 | a header with no padding, written as tokens joined by single spaces, splits back into exactly those tokens |
| Scenario.PlainHeadersUnique | src/lib/index.ts:29-36 | distinct headers with no padding pass the duplicate check |
| Scenario.ReadingsExtend | src/lib/index.ts:54-65 | a cell added at the end of a header adds its two readings at the end |
| Scenario.HeaderGives | src/lib/index.ts:20-89 | with no duplicate, both required columns found and both passes through, the header checks give the layout the two passes recorded |
| Scenario.ExampleHeaderAccepted | src/lib/index.ts:20-89 | the example header passes the checks: parent group `1` named in column 0 with `Phone` in column 1, child group `1` named in column 2 with no attribute list, capacity in column 3, address in column 4 |
| Scenario.FixedHeaderAccepted | src/lib/index.ts:20-89 | with `Child 1 Age` added, child group `1` also lists `Age` in column 5 |
| Scenario.OneRowSheet | src/lib/index.ts:91-150 | a sheet with one data row parses to one step of the row loop from a fresh `Data` |
| Scenario.ExampleSheetRejected | src/lib/index.ts:108 | the example sheet fails with the `TypeError` of child group `1` |
| Scenario.FixedSheetAccepted | src/lib/index.ts:91-150 | the sheet with `Child 1 Age` reads to parent `Alice` (`Phone` 555-1000, child `Bob`, row 0), child `Bob` (`Age` 7, parent `Alice`, row 0), one car (parent `Alice`, row 0, capacity 4) and the address `123 Main St` with `NaN` coordinates |
| Scenario.ExampleSheetLog | src/lib/index.ts:66-67 | the example sheet logs the two group counts and nothing more |
| Scenario.FixedSheetLog | src/lib/index.ts:66-67 | the sheet with `Child 1 Age` logs the two group counts only |
| Scenario.ReadExampleSheet | src/lib/index.ts:16-153 | `fromSheetData` on the example sheet throws the `TypeError` after logging the group counts |
| Scenario.ReadFixedSheet | src/lib/index.ts:16-153 | `fromSheetData` on the sheet with `Child 1 Age` returns a fresh `Data` holding exactly those tables |

## Left out

- `areaOfBounds` (`src/lib/index.ts:158-189`): floating-point trigonometry,
  which this model does not cover.
- `src/lib/icons/index.ts`: Leaflet icon objects built from image imports, a
  foreign library with no logic. It is not part of this model.
- Geocoding and coordinate enrichment: no such code is in the parser, and it
  would be network I/O. Coordinates stay `NaN`.
- `console.log(data)` and `console.log(d)` (`:43`, `:152`): console output
  only.
- The `TypeError`s the code runs into are modelled as two error values, with
  no log line: reading the header of an empty sheet (`EmptySheet`), and
  iterating the missing attribute list of a group (`NoFieldColumns`). The
  exception objects and the `throw 0` after `logThrow` are not modelled.
- Text.ParseInt: only a digit prefix is read. Leading white space, a sign,
  `0x` prefixes and other radices are not modelled, so `" 4"` gives `None`
  here but 4 in JavaScript, and `"-1"` gives `None` here but -1. The result is
  the exact `nat`; `Number.parseInt` returns a double, so a run of more than
  15 digits can round (`"9007199254740993"` gives 9007199254740992), and that
  rounding is not modelled.
- JsObject.Put: the key `__proto__` is stored as an ordinary own key. In
  JavaScript, assigning `o["__proto__"]` on a plain object runs the inherited
  setter and creates no own key. The same holds for Rows.Enter and
  Rows.FieldValues, which assign into `d.parents`, `d.children` and `data`.
  The consequences the model does not capture:
  - a header `Parent __proto__` or `Child __proto__` claims its column
    (`:57`, `:61`), but the code does not count that group in the two
    "Found" lines (`:66-67`) and never iterates it in the row loop (`:96`,
    `:114`);
  - for an attribute header `Parent __proto__ <field>`, both `=== undefined`
    tests (`:77`, `:79`) are false, so the `push` at `:81` throws a
    `TypeError`;
  - a name cell `__proto__` (`:103`, `:121`) replaces the prototype of
    `d.parents` or `d.children` instead of adding an entry;
  - an attribute header `Parent <g> __proto__` stores nothing in `data`
    (`:109`, `:127`).
- JsObject.Get: a key such as `constructor` or `__proto__` finds an inherited
  property of a plain object in JavaScript; the model looks up own keys only.
- `d.parents`, `d.children` and each entry's `data` are Dafny maps. Their
  `Object.entries` order is not modelled, because the parser never iterates
  them.
- The arrays `parent_names` and `child_names` are shared by reference between
  entries and cars. They are modelled as values, which is the same because
  neither array changes once it is stored.
- Rows.ParseSheet requires every data row to be at least as wide as the header
  (`WideRows`). A narrower row makes the code read `undefined` cells, and that
  is not modelled.
- The spreadsheet comes in as a parameter. Fetching it, and the UI that shows
  the log, are not part of this model.
