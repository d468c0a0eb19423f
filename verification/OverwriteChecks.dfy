/** The checks that protect overwrite swaps: rows sharing a full-overwrite
    destination run together and at one level (cli/src/destination.rs). */
module OverwriteChecks {
  import opened Outcomes
  import opened Sorting
  import opened Destination
  import opened IdentityResolution
  import opened SharedDestinations
  import opened ExecutionLevels

  // ── Peers ──────────────────────────────────────────────────────────────────

  /** Rows other than `row` that write the same destination. */
  function PeersWith(sinks: Sinks, ids: Identities, row: Row, all: seq<Row>): (r: seq<Row>)
    ensures forall p :: p in r <==> p in all && p.id != row.id && Same(sinks, ids, row, p)
  {
    if all == [] then []
    else (if all[0].id != row.id && Same(sinks, ids, row, all[0]) then [all[0]] else [])
         + PeersWith(sinks, ids, row, all[1..])
  }

  // ── Selection ──────────────────────────────────────────────────────────────

  datatype Refusal = Refusal(row: string, others: seq<string>)

  function LeftOut(peers: seq<Row>, chosen: set<string>): (r: seq<string>)
    ensures r == [] <==> forall p :: p in peers ==> p.id in chosen
    ensures forall id :: id in r <==> id !in chosen && exists p :: p in peers && p.id == id
  {
    if peers == [] then []
    else
      assert forall p :: p in peers <==> p == peers[0] || p in peers[1..];
      (if peers[0].id in chosen then [] else [peers[0].id]) + LeftOut(peers[1..], chosen)
  }

  function IdsOf(rows: seq<Row>): (r: set<string>)
    ensures forall id :: id in r <==> exists i :: 0 <= i < |rows| && rows[i].id == id
  {
    set i | 0 <= i < |rows| :: rows[i].id
  }

  /** Every selected full-overwrite row has all its peers selected. */
  ghost predicate SelectionClosed(sinks: Sinks, ids: Identities, all: seq<Row>, selected: seq<Row>) {
    forall i, j ::
      && 0 <= i < |selected| && IsFullOverwrite(selected[i])
      && 0 <= j < |all| && all[j].id != selected[i].id && Same(sinks, ids, selected[i], all[j])
      ==> all[j].id in IdsOf(selected)
  }

  /** Refuse a run that leaves out a row sharing a full-overwrite destination. */
  method CheckSelection(sinks: Sinks, ids: Identities, all: seq<Row>, selected: seq<Row>)
    returns (r: Option<Refusal>)
    ensures r.None? <==> SelectionClosed(sinks, ids, all, selected)
    ensures r.Some? ==> exists i ::
              && 0 <= i < |selected| && IsFullOverwrite(selected[i]) && r.value.row == selected[i].id
              && r.value.others == LeftOut(PeersWith(sinks, ids, selected[i], all), IdsOf(selected))
              && r.value.others != []
  {
    hide Same, IsFullOverwrite;
    var chosen := IdsOf(selected);
    for i := 0 to |selected|
      invariant SelectionClosedUpTo(sinks, ids, all, selected, i)
    {
      var row := selected[i];
      if IsFullOverwrite(row) {
        var left := LeftOut(PeersWith(sinks, ids, row, all), chosen);
        if left != [] {
          ghost var p :| p in PeersWith(sinks, ids, row, all) && p.id !in chosen;
          ghost var j :| 0 <= j < |all| && all[j] == p;
          return Some(Refusal(row.id, left));
        }
        PeersChosen(sinks, ids, all, selected, i);
      }
    }
    r := None;
  }

  ghost predicate SelectionClosedUpTo(sinks: Sinks, ids: Identities, all: seq<Row>, selected: seq<Row>, k: nat)
    requires k <= |selected|
  {
    forall i, j ::
      && 0 <= i < k && IsFullOverwrite(selected[i])
      && 0 <= j < |all| && all[j].id != selected[i].id && Same(sinks, ids, selected[i], all[j])
      ==> all[j].id in IdsOf(selected)
  }

  lemma PeersChosen(sinks: Sinks, ids: Identities, all: seq<Row>, selected: seq<Row>, i: nat)
    requires i < |selected| && LeftOut(PeersWith(sinks, ids, selected[i], all), IdsOf(selected)) == []
    requires SelectionClosedUpTo(sinks, ids, all, selected, i)
    ensures SelectionClosedUpTo(sinks, ids, all, selected, i + 1)
  {
    hide Same, IsFullOverwrite;
    forall j | 0 <= j < |all| && all[j].id != selected[i].id && Same(sinks, ids, selected[i], all[j])
      ensures all[j].id in IdsOf(selected)
    {
      assert all[j] in PeersWith(sinks, ids, selected[i], all);
    }
  }

  /** The selection is a sub-list of the rows. */
  ghost predicate SubList(selected: seq<Row>, all: seq<Row>) {
    && Distinct(selected)
    && forall i :: 0 <= i < |selected| ==> selected[i] in all
  }

  /** `c` steps from a full-overwrite row to a row sharing its destination, over and over. */
  ghost predicate SharedChain(sinks: Sinks, ids: Identities, all: seq<Row>, c: seq<Row>) {
    && c != []
    && (forall i :: 0 <= i < |c| ==> c[i] in all)
    && (forall i :: 0 < i < |c| ==> Shares(sinks, ids, c[i - 1], c[i]))
  }

  ghost predicate Shares(sinks: Sinks, ids: Identities, a: Row, b: Row) {
    IsFullOverwrite(a) && b.id != a.id && Same(sinks, ids, a, b)
  }

  lemma SelectedById(all: seq<Row>, selected: seq<Row>, row: Row)
    requires DistinctIds(all) && SubList(selected, all) && row in all && row.id in IdsOf(selected)
    ensures row in selected
  {
    var i :| 0 <= i < |selected| && selected[i].id == row.id;
    var j :| 0 <= j < |all| && all[j] == selected[i];
    var k :| 0 <= k < |all| && all[k] == row;
    assert j == k;
  }

  /** A passing selection check: every row reachable from a selected row by steps
      of shared full-overwrite destinations is selected too. */
  lemma {:induction false} SelectionReachesAll(sinks: Sinks, ids: Identities, all: seq<Row>, selected: seq<Row>,
                                               c: seq<Row>)
    requires DistinctIds(all) && SubList(selected, all) && SelectionClosed(sinks, ids, all, selected)
    requires SharedChain(sinks, ids, all, c) && c[0] in selected
    ensures c[|c| - 1] in selected
    decreases |c|
  {
    hide Same, IsFullOverwrite;
    if |c| > 1 {
      var init, last := c[..|c| - 1], c[|c| - 1];
      SelectionReachesAll(sinks, ids, all, selected, init);
      var prev := init[|init| - 1];
      assert Shares(sinks, ids, c[|c| - 1 - 1], c[|c| - 1]);
      var i :| 0 <= i < |selected| && selected[i] == prev;
      var j :| 0 <= j < |all| && all[j] == last;
      assert all[j].id in IdsOf(selected);
      SelectedById(all, selected, last);
    }
  }

  /** A sub-list as long as the list has every id. */
  lemma FullSelection(sinks: Sinks, ids: Identities, all: seq<Row>, selected: seq<Row>)
    requires SubList(selected, all) && |selected| == |all|
    ensures SelectionClosed(sinks, ids, all, selected)
  {
    hide Same, IsFullOverwrite;
    DistinctFill(selected, all);
    forall j | 0 <= j < |all| ensures all[j].id in IdsOf(selected) {
      MultisetMember(selected, all, all[j]);
      var i :| 0 <= i < |selected| && selected[i] == all[j];
    }
  }

  /** Every row that writes the destination a selected row replaces is selected. */
  ghost predicate NothingLost(sinks: Sinks, all: seq<Row>, selected: seq<Row>) {
    forall i, j ::
      && 0 <= i < |selected| && IsFullOverwrite(selected[i])
      && 0 <= j < |all| && all[j].id != selected[i].id && OneDestination(sinks, selected[i], all[j])
      ==> all[j] in selected
  }

  /** The refusal names a selected row that replaces a destination and exactly the rows
      that write it and are left out. */
  ghost predicate NamesLoss(sinks: Sinks, all: seq<Row>, selected: seq<Row>, refusal: Refusal) {
    && refusal.others != []
    && exists i :: 0 <= i < |selected| && IsFullOverwrite(selected[i]) && refusal.row == selected[i].id
                   && ExactlyLost(sinks, all, selected, selected[i], refusal.others)
  }

  ghost predicate ExactlyLost(sinks: Sinks, all: seq<Row>, selected: seq<Row>, row: Row, others: seq<string>) {
    forall id :: id in others <==> LosesTo(sinks, all, selected, row, id)
  }

  /** The row called `id` writes the destination `row` replaces and is not selected. */
  ghost predicate LosesTo(sinks: Sinks, all: seq<Row>, selected: seq<Row>, row: Row, id: string) {
    exists j :: 0 <= j < |all| && all[j].id == id && id != row.id && OneDestination(sinks, row, all[j])
                && all[j] !in selected
  }

  /** The check with the destinations the sinks report. Neither shortcut nor the
      pruned, cached resolution changes its answer: it refuses exactly when a selected
      row replaces a destination that a row left out writes too. */
  method CheckSelectionResolved(sinks: Sinks, all: seq<Row>, selected: seq<Row>) returns (r: Option<Refusal>)
    requires ValidRows(all) && SubList(selected, all)
    ensures r.None? <==> NothingLost(sinks, all, selected)
    ensures r.Some? ==> NamesLoss(sinks, all, selected, r.value)
    ensures forall full :: Resolved(sinks, all, AskAll(sinks), full, |all|) ==>
              (r.None? <==> SelectionClosed(sinks, full, all, selected))
  {
    hide Same, IsFullOverwrite, Resolved, ValidRows, SelectionClosed, SubList, OneDestination, NothingLost, NamesLoss,
         AskAll, AskedBy, LeftOut, PeersWith, IdsOf;
    ghost var full := ResolvedExists'(sinks, all);
    ClosedIsNothingLost(sinks, all, selected, full);
    forall other | Resolved(sinks, all, AskAll(sinks), other, |all|)
      ensures SelectionClosed(sinks, other, all, selected) <==> NothingLost(sinks, all, selected)
    {
      ClosedIsNothingLost(sinks, all, selected, other);
    }
    if |all| == |selected| {
      FullSelection(sinks, full, all, selected);
      return None;
    }
    if !(exists i :: 0 <= i < |selected| && IsFullOverwrite(selected[i])) {
      NothingToProtect(sinks, full, all, selected);
      return None;
    }
    var ids := Resolve(sinks, all, IsFullOverwrite);
    SelectionSameWithFull(sinks, all, selected, ids, full);
    r := CheckSelection(sinks, ids, all, selected);
    if r.Some? { RefusalNamesLoss(sinks, all, selected, ids, r.value); }
  }

  lemma ResolvedExists'(sinks: Sinks, all: seq<Row>) returns (full: Identities)
    requires ValidRows(all)
    ensures Resolved(sinks, all, AskAll(sinks), full, |all|)
  {
    full := ResolvedExists(sinks, all, AskAll(sinks), |all|);
  }

  lemma SelectedRow(all: seq<Row>, selected: seq<Row>, i: nat) returns (k: nat)
    requires SubList(selected, all) && i < |selected|
    ensures k < |all| && all[k] == selected[i]
  {
    assert selected[i] in all;
    k :| 0 <= k < |all| && all[k] == selected[i];
  }

  lemma SelectedIff(all: seq<Row>, selected: seq<Row>, j: nat)
    requires DistinctIds(all) && SubList(selected, all) && j < |all|
    ensures all[j] in selected <==> all[j].id in IdsOf(selected)
  {
    if all[j].id in IdsOf(selected) { SelectedById(all, selected, all[j]); }
  }

  lemma ClosedIsNothingLost(sinks: Sinks, all: seq<Row>, selected: seq<Row>, full: Identities)
    requires ValidRows(all) && SubList(selected, all) && Resolved(sinks, all, AskAll(sinks), full, |all|)
    ensures SelectionClosed(sinks, full, all, selected) <==> NothingLost(sinks, all, selected)
  {
    assert DistinctIds(all);
    hide Same, IsFullOverwrite, Resolved, ValidRows, SubList, OneDestination, IdsOf, DistinctIds;
    forall i, j | 0 <= i < |selected| && 0 <= j < |all|
      ensures Same(sinks, full, selected[i], all[j]) <==> OneDestination(sinks, selected[i], all[j])
      ensures all[j] in selected <==> all[j].id in IdsOf(selected)
    {
      var k := SelectedRow(all, selected, i);
      SameWithAll(sinks, all, full, k, j);
      SelectedIff(all, selected, j);
    }
  }

  lemma RefusalNamesLoss(sinks: Sinks, all: seq<Row>, selected: seq<Row>, ids: Identities, refusal: Refusal)
    requires ValidRows(all) && SubList(selected, all) && refusal.others != []
    requires Resolved(sinks, all, AskedBy(sinks, all, IsFullOverwrite), ids, |all|)
    requires exists i ::
               && 0 <= i < |selected| && IsFullOverwrite(selected[i]) && refusal.row == selected[i].id
               && refusal.others == LeftOut(PeersWith(sinks, ids, selected[i], all), IdsOf(selected))
    ensures NamesLoss(sinks, all, selected, refusal)
  {
    hide Same, IsFullOverwrite, Resolved, ValidRows, SubList, OneDestination, LosesTo, LeftOut, PeersWith, IdsOf, AskedBy;
    var i :| && 0 <= i < |selected| && IsFullOverwrite(selected[i]) && refusal.row == selected[i].id
             && refusal.others == LeftOut(PeersWith(sinks, ids, selected[i], all), IdsOf(selected));
    var k := SelectedRow(all, selected, i);
    forall id ensures id in refusal.others <==> LosesTo(sinks, all, selected, selected[i], id) {
      LeftOutIsLost(sinks, all, selected, ids, k, id);
    }
  }

  lemma LeftOutIsLost(sinks: Sinks, all: seq<Row>, selected: seq<Row>, ids: Identities, k: nat, id: string)
    requires ValidRows(all) && SubList(selected, all) && k < |all| && IsFullOverwrite(all[k])
    requires Resolved(sinks, all, AskedBy(sinks, all, IsFullOverwrite), ids, |all|)
    ensures id in LeftOut(PeersWith(sinks, ids, all[k], all), IdsOf(selected)) <==>
            LosesTo(sinks, all, selected, all[k], id)
  {
    assert DistinctIds(all);
    hide Same, IsFullOverwrite, Resolved, ValidRows, SubList, OneDestination, DistinctIds, IdsOf, LeftOut, PeersWith;
    forall j | 0 <= j < |all| && all[j].id != all[k].id
      ensures Same(sinks, ids, all[k], all[j]) <==> OneDestination(sinks, all[k], all[j])
      ensures all[j] in selected <==> all[j].id in IdsOf(selected)
    {
      SameIsOneDestination(sinks, all, IsFullOverwrite, ids, k, j);
      SelectedIff(all, selected, j);
    }
    var peers := PeersWith(sinks, ids, all[k], all);
    if id in LeftOut(peers, IdsOf(selected)) {
      var p :| p in peers && p.id == id;
      var j :| 0 <= j < |all| && all[j] == p;
    }
    if LosesTo(sinks, all, selected, all[k], id) {
      var j :| 0 <= j < |all| && all[j].id == id && id != all[k].id && OneDestination(sinks, all[k], all[j])
               && all[j] !in selected;
      assert all[j] in peers;
    }
  }

  lemma NothingToProtect(sinks: Sinks, ids: Identities, all: seq<Row>, selected: seq<Row>)
    requires forall i :: 0 <= i < |selected| ==> !IsFullOverwrite(selected[i])
    ensures SelectionClosed(sinks, ids, all, selected)
  {
  }

  lemma SelectionSameWithFull(sinks: Sinks, all: seq<Row>, selected: seq<Row>, ids: Identities, full: Identities)
    requires ValidRows(all) && SubList(selected, all)
    requires Resolved(sinks, all, AskedBy(sinks, all, IsFullOverwrite), ids, |all|)
    requires Resolved(sinks, all, AskAll(sinks), full, |all|)
    ensures SelectionClosed(sinks, ids, all, selected) <==> SelectionClosed(sinks, full, all, selected)
  {
    hide Same, IsFullOverwrite, Resolved;
    forall i, j | 0 <= i < |selected| && IsFullOverwrite(selected[i]) && 0 <= j < |all| && all[j].id != selected[i].id
      ensures Same(sinks, ids, selected[i], all[j]) <==> Same(sinks, full, selected[i], all[j])
    {
      var k :| 0 <= k < |all| && all[k] == selected[i];
      PruningLosesNothing(sinks, all, IsFullOverwrite, ids, full, k, j);
    }
  }

  // ── Levels ─────────────────────────────────────────────────────────────────

  /** Rows sharing a full-overwrite destination have one level. */
  ghost predicate LevelsAgree(sinks: Sinks, ids: Identities, rows: seq<Row>, levels: map<string, nat>)
    requires forall i :: 0 <= i < |rows| ==> rows[i].id in levels
  {
    forall i :: 0 <= i < |rows| ==> RowAgrees(sinks, ids, rows, levels, i)
  }

  /** A full-overwrite row has the level of every row sharing its destination. */
  ghost predicate RowAgrees(sinks: Sinks, ids: Identities, rows: seq<Row>, levels: map<string, nat>, i: nat)
    requires i < |rows| && forall k :: 0 <= k < |rows| ==> rows[k].id in levels
  {
    IsFullOverwrite(rows[i]) ==>
      forall j :: 0 <= j < |rows| && rows[j].id != rows[i].id && Same(sinks, ids, rows[i], rows[j]) ==>
        levels[rows[i].id] == levels[rows[j].id]
  }

  /** `a` replaces a destination that `b` also writes, at another level. */
  ghost predicate Conflict(sinks: Sinks, ids: Identities, levels: map<string, nat>, a: Row, b: Row) {
    && IsFullOverwrite(a) && a.id != b.id && Same(sinks, ids, a, b)
    && a.id in levels && b.id in levels && levels[a.id] != levels[b.id]
  }

  /** Rows sharing a full-overwrite destination have prerequisite chains of one length. */
  ghost predicate SameDepth(sinks: Sinks, ids: Identities, rows: seq<Row>) {
    forall i, j, l: nat, m: nat ::
      && 0 <= i < |rows| && 0 <= j < |rows| && IsFullOverwrite(rows[i]) && rows[j].id != rows[i].id
      && Same(sinks, ids, rows[i], rows[j])
      && Longest(ById(rows), rows[i].id, l) && Longest(ById(rows), rows[j].id, m)
      ==> l == m
  }

  /** No full-overwrite row waits for a row sharing its destination, nor that row for it. */
  ghost predicate SwapsApart(sinks: Sinks, ids: Identities, rows: seq<Row>) {
    forall i, j ::
      && 0 <= i < |rows| && 0 <= j < |rows| && IsFullOverwrite(rows[i]) && rows[i].id != rows[j].id
      && Same(sinks, ids, rows[i], rows[j])
      ==> !Waits(ById(rows), rows[i].id, rows[j].id) && !Waits(ById(rows), rows[j].id, rows[i].id)
  }

  /** Rows that replace a destination have prerequisite chains as long as those of the
      rows that write it too. */
  ghost predicate OneDepth(sinks: Sinks, rows: seq<Row>) {
    forall i, j, l: nat, m: nat ::
      && 0 <= i < |rows| && 0 <= j < |rows| && IsFullOverwrite(rows[i]) && rows[j].id != rows[i].id
      && OneDestination(sinks, rows[i], rows[j])
      && Longest(ById(rows), rows[i].id, l) && Longest(ById(rows), rows[j].id, m)
      ==> l == m
  }

  /** What is refused before a run that overwrites. */
  datatype PlanRefusal = Sharded(row: string) | Apart(row: string, other: string)

  /** Refuse an overwrite in a source-sharded run, and rows that write one destination
      at different levels (cli/src/executor.rs `check_overwrite_plan`). */
  method CheckOverwritePlan(sinks: Sinks, sharded: bool, rows: seq<Row>) returns (r: Option<PlanRefusal>)
    requires ValidRows(rows)
    ensures r.Some? && r.value.Sharded? <==> sharded && exists i :: 0 <= i < |rows| && IsOverwrite(rows[i])
    ensures Acyclic(ById(rows)) && !(r.Some? && r.value.Sharded?) ==> (r.None? <==> OneDepth(sinks, rows))
    ensures r.Some? && r.value.Apart? ==> exists i, j ::
              && 0 <= i < |rows| && 0 <= j < |rows| && i != j && r.value == Apart(rows[i].id, rows[j].id)
              && IsFullOverwrite(rows[i]) && OneDestination(sinks, rows[i], rows[j])
  {
    hide Same, Longest, Acyclic, ById, SameDepth, SwapsApart, OneDestination, Resolved, ValidRows, IsOverwrite, IsScoped,
         AskedBy, LevelsAgree, OneDepth;
    var i := 0;
    while i < |rows| && !IsOverwrite(rows[i])
      invariant 0 <= i <= |rows| && forall k :: 0 <= k < i ==> !IsOverwrite(rows[k])
    {
      i := i + 1;
    }
    if i == |rows| {
      NothingOverwritten(sinks, rows);
      return None;
    }
    if sharded { return Some(Sharded(rows[i].id)); }
    var ids := Resolve(sinks, rows, IsOverwrite);
    DepthsAgree(sinks, rows, ids);
    var refused, _ := CheckLevels(sinks, ids, rows);
    if refused.None? { return None; }
    var refusal := refused.value;
    r := Some(Apart(refusal.row, refusal.others[0]));
    ghost var a, b := ConflictingPair(sinks, rows, ids, refusal);
  }

  lemma NothingOverwritten(sinks: Sinks, rows: seq<Row>)
    requires forall k :: 0 <= k < |rows| ==> !IsOverwrite(rows[k])
    ensures OneDepth(sinks, rows)
  {
    hide OneDestination, Longest, ById;
  }

  lemma DepthsAgree(sinks: Sinks, rows: seq<Row>, ids: Identities)
    requires ValidRows(rows) && Resolved(sinks, rows, AskedBy(sinks, rows, IsOverwrite), ids, |rows|)
    ensures SameDepth(sinks, ids, rows) <==> OneDepth(sinks, rows)
  {
    hide Same, Longest, ById, OneDestination, Resolved, AskedBy, ValidRows, IsOverwrite, IsScoped;
    forall i, j | 0 <= i < |rows| && 0 <= j < |rows| && IsFullOverwrite(rows[i]) && rows[j].id != rows[i].id
      ensures Same(sinks, ids, rows[i], rows[j]) <==> OneDestination(sinks, rows[i], rows[j])
    {
      SameIsOneDestination(sinks, rows, IsOverwrite, ids, i, j);
    }
  }

  lemma ConflictingPair(sinks: Sinks, rows: seq<Row>, ids: Identities, refusal: Refusal) returns (i: nat, j: nat)
    requires ValidRows(rows) && Resolved(sinks, rows, AskedBy(sinks, rows, IsOverwrite), ids, |rows|)
    requires exists levels, i, j :: 0 <= i < |rows| && 0 <= j < |rows|
               && refusal == Refusal(rows[i].id, [rows[j].id]) && Conflict(sinks, ids, levels, rows[i], rows[j])
    ensures i < |rows| && j < |rows| && i != j && refusal == Refusal(rows[i].id, [rows[j].id])
    ensures IsFullOverwrite(rows[i]) && OneDestination(sinks, rows[i], rows[j])
  {
    hide Same, OneDestination, Resolved, AskedBy, ValidRows, IsOverwrite, IsScoped;
    var levels, x, y :| 0 <= x < |rows| && 0 <= y < |rows|
                        && refusal == Refusal(rows[x].id, [rows[y].id]) && Conflict(sinks, ids, levels, rows[x], rows[y]);
    i, j := x, y;
    SameIsOneDestination(sinks, rows, IsOverwrite, ids, i, j);
  }

  /** Refuse rows that share a full-overwrite destination but run at different levels. */
  method CheckLevels(sinks: Sinks, ids: Identities, rows: seq<Row>)
    returns (refused: Option<Refusal>, ghost levels: map<string, nat>)
    ensures forall i :: 0 <= i < |rows| ==> rows[i].id in levels
    ensures Acyclic(ById(rows)) ==> forall id :: id in levels ==> Longest(ById(rows), id, levels[id])
    ensures refused.None? <==> LevelsAgree(sinks, ids, rows, levels)
    ensures Acyclic(ById(rows)) ==> (refused.None? <==> SameDepth(sinks, ids, rows))
    ensures Acyclic(ById(rows)) && refused.None? ==> SwapsApart(sinks, ids, rows)
    ensures refused.Some? ==> exists i, j ::
              && 0 <= i < |rows| && 0 <= j < |rows|
              && refused == Some(Refusal(rows[i].id, [rows[j].id]))
              && Conflict(sinks, ids, levels, rows[i], rows[j])
  {
    hide Same, IsFullOverwrite, Longest, Acyclic, ById, SameDepth, SwapsApart;
    var levelOf := Levels(rows);
    levels := levelOf;
    if Acyclic(ById(rows)) {
      AgreeIsSameDepth(sinks, ids, rows, levels);
      if LevelsAgree(sinks, ids, rows, levels) { AgreeIsApart(sinks, ids, rows, levels); }
    }
    for i := 0 to |rows|
      invariant forall x :: 0 <= x < i ==> RowAgrees(sinks, ids, rows, levelOf, x)
    {
      if IsFullOverwrite(rows[i]) {
        var p := PeerAtOtherLevel(sinks, ids, rows, levelOf, i);
        if p.Some? {
          ghost var j :| 0 <= j < |rows| && rows[j].id == p.value
                         && Conflict(sinks, ids, levelOf, rows[i], rows[j]);
          return Some(Refusal(rows[i].id, [p.value])), levels;
        }
      }
    }
    refused := None;
  }

  lemma AgreeIsSameDepth(sinks: Sinks, ids: Identities, rows: seq<Row>, levels: map<string, nat>)
    requires forall k :: 0 <= k < |rows| ==> rows[k].id in levels
    requires forall id :: id in levels ==> Longest(ById(rows), id, levels[id])
    ensures LevelsAgree(sinks, ids, rows, levels) <==> SameDepth(sinks, ids, rows)
  {
    hide Same, IsFullOverwrite, Longest, ById;
    forall id, l: nat | id in levels && Longest(ById(rows), id, l) ensures l == levels[id] {
      LongestUnique(ById(rows), id, l, levels[id]);
    }
    if SameDepth(sinks, ids, rows) {
      forall i | 0 <= i < |rows| ensures RowAgrees(sinks, ids, rows, levels, i) {
      }
    } else {
      var i, j, l: nat, m: nat :|
        && 0 <= i < |rows| && 0 <= j < |rows| && IsFullOverwrite(rows[i]) && rows[j].id != rows[i].id
        && Same(sinks, ids, rows[i], rows[j])
        && Longest(ById(rows), rows[i].id, l) && Longest(ById(rows), rows[j].id, m) && l != m;
      assert !RowAgrees(sinks, ids, rows, levels, i);
    }
  }

  lemma AgreeIsApart(sinks: Sinks, ids: Identities, rows: seq<Row>, levels: map<string, nat>)
    requires forall k :: 0 <= k < |rows| ==> rows[k].id in levels
    requires Acyclic(ById(rows)) && forall id :: id in levels ==> Longest(ById(rows), id, levels[id])
    requires LevelsAgree(sinks, ids, rows, levels)
    ensures SwapsApart(sinks, ids, rows)
  {
    hide Same, IsFullOverwrite, Longest, ById, Waits, Acyclic, LevelsAgree;
    forall i, j | 0 <= i < |rows| && 0 <= j < |rows| && IsFullOverwrite(rows[i]) && rows[i].id != rows[j].id
                  && Same(sinks, ids, rows[i], rows[j])
      ensures !Waits(ById(rows), rows[i].id, rows[j].id) && !Waits(ById(rows), rows[j].id, rows[i].id)
    {
      PassingLevels(sinks, ids, rows, levels, i, j);
    }
  }

  method PeerAtOtherLevel(sinks: Sinks, ids: Identities, rows: seq<Row>, levelOf: map<string, nat>, i: nat)
    returns (other: Option<string>)
    requires i < |rows| && forall k :: 0 <= k < |rows| ==> rows[k].id in levelOf
    requires IsFullOverwrite(rows[i])
    ensures other.None? <==> RowAgrees(sinks, ids, rows, levelOf, i)
    ensures other.Some? ==> exists j :: 0 <= j < |rows| && rows[j].id == other.value
                                        && Conflict(sinks, ids, levelOf, rows[i], rows[j])
  {
    hide Same, IsFullOverwrite;
    var peers := PeersWith(sinks, ids, rows[i], rows);
    for p := 0 to |peers|
      invariant forall q :: 0 <= q < p ==> peers[q].id in levelOf && levelOf[peers[q].id] == levelOf[rows[i].id]
    {
      assert peers[p] in peers;
      ghost var j :| 0 <= j < |rows| && rows[j] == peers[p];
      if levelOf[peers[p].id] != levelOf[rows[i].id] { return Some(peers[p].id); }
    }
    forall j | 0 <= j < |rows| && rows[j].id != rows[i].id && Same(sinks, ids, rows[i], rows[j])
      ensures levelOf[rows[i].id] == levelOf[rows[j].id]
    {
      assert rows[j] in peers;
    }
    other := None;
  }

  /** A passing level check on an acyclic plan: no full-overwrite row waits for a row
      sharing its destination, and none waits for it, so no swap replaces another
      row's data. */
  lemma PassingLevels(sinks: Sinks, ids: Identities, rows: seq<Row>, levels: map<string, nat>, i: nat, j: nat)
    requires forall k :: 0 <= k < |rows| ==> rows[k].id in levels
    requires Acyclic(ById(rows)) && forall id :: id in levels ==> Longest(ById(rows), id, levels[id])
    requires LevelsAgree(sinks, ids, rows, levels)
    requires i < |rows| && j < |rows| && rows[i].id != rows[j].id
    requires IsFullOverwrite(rows[i]) && Same(sinks, ids, rows[i], rows[j])
    ensures !Waits(ById(rows), rows[i].id, rows[j].id) && !Waits(ById(rows), rows[j].id, rows[i].id)
  {
    hide Same, IsFullOverwrite, Longest, Waits, Acyclic, ById;
    var g, a, b := ById(rows), rows[i].id, rows[j].id;
    assert RowAgrees(sinks, ids, rows, levels, i);
    if Waits(g, a, b) { LongestGrows(g, a, b, levels[a], levels[b]); }
    if Waits(g, b, a) { LongestGrows(g, b, a, levels[b], levels[a]); }
  }
}
