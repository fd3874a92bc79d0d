/**
 * Malleable reference resolution, as functions on an arena: the tables and
 * actions of the node array, the MblRefNode records they name by id, where
 * each reference sits (what its parent walk finds first), and the worklist
 * of reference ids.
 *
 * These functions specify the passes transformMalleableRefs,
 * transformMalleableFieldRef, duplicateActions, transformTableWithRefRead
 * and findAndTransformMblRefsInAction; the Program class runs them on its
 * fields with the loops of the original code.
 */
module Resolution {
  import opened Strings
  import opened Consts
  import opened AstP4R
  import opened AstP4
  import opened FindNodes

  /**
   * The first enclosing node a reference's parent walk meets: an action, a
   * table (the read at index `read` holds it), the reaction, or none at all.
   */
  datatype Loc = InAction(action: nat) | InRead(table: nat, read: nat) | InReaction | Nowhere

  datatype Arena = Arena(tables: seq<Table>, actions: seq<Action>, refs: seq<MblRef>, locs: seq<Loc>,
                         worklist: seq<nat>)

  predicate IdsIn(ids: seq<nat>, n: nat)
  {
    forall k :: 0 <= k < |ids| ==> ids[k] < n
  }

  predicate LocOk(l: Loc, tables: seq<Table>, numActions: nat)
  {
    match l
    case InAction(a) => a < numActions
    case InRead(t, r) => t < |tables| && r < |tables[t].readStmts|
    case _ => true
  }

  /** A table without a read list has no reads. */
  predicate TablesOk(tables: seq<Table>)
  {
    forall t :: 0 <= t < |tables| ==> (!tables[t].hasReads ==> |tables[t].readStmts| == 0)
  }

  /**
   * Every id names a record, every location exists, and every action names
   * existing records only.
   */
  predicate ArenaOk(ar: Arena)
  {
    |ar.locs| == |ar.refs|
    && (forall i :: 0 <= i < |ar.locs| ==> LocOk(ar.locs[i], ar.tables, |ar.actions|))
    && (forall a :: 0 <= a < |ar.actions| ==> IdsIn(ActionRefs(ar.actions[a]), |ar.refs|))
    && IdsIn(ar.worklist, |ar.refs|)
    && TablesOk(ar.tables)
  }

  // ---------------------------------------------------------------------
  // The ids an action's statements name
  // ---------------------------------------------------------------------

  lemma {:induction false} WordRefsAppend(xs: seq<Word>, ys: seq<Word>)
    ensures WordRefs(xs + ys) == WordRefs(xs) + WordRefs(ys)
    decreases |xs|
  {
    if |xs| == 0 {
      assert xs + ys == ys;
    } else {
      assert (xs + ys)[1..] == xs[1..] + ys && (xs + ys)[0] == xs[0];
      WordRefsAppend(xs[1..], ys);
    }
  }

  /** The ids of a prefix one word longer. */
  lemma WordRefsSnoc(ws: seq<Word>, j: nat)
    requires j < |ws|
    ensures WordRefs(ws[..j + 1]) == WordRefs(ws[..j]) + (if ws[j].RefWord? then [ws[j].ref] else [])
  {
    assert ws[..j + 1] == ws[..j] + [ws[j]];
    WordRefsAppend(ws[..j], [ws[j]]);
  }

  /** The ids of a prefix one statement longer. */
  lemma StmtRefsSnoc(ss: seq<ActionStmt>, i: nat)
    requires i < |ss|
    ensures StmtRefs(ss[..i + 1]) == StmtRefs(ss[..i]) + WordRefs(ss[i].args)
  {
    assert ss[..i + 1] == ss[..i] + [ss[i]];
    StmtRefsAppend(ss[..i], [ss[i]]);
    assert StmtRefs([ss[i]]) == WordRefs(ss[i].args) + StmtRefs([]);
  }

  /** The statement ids are among the action's ids. */
  lemma StmtIdsIn(a: Action, n: nat)
    requires IdsIn(ActionRefs(a), n)
    ensures IdsIn(StmtRefs(a.stmts), n)
  {
    var ps := ParamRefs(a.params);
    forall k | 0 <= k < |StmtRefs(a.stmts)| ensures StmtRefs(a.stmts)[k] < n {
      assert ActionRefs(a)[|ps| + k] == StmtRefs(a.stmts)[k];
    }
  }

  // ---------------------------------------------------------------------
  // findAndTransformMblRefsInAction
  // ---------------------------------------------------------------------

  /** The records after every reference among `ids` named `name` is retargeted to `header.field`. */
  function Retarget(refs: seq<MblRef>, ids: seq<nat>, name: string, header: string, field: string): (r: seq<MblRef>)
    ensures |r| == |refs|
  {
    seq(|refs|, k requires 0 <= k < |refs| =>
      if k in ids && refs[k].name == name then Transform(refs[k], header, field) else refs[k])
  }

  /** The ids among `ids`, in order, of references with another name that are not yet transformed. */
  function Pending(refs: seq<MblRef>, ids: seq<nat>, name: string): seq<nat>
    requires IdsIn(ids, |refs|)
    decreases |ids|
  {
    if |ids| == 0 then []
    else
      var n := |ids| - 1;
      var x := ids[n];
      Pending(refs, ids[..n], name) + (if refs[x].name != name && !refs[x].transformed then [x] else [])
  }

  /** Exactly the untransformed other-named references are pending, and each is a reference of `ids`. */
  lemma {:induction false} PendingExact(refs: seq<MblRef>, ids: seq<nat>, name: string)
    requires IdsIn(ids, |refs|)
    ensures forall x :: x in Pending(refs, ids, name) <==> x in ids && refs[x].name != name && !refs[x].transformed
    ensures IdsIn(Pending(refs, ids, name), |refs|)
    decreases |ids|
  {
    if |ids| > 0 {
      var n := |ids| - 1;
      assert ids == ids[..n] + [ids[n]];
      PendingExact(refs, ids[..n], name);
    }
  }

  /** The pending ids of one more id. */
  lemma PendingSnoc(refs: seq<MblRef>, ids: seq<nat>, x: nat, name: string)
    requires IdsIn(ids, |refs|) && x < |refs|
    ensures IdsIn(ids + [x], |refs|)
    ensures Pending(refs, ids + [x], name) ==
            Pending(refs, ids, name) + (if refs[x].name != name && !refs[x].transformed then [x] else [])
  {
    assert (ids + [x])[..|ids|] == ids;
  }

  /** The reference of word `j` of statement `i` is among the statements' ids. */
  lemma WordRefInStmts(ss: seq<ActionStmt>, i: nat, j: nat)
    requires i < |ss| && j < |ss[i].args| && ss[i].args[j].RefWord?
    ensures ss[i].args[j].ref in StmtRefs(ss)
  {
    var ws := ss[i].args;
    assert ws == ws[..j] + [ws[j]] + ws[j + 1..];
    WordRefsAppend(ws[..j] + [ws[j]], ws[j + 1..]);
    WordRefsAppend(ws[..j], [ws[j]]);
    assert ws[j].ref in WordRefs(ws);
    assert ss == ss[..i] + [ss[i]] + ss[i + 1..];
    StmtRefsAppend(ss[..i] + [ss[i]], ss[i + 1..]);
    StmtRefsAppend(ss[..i], [ss[i]]);
    assert StmtRefs([ss[i]]) == WordRefs(ws) + StmtRefs([]);
  }

  /** Retargeting one more id. */
  lemma RetargetSnoc(refs: seq<MblRef>, ids: seq<nat>, x: nat, name: string, header: string, field: string)
    requires x < |refs|
    ensures var r := Retarget(refs, ids, name, header, field);
            Retarget(refs, ids + [x], name, header, field) ==
              if refs[x].name == name then r[x := Transform(refs[x], header, field)] else r
  {
  }

  /** The loop step of findAndTransformMblRefsInAction on the current records `refs`. */
  lemma RetargetStep(refs0: seq<MblRef>, ids: seq<nat>, x: nat, name: string, header: string, field: string, refs: seq<MblRef>)
    requires x < |refs0| && refs == Retarget(refs0, ids, name, header, field)
    ensures refs[x].name == refs0[x].name
    ensures refs0[x].name != name ==> refs[x] == refs0[x]
    ensures Retarget(refs0, ids + [x], name, header, field) ==
            if refs[x].name == name then refs[x := Transform(refs[x], header, field)] else refs
  {
    RetargetSnoc(refs0, ids, x, name, header, field);
  }

  /** The worklist pushes of findAndTransformMblRefsInAction, when it pushes at all. */
  function Queued(refs: seq<MblRef>, ids: seq<nat>, name: string, push: bool): seq<nat>
    requires IdsIn(ids, |refs|)
  {
    if push then Pending(refs, ids, name) else []
  }

  /** The worklist step of findAndTransformMblRefsInAction on the current worklist `wl`. */
  lemma QueueStep(refs: seq<MblRef>, wl0: seq<nat>, ids: seq<nat>, x: nat, name: string, push: bool, wl: seq<nat>)
    requires IdsIn(ids, |refs|) && x < |refs| && wl == wl0 + Queued(refs, ids, name, push)
    ensures IdsIn(ids + [x], |refs|)
    ensures wl0 + Queued(refs, ids + [x], name, push) ==
            if push && refs[x].name != name && !refs[x].transformed then wl + [x] else wl
  {
    PendingSnoc(refs, ids, x, name);
  }

  /** Only references named `name` change, and they keep their name. */
  lemma RetargetNames(refs: seq<MblRef>, ids: seq<nat>, name: string, header: string, field: string)
    ensures forall k :: 0 <= k < |refs| ==>
              Retarget(refs, ids, name, header, field)[k].name == refs[k].name &&
              (refs[k].transformed ==> Retarget(refs, ids, name, header, field)[k].transformed)
  {
  }

  /**
   * findAndTransformMblRefsInAction on action `a`: every reference its
   * statements name `name` now stands for `header.field`; with a worklist,
   * the others not yet transformed are appended to it.
   */
  function InActionStep(ar: Arena, a: nat, name: string, header: string, field: string, push: bool): (r: Arena)
    requires ArenaOk(ar) && a < |ar.actions|
    ensures ArenaOk(r)
    ensures r.tables == ar.tables && r.actions == ar.actions && r.locs == ar.locs && |r.refs| == |ar.refs|
  {
    var ids := StmtRefs(ar.actions[a].stmts);
    StmtIdsIn(ar.actions[a], |ar.refs|);
    PendingExact(ar.refs, ids, name);
    ar.(refs := Retarget(ar.refs, ids, name, header, field),
        worklist := if push then ar.worklist + Pending(ar.refs, ids, name) else ar.worklist)
  }

  // ---------------------------------------------------------------------
  // duplicateActions
  // ---------------------------------------------------------------------

  /** The instantiated name of action `act` for one alternative: `__header__field__act`. */
  function AltName(alt: FieldName, act: string): string
  {
    "__" + alt.header + "__" + alt.field + "__" + act
  }

  /** The instantiated names, one per alternative, in order. */
  function AltNames(alts: seq<FieldName>, act: string): (names: seq<string>)
    ensures |names| == |alts| && forall k :: 0 <= k < |alts| ==> names[k] == AltName(alts[k], act)
  {
    seq(|alts|, k requires 0 <= k < |alts| => AltName(alts[k], act))
  }

  lemma AltNamesSnoc(alts: seq<FieldName>, k: nat, act: string)
    requires k < |alts|
    ensures AltNames(alts[..k + 1], act) == AltNames(alts[..k], act) + [AltName(alts[k], act)]
  {
    var xs, ys := AltNames(alts[..k + 1], act), AltNames(alts[..k], act) + [AltName(alts[k], act)];
    assert |xs| == |ys|;
    forall i | 0 <= i <= k ensures xs[i] == ys[i] {
      assert alts[..k + 1][i] == alts[i];
    }
  }

  /** The exact-match selector read `__P4RIngMeta.<var>__alt` of a malleable field. */
  function Selector(varName: string): string
  {
    IngMetadataName + "." + varName + IndexSuffix
  }

  function Repeat(l: Loc, n: nat): (r: seq<Loc>)
    ensures |r| == n && forall k :: 0 <= k < n ==> r[k] == l
  {
    seq(n, k => l)
  }

  /** An arena that grows by records and actions keeps its old ids and locations valid. */
  lemma GrowOk(ar: Arena, d: Action, copies: seq<MblRef>, l: Loc)
    requires ArenaOk(ar) && IdsIn(ActionRefs(d), |ar.refs| + |copies|) && LocOk(l, ar.tables, |ar.actions| + 1)
    ensures ArenaOk(ar.(actions := ar.actions + [d], refs := ar.refs + copies, locs := ar.locs + Repeat(l, |copies|)))
  {
    var ar1 := ar.(actions := ar.actions + [d], refs := ar.refs + copies, locs := ar.locs + Repeat(l, |copies|));
    forall i | 0 <= i < |ar1.locs| ensures LocOk(ar1.locs[i], ar1.tables, |ar1.actions|) {
      if i < |ar.locs| {
        assert ar1.locs[i] == ar.locs[i];
      }
    }
    forall a | 0 <= a < |ar1.actions| ensures IdsIn(ActionRefs(ar1.actions[a]), |ar1.refs|) {
      if a < |ar.actions| {
        assert ar1.actions[a] == ar.actions[a];
      }
    }
  }

  /**
   * One more alternative: a duplicate of action `a` under the alternative's
   * name, its copied reference records appended to the arena, then its
   * references of the variable retargeted to the alternative and its other
   * untransformed references appended to the worklist.
   */
  function AddCopy(ar: Arena, a: nat, alt: FieldName, act: string, varName: string): (r: Arena)
    requires ArenaOk(ar) && a < |ar.actions|
    ensures ArenaOk(r) && r.tables == ar.tables
    ensures |r.actions| == |ar.actions| + 1 && r.actions[..|ar.actions|] == ar.actions
    ensures |r.refs| == |ar.refs| + |ActionRefs(ar.actions[a])|
    ensures r.actions[|ar.actions|] == DuplicateAction(ar.actions[a], AltName(alt, act), |ar.refs|)
  {
    var orig := ar.actions[a];
    var next := |ar.refs|;
    var d := DuplicateAction(orig, AltName(alt, act), next);
    var copies := CopiedRefs(ActionRefs(orig), ar.refs);
    DuplicateActionFresh(orig, AltName(alt, act), next);
    GrowOk(ar, d, copies, InAction(|ar.actions|));
    var ar1 := ar.(actions := ar.actions + [d], refs := ar.refs + copies,
                   locs := ar.locs + Repeat(InAction(|ar.actions|), |copies|));
    assert ar1.actions[..|ar.actions|] == ar.actions;
    InActionStep(ar1, |ar.actions|, varName, alt.header, alt.field, true)
  }

  /** The duplicates for the remaining alternatives, appended in order. */
  function AddCopies(ar: Arena, a: nat, alts: seq<FieldName>, act: string, varName: string): (r: Arena)
    requires ArenaOk(ar) && a < |ar.actions|
    ensures ArenaOk(r) && r.tables == ar.tables
    ensures |r.actions| == |ar.actions| + |alts| && r.actions[..|ar.actions|] == ar.actions
    decreases |alts|
  {
    if |alts| == 0 then ar
    else
      var n := |alts| - 1;
      var ar1 := AddCopies(ar, a, alts[..n], act, varName);
      assert ar1.actions[a] == ar.actions[a];
      var r := AddCopy(ar1, a, alts[n], act, varName);
      assert r.actions[..|ar.actions|] == r.actions[..|ar1.actions|][..|ar.actions|];
      r
  }

  /**
   * The action side of duplicateActions: the action takes the first
   * alternative's name and its references of the variable are retargeted
   * to that alternative (nothing is queued); each further alternative adds
   * a duplicate of the renamed, retargeted action.
   */
  function DuplicateArena(ar: Arena, a: nat, alts: seq<FieldName>, varName: string): (r: Arena)
    requires ArenaOk(ar) && a < |ar.actions|
    ensures ArenaOk(r) && r.tables == ar.tables
    ensures |alts| == 0 ==> r == ar
    ensures |alts| > 0 ==> |r.actions| == |ar.actions| + |alts| - 1
  {
    if |alts| == 0 then ar
    else
      var act := ar.actions[a].name;
      var ar1 := ar.(actions := ar.actions[a := ar.actions[a].(name := AltName(alts[0], act))]);
      assert ActionRefs(ar1.actions[a]) == ActionRefs(ar.actions[a]);
      assert ArenaOk(ar1);
      var ar2 := InActionStep(ar1, a, varName, alts[0].header, alts[0].field, false);
      AddCopies(ar2, a, alts[1..], act, varName)
  }

  /** The action side after the first alternative: the renamed action, retargeted without queueing. */
  lemma DuplicateArenaFirst(ar: Arena, a: nat, alts: seq<FieldName>, varName: string, ar1: Arena)
    requires ArenaOk(ar) && a < |ar.actions| && |alts| > 0
    requires ar1 == ar.(actions := ar.actions[a := ar.actions[a].(name := AltName(alts[0], ar.actions[a].name))])
    ensures ArenaOk(ar1)
    ensures DuplicateArena(ar, a, alts[..1], varName) == InActionStep(ar1, a, varName, alts[0].header, alts[0].field, false)
  {
    assert ActionRefs(ar1.actions[a]) == ActionRefs(ar.actions[a]);
    assert alts[..1][0] == alts[0];
  }

  /** Each further alternative adds one duplicate of the current action `a`. */
  lemma DuplicateArenaSnoc(ar: Arena, a: nat, alts: seq<FieldName>, varName: string, k: nat)
    requires ArenaOk(ar) && a < |ar.actions| && 0 < k < |alts|
    ensures a < |DuplicateArena(ar, a, alts[..k], varName).actions|
    ensures DuplicateArena(ar, a, alts[..k + 1], varName) ==
            AddCopy(DuplicateArena(ar, a, alts[..k], varName), a, alts[k], ar.actions[a].name, varName)
  {
    assert alts[..k + 1][0] == alts[0] && alts[..k][0] == alts[0];
    var xs := alts[..k + 1][1..];
    assert |xs| == k && xs[..k - 1] == alts[..k][1..] && xs[k - 1] == alts[k];
  }

  /**
   * The table side of duplicateActions for one table listing the action at
   * `entry`: that entry takes the first name and the other names are
   * appended; the exact selector read is added unless present. A table
   * without a read list makes the original dereference a null pointer.
   */
  function AltTable(t: Table, entry: nat, names: seq<string>, selector: string): (r: Result<Table>)
    requires entry < |t.actions|
    ensures r.Ok? <==> t.hasReads
    ensures r.Ok? ==> |r.value.actions| >= |t.actions| && r.value.name == t.name && r.value.hasReads
    ensures r.Ok? ==> |r.value.readStmts| >= |t.readStmts|
  {
    var acts := if |names| == 0 then t.actions else t.actions[entry := names[0]] + names[1..];
    if !t.hasReads then Err("null read list")
    else
      var rs := if ReadsName(t.readStmts, selector) then t.readStmts
                else t.readStmts + [Read(Exact, StrField(selector))];
      Ok(t.(actions := acts, readStmts := rs))
  }

  /** Every entry names an existing table and one of its action entries. */
  predicate EntriesIn(tables: seq<Table>, es: seq<EntryRef>)
  {
    forall k :: 0 <= k < |es| ==> es[k].table < |tables| && es[k].entry < |tables[es[k].table].actions|
  }

  /** AltTable on every hit, in order; the first failure aborts. */
  function AltTables(tables: seq<Table>, es: seq<EntryRef>, names: seq<string>, selector: string): (r: Result<seq<Table>>)
    requires EntriesIn(tables, es)
    ensures r.Ok? ==> |r.value| == |tables|
    ensures r.Ok? ==> forall i :: 0 <= i < |tables| ==> |r.value[i].readStmts| >= |tables[i].readStmts|
    ensures r.Ok? && TablesOk(tables) ==> TablesOk(r.value)
    decreases |es|
  {
    if |es| == 0 then Ok(tables)
    else
      var e := es[0];
      match AltTable(tables[e.table], e.entry, names, selector)
      case Err(msg) => Err(msg)
      case Ok(t) =>
        var tables' := tables[e.table := t];
        assert EntriesIn(tables', es[1..]) by {
          forall k | 0 <= k < |es[1..]| ensures es[1..][k].table < |tables'| && es[1..][k].entry < |tables'[es[1..][k].table].actions| {
            assert es[1..][k] == es[k + 1];
          }
        }
        AltTables(tables', es[1..], names, selector)
  }

  /** One hit of the table side: its outcome decides the rest, or the rest goes on from the changed table. */
  lemma AltTablesStep(tables: seq<Table>, es: seq<EntryRef>, j: nat, names: seq<string>, selector: string, res: Result<Table>)
    requires j < |es| && EntriesIn(tables, es[j..])
    requires es[j].table < |tables| && es[j].entry < |tables[es[j].table].actions|
    requires res == AltTable(tables[es[j].table], es[j].entry, names, selector)
    ensures res.Err? ==> AltTables(tables, es[j..], names, selector).Err?
    ensures res.Ok? ==> EntriesIn(tables[es[j].table := res.value], es[j + 1..])
    ensures res.Ok? ==> AltTables(tables, es[j..], names, selector) ==
                        AltTables(tables[es[j].table := res.value], es[j + 1..], names, selector)
  {
    assert es[j..][0] == es[j] && es[j..][1..] == es[j + 1..];
  }

  /** The hits of findTableActionStmts name existing entries. */
  lemma HitsIn(tables: seq<Table>, name: string)
    ensures EntriesIn(tables, ActionEntries(tables, name))
  {
    ActionEntriesSound(tables, name);
    var es := ActionEntries(tables, name);
    forall k | 0 <= k < |es| ensures es[k].table < |tables| && es[k].entry < |tables[es[k].table].actions| {
      assert es[k] in es;
      assert Hit(tables, name, es[k]);
    }
  }

  // ---------------------------------------------------------------------
  // transformTableWithRefRead
  // ---------------------------------------------------------------------

  /** An exact match becomes ternary once a reference in it has several alternatives. */
  function Promoted(mt: MatchType): (r: MatchType)
    ensures r == Ternary || r == mt
    ensures r != Exact
  {
    if mt == Exact then Ternary else mt
  }

  /** The reads `alts` add beyond the first, all with match type `mt`. */
  function AltReads(alts: seq<FieldName>, mt: MatchType): (rs: seq<Read>)
    ensures |rs| == |alts| && forall k :: 0 <= k < |alts| ==> rs[k] == Read(mt, HdrField(alts[k]))
  {
    seq(|alts|, k requires 0 <= k < |alts| => Read(mt, HdrField(alts[k])))
  }

  /**
   * A reference in read `r` of table `t`: the selector read is added unless
   * present; the reference stands for the first alternative, its read is
   * promoted from exact to ternary, and every further alternative gets a
   * read of its own with that read's match type.
   */
  function WithRefRead(ar: Arena, id: nat, t: nat, r: nat, alts: seq<FieldName>): (res: Arena)
    requires ArenaOk(ar) && id < |ar.refs| && t < |ar.tables| && r < |ar.tables[t].readStmts|
    ensures ArenaOk(res) && res.actions == ar.actions && res.locs == ar.locs && res.worklist == ar.worklist
  {
    var tbl := ar.tables[t];
    var selector := Selector(ar.refs[id].name);
    var reads1 := if ReadsName(tbl.readStmts, selector) then tbl.readStmts
                  else tbl.readStmts + [Read(Exact, StrField(selector))];
    if |alts| == 0 then
      ar.(tables := ar.tables[t := tbl.(readStmts := reads1)])
    else
      var mt := Promoted(reads1[r].matchType);
      var reads2 := reads1[r := reads1[r].(matchType := mt)] + AltReads(alts[1..], mt);
      ar.(tables := ar.tables[t := tbl.(readStmts := reads2)],
          refs := ar.refs[id := Transform(ar.refs[id], alts[0].header, alts[0].field)])
  }

  // ---------------------------------------------------------------------
  // transformMalleableFieldRef and transformMalleableRefs
  // ---------------------------------------------------------------------

  /** A table change that keeps every read and leaves every table valid keeps the arena valid. */
  lemma TablesGrowOk(ar: Arena, ts: seq<Table>)
    requires ArenaOk(ar) && |ts| == |ar.tables| && TablesOk(ts)
    requires forall i :: 0 <= i < |ts| ==> |ts[i].readStmts| >= |ar.tables[i].readStmts|
    ensures ArenaOk(ar.(tables := ts))
  {
    forall i | 0 <= i < |ar.locs| ensures LocOk(ar.locs[i], ts, |ar.actions|) {
      assert LocOk(ar.locs[i], ar.tables, |ar.actions|);
    }
  }

  /**
   * duplicateActions for reference `id` in action `a`: the action side,
   * then the table side on the tables of the node array that list the
   * action under its original name.
   */
  function DuplicateAll(ar: Arena, id: nat, a: nat, alts: seq<FieldName>): (r: Result<Arena>)
    requires ArenaOk(ar) && id < |ar.refs| && a < |ar.actions|
    ensures r.Ok? ==> ArenaOk(r.value)
  {
    var act := ar.actions[a].name;
    var varName := ar.refs[id].name;
    var ar2 := DuplicateArena(ar, a, alts, varName);
    HitsIn(ar.tables, act);
    match AltTables(ar.tables, ActionEntries(ar.tables, act), AltNames(alts, act), Selector(varName))
    case Err(msg) => Err(msg)
    case Ok(ts) =>
      TablesGrowOk(ar2, ts);
      Ok(ar2.(tables := ts))
  }

  /** transformMalleableFieldRef: dispatch on what the reference's parent walk finds first. */
  function FieldRefStep(ar: Arena, id: nat, field: FieldDecl): (r: Result<Arena>)
    requires ArenaOk(ar) && id < |ar.refs|
    ensures r.Ok? ==> ArenaOk(r.value)
    ensures r.Err? <==> ar.locs[id].Nowhere? || (ar.locs[id].InAction? && DuplicateAll(ar, id, ar.locs[id].action, field.alts).Err?)
  {
    match ar.locs[id]
    case InAction(a) => DuplicateAll(ar, id, a, field.alts)
    case InRead(t, r) => Ok(WithRefRead(ar, id, t, r, field.alts))
    case InReaction => Ok(ar)
    case Nowhere => Err("Syntax Error: Could not find parent of variable reference")
  }

  /**
   * One turn of the transformMalleableRefs loop: take the first id off the
   * worklist; skip it if already transformed; a value reference inside the
   * reaction is only flagged, any other value reference becomes
   * `__P4RIngMeta.<name>`; a field reference goes to FieldRefStep; an
   * unknown name is reported and left alone.
   */
  function WorkStep(ar: Arena, values: map<string, ValueDecl>, fields: map<string, FieldDecl>): (r: Result<Arena>)
    requires ArenaOk(ar) && |ar.worklist| > 0
    ensures r.Ok? ==> ArenaOk(r.value)
  {
    var id := ar.worklist[0];
    var ar0 := ar.(worklist := ar.worklist[1..]);
    var ref := ar.refs[id];
    if ref.transformed then Ok(ar0)
    else if ref.name in values then
      if ar.locs[id] == InReaction then Ok(ar0.(refs := ar.refs[id := ref.(inReaction := true)]))
      else Ok(ar0.(refs := ar.refs[id := Transform(ref, IngMetadataName, ref.name)]))
    else if ref.name in fields then FieldRefStep(ar0, id, fields[ref.name])
    else Ok(ar0)
  }

  /**
   * The transformMalleableRefs loop for at most `fuel` turns: it stops when
   * the worklist is empty, and the first fatal error aborts.
   */
  function Run(ar: Arena, values: map<string, ValueDecl>, fields: map<string, FieldDecl>, fuel: nat): (r: Result<Arena>)
    requires ArenaOk(ar)
    ensures r.Ok? ==> ArenaOk(r.value)
    ensures r.Ok? && fuel > 0 && |ar.worklist| == 0 ==> r.value == ar
    decreases fuel
  {
    if |ar.worklist| == 0 || fuel == 0 then Ok(ar)
    else
      match WorkStep(ar, values, fields)
      case Err(msg) => Err(msg)
      case Ok(ar1) => Run(ar1, values, fields, fuel - 1)
  }

  // ---------------------------------------------------------------------
  // What resolution never undoes
  // ---------------------------------------------------------------------

  /**
   * `ar'` keeps every record of `ar` under its name and never turns a
   * transformed reference back; records, actions and tables are only added.
   */
  predicate Extends(ar: Arena, ar': Arena)
  {
    |ar'.refs| >= |ar.refs| && |ar'.actions| >= |ar.actions| && |ar'.tables| == |ar.tables|
    && forall k :: 0 <= k < |ar.refs| ==>
         ar'.refs[k].name == ar.refs[k].name && (ar.refs[k].transformed ==> ar'.refs[k].transformed)
  }

  lemma ExtendsTrans(a1: Arena, a2: Arena, a3: Arena)
    requires Extends(a1, a2) && Extends(a2, a3)
    ensures Extends(a1, a3)
  {
    forall k | 0 <= k < |a1.refs|
      ensures a3.refs[k].name == a1.refs[k].name && (a1.refs[k].transformed ==> a3.refs[k].transformed)
    {
      assert a2.refs[k].name == a1.refs[k].name;
    }
  }

  lemma InActionStepExtends(ar: Arena, a: nat, name: string, header: string, field: string, push: bool)
    requires ArenaOk(ar) && a < |ar.actions|
    ensures Extends(ar, InActionStep(ar, a, name, header, field, push))
  {
    RetargetNames(ar.refs, StmtRefs(ar.actions[a].stmts), name, header, field);
  }

  lemma AddCopyExtends(ar: Arena, a: nat, alt: FieldName, act: string, varName: string)
    requires ArenaOk(ar) && a < |ar.actions|
    ensures Extends(ar, AddCopy(ar, a, alt, act, varName))
  {
    var orig := ar.actions[a];
    var d := DuplicateAction(orig, AltName(alt, act), |ar.refs|);
    var copies := CopiedRefs(ActionRefs(orig), ar.refs);
    DuplicateActionFresh(orig, AltName(alt, act), |ar.refs|);
    GrowOk(ar, d, copies, InAction(|ar.actions|));
    var ar1 := ar.(actions := ar.actions + [d], refs := ar.refs + copies,
                   locs := ar.locs + Repeat(InAction(|ar.actions|), |copies|));
    InActionStepExtends(ar1, |ar.actions|, varName, alt.header, alt.field, true);
    assert Extends(ar, ar1);
    ExtendsTrans(ar, ar1, AddCopy(ar, a, alt, act, varName));
  }

  lemma AddCopiesLast(ar: Arena, a: nat, alts: seq<FieldName>, act: string, varName: string)
    requires ArenaOk(ar) && a < |ar.actions| && |alts| > 0
    ensures Extends(AddCopies(ar, a, alts[..|alts|-1], act, varName), AddCopies(ar, a, alts, act, varName))
  {
    var n := |alts| - 1;
    var ar1 := AddCopies(ar, a, alts[..n], act, varName);
    assert ar1.actions[a] == ar.actions[a];
    AddCopyExtends(ar1, a, alts[n], act, varName);
  }

  lemma {:induction false} AddCopiesExtends(ar: Arena, a: nat, alts: seq<FieldName>, act: string, varName: string)
    requires ArenaOk(ar) && a < |ar.actions|
    ensures Extends(ar, AddCopies(ar, a, alts, act, varName))
    decreases |alts|
  {
    if |alts| > 0 {
      var n := |alts| - 1;
      AddCopiesExtends(ar, a, alts[..n], act, varName);
      AddCopiesLast(ar, a, alts, act, varName);
      ExtendsTrans(ar, AddCopies(ar, a, alts[..n], act, varName), AddCopies(ar, a, alts, act, varName));
    }
  }

  lemma DuplicateAllExtends(ar: Arena, id: nat, a: nat, alts: seq<FieldName>)
    requires ArenaOk(ar) && id < |ar.refs| && a < |ar.actions|
    ensures DuplicateAll(ar, id, a, alts).Ok? ==> Extends(ar, DuplicateAll(ar, id, a, alts).value)
  {
    if |alts| > 0 {
      var act := ar.actions[a].name;
      var varName := ar.refs[id].name;
      var ar1 := ar.(actions := ar.actions[a := ar.actions[a].(name := AltName(alts[0], act))]);
      assert ActionRefs(ar1.actions[a]) == ActionRefs(ar.actions[a]);
      var ar2 := InActionStep(ar1, a, varName, alts[0].header, alts[0].field, false);
      InActionStepExtends(ar1, a, varName, alts[0].header, alts[0].field, false);
      AddCopiesExtends(ar2, a, alts[1..], act, varName);
      ExtendsTrans(ar1, ar2, AddCopies(ar2, a, alts[1..], act, varName));
    }
  }

  /**
   * A turn of the worklist loop keeps every reference's name, never
   * un-transforms a reference, and only adds records, actions and reads.
   */
  lemma WorkStepExtends(ar: Arena, values: map<string, ValueDecl>, fields: map<string, FieldDecl>)
    requires ArenaOk(ar) && |ar.worklist| > 0
    ensures WorkStep(ar, values, fields).Ok? ==> Extends(ar, WorkStep(ar, values, fields).value)
  {
    var id := ar.worklist[0];
    var ar0 := ar.(worklist := ar.worklist[1..]);
    var ref := ar.refs[id];
    if !ref.transformed && ref.name !in values && ref.name in fields {
      match ar.locs[id]
      case InAction(a) => DuplicateAllExtends(ar0, id, a, fields[ref.name].alts);
      case _ =>
    }
  }

  /** The whole loop keeps names and transformations, whatever it runs into. */
  lemma {:induction false} RunExtends(ar: Arena, values: map<string, ValueDecl>, fields: map<string, FieldDecl>, fuel: nat)
    requires ArenaOk(ar)
    ensures Run(ar, values, fields, fuel).Ok? ==> Extends(ar, Run(ar, values, fields, fuel).value)
    decreases fuel
  {
    if |ar.worklist| > 0 && fuel > 0 {
      WorkStepExtends(ar, values, fields);
      match WorkStep(ar, values, fields)
      case Err(_) =>
      case Ok(ar1) =>
        RunExtends(ar1, values, fields, fuel - 1);
        if Run(ar1, values, fields, fuel - 1).Ok? {
          ExtendsTrans(ar, ar1, Run(ar1, values, fields, fuel - 1).value);
        }
    }
  }

  // ---------------------------------------------------------------------
  // What duplicateActions, transformTableWithRefRead and the loop produce
  // ---------------------------------------------------------------------

  lemma AddCopiesLastAction(ar: Arena, a: nat, alts: seq<FieldName>, act: string, varName: string)
    requires ArenaOk(ar) && a < |ar.actions| && |alts| > 0
    ensures AddCopies(ar, a, alts, act, varName).actions[..|ar.actions| + |alts| - 1] ==
            AddCopies(ar, a, alts[..|alts| - 1], act, varName).actions
    ensures AddCopies(ar, a, alts, act, varName).actions[|ar.actions| + |alts| - 1] ==
            DuplicateAction(ar.actions[a], AltName(alts[|alts| - 1], act),
                            |AddCopies(ar, a, alts[..|alts| - 1], act, varName).refs|)
  {
    var n := |alts| - 1;
    var ar1 := AddCopies(ar, a, alts[..n], act, varName);
    assert ar1.actions[a] == ar.actions[a];
  }

  /** From index `from` on, `acts` holds one action per alternative, named for it, of `len` statements. */
  predicate NamedCopies(acts: seq<Action>, from: nat, alts: seq<FieldName>, act: string, len: nat)
  {
    |acts| >= from + |alts| &&
    forall k :: 0 <= k < |alts| ==> acts[from + k].name == AltName(alts[k], act) && |acts[from + k].stmts| == len
  }

  lemma NamedCopiesSnoc(acts: seq<Action>, acts': seq<Action>, from: nat, alts: seq<FieldName>, act: string, len: nat)
    requires |alts| > 0 && NamedCopies(acts, from, alts[..|alts| - 1], act, len)
    requires |acts'| > from + |alts| - 1 && acts'[..from + |alts| - 1] == acts
    requires acts'[from + |alts| - 1].name == AltName(alts[|alts| - 1], act)
    requires |acts'[from + |alts| - 1].stmts| == len
    ensures NamedCopies(acts', from, alts, act, len)
  {
    var n := |alts| - 1;
    forall k | 0 <= k < n ensures acts'[from + k].name == AltName(alts[k], act) && |acts'[from + k].stmts| == len {
      assert acts'[from + k] == acts[from + k];
      assert alts[..n][k] == alts[k];
    }
  }

  /** The k-th appended action is a duplicate of action `a` named for the k-th alternative. */
  lemma {:induction false} AddCopiesNames(ar: Arena, a: nat, alts: seq<FieldName>, act: string, varName: string)
    requires ArenaOk(ar) && a < |ar.actions|
    ensures NamedCopies(AddCopies(ar, a, alts, act, varName).actions, |ar.actions|, alts, act, |ar.actions[a].stmts|)
    decreases |alts|
  {
    if |alts| > 0 {
      var n := |alts| - 1;
      AddCopiesNames(ar, a, alts[..n], act, varName);
      AddCopiesLastAction(ar, a, alts, act, varName);
      NamedCopiesSnoc(AddCopies(ar, a, alts[..n], act, varName).actions, AddCopies(ar, a, alts, act, varName).actions,
                      |ar.actions|, alts, act, |ar.actions[a].stmts|);
    }
  }

  /**
   * duplicateActions on the action side: the action takes the first
   * alternative's name, one duplicate per further alternative follows the
   * existing actions in order, and every other action is left alone.
   */
  lemma DuplicateArenaNames(ar: Arena, a: nat, alts: seq<FieldName>, varName: string)
    requires ArenaOk(ar) && a < |ar.actions| && |alts| > 0
    ensures DuplicateArena(ar, a, alts, varName).actions[a].name == AltName(alts[0], ar.actions[a].name)
    ensures forall k :: 1 <= k < |alts| ==>
              DuplicateArena(ar, a, alts, varName).actions[|ar.actions| + k - 1].name == AltName(alts[k], ar.actions[a].name)
    ensures forall i :: 0 <= i < |ar.actions| && i != a ==> DuplicateArena(ar, a, alts, varName).actions[i] == ar.actions[i]
  {
    var act := ar.actions[a].name;
    var ar1 := ar.(actions := ar.actions[a := ar.actions[a].(name := AltName(alts[0], act))]);
    assert ActionRefs(ar1.actions[a]) == ActionRefs(ar.actions[a]);
    var ar2 := InActionStep(ar1, a, varName, alts[0].header, alts[0].field, false);
    AddCopiesNames(ar2, a, alts[1..], act, varName);
    var r := AddCopies(ar2, a, alts[1..], act, varName);
    assert r == DuplicateArena(ar, a, alts, varName);
    assert r.actions[..|ar.actions|] == ar2.actions;
    forall i | 0 <= i < |ar.actions| ensures r.actions[i] == ar2.actions[i] {
      assert r.actions[i] == r.actions[..|ar.actions|][i];
    }
    forall k | 1 <= k < |alts| ensures r.actions[|ar.actions| + k - 1].name == AltName(alts[k], act) {
      assert alts[1..][k - 1] == alts[k];
    }
  }

  /** Some table visited by `es` has no read list. */
  predicate SomeLacksReads(tables: seq<Table>, es: seq<EntryRef>)
    requires EntriesIn(tables, es)
  {
    exists k :: 0 <= k < |es| && !tables[es[k].table].hasReads
  }

  lemma SomeLacksReadsTail(tables: seq<Table>, tables': seq<Table>, es: seq<EntryRef>)
    requires |es| > 0 && EntriesIn(tables, es) && EntriesIn(tables', es[1..]) && |tables'| == |tables|
    requires tables[es[0].table].hasReads
    requires forall i :: 0 <= i < |tables| ==> tables'[i].hasReads == tables[i].hasReads
    ensures SomeLacksReads(tables, es) <==> SomeLacksReads(tables', es[1..])
  {
    if SomeLacksReads(tables, es) {
      var k :| 0 <= k < |es| && !tables[es[k].table].hasReads;
      assert es[1..][k - 1] == es[k];
    }
    if SomeLacksReads(tables', es[1..]) {
      var k :| 0 <= k < |es[1..]| && !tables'[es[1..][k].table].hasReads;
      assert es[1..][k] == es[k + 1];
    }
  }

  /** The table side fails exactly when a table it visits has no read list. */
  lemma {:induction false} AltTablesFails(tables: seq<Table>, es: seq<EntryRef>, names: seq<string>, selector: string)
    requires EntriesIn(tables, es)
    ensures AltTables(tables, es, names, selector).Err? <==> SomeLacksReads(tables, es)
    decreases |es|
  {
    if |es| > 0 {
      var e := es[0];
      var res := AltTable(tables[e.table], e.entry, names, selector);
      if res.Ok? {
        var tables' := tables[e.table := res.value];
        assert EntriesIn(tables', es[1..]) by {
          forall k | 0 <= k < |es[1..]| ensures es[1..][k].table < |tables'| && es[1..][k].entry < |tables'[es[1..][k].table].actions| {
            assert es[1..][k] == es[k + 1];
          }
        }
        AltTablesFails(tables', es[1..], names, selector);
        SomeLacksReadsTail(tables, tables', es);
      }
    }
  }

  /**
   * duplicateActions fails exactly when some table listing the action has
   * no read list: the selector cannot be added to it.
   */
  lemma DuplicateAllFails(ar: Arena, id: nat, a: nat, alts: seq<FieldName>)
    requires ArenaOk(ar) && id < |ar.refs| && a < |ar.actions|
    ensures DuplicateAll(ar, id, a, alts).Err? <==>
              exists t :: 0 <= t < |ar.tables| && ar.actions[a].name in ar.tables[t].actions && !ar.tables[t].hasReads
  {
    var act := ar.actions[a].name;
    var es := ActionEntries(ar.tables, act);
    HitsIn(ar.tables, act);
    ActionEntriesSound(ar.tables, act);
    var names := AltNames(alts, act);
    var sel := Selector(ar.refs[id].name);
    AltTablesFails(ar.tables, es, names, sel);
    if SomeLacksReads(ar.tables, es) {
      var k :| 0 <= k < |es| && !ar.tables[es[k].table].hasReads;
      assert es[k] in es;
      assert Hit(ar.tables, act, es[k]);
    }
    if exists t :: 0 <= t < |ar.tables| && act in ar.tables[t].actions && !ar.tables[t].hasReads {
      var t :| 0 <= t < |ar.tables| && act in ar.tables[t].actions && !ar.tables[t].hasReads;
      ActionEntriesComplete(ar.tables, act, t);
    }
  }

  /**
   * duplicateActions on one table: the entry takes the first name, the
   * others follow the old entries in order, other entries stay, and the
   * old reads are kept with the selector read present, added at most once.
   */
  lemma AltTableMeaning(t: Table, entry: nat, names: seq<string>, selector: string)
    requires entry < |t.actions| && t.hasReads && |names| > 0
    ensures AltTable(t, entry, names, selector).Ok?
    ensures var u := AltTable(t, entry, names, selector).value;
            |u.actions| == |t.actions| + |names| - 1 && u.actions[entry] == names[0] &&
            u.actions[|t.actions|..] == names[1..] &&
            (forall i :: 0 <= i < |t.actions| && i != entry ==> u.actions[i] == t.actions[i]) &&
            u.readStmts[..|t.readStmts|] == t.readStmts && |u.readStmts| <= |t.readStmts| + 1 &&
            ReadsName(u.readStmts, selector)
  {
    var u := AltTable(t, entry, names, selector).value;
    if !ReadsName(t.readStmts, selector) {
      assert u.readStmts[|t.readStmts|].field == StrField(selector);
    }
  }

  /**
   * transformTableWithRefRead on the references and tables: the reference
   * stands for the first alternative, and no other reference or table
   * changes.
   */
  lemma WithRefReadRefs(ar: Arena, id: nat, t: nat, r: nat, alts: seq<FieldName>)
    requires ArenaOk(ar) && id < |ar.refs| && t < |ar.tables| && r < |ar.tables[t].readStmts| && |alts| > 0
    ensures WithRefRead(ar, id, t, r, alts).refs == ar.refs[id := Transform(ar.refs[id], alts[0].header, alts[0].field)]
    ensures |WithRefRead(ar, id, t, r, alts).tables| == |ar.tables|
    ensures forall i :: 0 <= i < |ar.tables| && i != t ==> WithRefRead(ar, id, t, r, alts).tables[i] == ar.tables[i]
  {
  }

  /**
   * transformTableWithRefRead on the table's reads: the selector read is
   * present, the old reads are kept in place except that the reference's
   * read becomes ternary where it was exact, and each further alternative
   * has a read of that match type at the end.
   */
  lemma WithRefReadReads(ar: Arena, id: nat, t: nat, r: nat, alts: seq<FieldName>, rs: seq<Read>)
    requires ArenaOk(ar) && id < |ar.refs| && t < |ar.tables| && r < |ar.tables[t].readStmts| && |alts| > 0
    requires rs == WithRefRead(ar, id, t, r, alts).tables[t].readStmts
    ensures ReadsName(rs, Selector(ar.refs[id].name))
    ensures |rs| >= |ar.tables[t].readStmts| + |alts| - 1
    ensures rs[r] == ar.tables[t].readStmts[r].(matchType := Promoted(ar.tables[t].readStmts[r].matchType))
    ensures forall i :: 0 <= i < |ar.tables[t].readStmts| && i != r ==> rs[i] == ar.tables[t].readStmts[i]
    ensures forall k :: 1 <= k < |alts| ==>
              rs[|rs| - |alts| + k] == Read(Promoted(ar.tables[t].readStmts[r].matchType), HdrField(alts[k]))
  {
    var tbl := ar.tables[t];
    var selector := Selector(ar.refs[id].name);
    var reads1 := if ReadsName(tbl.readStmts, selector) then tbl.readStmts
                  else tbl.readStmts + [Read(Exact, StrField(selector))];
    var mt := Promoted(reads1[r].matchType);
    assert rs == reads1[r := reads1[r].(matchType := mt)] + AltReads(alts[1..], mt);
    if ReadsName(tbl.readStmts, selector) {
      var i :| 0 <= i < |tbl.readStmts| && tbl.readStmts[i].field == StrField(selector);
      assert rs[i].field == StrField(selector);
    } else {
      assert rs[|tbl.readStmts|].field == StrField(selector);
    }
    forall k | 1 <= k < |alts| ensures rs[|rs| - |alts| + k] == Read(mt, HdrField(alts[k])) {
      assert rs[|reads1| + (k - 1)] == AltReads(alts[1..], mt)[k - 1];
    }
  }

  /**
   * A turn of the loop: an already transformed reference is only popped; a
   * value reference outside the reaction now stands for its metadata field,
   * one inside the reaction is only flagged and stays untransformed, and a
   * reference to an unknown name is popped and left as it is.
   */
  lemma WorkStepMeaning(ar: Arena, values: map<string, ValueDecl>, fields: map<string, FieldDecl>)
    requires ArenaOk(ar) && |ar.worklist| > 0
    ensures ar.refs[ar.worklist[0]].transformed ==> WorkStep(ar, values, fields) == Ok(ar.(worklist := ar.worklist[1..]))
    ensures var id := ar.worklist[0];
            !ar.refs[id].transformed && ar.refs[id].name in values && ar.locs[id] != InReaction ==>
              WorkStep(ar, values, fields).Ok? &&
              WorkStep(ar, values, fields).value.refs[id] == Transform(ar.refs[id], IngMetadataName, ar.refs[id].name)
    ensures var id := ar.worklist[0];
            !ar.refs[id].transformed && ar.refs[id].name in values && ar.locs[id] == InReaction ==>
              WorkStep(ar, values, fields) ==
                Ok(ar.(worklist := ar.worklist[1..], refs := ar.refs[id := ar.refs[id].(inReaction := true)]))
    ensures var id := ar.worklist[0];
            !ar.refs[id].transformed && ar.refs[id].name !in values && ar.refs[id].name !in fields ==>
              WorkStep(ar, values, fields) == Ok(ar.(worklist := ar.worklist[1..]))
  {
  }
}
