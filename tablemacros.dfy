// The table-manipulation macros of the control-plane generator
// (generateMacroNonMblTable and generateMacroMblTable in
// src/compile/compile_c.cpp): for each table, a delete macro and an add
// and a modify macro per action when the table has reads, or a
// set-default macro per action when it has none. A macro is modelled by
// its name, its parameter list and the statements of its body.

module TableMacros {
  import opened Strings
  import opened Consts
  import opened AstP4

  /** A read of a table: its match type and the text of its field. */
  datatype ReadView = ReadView(matchType: MatchType, field: string)

  /** A table as the generator sees it; `reads` is None when the table has no reads block. */
  datatype TableView = TableView(name: string, isMalleable: bool, readList: Option<seq<ReadView>>, actions: seq<string>)

  /** An action declaration: its name and the texts of its parameters. */
  datatype ActionView = ActionView(name: string, params: seq<string>)

  /** A macro parameter: ARG_INDEX, ARG_n, ARG_n_MASK, ARG_PRIO, ARG_ACTION_n, or nothing between two commas. */
  datatype MacroParam = IndexParam | MatchArg(n: nat) | MaskArg(n: nat) | PrioArg | ActionArg(n: nat) | EmptyParam

  /** `<table>_del`, `<table>_add_<action>`, `<table>_mod_<action>`, `<table>_<action>`. */
  datatype MacroName = Del(table: string) | Add(table: string, action: string)
                     | Mod(table: string, action: string) | SetDefault(table: string, action: string)

  /** A statement of a macro body. */
  datatype SpecLine =
    | DeclMatchSpec                                   // <table>_match_spec_t <table>_match_spec_##ARG_INDEX;
    | SetMatch(field: string, arg: nat)               // <table>_match_spec_##ARG_INDEX.<field>=ARG_n;
    | SetMask(field: string, arg: nat)                // ....<field>_mask=ARG_n_MASK;
    | SetMatchVv(field: string)                       // ....<field>=__mantis__vv;
    | SetPriority                                     // int priority_##ARG_INDEX=ARG_PRIO;
    | DeclActionSpec(action: string, perEntry: bool)  // <action>_action_spec_t <action>_action_spec[_##ARG_INDEX];
    | SetActionArg(action: string, param: string, arg: nat, perEntry: bool)  // ....action_<param>=ARG_ACTION_n;
    | DeleteCall | AddCall(action: string) | ModifyCall(action: string) | DefaultCall(action: string, withSpec: bool)

  datatype Macro = Macro(name: MacroName, params: seq<MacroParam>, body: seq<SpecLine>)

  /** The field name the version-bit read of a malleable table takes once `.` is made `_`. */
  const VvMatchField := IngMetadataName + "_" + VvField

  /** The C spelling of a read's field. */
  function CField(r: ReadView): string
  {
    ReplaceChar(r.field, '.', '_')
  }

  /** The version-bit read of a malleable table, filled from `__mantis__vv` rather than by the user. */
  predicate IsVvRead(r: ReadView, mbl: bool)
  {
    mbl && r.matchType == Exact && CField(r) == VvMatchField
  }

  // ---------------------------------------------------------------------
  // The match arguments
  // ---------------------------------------------------------------------

  /** The match part of an add macro: its parameters, its statements and the number of ARG_n used. */
  datatype MatchPart = MatchPart(params: seq<MacroParam>, lines: seq<SpecLine>, count: nat)

  /**
   * The walk over the reads: a ternary read takes ARG_n and ARG_n_MASK, an
   * exact read ARG_n, and the version-bit read of a malleable table takes
   * none; n counts the reads that took one.
   */
  function Matches(rds: seq<ReadView>, mbl: bool): (r: MatchPart)
    decreases |rds|
  {
    if |rds| == 0 then MatchPart([], [], 0)
    else
      var m := Matches(rds[..|rds| - 1], mbl);
      var rd := rds[|rds| - 1];
      var f := CField(rd);
      if rd.matchType == Ternary then
        MatchPart(m.params + [MatchArg(m.count), MaskArg(m.count)], m.lines + [SetMatch(f, m.count), SetMask(f, m.count)], m.count + 1)
      else if IsVvRead(rd, mbl) then
        MatchPart(m.params, m.lines + [SetMatchVv(f)], m.count)
      else
        MatchPart(m.params + [MatchArg(m.count)], m.lines + [SetMatch(f, m.count)], m.count + 1)
  }

  predicate HasTernary(rds: seq<ReadView>)
  {
    exists k :: 0 <= k < |rds| && rds[k].matchType == Ternary
  }

  /** The number of reads that take a user argument. */
  function UserReads(rds: seq<ReadView>, mbl: bool): nat
    decreases |rds|
  {
    if |rds| == 0 then 0
    else UserReads(rds[..|rds| - 1], mbl) + (if IsVvRead(rds[|rds| - 1], mbl) then 0 else 1)
  }

  function Num(p: MacroParam): nat
  {
    match p
    case MatchArg(n) => n
    case MaskArg(n) => n
    case ActionArg(n) => n
    case _ => 0
  }

  /** The parameters are pairwise different: a C macro may not name a parameter twice. */
  predicate Distinct(ps: seq<MacroParam>)
  {
    forall i, j :: 0 <= i < j < |ps| ==> ps[i] != ps[j]
  }

  /**
   * Match parameters numbered below `count`, in non-decreasing order, none
   * named twice, and none at all exactly when nothing was numbered.
   */
  ghost predicate Numbered(ps: seq<MacroParam>, count: nat)
  {
    (forall i :: 0 <= i < |ps| ==> (ps[i].MatchArg? || ps[i].MaskArg?) && Num(ps[i]) < count) &&
    (forall i, j :: 0 <= i < j < |ps| ==> Num(ps[i]) <= Num(ps[j])) &&
    Distinct(ps) &&
    (|ps| == 0 <==> count == 0)
  }

  /**
   * The match arguments are numbered consecutively from 0, one number per
   * read that takes a user argument, each ternary read adding its mask;
   * no parameter is named twice.
   */
  lemma {:induction false} MatchesNumbered(rds: seq<ReadView>, mbl: bool)
    ensures Matches(rds, mbl).count == UserReads(rds, mbl)
    ensures Numbered(Matches(rds, mbl).params, Matches(rds, mbl).count)
    decreases |rds|
  {
    if |rds| > 0 {
      var n := |rds| - 1;
      var m := Matches(rds[..n], mbl);
      MatchesNumbered(rds[..n], mbl);
      if rds[n].matchType == Ternary {
        NumberedSnoc(m.params, m.count, [MatchArg(m.count), MaskArg(m.count)]);
      } else if !IsVvRead(rds[n], mbl) {
        NumberedSnoc(m.params, m.count, [MatchArg(m.count)]);
      }
    }
  }

  /** A read taking a user argument appends the next number: its match argument, and for a ternary read its mask. */
  lemma NumberedSnoc(ps: seq<MacroParam>, count: nat, xs: seq<MacroParam>)
    requires Numbered(ps, count)
    requires xs == [MatchArg(count)] || xs == [MatchArg(count), MaskArg(count)]
    ensures Numbered(ps + xs, count + 1)
  {
    var r := ps + xs;
    forall i, j | 0 <= i < j < |r|
      ensures Num(r[i]) <= Num(r[j]) && r[i] != r[j]
    {
      if j >= |ps| {
        assert r[j] == xs[j - |ps|];
        if i < |ps| {
          assert r[i] == ps[i];
        }
      }
    }
  }

  predicate HasMask(ps: seq<MacroParam>)
  {
    exists i :: 0 <= i < |ps| && ps[i].MaskArg?
  }

  /** ARG_PRIO's condition: the scan finds a ternary read exactly when there is one. */
  lemma {:induction false} MatchesMasks(rds: seq<ReadView>, mbl: bool)
    ensures HasMask(Matches(rds, mbl).params) <==> HasTernary(rds)
    decreases |rds|
  {
    if |rds| > 0 {
      var n := |rds| - 1;
      var m := Matches(rds[..n], mbl);
      var r := Matches(rds, mbl);
      MatchesMasks(rds[..n], mbl);
      assert forall k :: 0 <= k < n ==> rds[..n][k] == rds[k];
      if HasTernary(rds[..n]) {
        var k :| 0 <= k < n && rds[..n][k].matchType == Ternary;
        assert rds[k].matchType == Ternary;
        var i :| 0 <= i < |m.params| && m.params[i].MaskArg?;
        assert r.params[i] == m.params[i];
      } else if rds[n].matchType == Ternary {
        assert r.params[|m.params| + 1].MaskArg?;
      } else {
        assert !HasTernary(rds);
        assert r.params == m.params || r.params == m.params + [MatchArg(m.count)];
        forall i | 0 <= i < |r.params|
          ensures !r.params[i].MaskArg?
        {
          if i < |m.params| {
            assert r.params[i] == m.params[i];
          }
        }
      }
    }
  }

  /** The inner loop over the reads of one add macro. */
  method MatchArgs(rds: seq<ReadView>, mbl: bool) returns (r: MatchPart)
    ensures r == Matches(rds, mbl)
  {
    var params: seq<MacroParam> := [];
    var lines: seq<SpecLine> := [];
    var argIndex := 0;
    var i := 0;
    while i < |rds|
      invariant 0 <= i <= |rds| && Matches(rds[..i], mbl) == MatchPart(params, lines, argIndex)
    {
      assert rds[..i + 1][..i] == rds[..i];
      var f := ReplaceChar(rds[i].field, '.', '_');
      if rds[i].matchType == Ternary {
        params := params + [MatchArg(argIndex), MaskArg(argIndex)];
        lines := lines + [SetMatch(f, argIndex), SetMask(f, argIndex)];
        argIndex := argIndex + 1;
      } else if mbl && f == VvMatchField {
        lines := lines + [SetMatchVv(f)];
      } else {
        params := params + [MatchArg(argIndex)];
        lines := lines + [SetMatch(f, argIndex)];
        argIndex := argIndex + 1;
      }
      i := i + 1;
    }
    assert rds[..i] == rds;
    r := MatchPart(params, lines, argIndex);
  }

  /** The scan for a ternary read, which stops at the first. */
  method FindTernary(rds: seq<ReadView>) returns (found: bool)
    ensures found <==> HasTernary(rds)
  {
    found := false;
    var i := 0;
    while i < |rds|
      invariant 0 <= i <= |rds| && forall k :: 0 <= k < i ==> rds[k].matchType != Ternary
    {
      if rds[i].matchType == Ternary {
        return true;
      }
      i := i + 1;
    }
  }

  // ---------------------------------------------------------------------
  // The action arguments
  // ---------------------------------------------------------------------

  /** The parameters of the first action declared with the name; none when no action has it. */
  function ParamsOf(actions: seq<ActionView>, name: string): (ps: seq<string>)
    decreases |actions|
  {
    if |actions| == 0 then []
    else if actions[0].name == name then actions[0].params
    else ParamsOf(actions[1..], name)
  }

  /** The node scan for the action of an entry (it stops at the first action of that name). */
  method LookupParams(actions: seq<ActionView>, name: string) returns (ps: seq<string>)
    ensures ps == ParamsOf(actions, name)
  {
    var i := 0;
    while i < |actions|
      invariant 0 <= i <= |actions| && ParamsOf(actions, name) == ParamsOf(actions[i..], name)
    {
      if actions[i].name == name {
        return actions[i].params;
      }
      assert actions[i..][1..] == actions[i + 1..];
      i := i + 1;
    }
    return [];
  }

  /** The action part of a macro: its parameters and its statements. */
  datatype ActionPart = ActionPart(params: seq<MacroParam>, lines: seq<SpecLine>)

  /**
   * The loop over an action's parameters: parameter k is ARG_ACTION_k when
   * the index advances (`numbered`), ARG_ACTION_0 when it never does.
   */
  function ActionArgs(action: string, ps: seq<string>, perEntry: bool, numbered: bool): (r: ActionPart)
    ensures |r.params| == |ps| == |r.lines|
    decreases |ps|
  {
    if |ps| == 0 then ActionPart([], [])
    else
      var a := ActionArgs(action, ps[..|ps| - 1], perEntry, numbered);
      var n := if numbered then |ps| - 1 else 0;
      ActionPart(a.params + [ActionArg(n)], a.lines + [SetActionArg(action, ps[|ps| - 1], n, perEntry)])
  }

  /** With the index advancing, parameter k of the action is ARG_ACTION_k. */
  lemma {:induction false} ActionArgsNumbered(action: string, ps: seq<string>, perEntry: bool)
    ensures forall k :: 0 <= k < |ps| ==>
              ActionArgs(action, ps, perEntry, true).params[k] == ActionArg(k) &&
              ActionArgs(action, ps, perEntry, true).lines[k] == SetActionArg(action, ps[k], k, perEntry)
    decreases |ps|
  {
    if |ps| > 0 {
      ActionArgsNumbered(action, ps[..|ps| - 1], perEntry);
    }
  }

  /** As written, every parameter of the action is ARG_ACTION_0. */
  lemma {:induction false} ActionArgsRepeated(action: string, ps: seq<string>, perEntry: bool)
    ensures forall k :: 0 <= k < |ps| ==>
              ActionArgs(action, ps, perEntry, false).params[k] == ActionArg(0) &&
              ActionArgs(action, ps, perEntry, false).lines[k] == SetActionArg(action, ps[k], 0, perEntry)
    decreases |ps|
  {
    if |ps| > 0 {
      ActionArgsRepeated(action, ps[..|ps| - 1], perEntry);
    }
  }

  /** The loop over an action's parameters in a macro. */
  method CollectActionArgs(action: string, ps: seq<string>, perEntry: bool, numbered: bool) returns (r: ActionPart)
    ensures r == ActionArgs(action, ps, perEntry, numbered)
  {
    var params: seq<MacroParam> := [];
    var lines: seq<SpecLine> := [];
    var actionArgIndex := 0;
    var i := 0;
    while i < |ps|
      invariant 0 <= i <= |ps| && ActionArgs(action, ps[..i], perEntry, numbered) == ActionPart(params, lines)
      invariant actionArgIndex == if numbered then i else 0
    {
      assert ps[..i + 1][..i] == ps[..i];
      params := params + [ActionArg(actionArgIndex)];
      lines := lines + [SetActionArg(action, ps[i], actionArgIndex, perEntry)];
      if numbered {
        actionArgIndex := actionArgIndex + 1;
      }
      i := i + 1;
    }
    assert ps[..i] == ps;
    r := ActionPart(params, lines);
  }

  // ---------------------------------------------------------------------
  // The macros of one table
  // ---------------------------------------------------------------------

  function DelMacro(table: string): Macro
  {
    Macro(Del(table), [IndexParam], [DeleteCall])
  }

  /**
   * The add macro of an action, corrected: ARG_INDEX, the match arguments,
   * ARG_PRIO when some read is ternary, and the action's arguments (the
   * code as written is AddMacroAsWritten); the body fills the match spec
   * (declared first in a malleable table), the priority and the action
   * spec, then adds the entry.
   */
  function AddMacro(table: string, rds: seq<ReadView>, action: string, actions: seq<ActionView>, mbl: bool): Macro
  {
    var m := Matches(rds, mbl);
    var prio := HasTernary(rds);
    var a := ActionArgs(action, ParamsOf(actions, action), true, true);
    Macro(Add(table, action),
          [IndexParam] + m.params + (if prio then [PrioArg] else []) + a.params,
          (if mbl then [DeclMatchSpec] else []) + m.lines + (if prio then [SetPriority] else [])
          + [DeclActionSpec(action, true)] + a.lines + [AddCall(action)])
  }

  /**
   * The modify macro of an action: ARG_INDEX and the action's arguments
   * (their index advancing only when `numbered`); a plain table declares
   * the action spec, a malleable one does not.
   */
  function ModMacro(table: string, action: string, actions: seq<ActionView>, mbl: bool, numbered: bool): Macro
  {
    var a := ActionArgs(action, ParamsOf(actions, action), true, numbered);
    Macro(Mod(table, action), [IndexParam] + a.params,
          (if mbl then [] else [DeclActionSpec(action, true)]) + a.lines + [ModifyCall(action)])
  }

  /** The set-default macro of an action of a table without reads; the action spec exists only with arguments. */
  function DefaultMacro(table: string, action: string, actions: seq<ActionView>): Macro
  {
    var ps := ParamsOf(actions, action);
    var a := ActionArgs(action, ps, false, true);
    Macro(SetDefault(table, action), [IndexParam] + a.params,
          (if |ps| > 0 then [DeclActionSpec(action, false)] else []) + a.lines + [DefaultCall(action, |ps| > 0)])
  }

  /** The add and modify macros of each action, in order. */
  function EntryMacros(table: string, rds: seq<ReadView>, names: seq<string>, actions: seq<ActionView>, mbl: bool): (ms: seq<Macro>)
    ensures |ms| == 2 * |names|
    decreases |names|
  {
    if |names| == 0 then []
    else
      var n := |names| - 1;
      EntryMacros(table, rds, names[..n], actions, mbl)
      + [AddMacro(table, rds, names[n], actions, mbl), ModMacro(table, names[n], actions, mbl, true)]
  }

  /** The set-default macro of each action, in order. */
  function DefaultMacros(table: string, names: seq<string>, actions: seq<ActionView>): (ms: seq<Macro>)
    ensures |ms| == |names|
    decreases |names|
  {
    if |names| == 0 then []
    else DefaultMacros(table, names[..|names| - 1], actions) + [DefaultMacro(table, names[|names| - 1], actions)]
  }

  /** The macros of one table. */
  function MacrosOf(t: TableView, actions: seq<ActionView>, mbl: bool): (ms: seq<Macro>)
    ensures |ms| == if t.readList.Some? then 1 + 2 * |t.actions| else |t.actions|
  {
    if t.readList.Some? then [DelMacro(t.name)] + EntryMacros(t.name, t.readList.value, t.actions, actions, mbl)
    else DefaultMacros(t.name, t.actions, actions)
  }

  /** The loop over the actions of a table with reads. */
  method EntryLoop(table: string, rds: seq<ReadView>, names: seq<string>, actions: seq<ActionView>, mbl: bool)
    returns (ms: seq<Macro>)
    ensures ms == EntryMacros(table, rds, names, actions, mbl)
  {
    var prio := FindTernary(rds);
    ms := [];
    var i := 0;
    while i < |names|
      invariant 0 <= i <= |names| && ms == EntryMacros(table, rds, names[..i], actions, mbl)
    {
      assert names[..i + 1][..i] == names[..i];
      var add := BuildAdd(table, rds, prio, names[i], actions, mbl);
      var mod := BuildMod(table, names[i], actions, mbl);
      ms := ms + [add, mod];
      i := i + 1;
    }
    assert names[..i] == names;
  }

  method BuildAdd(table: string, rds: seq<ReadView>, prio: bool, action: string, actions: seq<ActionView>, mbl: bool)
    returns (m: Macro)
    requires prio <==> HasTernary(rds)
    ensures m == AddMacro(table, rds, action, actions, mbl)
  {
    var matches := MatchArgs(rds, mbl);
    var ps := LookupParams(actions, action);
    var a := CollectActionArgs(action, ps, true, true);
    var params := [IndexParam] + matches.params;
    var body := (if mbl then [DeclMatchSpec] else []) + matches.lines;
    if prio {
      params := params + [PrioArg];
      body := body + [SetPriority];
    }
    m := Macro(Add(table, action), params + a.params, body + [DeclActionSpec(action, true)] + a.lines + [AddCall(action)]);
  }

  /** The modify macro, with the action-argument index advancing. */
  method BuildMod(table: string, action: string, actions: seq<ActionView>, mbl: bool) returns (m: Macro)
    ensures m == ModMacro(table, action, actions, mbl, true)
  {
    var ps := LookupParams(actions, action);
    var a := CollectActionArgs(action, ps, true, true);
    m := Macro(Mod(table, action), [IndexParam] + a.params,
               (if mbl then [] else [DeclActionSpec(action, true)]) + a.lines + [ModifyCall(action)]);
  }

  /** The loop over the actions of a table without reads. */
  method DefaultLoop(table: string, names: seq<string>, actions: seq<ActionView>) returns (ms: seq<Macro>)
    ensures ms == DefaultMacros(table, names, actions)
  {
    ms := [];
    var i := 0;
    while i < |names|
      invariant 0 <= i <= |names| && ms == DefaultMacros(table, names[..i], actions)
    {
      assert names[..i + 1][..i] == names[..i];
      var ps := LookupParams(actions, names[i]);
      var a := CollectActionArgs(names[i], ps, false, true);
      var m := Macro(SetDefault(table, names[i]), [IndexParam] + a.params,
                     (if |ps| > 0 then [DeclActionSpec(names[i], false)] else []) + a.lines + [DefaultCall(names[i], |ps| > 0)]);
      ms := ms + [m];
      i := i + 1;
    }
    assert names[..i] == names;
  }

  method TableMacrosFor(t: TableView, actions: seq<ActionView>, mbl: bool) returns (ms: seq<Macro>)
    ensures ms == MacrosOf(t, actions, mbl)
  {
    if t.readList.Some? {
      var entries := EntryLoop(t.name, t.readList.value, t.actions, actions, mbl);
      ms := [DelMacro(t.name)] + entries;
    } else {
      ms := DefaultLoop(t.name, t.actions, actions);
    }
  }

  // ---------------------------------------------------------------------
  // Well-formed macros
  // ---------------------------------------------------------------------

  /** The macro parameters a statement refers to (`##ARG_INDEX` and `ARG_INDEX` included). */
  function Uses(l: SpecLine): set<MacroParam>
  {
    match l
    case DeclMatchSpec => {IndexParam}
    case SetMatch(_, n) => {IndexParam, MatchArg(n)}
    case SetMask(_, n) => {IndexParam, MaskArg(n)}
    case SetMatchVv(_) => {IndexParam}
    case SetPriority => {IndexParam, PrioArg}
    case DeclActionSpec(_, perEntry) => if perEntry then {IndexParam} else {}
    case SetActionArg(_, _, n, perEntry) => if perEntry then {IndexParam, ActionArg(n)} else {ActionArg(n)}
    case DeleteCall => {IndexParam}
    case AddCall(_) => {IndexParam}
    case ModifyCall(_) => {IndexParam}
    case DefaultCall(_, _) => {IndexParam}
  }

  /** The parameters a macro body refers to. */
  function Used(body: seq<SpecLine>): set<MacroParam>
    decreases |body|
  {
    if |body| == 0 then {} else Used(body[..|body| - 1]) + Uses(body[|body| - 1])
  }

  /** No statement refers to an empty parameter. */
  lemma {:induction false} UsedNeverEmpty(body: seq<SpecLine>)
    ensures EmptyParam !in Used(body)
    decreases |body|
  {
    if |body| > 0 {
      UsedNeverEmpty(body[..|body| - 1]);
    }
  }

  lemma {:induction false} UsedAppend(a: seq<SpecLine>, b: seq<SpecLine>)
    ensures Used(a + b) == Used(a) + Used(b)
    decreases |b|
  {
    if |b| > 0 {
      var n := |b| - 1;
      assert (a + b)[..|a + b| - 1] == a + b[..n];
      UsedAppend(a, b[..n]);
    } else {
      assert a + b == a;
    }
  }

  /**
   * A macro the C preprocessor accepts and that means what it says: no
   * parameter is named twice, and the body refers to exactly the named
   * parameters; since no statement refers to an empty parameter
   * (UsedNeverEmpty), no parameter is left empty either.
   */
  ghost predicate WellFormed(m: Macro)
  {
    Distinct(m.params) && forall p :: p in Used(m.body) <==> p in m.params
  }

  lemma DistinctAppend(a: seq<MacroParam>, b: seq<MacroParam>)
    requires Distinct(a) && Distinct(b) && forall p :: p in a ==> p !in b
    ensures Distinct(a + b)
  {
    forall i, j | 0 <= i < j < |a + b|
      ensures (a + b)[i] != (a + b)[j]
    {
      if i < |a| && j >= |a| {
        assert (a + b)[i] in a && (a + b)[j] in b;
      }
    }
  }

  /** The match statements refer to the match parameters and to ARG_INDEX, and to every match parameter. */
  lemma {:induction false} MatchesUsed(rds: seq<ReadView>, mbl: bool)
    ensures forall p :: p in Matches(rds, mbl).params ==> p in Used(Matches(rds, mbl).lines)
    ensures forall p :: p in Used(Matches(rds, mbl).lines) ==> p == IndexParam || p in Matches(rds, mbl).params
    decreases |rds|
  {
    if |rds| > 0 {
      var n := |rds| - 1;
      var m := Matches(rds[..n], mbl);
      var r := Matches(rds, mbl);
      MatchesUsed(rds[..n], mbl);
      var f := CField(rds[n]);
      var nl: seq<SpecLine>, np: seq<MacroParam>;
      if rds[n].matchType == Ternary {
        nl, np := [SetMatch(f, m.count), SetMask(f, m.count)], [MatchArg(m.count), MaskArg(m.count)];
        assert Used(nl) == {IndexParam, MatchArg(m.count), MaskArg(m.count)} by {
          UsedAppend([SetMatch(f, m.count)], [SetMask(f, m.count)]);
          assert [SetMatch(f, m.count)] + [SetMask(f, m.count)] == nl;
          UsedOne(SetMatch(f, m.count));
          UsedOne(SetMask(f, m.count));
        }
      } else if IsVvRead(rds[n], mbl) {
        nl, np := [SetMatchVv(f)], [];
        UsedOne(SetMatchVv(f));
      } else {
        nl, np := [SetMatch(f, m.count)], [MatchArg(m.count)];
        UsedOne(SetMatch(f, m.count));
      }
      UsedStep(m.lines, m.params, nl, np, r.lines, r.params);
    }
  }

  /** One step of the match scan keeps the body and the parameters in agreement. */
  lemma UsedStep(ml: seq<SpecLine>, mp: seq<MacroParam>, nl: seq<SpecLine>, np: seq<MacroParam>,
                 rl: seq<SpecLine>, rp: seq<MacroParam>)
    requires rl == ml + nl && rp == mp + np
    requires forall p :: p in mp ==> p in Used(ml)
    requires forall p :: p in Used(ml) ==> p == IndexParam || p in mp
    requires forall p :: p in Used(nl) <==> p == IndexParam || p in np
    ensures forall p :: p in rp ==> p in Used(rl)
    ensures forall p :: p in Used(rl) ==> p == IndexParam || p in rp
  {
    UsedAppend(ml, nl);
  }

  /** The action statements refer to exactly the action parameters, and to ARG_INDEX in an entry macro. */
  lemma {:induction false} ActionArgsUsed(action: string, ps: seq<string>, perEntry: bool, numbered: bool)
    ensures forall p :: p in Used(ActionArgs(action, ps, perEntry, numbered).lines) <==>
              p in ActionArgs(action, ps, perEntry, numbered).params || (p == IndexParam && perEntry && |ps| > 0)
    decreases |ps|
  {
    if |ps| > 0 {
      var n := |ps| - 1;
      var a := ActionArgs(action, ps[..n], perEntry, numbered);
      ActionArgsUsed(action, ps[..n], perEntry, numbered);
      var r := ActionArgs(action, ps, perEntry, numbered);
      var last := SetActionArg(action, ps[n], if numbered then n else 0, perEntry);
      assert r.lines == a.lines + [last] && r.params == a.params + [ActionArg(if numbered then n else 0)];
      assert r.lines[..|r.lines| - 1] == a.lines;
      assert Used(r.lines) == Used(a.lines) + Uses(last);
    }
  }

  /** With the index advancing, the action parameters are distinct ARG_ACTION_k. */
  lemma ActionParamsDistinct(action: string, ps: seq<string>, perEntry: bool)
    ensures Distinct(ActionArgs(action, ps, perEntry, true).params)
    ensures forall p :: p in ActionArgs(action, ps, perEntry, true).params ==> p.ActionArg?
  {
    ActionArgsNumbered(action, ps, perEntry);
  }

  lemma UsedSix(b0: seq<SpecLine>, b1: seq<SpecLine>, b2: seq<SpecLine>, b3: seq<SpecLine>, b4: seq<SpecLine>, b5: seq<SpecLine>)
    ensures Used(b0 + b1 + b2 + b3 + b4 + b5) == Used(b0) + Used(b1) + Used(b2) + Used(b3) + Used(b4) + Used(b5)
  {
    UsedAppend(b0, b1);
    UsedAppend(b0 + b1, b2);
    UsedAppend(b0 + b1 + b2, b3);
    UsedAppend(b0 + b1 + b2 + b3, b4);
    UsedAppend(b0 + b1 + b2 + b3 + b4, b5);
  }

  lemma UsedOne(l: SpecLine)
    ensures Used([l]) == Uses(l)
  {
    assert [l][..0] == [];
  }

  /** The optional match-spec declaration refers to ARG_INDEX only. */
  lemma UsedDeclMatch(b0: seq<SpecLine>, mbl: bool)
    requires b0 == if mbl then [DeclMatchSpec] else []
    ensures forall p :: p in Used(b0) ==> p == IndexParam
  {
    UsedOne(DeclMatchSpec);
  }

  /** The optional priority statement refers to ARG_INDEX and ARG_PRIO. */
  lemma UsedPriority(b2: seq<SpecLine>, prio: bool)
    requires b2 == if prio then [SetPriority] else []
    ensures forall p :: p in Used(b2) <==> prio && (p == IndexParam || p == PrioArg)
  {
    UsedOne(SetPriority);
  }

  /** The statements of an add macro refer to ARG_INDEX, the match parameters, ARG_PRIO when taken, and the action parameters. */
  lemma AddMacroUsed(table: string, rds: seq<ReadView>, action: string, actions: seq<ActionView>, mbl: bool)
    ensures forall p :: p in Used(AddMacro(table, rds, action, actions, mbl).body) <==>
              p == IndexParam || p in Matches(rds, mbl).params || (p == PrioArg && HasTernary(rds)) ||
              p in ActionArgs(action, ParamsOf(actions, action), true, true).params
  {
    var m := Matches(rds, mbl);
    var prio := HasTernary(rds);
    var a := ActionArgs(action, ParamsOf(actions, action), true, true);
    var b0: seq<SpecLine> := if mbl then [DeclMatchSpec] else [];
    var b2: seq<SpecLine> := if prio then [SetPriority] else [];
    var u := Used(AddMacro(table, rds, action, actions, mbl).body);
    var u0, um, u2, ua := Used(b0), Used(m.lines), Used(b2), Used(a.lines);
    AddMacroSplit(table, rds, action, actions, mbl);
    UsedDeclMatch(b0, mbl);
    UsedPriority(b2, prio);
    MatchesUsed(rds, mbl);
    ActionArgsUsed(action, ParamsOf(actions, action), true, true);
    AddUsedCombine(u, u0, um, u2, ua, m.params, a.params, prio);
  }

  /** The parameters an add macro uses, piece by piece. */
  lemma AddMacroSplit(table: string, rds: seq<ReadView>, action: string, actions: seq<ActionView>, mbl: bool)
    ensures Used(AddMacro(table, rds, action, actions, mbl).body)
              == Used(if mbl then [DeclMatchSpec] else []) + Used(Matches(rds, mbl).lines)
                 + Used(if HasTernary(rds) then [SetPriority] else []) + {IndexParam}
                 + Used(ActionArgs(action, ParamsOf(actions, action), true, true).lines) + {IndexParam}
  {
    var m := Matches(rds, mbl);
    var prio := HasTernary(rds);
    var a := ActionArgs(action, ParamsOf(actions, action), true, true);
    var d, c := [DeclActionSpec(action, true)], [AddCall(action)];
    assert Used(d) == {IndexParam} by { UsedOne(DeclActionSpec(action, true)); }
    assert Used(c) == {IndexParam} by { UsedOne(AddCall(action)); }
    AddMacroBody(table, rds, action, actions, mbl, m, prio, a);
    AddBodyUsed(AddMacro(table, rds, action, actions, mbl).body,
                if mbl then [DeclMatchSpec] else [], m.lines, if prio then [SetPriority] else [], d, a.lines, c);
  }

  lemma AddMacroBody(table: string, rds: seq<ReadView>, action: string, actions: seq<ActionView>, mbl: bool,
                     m: MatchPart, prio: bool, a: ActionPart)
    requires m == Matches(rds, mbl) && prio == HasTernary(rds)
    requires a == ActionArgs(action, ParamsOf(actions, action), true, true)
    ensures AddMacro(table, rds, action, actions, mbl).body
              == (if mbl then [DeclMatchSpec] else []) + m.lines + (if prio then [SetPriority] else [])
                 + [DeclActionSpec(action, true)] + a.lines + [AddCall(action)]
  {
  }

  lemma AddBodyUsed(body: seq<SpecLine>, b0: seq<SpecLine>, ml: seq<SpecLine>, b2: seq<SpecLine>,
                    d: seq<SpecLine>, al: seq<SpecLine>, c: seq<SpecLine>)
    requires body == b0 + ml + b2 + d + al + c
    requires Used(d) == {IndexParam} && Used(c) == {IndexParam}
    ensures Used(body) == Used(b0) + Used(ml) + Used(b2) + {IndexParam} + Used(al) + {IndexParam}
  {
    UsedSix(b0, ml, b2, d, al, c);
  }

  lemma AddUsedCombine(u: set<MacroParam>, u0: set<MacroParam>, um: set<MacroParam>, u2: set<MacroParam>,
                       ua: set<MacroParam>, mp: seq<MacroParam>, ap: seq<MacroParam>, prio: bool)
    requires u == u0 + um + u2 + {IndexParam} + ua + {IndexParam}
    requires forall p :: p in u0 ==> p == IndexParam
    requires forall p :: p in u2 <==> prio && (p == IndexParam || p == PrioArg)
    requires forall p :: p in mp ==> p in um
    requires forall p :: p in um ==> p == IndexParam || p in mp
    requires forall p :: p in ap ==> p in ua
    requires forall p :: p in ua ==> p in ap || p == IndexParam
    ensures forall p :: p in u <==> p == IndexParam || p in mp || (p == PrioArg && prio) || p in ap
  {
  }

  /** The parameters of an add macro are pairwise different. */
  lemma AddMacroDistinct(table: string, rds: seq<ReadView>, action: string, actions: seq<ActionView>, mbl: bool)
    ensures Distinct(AddMacro(table, rds, action, actions, mbl).params)
  {
    var m := Matches(rds, mbl);
    var prio := HasTernary(rds);
    var a := ActionArgs(action, ParamsOf(actions, action), true, true);
    MatchesNumbered(rds, mbl);
    ActionParamsDistinct(action, ParamsOf(actions, action), true);
    var pp: seq<MacroParam> := if prio then [PrioArg] else [];
    assert forall p :: p in m.params ==> p.MatchArg? || p.MaskArg?;
    DistinctAppend([IndexParam], m.params);
    DistinctAppend([IndexParam] + m.params, pp);
    DistinctAppend([IndexParam] + m.params + pp, a.params);
  }

  /**
   * The add macro, corrected, is well formed, and it takes ARG_PRIO exactly
   * when some read is ternary.
   */
  lemma AddMacroWellFormed(table: string, rds: seq<ReadView>, action: string, actions: seq<ActionView>, mbl: bool)
    ensures WellFormed(AddMacro(table, rds, action, actions, mbl))
    ensures PrioArg in AddMacro(table, rds, action, actions, mbl).params <==> HasTernary(rds)
  {
    var m := Matches(rds, mbl);
    var prio := HasTernary(rds);
    var a := ActionArgs(action, ParamsOf(actions, action), true, true);
    var r := AddMacro(table, rds, action, actions, mbl);
    var pp: seq<MacroParam> := if prio then [PrioArg] else [];
    assert Distinct(r.params) by {
      AddMacroDistinct(table, rds, action, actions, mbl);
    }
    assert forall p :: p in r.params <==> p == IndexParam || p in m.params || p in pp || p in a.params by {
      assert r.params == [IndexParam] + m.params + pp + a.params;
    }
    assert forall p :: p in Used(r.body) <==> p == IndexParam || p in m.params || (p == PrioArg && prio) || p in a.params by {
      AddMacroUsed(table, rds, action, actions, mbl);
    }
    assert forall p :: p in m.params ==> p.MatchArg? || p.MaskArg? by {
      MatchesNumbered(rds, mbl);
    }
    assert forall p :: p in a.params ==> p.ActionArg? by {
      ActionParamsDistinct(action, ParamsOf(actions, action), true);
    }
    AddParamsCombine(r.params, Used(r.body), m.params, pp, a.params, prio);
  }

  lemma AddParamsCombine(ps: seq<MacroParam>, used: set<MacroParam>, ms: seq<MacroParam>,
                         pp: seq<MacroParam>, aps: seq<MacroParam>, prio: bool)
    requires pp == if prio then [PrioArg] else []
    requires forall p :: p in ps <==> p == IndexParam || p in ms || p in pp || p in aps
    requires forall p :: p in used <==> p == IndexParam || p in ms || (p == PrioArg && prio) || p in aps
    requires forall p :: p in ms ==> p.MatchArg? || p.MaskArg?
    requires forall p :: p in aps ==> p.ActionArg?
    ensures forall p :: p in used <==> p in ps
    ensures PrioArg in ps <==> prio
  {
  }

  /**
   * The add macro as written: the header always puts a comma after
   * ARG_INDEX, so a table none of whose reads takes a user argument gets an
   * empty parameter there.
   */
  function AddMacroAsWritten(table: string, rds: seq<ReadView>, action: string, actions: seq<ActionView>, mbl: bool): Macro
  {
    var m := Matches(rds, mbl);
    var c := AddMacro(table, rds, action, actions, mbl);
    c.(params := [IndexParam] + (if |m.params| == 0 then [EmptyParam] else m.params) + c.params[1 + |m.params|..])
  }

  /** With some read taking a user argument, the add macro as written is the corrected one. */
  lemma AddMacroAsWrittenAgrees(table: string, rds: seq<ReadView>, action: string, actions: seq<ActionView>, mbl: bool)
    requires UserReads(rds, mbl) > 0
    ensures AddMacroAsWritten(table, rds, action, actions, mbl) == AddMacro(table, rds, action, actions, mbl)
  {
    MatchesNumbered(rds, mbl);
    var m := Matches(rds, mbl);
    var c := AddMacro(table, rds, action, actions, mbl);
    assert c.params[..1 + |m.params|] == [IndexParam] + m.params;
    assert c.params == c.params[..1 + |m.params|] + c.params[1 + |m.params|..];
  }

  /**
   * As written, a table none of whose reads takes a user argument (no reads
   * at all, or a malleable table whose only read is the added `__vv`) gets
   * the header `<t>_add_<a>(ARG_INDEX,...)` with an empty parameter, which
   * the C preprocessor refuses.
   */
  lemma AddMacroAsWrittenEmpty(table: string, rds: seq<ReadView>, action: string, actions: seq<ActionView>, mbl: bool)
    requires UserReads(rds, mbl) == 0
    ensures AddMacroAsWritten(table, rds, action, actions, mbl).params[1] == EmptyParam
    ensures !WellFormed(AddMacroAsWritten(table, rds, action, actions, mbl))
  {
    MatchesNumbered(rds, mbl);
    var w := AddMacroAsWritten(table, rds, action, actions, mbl);
    assert EmptyParam in w.params && EmptyParam !in Used(w.body) by {
      UsedNeverEmpty(w.body);
    }
  }

  /** The statements of a modify macro refer to ARG_INDEX and to the action parameters. */
  lemma ModMacroUsed(table: string, action: string, actions: seq<ActionView>, mbl: bool, numbered: bool)
    ensures forall p :: p in Used(ModMacro(table, action, actions, mbl, numbered).body) <==>
              p == IndexParam || p in ActionArgs(action, ParamsOf(actions, action), true, numbered).params
  {
    var a := ActionArgs(action, ParamsOf(actions, action), true, numbered);
    var r := ModMacro(table, action, actions, mbl, numbered);
    var b0: seq<SpecLine> := if mbl then [] else [DeclActionSpec(action, true)];
    UsedAppend(b0, a.lines);
    UsedAppend(b0 + a.lines, [ModifyCall(action)]);
    UsedOne(DeclActionSpec(action, true));
    UsedOne(ModifyCall(action));
    var u := Used(r.body);
    assert u == Used(b0) + Used(a.lines) + {IndexParam};
    ActionArgsUsed(action, ParamsOf(actions, action), true, numbered);
  }

  /** The modify macro, with the index advancing, is well formed: ARG_INDEX, then ARG_ACTION_k for parameter k. */
  lemma ModMacroWellFormed(table: string, action: string, actions: seq<ActionView>, mbl: bool)
    ensures WellFormed(ModMacro(table, action, actions, mbl, true))
    ensures forall k :: 1 <= k < |ModMacro(table, action, actions, mbl, true).params| ==>
              ModMacro(table, action, actions, mbl, true).params[k] == ActionArg(k - 1)
  {
    var ps := ParamsOf(actions, action);
    var a := ActionArgs(action, ps, true, true);
    var r := ModMacro(table, action, actions, mbl, true);
    ModMacroUsed(table, action, actions, mbl, true);
    ActionParamsDistinct(action, ps, true);
    DistinctAppend([IndexParam], a.params);
    assert forall p :: p in r.params <==> p == IndexParam || p in a.params;
    ActionArgsNumbered(action, ps, true);
  }

  /**
   * As written, the modify macro of an action with two or more parameters
   * names ARG_ACTION_0 twice, which the C preprocessor refuses.
   */
  lemma ModMacroAsWrittenRepeats(table: string, action: string, actions: seq<ActionView>, mbl: bool)
    requires |ParamsOf(actions, action)| >= 2
    ensures !Distinct(ModMacro(table, action, actions, mbl, false).params)
    ensures ModMacro(table, action, actions, mbl, false).params[1] == ModMacro(table, action, actions, mbl, false).params[2] == ActionArg(0)
  {
    ActionArgsRepeated(action, ParamsOf(actions, action), true);
  }

  /** The set-default macro is well formed. */
  lemma DefaultMacroWellFormed(table: string, action: string, actions: seq<ActionView>)
    ensures WellFormed(DefaultMacro(table, action, actions))
  {
    var ps := ParamsOf(actions, action);
    var a := ActionArgs(action, ps, false, true);
    var r := DefaultMacro(table, action, actions);
    ActionArgsUsed(action, ps, false, true);
    ActionParamsDistinct(action, ps, false);
    DistinctAppend([IndexParam], a.params);
    var b0: seq<SpecLine> := if |ps| > 0 then [DeclActionSpec(action, false)] else [];
    assert r.body == b0 + a.lines + [DefaultCall(action, |ps| > 0)];
    UsedAppend(b0, a.lines);
    UsedAppend(b0 + a.lines, [DefaultCall(action, |ps| > 0)]);
    UsedOne(DeclActionSpec(action, false));
    UsedOne(DefaultCall(action, |ps| > 0));
    assert Used(b0) == {};
    assert Used(r.body) == Used(a.lines) + {IndexParam};
    forall p
      ensures p in Used(r.body) <==> p in r.params
    {
      assert p in r.params <==> p == IndexParam || p in a.params;
    }
  }

  // ---------------------------------------------------------------------
  // generateMacroNonMblTable and generateMacroMblTable
  // ---------------------------------------------------------------------

  /** The macros of the plain tables, skipping the inner tables of malleable ones, table by table. */
  function NonMblMacros(tables: seq<TableView>, actions: seq<ActionView>): seq<Macro>
    decreases |tables|
  {
    if |tables| == 0 then []
    else
      var t := tables[|tables| - 1];
      NonMblMacros(tables[..|tables| - 1], actions) + (if t.isMalleable then [] else MacrosOf(t, actions, false))
  }

  /** The macros of the malleable tables' inner tables, table by table. */
  function MblMacros(tables: seq<TableView>, actions: seq<ActionView>): seq<Macro>
    decreases |tables|
  {
    if |tables| == 0 then [] else MblMacros(tables[..|tables| - 1], actions) + MacrosOf(tables[|tables| - 1], actions, true)
  }

  /** generateMacroNonMblTable */
  method GenerateMacroNonMblTable(tables: seq<TableView>, actions: seq<ActionView>) returns (ms: seq<Macro>)
    ensures ms == NonMblMacros(tables, actions)
  {
    ms := [];
    var i := 0;
    while i < |tables|
      invariant 0 <= i <= |tables| && ms == NonMblMacros(tables[..i], actions)
    {
      assert tables[..i + 1][..i] == tables[..i];
      if !tables[i].isMalleable {
        var one := TableMacrosFor(tables[i], actions, false);
        ms := ms + one;
      }
      i := i + 1;
    }
    assert tables[..i] == tables;
  }

  /** generateMacroMblTable, over the inner tables of the malleable tables. */
  method GenerateMacroMblTable(tables: seq<TableView>, actions: seq<ActionView>) returns (ms: seq<Macro>)
    ensures ms == MblMacros(tables, actions)
  {
    ms := [];
    var i := 0;
    while i < |tables|
      invariant 0 <= i <= |tables| && ms == MblMacros(tables[..i], actions)
    {
      assert tables[..i + 1][..i] == tables[..i];
      var one := TableMacrosFor(tables[i], actions, true);
      ms := ms + one;
      i := i + 1;
    }
    assert tables[..i] == tables;
  }

  // ---------------------------------------------------------------------
  // Every generated macro is well formed
  // ---------------------------------------------------------------------

  lemma {:induction false} EntryMacrosWellFormed(table: string, rds: seq<ReadView>, names: seq<string>, actions: seq<ActionView>, mbl: bool)
    ensures forall i :: 0 <= i < |EntryMacros(table, rds, names, actions, mbl)| ==>
              WellFormed(EntryMacros(table, rds, names, actions, mbl)[i]) &&
              EntryMacros(table, rds, names, actions, mbl)[i].name.table == table
    decreases |names|
  {
    if |names| > 0 {
      var n := |names| - 1;
      var x := AddMacro(table, rds, names[n], actions, mbl);
      var y := ModMacro(table, names[n], actions, mbl, true);
      EntryMacrosWellFormed(table, rds, names[..n], actions, mbl);
      assert WellFormed(x) && x.name.table == table by {
        AddMacroWellFormed(table, rds, names[n], actions, mbl);
      }
      assert WellFormed(y) && y.name.table == table by {
        ModMacroWellFormed(table, names[n], actions, mbl);
      }
      WellFormedSnoc(EntryMacros(table, rds, names[..n], actions, mbl), [x, y], table);
    }
  }

  lemma WellFormedSnoc(ms: seq<Macro>, xs: seq<Macro>, table: string)
    requires forall i :: 0 <= i < |ms| ==> WellFormed(ms[i]) && ms[i].name.table == table
    requires forall i :: 0 <= i < |xs| ==> WellFormed(xs[i]) && xs[i].name.table == table
    ensures forall i :: 0 <= i < |ms + xs| ==> WellFormed((ms + xs)[i]) && (ms + xs)[i].name.table == table
  {
    forall i | 0 <= i < |ms + xs|
      ensures WellFormed((ms + xs)[i]) && (ms + xs)[i].name.table == table
    {
      if i >= |ms| {
        assert (ms + xs)[i] == xs[i - |ms|];
      }
    }
  }

  lemma {:induction false} DefaultMacrosWellFormed(table: string, names: seq<string>, actions: seq<ActionView>)
    ensures forall i :: 0 <= i < |DefaultMacros(table, names, actions)| ==>
              WellFormed(DefaultMacros(table, names, actions)[i]) && DefaultMacros(table, names, actions)[i].name.table == table
    decreases |names|
  {
    if |names| > 0 {
      var n := |names| - 1;
      DefaultMacrosWellFormed(table, names[..n], actions);
      DefaultMacroWellFormed(table, names[n], actions);
    }
  }

  /** Every macro of a table is well formed and carries the table's name. */
  lemma MacrosOfWellFormed(t: TableView, actions: seq<ActionView>, mbl: bool)
    ensures forall m :: m in MacrosOf(t, actions, mbl) ==> WellFormed(m) && m.name.table == t.name
  {
    if t.readList.Some? {
      EntryMacrosWellFormed(t.name, t.readList.value, t.actions, actions, mbl);
      var ms := MacrosOf(t, actions, mbl);
      var es := EntryMacros(t.name, t.readList.value, t.actions, actions, mbl);
      assert ms == [DelMacro(t.name)] + es;
      UsedOne(DeleteCall);
      forall m | m in ms
        ensures WellFormed(m) && m.name.table == t.name
      {
        if m != DelMacro(t.name) {
          assert m in es;
        }
      }
    } else {
      DefaultMacrosWellFormed(t.name, t.actions, actions);
    }
  }

  /**
   * The plain-table macros are well formed and each belongs to a table that
   * is not malleable: the inner tables of malleable tables get theirs from
   * generateMacroMblTable alone.
   */
  lemma {:induction false} NonMblMacrosPlain(tables: seq<TableView>, actions: seq<ActionView>)
    ensures forall m :: m in NonMblMacros(tables, actions) ==>
              WellFormed(m) && exists t :: t in tables && !t.isMalleable && m.name.table == t.name
    decreases |tables|
  {
    if |tables| > 0 {
      var n := |tables| - 1;
      var t := tables[n];
      NonMblMacrosPlain(tables[..n], actions);
      MacrosOfWellFormed(t, actions, false);
      forall m | m in NonMblMacros(tables, actions)
        ensures WellFormed(m) && exists t :: t in tables && !t.isMalleable && m.name.table == t.name
      {
        if m in NonMblMacros(tables[..n], actions) {
          var u :| u in tables[..n] && !u.isMalleable && m.name.table == u.name;
          assert u in tables;
        } else {
          assert !t.isMalleable && m in MacrosOf(t, actions, false);
          assert t in tables;
        }
      }
    }
  }

  /** The malleable-table macros are well formed and each belongs to one of the tables. */
  lemma {:induction false} MblMacrosWellFormed(tables: seq<TableView>, actions: seq<ActionView>)
    ensures forall m :: m in MblMacros(tables, actions) ==>
              WellFormed(m) && exists t :: t in tables && m.name.table == t.name
    decreases |tables|
  {
    if |tables| > 0 {
      var n := |tables| - 1;
      var t := tables[n];
      MblMacrosWellFormed(tables[..n], actions);
      MacrosOfWellFormed(t, actions, true);
      forall m | m in MblMacros(tables, actions)
        ensures WellFormed(m) && exists t :: t in tables && m.name.table == t.name
      {
        if m in MblMacros(tables[..n], actions) {
          var u :| u in tables[..n] && m.name.table == u.name;
          assert u in tables;
        } else {
          assert m in MacrosOf(t, actions, true);
          assert t in tables;
        }
      }
    }
  }
}
