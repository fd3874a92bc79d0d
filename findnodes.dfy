// The read-only queries of src/compile/find_nodes.cpp. The node array is
// given by kind: the control and blackbox declarations (P4ExprNode), the
// non-P4R tables and actions, the registers and the reaction arguments,
// each in node-array order.

module FindNodes {
  import opened Strings
  import opened Consts
  import opened AstP4R
  import opened AstP4
  import opened BinPack

  /** P4ExprNode: `keyword name1 [name2] { body }`, each part as the text it renders to. */
  datatype Expr = Expr(keyword: string, name1: string, name2: string, body: string)

  /** P4RegisterNode after its constructor: the name and the width it parsed (-1 for an empty body). */
  datatype Register = Register(name: string, width: int)

  /** FieldDecNode of a header type: a field name and its declared width text. */
  datatype FieldDec = FieldDec(name: string, size: string)

  // ---------------------------------------------------------------------
  // findIngress / findEgress
  // ---------------------------------------------------------------------

  const IngressWord := "ingress"
  const EgressWord := "egress"

  /** The control block test: the name mentions `ingress` (or `egress`) or the renamed original block. */
  predicate IsControl(e: Expr, ingress: bool)
  {
    if ingress then Contains(e.name1, IngressWord) || Contains(e.name1, OrigIngControlName)
    else Contains(e.name1, EgressWord) || Contains(e.name1, OrigEgrControlName)
  }

  /** The position of the first control block of the direction, if any. */
  function FirstControl(es: seq<Expr>, ingress: bool): (r: Option<nat>)
    ensures r.Some? ==> r.value < |es| && IsControl(es[r.value], ingress)
    ensures r.Some? ==> forall j :: 0 <= j < r.value ==> !IsControl(es[j], ingress)
    ensures r.None? ==> forall j :: 0 <= j < |es| ==> !IsControl(es[j], ingress)
    decreases |es|
  {
    if |es| == 0 then None
    else if IsControl(es[0], ingress) then Some(0)
    else
      match FirstControl(es[1..], ingress)
      case None => None
      case Some(k) => Some(k + 1)
  }

  /** findIngress (ingress) and findEgress (not ingress): the first matching expression node. */
  method FindControl(es: seq<Expr>, ingress: bool) returns (r: Option<nat>)
    ensures r == FirstControl(es, ingress)
  {
    var i := 0;
    while i < |es|
      invariant 0 <= i <= |es|
      invariant forall j :: 0 <= j < i ==> !IsControl(es[j], ingress)
    {
      if IsControl(es[i], ingress) {
        return Some(i);
      }
      i := i + 1;
    }
    return None;
  }

  // ---------------------------------------------------------------------
  // findTableActionStmts / findTableReadStmt
  // ---------------------------------------------------------------------

  /** The position of the first entry equal to `name`, if any. */
  function FirstEntry(names: seq<string>, name: string): (r: Option<nat>)
    ensures r.Some? ==> r.value < |names| && names[r.value] == name
    ensures r.Some? ==> forall j :: 0 <= j < r.value ==> names[j] != name
    ensures r.None? ==> name !in names
    decreases |names|
  {
    if |names| == 0 then None
    else if names[0] == name then Some(0)
    else
      match FirstEntry(names[1..], name)
      case None => None
      case Some(k) => Some(k + 1)
  }

  /** One hit: the table at `table` lists the action in its entry at `entry`. */
  datatype EntryRef = EntryRef(table: nat, entry: nat)

  /**
   * The entries findTableActionStmts maps: for every table listing the
   * action, in table order, its first entry of that name.
   */
  function ActionEntries(tables: seq<Table>, name: string): (r: seq<EntryRef>)
    decreases |tables|
  {
    if |tables| == 0 then []
    else
      var n := |tables| - 1;
      var init := ActionEntries(tables[..n], name);
      match FirstEntry(tables[n].actions, name)
      case None => init
      case Some(k) => init + [EntryRef(n, k)]
  }

  /** `e` names a table listing the action and that table's first entry of the name. */
  predicate Hit(tables: seq<Table>, name: string, e: EntryRef)
  {
    e.table < |tables| && FirstEntry(tables[e.table].actions, name) == Some(e.entry)
  }

  lemma HitGrows(tables: seq<Table>, name: string, n: nat, e: EntryRef)
    requires n <= |tables| && Hit(tables[..n], name, e)
    ensures Hit(tables, name, e) && e.table < n
  {
    assert tables[..n][e.table] == tables[e.table];
  }

  /** Every hit is a real one. */
  lemma {:induction false} ActionEntriesSound(tables: seq<Table>, name: string)
    ensures forall e :: e in ActionEntries(tables, name) ==> Hit(tables, name, e)
    decreases |tables|
  {
    if |tables| > 0 {
      var n := |tables| - 1;
      ActionEntriesSound(tables[..n], name);
      forall e | e in ActionEntries(tables[..n], name) ensures Hit(tables, name, e) {
        HitGrows(tables, name, n, e);
      }
    }
  }

  /** Hits are in strictly increasing table order, so each table appears at most once. */
  lemma {:induction false} ActionEntriesOrdered(tables: seq<Table>, name: string)
    ensures forall i, j :: 0 <= i < j < |ActionEntries(tables, name)| ==>
              ActionEntries(tables, name)[i].table < ActionEntries(tables, name)[j].table
    decreases |tables|
  {
    if |tables| > 0 {
      var n := |tables| - 1;
      ActionEntriesOrdered(tables[..n], name);
      ActionEntriesSound(tables[..n], name);
      var init := ActionEntries(tables[..n], name);
      forall i | 0 <= i < |init| ensures init[i].table < n {
        assert init[i] in init;
        HitGrows(tables, name, n, init[i]);
      }
      var r := ActionEntries(tables, name);
      assert |r| == |init| || (r == init + [EntryRef(n, r[|init|].entry)]);
      forall i, j | 0 <= i < j < |r| ensures r[i].table < r[j].table {
        assert r[i] == init[i];
        if j < |init| {
          assert r[j] == init[j];
          assert init[i].table < init[j].table;
        } else {
          assert r[j].table == n;
        }
      }
    }
  }

  /** Every table that lists the action has a hit. */
  lemma {:induction false} ActionEntriesComplete(tables: seq<Table>, name: string, t: nat)
    requires t < |tables| && name in tables[t].actions
    ensures exists i :: 0 <= i < |ActionEntries(tables, name)| && ActionEntries(tables, name)[i].table == t
    decreases |tables|
  {
    var n := |tables| - 1;
    var r := ActionEntries(tables, name);
    if t < n {
      assert tables[..n][t] == tables[t];
      ActionEntriesComplete(tables[..n], name, t);
      var init := ActionEntries(tables[..n], name);
      var i :| 0 <= i < |init| && init[i].table == t;
      assert r[i] == init[i];
    } else {
      assert r[|r| - 1].table == t;
    }
  }

  /** findTableActionStmts over the tables of the node array. */
  method FindTableActionStmts(tables: seq<Table>, name: string) returns (r: seq<EntryRef>)
    ensures r == ActionEntries(tables, name)
  {
    r := [];
    var t := 0;
    while t < |tables|
      invariant 0 <= t <= |tables|
      invariant r == ActionEntries(tables[..t], name)
    {
      assert tables[..t + 1][..t] == tables[..t];
      var k := 0;
      var names := tables[t].actions;
      while k < |names| && names[k] != name
        invariant 0 <= k <= |names|
        invariant forall j :: 0 <= j < k ==> names[j] != name
      {
        k := k + 1;
      }
      if k < |names| {
        r := r + [EntryRef(t, k)];
      }
      t := t + 1;
    }
    assert tables[..|tables|] == tables;
  }

  /** A match-list entry on the plain name `fieldName`; `header.field` entries never count. */
  predicate ReadsName(rs: seq<Read>, fieldName: string)
  {
    exists i :: 0 <= i < |rs| && rs[i].field == StrField(fieldName)
  }

  /**
   * findTableReadStmt: whether the table already matches on the plain name
   * `fieldName`. A table without a read list dereferences null (an error).
   */
  method FindTableReadStmt(t: Table, fieldName: string) returns (r: Result<bool>)
    ensures !t.hasReads <==> r.Err?
    ensures r.Ok? ==> (r.value <==> ReadsName(t.readStmts, fieldName))
  {
    if !t.hasReads {
      return Err("null read list");
    }
    var i := 0;
    while i < |t.readStmts|
      invariant 0 <= i <= |t.readStmts|
      invariant forall j :: 0 <= j < i ==> t.readStmts[j].field != StrField(fieldName)
    {
      if t.readStmts[i].field == StrField(fieldName) {
        return Ok(true);
      }
      i := i + 1;
    }
    return Ok(false);
  }

  // ---------------------------------------------------------------------
  // findAllReactionArgSizes
  // ---------------------------------------------------------------------

  /** The declared width of field `field` in header instance `header`. */
  function FieldWidth(headerDecs: map<string, seq<FieldDec>>, f: FieldName): (r: Result<int>)
    ensures r.Ok? ==> (f.header in headerDecs &&
              exists i :: 0 <= i < |headerDecs[f.header]| && headerDecs[f.header][i].name == f.field &&
                Stoi(headerDecs[f.header][i].size) == Some(r.value))
  {
    if f.header !in headerDecs then Err("unordered_map::at: unknown header instance")
    else
      var decs := headerDecs[f.header];
      var names := seq(|decs|, i requires 0 <= i < |decs| => decs[i].name);
      match FirstEntry(names, f.field)
      case None => Err("assert(found): the header declares no such field")
      case Some(k) =>
        match Stoi(decs[k].size)
        case None => Err("stoi: field width is not a number")
        case Some(w) => Ok(w)
  }

  /** The declared width of a malleable: a value of that name first, else a field of that name. */
  function MblWidth(values: map<string, ValueDecl>, fields: map<string, FieldDecl>, name: string): (r: Result<int>)
    ensures r.Ok? ==> name in values || name in fields
    ensures r.Ok? && name in values ==> Stoi(values[name].width) == Some(r.value)
    ensures r.Ok? && name !in values ==> Stoi(fields[name].width) == Some(r.value)
  {
    var text := if name in values then Ok(values[name].width)
                else if name in fields then Ok(fields[name].width)
                else Err("unordered_map::at: unknown malleable");
    match text
    case Err(e) => Err(e)
    case Ok(t) =>
      match Stoi(t)
      case None => Err("stoi: malleable width is not a number")
      case Some(w) => Ok(w)
  }

  /** The width of one argument, or None for a register argument, which is not packed. */
  function ArgWidth(a: ReactionArg, headerDecs: map<string, seq<FieldDec>>,
                    values: map<string, ValueDecl>, fields: map<string, FieldDecl>): Result<Option<int>>
  {
    if a.argType == RegisterArg then Ok(None)
    else
      match a.value
      case FieldArg(f) =>
        (match FieldWidth(headerDecs, f)
         case Err(e) => Err(e)
         case Ok(w) => Ok(Some(w)))
      case RefArg(r) =>
        (match MblWidth(values, fields, r.name)
         case Err(e) => Err(e)
         case Ok(w) => Ok(Some(w)))
      case NameArg(_) => Err("assert(false): a field argument names neither a field nor a malleable")
  }

  /** The (argument, width) pairs of the non-register arguments, in order; the first failure aborts. */
  function ArgSizes(args: seq<ReactionArg>, headerDecs: map<string, seq<FieldDec>>,
                    values: map<string, ValueDecl>, fields: map<string, FieldDecl>): Result<seq<ArgSize>>
    decreases |args|
  {
    if |args| == 0 then Ok([])
    else
      var n := |args| - 1;
      match ArgSizes(args[..n], headerDecs, values, fields)
      case Err(e) => Err(e)
      case Ok(init) =>
        match ArgWidth(args[n], headerDecs, values, fields)
        case Err(e) => Err(e)
        case Ok(None) => Ok(init)
        case Ok(Some(w)) => Ok(init + [ArgSize(args[n], w)])
  }

  /**
   * When no argument fails, the result holds exactly the non-register
   * arguments, in input order, each with its declared width.
   */
  lemma {:induction false} ArgSizesExact(args: seq<ReactionArg>, headerDecs: map<string, seq<FieldDec>>,
                                         values: map<string, ValueDecl>, fields: map<string, FieldDecl>)
    requires ArgSizes(args, headerDecs, values, fields).Ok?
    ensures var r := ArgSizes(args, headerDecs, values, fields).value;
            |r| == |NonRegister(args)| &&
            forall i :: 0 <= i < |r| ==>
              (r[i].arg == NonRegister(args)[i] && ArgWidth(r[i].arg, headerDecs, values, fields) == Ok(Some(r[i].width)))
    decreases |args|
  {
    if |args| > 0 {
      ArgSizesExact(args[..|args| - 1], headerDecs, values, fields);
    }
  }

  function NonRegister(args: seq<ReactionArg>): (r: seq<ReactionArg>)
    ensures forall x :: x in r ==> x.argType != RegisterArg
    decreases |args|
  {
    if |args| == 0 then []
    else
      var init := NonRegister(args[..|args| - 1]);
      if args[|args| - 1].argType == RegisterArg then init else init + [args[|args| - 1]]
  }

  /** findAllReactionArgSizes */
  method FindAllReactionArgSizes(args: seq<ReactionArg>, headerDecs: map<string, seq<FieldDec>>,
                                 values: map<string, ValueDecl>, fields: map<string, FieldDecl>)
    returns (r: Result<seq<ArgSize>>)
    ensures r == ArgSizes(args, headerDecs, values, fields)
  {
    var sizes: seq<ArgSize> := [];
    var i := 0;
    while i < |args|
      invariant 0 <= i <= |args|
      invariant ArgSizes(args[..i], headerDecs, values, fields) == Ok(sizes)
    {
      assert args[..i + 1][..i] == args[..i];
      var w := ArgWidth(args[i], headerDecs, values, fields);
      if w.Err? {
        assert ArgSizes(args[..i + 1], headerDecs, values, fields).Err?;
        ErrPersists(args, i + 1, headerDecs, values, fields);
        return Err(w.msg);
      }
      if w.value.Some? {
        sizes := sizes + [ArgSize(args[i], w.value.value)];
      }
      i := i + 1;
    }
    assert args[..|args|] == args;
    return Ok(sizes);
  }

  /** Once a prefix fails, the whole list fails with the same message. */
  lemma {:induction false} ErrPersists(args: seq<ReactionArg>, k: nat, headerDecs: map<string, seq<FieldDec>>,
                                       values: map<string, ValueDecl>, fields: map<string, FieldDecl>)
    requires k <= |args| && ArgSizes(args[..k], headerDecs, values, fields).Err?
    ensures ArgSizes(args, headerDecs, values, fields) == ArgSizes(args[..k], headerDecs, values, fields)
    decreases |args| - k
  {
    if k < |args| {
      assert args[..k + 1][..k] == args[..k];
      ErrPersists(args, k + 1, headerDecs, values, fields);
    } else {
      assert args[..k] == args;
    }
  }

  // ---------------------------------------------------------------------
  // findRegargInIng
  // ---------------------------------------------------------------------

  const BlackboxWord := "blackbox"
  const RegKey := "reg"
  const StatefulAluCall := "execute_stateful_alu"

  /** findBlackbox: the expression nodes whose keyword mentions `blackbox`, in order. */
  function Blackboxes(es: seq<Expr>): (r: seq<Expr>)
    ensures forall x :: x in r ==> x in es && Contains(x.keyword, BlackboxWord)
    decreases |es|
  {
    if |es| == 0 then []
    else
      var init := Blackboxes(es[..|es| - 1]);
      if Contains(es[|es| - 1].keyword, BlackboxWord) then init + [es[|es| - 1]] else init
  }

  /**
   * The inner getline loop over the ':'-separated pieces of one item: a
   * trimmed piece `reg` takes the next piece, trimmed, as the register name.
   * When `reg` is the last piece, std::getline fails without touching its
   * buffer if the item ended there (the name stays `reg`) and clears it if
   * a ':' followed (the name becomes empty).
   */
  function ScanRegPieces(pieces: seq<string>, trailingColon: bool, reg: string): string
    decreases |pieces|
  {
    if |pieces| == 0 then reg
    else if Trim(pieces[0]) == RegKey then
      if |pieces| >= 2 then ScanRegPieces(pieces[2..], trailingColon, Trim(pieces[1]))
      else if trailingColon then ""
      else RegKey
    else ScanRegPieces(pieces[1..], trailingColon, reg)
  }

  predicate EndsWith(s: string, c: char)
  {
    |s| > 0 && s[|s| - 1] == c
  }

  /** The outer getline loop over the ';'-separated items of a blackbox body. */
  function ScanRegItems(items: seq<string>, reg: string): string
    decreases |items|
  {
    if |items| == 0 then reg
    else ScanRegItems(items[1..], ScanRegPieces(GetlineSplit(items[0], ':'), EndsWith(items[0], ':'), reg))
  }

  /** The register a blackbox body declares with `reg : name`, the last one if several; "" if none. */
  function RegNameOf(body: string): string
  {
    ScanRegItems(GetlineSplit(body, ';'), "")
  }

  /**
   * The program-name loop from blackbox `bbs[0]` on, with `prog` the name
   * the loop variable last took: it stops at the first blackbox whose
   * register is the argument; otherwise the last blackbox's name stays.
   */
  function ProgFrom(bbs: seq<Expr>, argText: string, prog: string): string
    decreases |bbs|
  {
    if |bbs| == 0 then prog
    else if RegNameOf(bbs[0].body) == argText then bbs[0].name2
    else ProgFrom(bbs[1..], argText, bbs[0].name2)
  }

  /** The stateful program the register argument belongs to; "" without blackboxes. */
  function ProgName(bbs: seq<Expr>, argText: string): string
  {
    ProgFrom(bbs, argText, "")
  }

  /**
   * The name of the first blackbox whose register is the argument; when
   * none is, the last blackbox's name (the loop variable keeps it).
   */
  lemma {:induction false} ProgFromFirst(bbs: seq<Expr>, argText: string, prog: string, k: nat)
    requires k < |bbs| && RegNameOf(bbs[k].body) == argText
    requires forall j :: 0 <= j < k ==> RegNameOf(bbs[j].body) != argText
    ensures ProgFrom(bbs, argText, prog) == bbs[k].name2
    decreases k
  {
    if k > 0 {
      assert RegNameOf(bbs[0].body) != argText;
      ProgFromFirst(bbs[1..], argText, bbs[0].name2, k - 1);
    }
  }

  lemma {:induction false} ProgFromNone(bbs: seq<Expr>, argText: string, prog: string)
    requires |bbs| > 0
    requires forall j :: 0 <= j < |bbs| ==> RegNameOf(bbs[j].body) != argText
    ensures ProgFrom(bbs, argText, prog) == bbs[|bbs| - 1].name2
    decreases |bbs|
  {
    assert RegNameOf(bbs[0].body) != argText;
    if |bbs| > 1 {
      ProgFromNone(bbs[1..], argText, bbs[0].name2);
    }
  }

  /** Whether a statement list has a statement executing the stateful program `prog`. */
  predicate StmtsRun(ss: seq<ActionStmt>, refs: seq<MblRef>, prog: string)
    requires StmtsOk(ss, refs)
    decreases |ss|
  {
    |ss| > 0 && (ExecutesProg(ss[0], refs, prog) || StmtsRun(ss[1..], refs, prog))
  }

  /** A statement that executes the stateful program `prog`. */
  predicate ExecutesProg(st: ActionStmt, refs: seq<MblRef>, prog: string)
    requires WordsOk(st.args, refs)
  {
    var text := StmtText(st, refs);
    Contains(text, StatefulAluCall) && Contains(text, prog)
  }

  predicate ActionsOk(actions: seq<Action>, refs: seq<MblRef>)
  {
    forall i :: 0 <= i < |actions| ==> ActionOk(actions[i], refs)
  }

  /** The name of the first action with a statement executing `prog`, if any. */
  function RunningAction(actions: seq<Action>, refs: seq<MblRef>, prog: string): (r: Option<string>)
    requires ActionsOk(actions, refs)
    decreases |actions|
  {
    if |actions| == 0 then None
    else if StmtsRun(actions[0].stmts, refs, prog) then Some(actions[0].name)
    else RunningAction(actions[1..], refs, prog)
  }

  /** The name of the first table listing the action, if any. */
  function TableOf(tables: seq<Table>, action: string): (r: Option<string>)
    ensures r.Some? ==> exists i :: 0 <= i < |tables| && tables[i].name == r.value && action in tables[i].actions &&
                          forall j :: 0 <= j < i ==> action !in tables[j].actions
    ensures r.None? ==> forall i :: 0 <= i < |tables| ==> action !in tables[i].actions
    decreases |tables|
  {
    if |tables| == 0 then None
    else if action in tables[0].actions then Some(tables[0].name)
    else
      var r := TableOf(tables[1..], action);
      assert r.Some? ==> exists i :: 1 <= i < |tables| && tables[i].name == r.value && action in tables[i].actions &&
                                     forall j :: 0 <= j < i ==> action !in tables[j].actions by {
        if r.Some? {
          var i :| 0 <= i < |tables[1..]| && tables[1..][i].name == r.value && action in tables[1..][i].actions &&
                   forall j :: 0 <= j < i ==> action !in tables[1..][j].actions;
          assert forall j :: 0 <= j < i + 1 ==> action !in tables[j].actions by {
            forall j | 0 <= j < i + 1 ensures action !in tables[j].actions {
              if j > 0 { assert tables[j] == tables[1..][j - 1]; }
            }
          }
        }
      }
      r
  }

  /**
   * findRegargInIng: false for a non-register argument; otherwise whether
   * the table applying the register's stateful program sits in the ingress
   * control block (true) or the egress block (false). A missing action,
   * table or control block, or a table in neither block, is fatal.
   */
  function RegargInIng(a: ReactionArg, es: seq<Expr>, actions: seq<Action>, tables: seq<Table>,
                       refs: seq<MblRef>): (r: Result<bool>)
    requires ArgRenderable(a) && ActionsOk(actions, refs)
    ensures a.argType != RegisterArg ==> r == Ok(false)
    ensures a.argType == RegisterArg && FirstControl(es, true).None? ==> r.Err?
    ensures a.argType == RegisterArg && FirstControl(es, false).None? ==> r.Err?
  {
    if a.argType != RegisterArg then Ok(false)
    else
      var prog := ProgName(Blackboxes(es), ArgText(a));
      match RunningAction(actions, refs, prog)
      case None => Err("PANIC: no action executes the stateful alu")
      case Some(act) =>
        match TableOf(tables, act)
        case None => Err("PANIC: no table applies the action")
        case Some(tbl) =>
          match (FirstControl(es, true), FirstControl(es, false))
          case (Some(i), Some(e)) =>
            if Contains(es[i].body, tbl) then Ok(true)
            else if Contains(es[e].body, tbl) then Ok(false)
            else Err("PANIC: the table is applied in neither control block")
          case _ => Err("PANIC: missing ingress or egress control block")
  }

  /** The scan of one item's colon-separated pieces (the inner getline loop). */
  method ScanPieces(pieces: seq<string>, trailing: bool, reg0: string) returns (reg: string)
    ensures reg == ScanRegPieces(pieces, trailing, reg0)
  {
    reg := reg0;
    var j := 0;
    while j < |pieces|
      invariant 0 <= j <= |pieces|
      invariant ScanRegPieces(pieces, trailing, reg0) == ScanRegPieces(pieces[j..], trailing, reg)
      decreases |pieces| - j
    {
      if Trim(pieces[j]) == RegKey {
        if j + 1 < |pieces| {
          reg := Trim(pieces[j + 1]);
          assert pieces[j..][2..] == pieces[j + 2..];
          j := j + 2;
        } else {
          reg := if trailing then "" else RegKey;
          assert ScanRegPieces(pieces[j + 1..], trailing, reg) == reg;
          j := j + 1;
        }
      } else {
        assert pieces[j..][1..] == pieces[j + 1..];
        j := j + 1;
      }
    }
  }

  /** The register name scan of one blackbox body: nested getline loops. */
  method ScanRegName(body: string) returns (reg: string)
    ensures reg == RegNameOf(body)
  {
    var items := GetlineSplit(body, ';');
    reg := "";
    var i := 0;
    while i < |items|
      invariant 0 <= i <= |items|
      invariant ScanRegItems(items, "") == ScanRegItems(items[i..], reg)
    {
      var pieces := GetlineSplit(items[i], ':');
      reg := ScanPieces(pieces, EndsWith(items[i], ':'), reg);
      assert items[i..][1..] == items[i + 1..];
      i := i + 1;
    }
  }

  /** The program-name loop: stop at the first blackbox whose register is the argument. */
  method FindProgName(bbs: seq<Expr>, argText: string) returns (prog: string)
    ensures prog == ProgName(bbs, argText)
  {
    prog := "";
    var i := 0;
    while i < |bbs|
      invariant 0 <= i <= |bbs|
      invariant ProgName(bbs, argText) == ProgFrom(bbs[i..], argText, prog)
    {
      var reg := ScanRegName(bbs[i].body);
      assert bbs[i..][0] == bbs[i] && bbs[i..][1..] == bbs[i + 1..];
      prog := bbs[i].name2;
      if reg == argText {
        return;
      }
      i := i + 1;
    }
  }

  /** findRegargInIng, with its three searches as loops. */
  method FindRegargInIng(a: ReactionArg, es: seq<Expr>, actions: seq<Action>, tables: seq<Table>,
                         refs: seq<MblRef>) returns (r: Result<bool>)
    requires ArgRenderable(a) && ActionsOk(actions, refs)
    ensures r == RegargInIng(a, es, actions, tables, refs)
  {
    if a.argType != RegisterArg {
      return Ok(false);
    }
    var prog := FindProgName(Blackboxes(es), ArgText(a));
    // The action executing the stateful program.
    var i := 0;
    while i < |actions|
      invariant 0 <= i <= |actions|
      invariant RunningAction(actions, refs, prog) == RunningAction(actions[i..], refs, prog)
    {
      assert actions[i..][0] == actions[i] && actions[i..][1..] == actions[i + 1..];
      var found := ActionRunsProg(actions[i], refs, prog);
      if found {
        break;
      }
      i := i + 1;
    }
    if i == |actions| {
      return Err("PANIC: no action executes the stateful alu");
    }
    var act := actions[i].name;
    // The table applying that action.
    var t := 0;
    while t < |tables| && act !in tables[t].actions
      invariant 0 <= t <= |tables|
      invariant TableOf(tables, act) == TableOf(tables[t..], act)
    {
      assert tables[t..][1..] == tables[t + 1..];
      t := t + 1;
    }
    if t == |tables| {
      return Err("PANIC: no table applies the action");
    }
    assert tables[t..][0] == tables[t];
    var tbl := tables[t].name;
    var ing := FindControl(es, true);
    var egr := FindControl(es, false);
    if ing.None? || egr.None? {
      return Err("PANIC: missing ingress or egress control block");
    }
    if Contains(es[ing.value].body, tbl) {
      return Ok(true);
    } else if Contains(es[egr.value].body, tbl) {
      return Ok(false);
    }
    return Err("PANIC: the table is applied in neither control block");
  }

  /** The statement loop of one action. */
  method ActionRunsProg(a: Action, refs: seq<MblRef>, prog: string) returns (b: bool)
    requires ActionOk(a, refs)
    ensures b == StmtsRun(a.stmts, refs, prog)
  {
    var i := 0;
    while i < |a.stmts|
      invariant 0 <= i <= |a.stmts|
      invariant StmtsOk(a.stmts[i..], refs)
      invariant StmtsRun(a.stmts, refs, prog) == StmtsRun(a.stmts[i..], refs, prog)
    {
      ghost var tail := a.stmts[i..];
      StmtsRunCons(tail, refs, prog);
      assert tail[0] == a.stmts[i] && tail[1..] == a.stmts[i + 1..];
      if ExecutesProg(a.stmts[i], refs, prog) {
        return true;
      }
      i := i + 1;
    }
    return false;
  }

  lemma StmtsRunCons(ss: seq<ActionStmt>, refs: seq<MblRef>, prog: string)
    requires StmtsOk(ss, refs) && |ss| > 0
    ensures WordsOk(ss[0].args, refs) && StmtsOk(ss[1..], refs)
    ensures StmtsRun(ss, refs, prog) <==> ExecutesProg(ss[0], refs, prog) || StmtsRun(ss[1..], refs, prog)
  {
  }

  // ---------------------------------------------------------------------
  // findRegargWidth
  // ---------------------------------------------------------------------

  /** findRegargWidth: the width of the first register named like the argument; none is fatal. */
  method FindRegargWidth(a: ReactionArg, regs: seq<Register>) returns (r: Result<int>)
    requires ArgRenderable(a)
    ensures r.Ok? ==> exists k :: 0 <= k < |regs| && regs[k].name == ArgText(a) && regs[k].width == r.value &&
                        forall j :: 0 <= j < k ==> regs[j].name != ArgText(a)
    ensures r.Err? <==> forall k :: 0 <= k < |regs| ==> regs[k].name != ArgText(a)
  {
    var text := ArgText(a);
    var i := 0;
    while i < |regs|
      invariant 0 <= i <= |regs|
      invariant forall j :: 0 <= j < i ==> regs[j].name != text
    {
      if regs[i].name == text {
        return Ok(regs[i].width);
      }
      i := i + 1;
    }
    return Err("PANIC: no register of that name");
  }
}
