// The node array and the passes that rewrite it in place: the malleable
// declarations are collected and marked removed, pragmas are rewritten,
// malleable references are resolved by the worklist, and malleable tables
// get their version-bit read. Each method is proved against the value-level
// specification in Resolution (for the reference passes) or against the
// functions below.

module Program {
  import opened Strings
  import opened Consts
  import opened AstP4R
  import opened AstP4
  import opened FindNodes
  import opened Resolution

  /**
   * A top-level node of the node array, as far as the passes look at it.
   * A malleable table's inner TableNode and a plain table are entries of
   * the table arena, named by index.
   */
  datatype Decl =
    | ValueD(value: ValueDecl)
    | FieldD(field: FieldDecl)
    | MblTableD(table: nat, pragma: string, pragmaTransformed: bool)
    | TableD(table: nat)
    | InitD
    | OtherD

  /** Every table a declaration names exists. */
  predicate DeclsIn(ds: seq<Decl>, numTables: nat)
  {
    forall i :: 0 <= i < |ds| ==>
      (ds[i].MblTableD? ==> ds[i].table < numTables) && (ds[i].TableD? ==> ds[i].table < numTables)
  }

  // ---------------------------------------------------------------------
  // findAndRemoveMalleables, as values
  // ---------------------------------------------------------------------

  /** A map filled by `emplace` in order: the first entry of a key wins. */
  function FirstWins<V>(kvs: seq<(string, V)>): (m: map<string, V>)
    decreases |kvs|
  {
    if |kvs| == 0 then map[]
    else
      var n := |kvs| - 1;
      var m := FirstWins(kvs[..n]);
      if kvs[n].0 in m then m else m[kvs[n].0 := kvs[n].1]
  }

  /**
   * The keys are exactly the keys of the entries, and each maps to the
   * value of the first entry with that key.
   */
  lemma {:induction false} FirstWinsMeaning<V>(kvs: seq<(string, V)>)
    ensures forall k :: k in FirstWins(kvs) <==> exists i :: 0 <= i < |kvs| && kvs[i].0 == k
    ensures forall i :: 0 <= i < |kvs| && (forall j :: 0 <= j < i ==> kvs[j].0 != kvs[i].0) ==>
              kvs[i].0 in FirstWins(kvs) && FirstWins(kvs)[kvs[i].0] == kvs[i].1
    decreases |kvs|
  {
    if |kvs| > 0 {
      var n := |kvs| - 1;
      var init := kvs[..n];
      FirstWinsMeaning(init);
      forall k ensures k in FirstWins(kvs) <==> exists i :: 0 <= i < |kvs| && kvs[i].0 == k {
        if k in FirstWins(init) {
          var i :| 0 <= i < |init| && init[i].0 == k;
          assert kvs[i].0 == k;
        }
        if exists i :: 0 <= i < |kvs| && kvs[i].0 == k {
          var i :| 0 <= i < |kvs| && kvs[i].0 == k;
          if i < n { assert init[i].0 == k; }
        }
      }
      forall i | 0 <= i < |kvs| && (forall j :: 0 <= j < i ==> kvs[j].0 != kvs[i].0)
        ensures kvs[i].0 in FirstWins(kvs) && FirstWins(kvs)[kvs[i].0] == kvs[i].1
      {
        if i < n {
          assert init[i] == kvs[i];
          forall j | 0 <= j < i ensures init[j].0 != init[i].0 { assert init[j] == kvs[j]; }
        } else {
          forall j | 0 <= j < |init| ensures init[j].0 != kvs[n].0 { assert init[j] == kvs[j]; }
        }
      }
    }
  }

  lemma FirstWinsSnoc<V>(kvs: seq<(string, V)>, x: (string, V))
    ensures FirstWins(kvs + [x]) == if x.0 in FirstWins(kvs) then FirstWins(kvs) else FirstWins(kvs)[x.0 := x.1]
  {
    assert (kvs + [x])[..|kvs|] == kvs;
  }

  /** The malleable values declared, keyed by name, in node order. */
  function ValueEntries(ds: seq<Decl>): (r: seq<(string, ValueDecl)>)
    decreases |ds|
  {
    if |ds| == 0 then []
    else
      var n := |ds| - 1;
      ValueEntries(ds[..n]) + (if ds[n].ValueD? then [(ds[n].value.name, ds[n].value)] else [])
  }

  /** The malleable fields declared, keyed by name, in node order. */
  function FieldEntries(ds: seq<Decl>): (r: seq<(string, FieldDecl)>)
    decreases |ds|
  {
    if |ds| == 0 then []
    else
      var n := |ds| - 1;
      FieldEntries(ds[..n]) + (if ds[n].FieldD? then [(ds[n].field.name, ds[n].field)] else [])
  }

  /** The malleable tables declared, keyed by the inner table's name, in node order. */
  function TableEntries(ds: seq<Decl>, tables: seq<Table>): (r: seq<(string, nat)>)
    ensures forall i :: 0 <= i < |r| ==> r[i].1 < |tables|
    decreases |ds|
  {
    if |ds| == 0 then []
    else
      var n := |ds| - 1;
      TableEntries(ds[..n], tables)
        + (if ds[n].MblTableD? && ds[n].table < |tables| then [(tables[ds[n].table].name, ds[n].table)] else [])
  }

  /** The nodes findAndRemoveMalleables marks removed. */
  predicate Malleable(d: Decl)
  {
    d.ValueD? || d.FieldD? || d.MblTableD? || d.InitD?
  }

  /** The `removed_` flags once the first `n` nodes are visited. */
  function Marked(rm: seq<bool>, ds: seq<Decl>, n: nat): (r: seq<bool>)
    requires |rm| == |ds|
    ensures |r| == |rm|
  {
    seq(|rm|, k requires 0 <= k < |rm| => rm[k] || (k < n && Malleable(ds[k])))
  }

  lemma MarkedSnoc(rm: seq<bool>, ds: seq<Decl>, i: nat)
    requires |rm| == |ds| && i < |ds|
    ensures Malleable(ds[i]) ==> Marked(rm, ds, i + 1) == Marked(rm, ds, i)[i := true]
    ensures !Malleable(ds[i]) ==> Marked(rm, ds, i + 1) == Marked(rm, ds, i)
  {
  }

  /** Visiting node `i` flags the table it wraps and marks it for removal when it is malleable. */
  lemma VisitMarks(ds: seq<Decl>, i: nat, ts0: seq<Table>, rm0: seq<bool>,
                   ts: seq<Table>, rm: seq<bool>, ts': seq<Table>, rm': seq<bool>)
    requires i < |ds| == |rm0| && DeclsIn(ds, |ts0|)
    requires rm == Marked(rm0, ds, i) && ts == Flagged(ts0, ds[..i])
    requires ts' == if ds[i].MblTableD? then ts[ds[i].table := ts[ds[i].table].(isMalleable := true)] else ts
    requires rm' == if Malleable(ds[i]) then rm[i := true] else rm
    ensures rm' == Marked(rm0, ds, i + 1) && ts' == Flagged(ts0, ds[..i + 1])
  {
    FlaggedSnoc(ts0, ds, i);
    MarkedSnoc(rm0, ds, i);
  }

  /** Whether some malleable table declaration wraps table `t`. */
  predicate Wrapped(ds: seq<Decl>, t: nat)
  {
    exists i :: 0 <= i < |ds| && ds[i].MblTableD? && ds[i].table == t
  }

  /** The tables with the inner table of every malleable table among `ds` flagged malleable. */
  function Flagged(ts: seq<Table>, ds: seq<Decl>): (r: seq<Table>)
    ensures |r| == |ts|
  {
    seq(|ts|, t requires 0 <= t < |ts| => ts[t].(isMalleable := ts[t].isMalleable || Wrapped(ds, t)))
  }

  lemma FlaggedSnoc(ts: seq<Table>, ds: seq<Decl>, i: nat)
    requires i < |ds|
    ensures ds[i].MblTableD? && ds[i].table < |ts| ==>
              Flagged(ts, ds[..i + 1]) == Flagged(ts, ds[..i])[ds[i].table := Flagged(ts, ds[..i])[ds[i].table].(isMalleable := true)]
    ensures !ds[i].MblTableD? ==> Flagged(ts, ds[..i + 1]) == Flagged(ts, ds[..i])
  {
    WrappedSnoc(ds, i);
  }

  // ---------------------------------------------------------------------
  // transformPragma, as values
  // ---------------------------------------------------------------------

  /** The pragma rewrite of node `i`: a table node rewrites its table, a malleable table its own pragma. */
  function PragmaStep(ds: seq<Decl>, ts: seq<Table>, i: nat): (r: Result<(seq<Decl>, seq<Table>)>)
    requires i < |ds| && DeclsIn(ds, |ts|)
    ensures r.Ok? ==> |r.value.0| == |ds| && |r.value.1| == |ts| && DeclsIn(r.value.0, |ts|)
  {
    match ds[i]
    case TableD(t) =>
      (match TransformTablePragma(ts[t])
       case Err(e) => Err(e)
       case Ok(u) => Ok((ds, ts[t := u])))
    case MblTableD(t, p, done) =>
      (match TransformPragma(p, done)
       case Err(e) => Err(e)
       case Ok((p', done')) => Ok((ds[i := MblTableD(t, p', done')], ts)))
    case _ => Ok((ds, ts))
  }

  /** transformPragma over the first `n` nodes, in order; the first failure aborts. */
  function PragmaPass(ds: seq<Decl>, ts: seq<Table>, n: nat): (r: Result<(seq<Decl>, seq<Table>)>)
    requires n <= |ds| && DeclsIn(ds, |ts|)
    ensures r.Ok? ==> |r.value.0| == |ds| && |r.value.1| == |ts| && DeclsIn(r.value.0, |ts|)
    decreases n
  {
    if n == 0 then Ok((ds, ts))
    else
      match PragmaPass(ds, ts, n - 1)
      case Err(e) => Err(e)
      case Ok((ds', ts')) => PragmaStep(ds', ts', n - 1)
  }

  /** Node `k`'s pragma is empty or already rewritten, so transformPragma leaves it alone. */
  predicate SettledAt(ds: seq<Decl>, ts: seq<Table>, k: nat)
    requires k < |ds| && DeclsIn(ds, |ts|)
  {
    match ds[k]
    case TableD(t) => ts[t].pragma == "" || ts[t].pragmaTransformed
    case MblTableD(_, p, done) => p == "" || done
    case _ => true
  }

  /** A step settles its own node and unsettles none. */
  lemma StepSettles(ds: seq<Decl>, ts: seq<Table>, i: nat)
    requires i < |ds| && DeclsIn(ds, |ts|) && PragmaStep(ds, ts, i).Ok?
    ensures var (ds', ts') := PragmaStep(ds, ts, i).value;
            SettledAt(ds', ts', i) &&
            forall k :: 0 <= k < |ds| && SettledAt(ds, ts, k) ==> SettledAt(ds', ts', k)
  {
    var (ds', ts') := PragmaStep(ds, ts, i).value;
    forall k | 0 <= k < |ds| && SettledAt(ds, ts, k) ensures SettledAt(ds', ts', k) {
      if k != i && ds[k].TableD? && ds[i].TableD? && ds[k].table == ds[i].table {
        var t := ds[i].table;
        assert ts[t].pragma == "" || ts[t].pragmaTransformed;
        assert ts'[t] == ts[t];
      }
    }
  }

  /** A step on a settled node changes nothing. */
  lemma SettledStep(ds: seq<Decl>, ts: seq<Table>, i: nat)
    requires i < |ds| && DeclsIn(ds, |ts|) && SettledAt(ds, ts, i)
    ensures PragmaStep(ds, ts, i) == Ok((ds, ts))
  {
    match ds[i]
    case TableD(t) => assert ts[t := ts[t]] == ts;
    case MblTableD(t, p, done) => assert ds[i := MblTableD(t, p, done)] == ds;
    case _ =>
  }

  /** After a successful pass over the first `n` nodes, each of them is settled. */
  lemma {:induction false} PassSettles(ds: seq<Decl>, ts: seq<Table>, n: nat)
    requires n <= |ds| && DeclsIn(ds, |ts|) && PragmaPass(ds, ts, n).Ok?
    ensures forall k :: 0 <= k < n ==> SettledAt(PragmaPass(ds, ts, n).value.0, PragmaPass(ds, ts, n).value.1, k)
    decreases n
  {
    if n > 0 {
      PassSettles(ds, ts, n - 1);
      var (ds', ts') := PragmaPass(ds, ts, n - 1).value;
      StepSettles(ds', ts', n - 1);
    }
  }

  /** A pass over settled nodes changes nothing. */
  lemma {:induction false} SettledPass(ds: seq<Decl>, ts: seq<Table>, n: nat)
    requires n <= |ds| && DeclsIn(ds, |ts|)
    requires forall k :: 0 <= k < |ds| ==> SettledAt(ds, ts, k)
    ensures PragmaPass(ds, ts, n) == Ok((ds, ts))
    decreases n
  {
    if n > 0 {
      SettledPass(ds, ts, n - 1);
      SettledStep(ds, ts, n - 1);
    }
  }

  /**
   * transformPragma increments every stage number at most once: running the
   * pass again over its own result changes nothing.
   */
  lemma PragmaPassIdempotent(ds: seq<Decl>, ts: seq<Table>)
    requires DeclsIn(ds, |ts|) && PragmaPass(ds, ts, |ds|).Ok?
    ensures var (ds', ts') := PragmaPass(ds, ts, |ds|).value;
            PragmaPass(ds', ts', |ds'|) == Ok((ds', ts'))
  {
    PassSettles(ds, ts, |ds|);
    var (ds', ts') := PragmaPass(ds, ts, |ds|).value;
    SettledPass(ds', ts', |ds'|);
  }

  /** One more node of the pass is one more step from where the pass stands. */
  lemma PragmaPassSnoc(ds0: seq<Decl>, ts0: seq<Table>, i: nat, ds: seq<Decl>, ts: seq<Table>)
    requires i < |ds0| && DeclsIn(ds0, |ts0|) && PragmaPass(ds0, ts0, i) == Ok((ds, ts))
    ensures i < |ds| && DeclsIn(ds, |ts|) && PragmaPass(ds0, ts0, i + 1) == PragmaStep(ds, ts, i)
  {
  }

  /** A step of the pass rewrites its own node and no other. */
  lemma PragmaStepLocal(ds: seq<Decl>, ts: seq<Table>, i: nat)
    requires i < |ds| && DeclsIn(ds, |ts|)
    ensures PragmaStep(ds, ts, i).Ok? ==>
              forall k :: 0 <= k < |ds| && k != i ==> PragmaStep(ds, ts, i).value.0[k] == ds[k]
  {
  }

  /** The pass over the first `n` nodes leaves the nodes after them unchanged. */
  lemma {:induction false} PragmaPassLocal(ds: seq<Decl>, ts: seq<Table>, n: nat)
    requires n <= |ds| && DeclsIn(ds, |ts|)
    ensures PragmaPass(ds, ts, n).Ok? ==>
              forall k :: n <= k < |ds| ==> PragmaPass(ds, ts, n).value.0[k] == ds[k]
    decreases n
  {
    if n > 0 {
      PragmaPassLocal(ds, ts, n - 1);
      var prev := PragmaPass(ds, ts, n - 1);
      if prev.Ok? {
        PragmaStepLocal(prev.value.0, prev.value.1, n - 1);
      }
    }
  }

  /** A step of the pass keeps every table's reads. */
  lemma PragmaStepReads(ds: seq<Decl>, ts: seq<Table>, i: nat)
    requires i < |ds| && DeclsIn(ds, |ts|)
    ensures PragmaStep(ds, ts, i).Ok? ==> SameReads(ts, PragmaStep(ds, ts, i).value.1)
  {
  }

  /** The pass rewrites pragmas only: every table keeps its reads. */
  lemma {:induction false} PragmaPassReads(ds: seq<Decl>, ts: seq<Table>, n: nat)
    requires n <= |ds| && DeclsIn(ds, |ts|)
    ensures PragmaPass(ds, ts, n).Ok? ==> SameReads(ts, PragmaPass(ds, ts, n).value.1)
    decreases n
  {
    if n > 0 {
      PragmaPassReads(ds, ts, n - 1);
      var prev := PragmaPass(ds, ts, n - 1);
      if prev.Ok? {
        PragmaPassSnoc(ds, ts, n - 1, prev.value.0, prev.value.1);
        PragmaStepReads(prev.value.0, prev.value.1, n - 1);
        if PragmaPass(ds, ts, n).Ok? {
          SameReadsTrans(ts, prev.value.1, PragmaPass(ds, ts, n).value.1);
        }
      }
    }
  }

  /** A failed pass stays failed, with the same error, one node further. */
  lemma PragmaErrNext(ds: seq<Decl>, ts: seq<Table>, n: nat, e: string)
    requires 0 < n <= |ds| && DeclsIn(ds, |ts|) && PragmaPass(ds, ts, n - 1) == Err(e)
    ensures PragmaPass(ds, ts, n) == Err(e)
  {
  }

  /** The first node whose pragma cannot be read decides the pass's error. */
  lemma {:induction false} PragmaErrPersists(ds: seq<Decl>, ts: seq<Table>, i: nat, n: nat)
    requires i <= n <= |ds| && DeclsIn(ds, |ts|) && PragmaPass(ds, ts, i).Err?
    ensures PragmaPass(ds, ts, n) == PragmaPass(ds, ts, i)
    decreases n
  {
    if n > i {
      var e := PragmaPass(ds, ts, i).msg;
      PragmaErrPersists(ds, ts, i, n - 1);
      PragmaErrNext(ds, ts, n, e);
    }
  }

  // ---------------------------------------------------------------------
  // transformMalleableTables, as values
  // ---------------------------------------------------------------------

  /** The version-bit read `__P4RIngMeta.__vv`, matched exactly. */
  const VvRead := Read(Exact, HdrField(FieldName(IngMetadataName, VvField)))

  /** The tables after the pass: under update isolation each target gains the version-bit read. */
  function WithVvReads(ts: seq<Table>, targets: set<nat>, level: IsoLevel): (r: seq<Table>)
    ensures |r| == |ts|
  {
    seq(|ts|, i requires 0 <= i < |ts| =>
      if Update(level) && i in targets then ts[i].(readStmts := ts[i].readStmts + [VvRead]) else ts[i])
  }

  /**
   * Under update isolation each target keeps its reads and gains exactly one
   * more, the exact version-bit read, at the end; every other table, and
   * every table without update isolation, is unchanged.
   */
  lemma WithVvReadsMeaning(ts: seq<Table>, targets: set<nat>, level: IsoLevel, i: nat)
    requires i < |ts|
    ensures var t := WithVvReads(ts, targets, level)[i];
            t == ts[i].(readStmts := t.readStmts) && t.readStmts[..|ts[i].readStmts|] == ts[i].readStmts
    ensures var t := WithVvReads(ts, targets, level)[i];
            Update(level) && i in targets ==> |t.readStmts| == |ts[i].readStmts| + 1 && t.readStmts[|ts[i].readStmts|] == VvRead
    ensures !(Update(level) && i in targets) ==> WithVvReads(ts, targets, level)[i] == ts[i]
  {
  }

  // ---------------------------------------------------------------------
  // The program
  // ---------------------------------------------------------------------

  class Program {
    /** The node array's top-level nodes, and each one's `removed_` flag. */
    var decls: seq<Decl>
    var removed: seq<bool>
    /** The arena: tables, actions, reference records, their locations, the worklist. */
    var tables: seq<Table>
    var actions: seq<Action>
    var refs: seq<MblRef>
    var locs: seq<Loc>
    var worklist: seq<nat>

    function State(): Arena
      reads this
    {
      Arena(tables, actions, refs, locs, worklist)
    }

    ghost predicate Valid()
      reads this
    {
      ArenaOk(State()) && |removed| == |decls| && DeclsIn(decls, |tables|)
    }

    constructor (ds: seq<Decl>, ts: seq<Table>, acts: seq<Action>, rs: seq<MblRef>, ls: seq<Loc>)
      requires ArenaOk(Arena(ts, acts, rs, ls, [])) && DeclsIn(ds, |ts|)
      ensures Valid() && decls == ds && removed == seq(|ds|, i => false)
      ensures State() == Arena(ts, acts, rs, ls, [])
    {
      decls, removed := ds, seq(|ds|, i => false);
      tables, actions, refs, locs, worklist := ts, acts, rs, ls, [];
    }

    /**
     * findAndRemoveMalleables: the three maps, filled in node order with
     * the first declaration of a name winning; every malleable declaration
     * and the init block is marked removed, and the inner table of every
     * malleable table is flagged malleable.
     */
    method FindAndRemoveMalleables() returns (values: map<string, ValueDecl>, fields: map<string, FieldDecl>,
                                                 mblTables: map<string, nat>)
      requires Valid()
      modifies this
      ensures decls == old(decls) && actions == old(actions) && refs == old(refs) && locs == old(locs)
      ensures worklist == old(worklist)
      ensures tables == Flagged(old(tables), decls) && removed == Marked(old(removed), decls, |decls|)
      ensures Valid()
      ensures values == FirstWins(ValueEntries(decls)) && fields == FirstWins(FieldEntries(decls))
      ensures mblTables == FirstWins(TableEntries(decls, old(tables)))
    {
      values, fields, mblTables := map[], map[], map[];
      var i := 0;
      while i < |decls|
        invariant 0 <= i <= |decls| && |old(removed)| == |decls|
        invariant values == FirstWins(ValueEntries(decls[..i])) && fields == FirstWins(FieldEntries(decls[..i]))
        invariant mblTables == FirstWins(TableEntries(decls[..i], old(tables)))
        invariant removed == Marked(old(removed), decls, i) && tables == Flagged(old(tables), decls[..i])
        invariant decls == old(decls) && actions == old(actions) && refs == old(refs) && locs == old(locs)
        invariant worklist == old(worklist)
      {
        tables, removed, values, fields, mblTables :=
          Visit(decls, i, old(tables), old(removed), tables, removed, values, fields, mblTables);
        i := i + 1;
      }
      assert decls[..i] == decls;
      TablesStillOk(old(State()), tables);
    }

    /** One turn of findAndRemoveMalleables: node `i` is visited. */
    static method Visit(ds: seq<Decl>, i: nat, ghost ts0: seq<Table>, ghost rm0: seq<bool>, ts: seq<Table>, rm: seq<bool>,
                        values: map<string, ValueDecl>, fields: map<string, FieldDecl>, mblTables: map<string, nat>)
      returns (ts': seq<Table>, rm': seq<bool>,
               values': map<string, ValueDecl>, fields': map<string, FieldDecl>, mblTables': map<string, nat>)
      requires i < |ds| && |rm0| == |ds| && DeclsIn(ds, |ts0|)
      requires values == FirstWins(ValueEntries(ds[..i])) && fields == FirstWins(FieldEntries(ds[..i]))
      requires mblTables == FirstWins(TableEntries(ds[..i], ts0))
      requires rm == Marked(rm0, ds, i) && ts == Flagged(ts0, ds[..i])
      ensures values' == FirstWins(ValueEntries(ds[..i + 1])) && fields' == FirstWins(FieldEntries(ds[..i + 1]))
      ensures mblTables' == FirstWins(TableEntries(ds[..i + 1], ts0))
      ensures rm' == Marked(rm0, ds, i + 1) && ts' == Flagged(ts0, ds[..i + 1])
    {
      var d := ds[i];
      var name := if d.MblTableD? then ts[d.table].name else "";
      assert d.MblTableD? ==> name == ts0[d.table].name;
      values', fields', mblTables' := EmplaceDecl(d, name, values, fields, mblTables);
      ts', rm' := ts, rm;
      if d.MblTableD? {
        ts' := ts'[d.table := ts'[d.table].(isMalleable := true)];
      }
      if Malleable(d) {
        rm' := rm'[i := true];
      }
      VisitStep(ds, i, ts0);
      VisitMarks(ds, i, ts0, rm0, ts, rm, ts', rm');
    }

    /** The emplace of the visited node into the map its kind belongs to; an existing key wins. */
    static method EmplaceDecl(d: Decl, name: string, values: map<string, ValueDecl>, fields: map<string, FieldDecl>,
                              mblTables: map<string, nat>)
      returns (values': map<string, ValueDecl>, fields': map<string, FieldDecl>, mblTables': map<string, nat>)
      ensures values' == if d.ValueD? then Emplace(values, d.value.name, d.value) else values
      ensures fields' == if d.FieldD? then Emplace(fields, d.field.name, d.field) else fields
      ensures mblTables' == if d.MblTableD? then Emplace(mblTables, name, d.table) else mblTables
    {
      values', fields', mblTables' := values, fields, mblTables;
      match d {
        case ValueD(v) =>
          if v.name !in values' { values' := values'[v.name := v]; }
        case FieldD(f) =>
          if f.name !in fields' { fields' := fields'[f.name := f]; }
        case MblTableD(t, _, _) =>
          if name !in mblTables' { mblTables' := mblTables'[name := t]; }
        case _ =>
      }
    }

    /**
     * transformPragma: every table node rewrites its pragma, in node order;
     * a stage number std::stoi cannot read aborts the compiler.
     */
    method TransformPragmas() returns (r: Result<()>)
      requires Valid()
      modifies this
      ensures removed == old(removed) && actions == old(actions) && refs == old(refs) && locs == old(locs)
      ensures worklist == old(worklist)
      ensures r.Err? <==> PragmaPass(old(decls), old(tables), |old(decls)|).Err?
      ensures r.Ok? ==> PragmaPass(old(decls), old(tables), |old(decls)|) == Ok((decls, tables)) && Valid()
    {
      var pass := RewritePragmas(decls, tables);
      if pass.Err? {
        return Err(pass.msg);
      }
      PragmaPassReads(decls, tables, |decls|);
      TablesStillOk(State(), pass.value.1);
      decls, tables := pass.value.0, pass.value.1;
      return Ok(());
    }

    /** The loop of transformPragma, node by node; the first failure ends it. */
    static method RewritePragmas(ds0: seq<Decl>, ts0: seq<Table>) returns (r: Result<(seq<Decl>, seq<Table>)>)
      requires DeclsIn(ds0, |ts0|)
      ensures r == PragmaPass(ds0, ts0, |ds0|)
    {
      var ds, ts := ds0, ts0;
      var i := 0;
      while i < |ds0|
        invariant 0 <= i <= |ds0| && PragmaPass(ds0, ts0, i) == Ok((ds, ts))
      {
        var step := PragmaTurn(ds0, ts0, i, ds, ts);
        if step.Err? {
          return step;
        }
        ds, ts := step.value.0, step.value.1;
        i := i + 1;
      }
      return Ok((ds, ts));
    }

    /** One turn of the loop of transformPragma: the pass so far, one node further; a failure is the pass's. */
    static method PragmaTurn(ghost ds0: seq<Decl>, ghost ts0: seq<Table>, i: nat, ds: seq<Decl>, ts: seq<Table>)
      returns (r: Result<(seq<Decl>, seq<Table>)>)
      requires i < |ds0| && DeclsIn(ds0, |ts0|) && PragmaPass(ds0, ts0, i) == Ok((ds, ts))
      ensures r.Ok? ==> PragmaPass(ds0, ts0, i + 1) == Ok((r.value.0, r.value.1))
      ensures r.Err? ==> PragmaPass(ds0, ts0, |ds0|) == r
    {
      PragmaPassSnoc(ds0, ts0, i, ds, ts);
      r := RewritePragma(ds, ts, i);
      if r.Err? {
        PragmaErrPersists(ds0, ts0, i + 1, |ds0|);
      }
    }

    /** transformPragma on node `i`: a table rewrites its own pragma, a malleable table the one it carries. */
    static method RewritePragma(ds: seq<Decl>, ts: seq<Table>, i: nat) returns (r: Result<(seq<Decl>, seq<Table>)>)
      requires i < |ds| && DeclsIn(ds, |ts|)
      ensures r == PragmaStep(ds, ts, i)
    {
      match ds[i] {
        case TableD(t) =>
          var u := TransformTablePragma(ts[t]);
          if u.Err? {
            return Err(u.msg);
          }
          return Ok((ds, ts[t := u.value]));
        case MblTableD(t, p, done) =>
          var pr := TransformPragma(p, done);
          if pr.Err? {
            return Err(pr.msg);
          }
          return Ok((ds[i := MblTableD(t, pr.value.0, pr.value.1)], ts));
        case _ =>
      }
      return Ok((ds, ts));
    }

    /**
     * transformMalleableTables: under update isolation, every malleable
     * table gets the exact version-bit read; a malleable table without a
     * read list makes the original dereference a null pointer.
     */
    method TransformMalleableTables(mblTables: map<string, nat>, level: IsoLevel) returns (r: Result<()>)
      requires Valid() && forall name :: name in mblTables ==> mblTables[name] < |tables|
      modifies this
      ensures decls == old(decls) && removed == old(removed) && actions == old(actions) && refs == old(refs)
      ensures locs == old(locs) && worklist == old(worklist)
      ensures r.Err? <==> Update(level) && exists name :: name in mblTables && !old(tables)[mblTables[name]].hasReads
      ensures r.Ok? ==> tables == WithVvReads(old(tables), mblTables.Values, level) && Valid()
    {
      if !Update(level) {
        assert WithVvReads(tables, mblTables.Values, level) == tables;
        return Ok(());
      }
      var targets := mblTables.Values;
      var ok := AddVvReads(targets, level);
      if !ok {
        ghost var t :| t in targets && t < |old(tables)| && !old(tables)[t].hasReads;
        ghost var name :| name in mblTables && mblTables[name] == t;
        return Err("null read list");
      }
      forall name | name in mblTables ensures old(tables)[mblTables[name]].hasReads {
        assert mblTables[name] in targets;
      }
      TablesGrowOk(old(State()), tables);
      return Ok(());
    }

    /** The table loop of transformMalleableTables: each target gains the exact `vv` read, a target without reads aborting. */
    method AddVvReads(targets: set<nat>, level: IsoLevel) returns (ok: bool)
      requires Update(level)
      modifies this
      ensures decls == old(decls) && removed == old(removed) && actions == old(actions) && refs == old(refs)
      ensures locs == old(locs) && worklist == old(worklist)
      ensures ok <==> forall t :: t in targets && t < |old(tables)| ==> old(tables)[t].hasReads
      ensures ok ==> tables == WithVvReads(old(tables), targets, level)
    {
      var i := 0;
      while i < |tables|
        invariant 0 <= i <= |tables| == |old(tables)|
        invariant forall t :: 0 <= t < |tables| ==>
                    tables[t] == if t < i then WithVvReads(old(tables), targets, level)[t] else old(tables)[t]
        invariant forall t :: 0 <= t < i && t in targets ==> old(tables)[t].hasReads
        invariant decls == old(decls) && removed == old(removed) && actions == old(actions) && refs == old(refs)
        invariant locs == old(locs) && worklist == old(worklist)
      {
        if i in targets {
          if !tables[i].hasReads {
            return false;
          }
          tables := tables[i := tables[i].(readStmts := tables[i].readStmts + [VvRead])];
        }
        i := i + 1;
      }
      assert tables == WithVvReads(old(tables), targets, level);
      return true;
    }

    /**
     * findAndTransformMblRefsInAction on action `a`: every VARREF argument
     * of its statements named `name` is retargeted to `header.field`; with
     * a worklist, each other untransformed one is appended to it.
     */
    method TransformMblRefsInAction(a: nat, name: string, header: string, field: string, push: bool)
      requires Valid() && a < |actions|
      modifies this
      ensures decls == old(decls) && removed == old(removed)
      ensures State() == InActionStep(old(State()), a, name, header, field, push) && Valid()
    {
      ghost var refs0 := refs;
      ghost var wl0 := worklist;
      var stmts := actions[a].stmts;
      StmtIdsIn(actions[a], |refs|);
      var i := 0;
      while i < |stmts|
        invariant 0 <= i <= |stmts| && |refs| == |refs0|
        invariant IdsIn(StmtRefs(stmts[..i]), |refs0|)
        invariant refs == Retarget(refs0, StmtRefs(stmts[..i]), name, header, field)
        invariant worklist == wl0 + Queued(refs0, StmtRefs(stmts[..i]), name, push)
        invariant decls == old(decls) && removed == old(removed) && tables == old(tables)
        invariant actions == old(actions) && locs == old(locs)
      {
        forall j | 0 <= j < |stmts[i].args| && stmts[i].args[j].RefWord? ensures stmts[i].args[j].ref < |refs0| {
          WordRefInStmts(stmts, i, j);
        }
        StmtRefsSnoc(stmts, i);
        RetargetWords(stmts[i].args, refs0, wl0, StmtRefs(stmts[..i]), name, header, field, push);
        i := i + 1;
      }
      assert stmts[..i] == stmts;
    }

    /** The inner loop of findAndTransformMblRefsInAction: the arguments of one statement. */
    method RetargetWords(args: seq<Word>, ghost refs0: seq<MblRef>, ghost wl0: seq<nat>, ghost done: seq<nat>,
                         name: string, header: string, field: string, push: bool)
      requires |refs| == |refs0| && IdsIn(done, |refs0|)
      requires forall j :: 0 <= j < |args| && args[j].RefWord? ==> args[j].ref < |refs0|
      requires refs == Retarget(refs0, done, name, header, field)
      requires worklist == wl0 + Queued(refs0, done, name, push)
      modifies this
      ensures |refs| == |refs0| && IdsIn(done + WordRefs(args), |refs0|)
      ensures refs == Retarget(refs0, done + WordRefs(args), name, header, field)
      ensures worklist == wl0 + Queued(refs0, done + WordRefs(args), name, push)
      ensures decls == old(decls) && removed == old(removed) && tables == old(tables)
      ensures actions == old(actions) && locs == old(locs)
    {
      var j := 0;
      assert done + WordRefs(args[..0]) == done;
      while j < |args|
        invariant 0 <= j <= |args| && |refs| == |refs0|
        invariant IdsIn(done + WordRefs(args[..j]), |refs0|)
        invariant refs == Retarget(refs0, done + WordRefs(args[..j]), name, header, field)
        invariant worklist == wl0 + Queued(refs0, done + WordRefs(args[..j]), name, push)
        invariant decls == old(decls) && removed == old(removed) && tables == old(tables)
        invariant actions == old(actions) && locs == old(locs)
      {
        ghost var ids := done + WordRefs(args[..j]);
        WordRefsSnoc(args, j);
        if args[j].RefWord? {
          assert ids + [args[j].ref] == done + WordRefs(args[..j + 1]);
          RetargetWord(args[j].ref, refs0, wl0, ids, name, header, field, push);
        } else {
          assert ids == done + WordRefs(args[..j + 1]);
        }
        j := j + 1;
      }
      assert args[..j] == args;
    }

    /** One VARREF argument `x` of findAndTransformMblRefsInAction. */
    method RetargetWord(x: nat, ghost refs0: seq<MblRef>, ghost wl0: seq<nat>, ghost ids: seq<nat>,
                        name: string, header: string, field: string, push: bool)
      requires |refs| == |refs0| && x < |refs0| && IdsIn(ids, |refs0|)
      requires refs == Retarget(refs0, ids, name, header, field)
      requires worklist == wl0 + Queued(refs0, ids, name, push)
      modifies this
      ensures IdsIn(ids + [x], |refs0|)
      ensures refs == Retarget(refs0, ids + [x], name, header, field)
      ensures worklist == wl0 + Queued(refs0, ids + [x], name, push)
      ensures decls == old(decls) && removed == old(removed) && tables == old(tables)
      ensures actions == old(actions) && locs == old(locs)
    {
      RetargetStep(refs0, ids, x, name, header, field, refs);
      QueueStep(refs0, wl0, ids, x, name, push, worklist);
      if refs[x].name == name {
        refs := refs[x := Transform(refs[x], header, field)];
      } else if push && !refs[x].transformed {
        worklist := worklist + [x];
      }
    }

    /**
     * transformTableWithRefRead for reference `id` in read `r` of table `t`:
     * the selector read is added unless present, then the alternatives are
     * walked in order, the first resolving the reference and promoting its
     * read, each further one appending a read of that match type.
     */
    method TransformTableWithRefRead(id: nat, t: nat, r: nat, alts: seq<FieldName>)
      requires Valid() && id < |refs| && t < |tables| && r < |tables[t].readStmts|
      modifies this
      ensures decls == old(decls) && removed == old(removed)
      ensures State() == WithRefRead(old(State()), id, t, r, alts) && Valid()
    {
      ghost var tbl := tables[t];
      var selector := Selector(refs[id].name);
      var found := FindTableReadStmt(tables[t], selector);
      if found == Ok(false) {
        tables := tables[t := tables[t].(readStmts := tables[t].readStmts + [Read(Exact, StrField(selector))])];
      }
      ghost var reads1 := tables[t].readStmts;
      assert reads1 == if ReadsName(tbl.readStmts, selector) then tbl.readStmts
                       else tbl.readStmts + [Read(Exact, StrField(selector))];
      ghost var tables1 := tables;
      var mt := ReadAlts(id, t, r, alts, tables1);
      if |alts| > 0 {
        assert alts[1..|alts|] == alts[1..];
      }
      TablesGrowOk(old(State()), tables);
    }

    /** The alternatives loop of transformTableWithRefRead. */
    method ReadAlts(id: nat, t: nat, r: nat, alts: seq<FieldName>, ghost tables1: seq<Table>) returns (mt: MatchType)
      requires tables == tables1 && t < |tables1| && r < |tables1[t].readStmts| && id < |refs|
      requires AltReadsAt(tables, refs, tables1, refs, id, t, r, alts, 0, Exact)
      modifies this
      ensures decls == old(decls) && removed == old(removed) && actions == old(actions)
      ensures locs == old(locs) && worklist == old(worklist)
      ensures AltReadsAt(tables, refs, tables1, old(refs), id, t, r, alts, |alts|, mt)
    {
      var first := true;
      mt := Exact;
      var k := 0;
      while k < |alts|
        invariant 0 <= k <= |alts| && (first <==> k == 0)
        invariant decls == old(decls) && removed == old(removed) && actions == old(actions)
        invariant locs == old(locs) && worklist == old(worklist)
        invariant AltReadsAt(tables, refs, tables1, old(refs), id, t, r, alts, k, mt)
      {
        mt := ReadAlt(id, t, r, alts, k, first, mt, tables1, old(refs));
        first := false;
        k := k + 1;
      }
    }

    /** One alternative of transformTableWithRefRead, the `first` one or a further one. */
    method ReadAlt(id: nat, t: nat, r: nat, alts: seq<FieldName>, k: nat, first: bool, mt: MatchType,
                   ghost tables1: seq<Table>, ghost refs0: seq<MblRef>) returns (mt': MatchType)
      requires k < |alts| && (first <==> k == 0)
      requires t < |tables1| && r < |tables1[t].readStmts| && id < |refs0|
      requires AltReadsAt(tables, refs, tables1, refs0, id, t, r, alts, k, mt)
      modifies this
      ensures decls == old(decls) && removed == old(removed) && actions == old(actions)
      ensures locs == old(locs) && worklist == old(worklist)
      ensures AltReadsAt(tables, refs, tables1, refs0, id, t, r, alts, k + 1, mt')
    {
      if first {
        refs := refs[id := Transform(refs[id], alts[k].header, alts[k].field)];
        if tables[t].readStmts[r].matchType == Exact {
          tables := tables[t := tables[t].(readStmts := tables[t].readStmts[r := tables[t].readStmts[r].(matchType := Ternary)])];
        }
        mt' := tables[t].readStmts[r].matchType;
        assert AltReads(alts[1..1], mt') == [];
      } else {
        mt' := mt;
        assert AltReads(alts[1..k + 1], mt) == AltReads(alts[1..k], mt) + [Read(mt, HdrField(alts[k]))];
        tables := tables[t := tables[t].(readStmts := tables[t].readStmts + [Read(mt, HdrField(alts[k]))])];
      }
    }

    /**
     * One further alternative of duplicateActions: a duplicate of action
     * `a` under the alternative's name, its copied records appended, then
     * its references retargeted with the worklist given.
     */
    method AddDuplicate(a: nat, alt: FieldName, act: string, varName: string)
      requires Valid() && a < |actions|
      modifies this
      ensures decls == old(decls) && removed == old(removed)
      ensures State() == AddCopy(old(State()), a, alt, act, varName) && Valid()
    {
      var orig := actions[a];
      var next := |refs|;
      var d := DuplicateAction(orig, AltName(alt, act), next);
      var copies := CopiedRefs(ActionRefs(orig), refs);
      DuplicateActionFresh(orig, AltName(alt, act), next);
      GrowOk(State(), d, copies, InAction(|actions|));
      locs := locs + Repeat(InAction(|actions|), |copies|);
      actions := actions + [d];
      refs := refs + copies;
      TransformMblRefsInAction(|actions| - 1, varName, alt.header, alt.field, true);
    }

    /** Alternative `k` of the action side of duplicateActions. */
    method DuplicateStep(a: nat, alts: seq<FieldName>, k: nat, first: bool, act: string, varName: string,
                         ghost ar0: Arena)
      requires ArenaOk(ar0) && a < |ar0.actions| && k < |alts| && (first <==> k == 0) && act == ar0.actions[a].name
      requires Valid() && State() == DuplicateArena(ar0, a, alts[..k], varName)
      modifies this
      ensures decls == old(decls) && removed == old(removed)
      ensures Valid() && State() == DuplicateArena(ar0, a, alts[..k + 1], varName)
    {
      if first {
        ghost var ar1 := State().(actions := actions[a := actions[a].(name := AltName(alts[k], act))]);
        DuplicateArenaFirst(ar0, a, alts, varName, ar1);
        actions := actions[a := actions[a].(name := AltName(alts[k], act))];
        TransformMblRefsInAction(a, varName, alts[k].header, alts[k].field, false);
      } else {
        DuplicateArenaSnoc(ar0, a, alts, varName, k);
        AddDuplicate(a, alts[k], act, varName);
      }
    }

    /**
     * The table side of duplicateActions on one hit: the entry takes the
     * first name, the other names are appended, and the selector read is
     * added unless present.
     */
    method RewriteEntry(e: EntryRef, names: seq<string>, selector: string) returns (r: Result<()>)
      requires e.table < |tables| && e.entry < |tables[e.table].actions|
      modifies this
      ensures decls == old(decls) && removed == old(removed) && actions == old(actions)
      ensures refs == old(refs) && locs == old(locs) && worklist == old(worklist)
      ensures r.Err? <==> AltTable(old(tables)[e.table], e.entry, names, selector).Err?
      ensures r.Ok? ==> tables == old(tables)[e.table := AltTable(old(tables)[e.table], e.entry, names, selector).value]
    {
      ghost var t0 := tables[e.table];
      var first := true;
      var k := 0;
      while k < |names|
        invariant 0 <= k <= |names| && (first <==> k == 0)
        invariant decls == old(decls) && removed == old(removed) && actions == old(actions)
        invariant refs == old(refs) && locs == old(locs) && worklist == old(worklist)
        invariant |tables| == |old(tables)| && tables == old(tables)[e.table := tables[e.table]]
        invariant tables[e.table] == t0.(actions := Renamed(t0.actions, e.entry, names, k))
      {
        if first {
          tables := tables[e.table := tables[e.table].(actions := tables[e.table].actions[e.entry := names[k]])];
          first := false;
          assert Renamed(t0.actions, e.entry, names, 1) == t0.actions[e.entry := names[0]] + [];
        } else {
          tables := tables[e.table := tables[e.table].(actions := tables[e.table].actions + [names[k]])];
          assert names[1..k + 1] == names[1..k] + [names[k]];
          assert Renamed(t0.actions, e.entry, names, k + 1) == Renamed(t0.actions, e.entry, names, k) + [names[k]];
        }
        k := k + 1;
      }
      if k > 0 {
        assert names[1..k] == names[1..];
      }
      var found := FindTableReadStmt(tables[e.table], selector);
      if found.Err? {
        return Err(found.msg);
      }
      if !found.value {
        tables := tables[e.table := tables[e.table].(readStmts := tables[e.table].readStmts + [Read(Exact, StrField(selector))])];
      }
      return Ok(());
    }

    /**
     * duplicateActions for reference `id` in action `a`: one instantiated
     * action per alternative, then every table listing the action under its
     * original name rewritten for them.
     */
    method DuplicateActions(id: nat, a: nat, alts: seq<FieldName>) returns (res: Result<()>)
      requires Valid() && id < |refs| && a < |actions|
      modifies this
      ensures decls == old(decls) && removed == old(removed)
      ensures res.Err? <==> DuplicateAll(old(State()), id, a, alts).Err?
      ensures res.Ok? ==> State() == DuplicateAll(old(State()), id, a, alts).value && Valid()
    {
      var act := actions[a].name;
      var varName := refs[id].name;
      var altNames := DuplicateAlts(a, alts, act, varName);
      ghost var ar2 := State();
      var es := FindTableActionStmts(tables, act);
      HitsIn(tables, act);
      res := RewriteTables(es, altNames, Selector(varName));
      if res.Ok? {
        TablesGrowOk(ar2, tables);
      }
    }

    /** The action side of duplicateActions: one copy per alternative, the first one renaming the original. */
    method DuplicateAlts(a: nat, alts: seq<FieldName>, act: string, varName: string) returns (altNames: seq<string>)
      requires Valid() && a < |actions| && act == actions[a].name
      modifies this
      ensures decls == old(decls) && removed == old(removed)
      ensures altNames == AltNames(alts, act)
      ensures Valid() && State() == DuplicateArena(old(State()), a, alts, varName)
    {
      altNames := [];
      var first := true;
      var k := 0;
      while k < |alts|
        invariant 0 <= k <= |alts| && (first <==> k == 0)
        invariant decls == old(decls) && removed == old(removed)
        invariant altNames == AltNames(alts[..k], act)
        invariant Valid() && State() == DuplicateArena(old(State()), a, alts[..k], varName)
      {
        AltNamesSnoc(alts, k, act);
        altNames := altNames + [AltName(alts[k], act)];
        DuplicateStep(a, alts, k, first, act, varName, old(State()));
        first := false;
        k := k + 1;
      }
      assert alts[..k] == alts;
    }

    /** The table side of duplicateActions: every hit rewritten in turn, the first failure aborting. */
    method RewriteTables(es: seq<EntryRef>, names: seq<string>, selector: string) returns (res: Result<()>)
      requires EntriesIn(tables, es)
      modifies this
      ensures decls == old(decls) && removed == old(removed) && actions == old(actions)
      ensures refs == old(refs) && locs == old(locs) && worklist == old(worklist)
      ensures res.Err? <==> AltTables(old(tables), es, names, selector).Err?
      ensures res.Ok? ==> AltTables(old(tables), es, names, selector) == Ok(tables)
    {
      var j := 0;
      assert es[0..] == es;
      while j < |es|
        invariant 0 <= j <= |es| && EntriesIn(tables, es[j..])
        invariant decls == old(decls) && removed == old(removed) && actions == old(actions)
        invariant refs == old(refs) && locs == old(locs) && worklist == old(worklist)
        invariant AltTables(old(tables), es, names, selector) == AltTables(tables, es[j..], names, selector)
      {
        assert es[j..][0] == es[j];
        ghost var ts := tables;
        var step := RewriteEntry(es[j], names, selector);
        AltTablesStep(ts, es, j, names, selector, AltTable(ts[es[j].table], es[j].entry, names, selector));
        if step.Err? {
          return Err(step.msg);
        }
        j := j + 1;
      }
      return Ok(());
    }

    /**
     * transformMalleableFieldRef: the first action, table or reaction the
     * reference's parent walk meets decides what happens to it; a reference
     * with none of them is a syntax error.
     */
    method TransformMalleableFieldRef(id: nat, field: FieldDecl) returns (res: Result<()>)
      requires Valid() && id < |refs|
      modifies this
      ensures decls == old(decls) && removed == old(removed)
      ensures res.Err? <==> FieldRefStep(old(State()), id, field).Err?
      ensures res.Ok? ==> State() == FieldRefStep(old(State()), id, field).value && Valid()
    {
      match locs[id] {
        case InAction(a) =>
          res := DuplicateActions(id, a, field.alts);
        case InRead(t, r) =>
          TransformTableWithRefRead(id, t, r, field.alts);
          res := Ok(());
        case InReaction =>
          res := Ok(());
        case Nowhere =>
          res := Err("Syntax Error: Could not find parent of variable reference");
      }
    }

    /**
     * One turn of transformMalleableRefs: the first reference is taken off
     * the worklist and resolved by the kind of its name.
     */
    method ResolveNext(values: map<string, ValueDecl>, fields: map<string, FieldDecl>) returns (res: Result<()>)
      requires Valid() && |worklist| > 0
      modifies this
      ensures decls == old(decls) && removed == old(removed)
      ensures res.Err? <==> WorkStep(old(State()), values, fields).Err?
      ensures res.Ok? ==> State() == WorkStep(old(State()), values, fields).value && Valid()
    {
      var id := worklist[0];
      worklist := worklist[1..];
      res := Ok(());
      if refs[id].transformed {
        return;
      }
      var name := refs[id].name;
      if name in values {
        if locs[id] == InReaction {
          refs := refs[id := refs[id].(inReaction := true)];
        } else {
          refs := refs[id := Transform(refs[id], IngMetadataName, name)];
        }
      } else if name in fields {
        res := TransformMalleableFieldRef(id, fields[name]);
      }
    }

    /**
     * transformMalleableRefs for at most `fuel` turns: the worklist is
     * drained front to back; the result tells whether it emptied.
     */
    method TransformMalleableRefs(values: map<string, ValueDecl>, fields: map<string, FieldDecl>, fuel: nat)
      returns (res: Result<bool>)
      requires Valid()
      modifies this
      ensures decls == old(decls) && removed == old(removed)
      ensures res.Err? <==> Run(old(State()), values, fields, fuel).Err?
      ensures res.Ok? ==> Run(old(State()), values, fields, fuel) == Ok(State()) && Valid()
      ensures res.Ok? ==> (res.value <==> |worklist| == 0)
    {
      var n := fuel;
      while |worklist| > 0 && n > 0
        invariant Valid() && decls == old(decls) && removed == old(removed)
        invariant Run(old(State()), values, fields, fuel) == Run(State(), values, fields, n)
        decreases n
      {
        var step := ResolveNext(values, fields);
        if step.Err? {
          return Err(step.msg);
        }
        n := n - 1;
      }
      return Ok(|worklist| == 0);
    }

    /** findMalleableRefs: every reference record, in node order, joins the worklist. */
    method FindMalleableRefs()
      requires Valid()
      modifies this
      ensures decls == old(decls) && removed == old(removed) && tables == old(tables)
      ensures actions == old(actions) && refs == old(refs) && locs == old(locs)
      ensures worklist == old(worklist) + Ids(0, |refs|) && Valid()
    {
      var i := 0;
      while i < |refs|
        invariant 0 <= i <= |refs| && worklist == old(worklist) + Ids(0, i)
        invariant decls == old(decls) && removed == old(removed) && tables == old(tables)
        invariant actions == old(actions) && refs == old(refs) && locs == old(locs)
      {
        assert Ids(0, i + 1) == Ids(0, i) + [i];
        worklist := worklist + [i];
        i := i + 1;
      }
    }
  }

  /** The action entries of duplicateActions after `k` names: the entry renamed, then the rest appended. */
  function Renamed(acts: seq<string>, entry: nat, names: seq<string>, k: nat): seq<string>
    requires entry < |acts| && k <= |names|
  {
    if k == 0 then acts else acts[entry := names[0]] + names[1..k]
  }

  /**
   * The state of transformTableWithRefRead after `k` alternatives: before
   * the first, only the selector read (in `tables1`) has changed; after it,
   * the reference stands for the first alternative, the read holding it has
   * match type `mt`, its promotion, and the further alternatives' reads follow.
   */
  ghost predicate AltReadsAt(tables: seq<Table>, refs: seq<MblRef>, tables1: seq<Table>, refs0: seq<MblRef>,
                             id: nat, t: nat, r: nat, alts: seq<FieldName>, k: nat, mt: MatchType)
    requires t < |tables1| && r < |tables1[t].readStmts| && id < |refs0| && k <= |alts|
  {
    var reads1 := tables1[t].readStmts;
    t < |tables| && tables == tables1[t := tables1[t].(readStmts := tables[t].readStmts)]
    && (k == 0 ==> tables == tables1 && refs == refs0)
    && (k > 0 ==> mt == Promoted(reads1[r].matchType)
                  && refs == refs0[id := Transform(refs0[id], alts[0].header, alts[0].field)]
                  && tables[t].readStmts == reads1[r := reads1[r].(matchType := mt)] + AltReads(alts[1..k], mt))
  }

  /** `emplace(key, value)` on a map. */
  function Emplace<V>(m: map<string, V>, key: string, value: V): map<string, V>
  {
    if key in m then m else m[key := value]
  }

  /** The three maps after visiting node `i`. */
  lemma VisitStep(ds: seq<Decl>, i: nat, ts: seq<Table>)
    requires i < |ds| && DeclsIn(ds, |ts|)
    ensures FirstWins(ValueEntries(ds[..i + 1])) ==
            if ds[i].ValueD? then Emplace(FirstWins(ValueEntries(ds[..i])), ds[i].value.name, ds[i].value)
            else FirstWins(ValueEntries(ds[..i]))
    ensures FirstWins(FieldEntries(ds[..i + 1])) ==
            if ds[i].FieldD? then Emplace(FirstWins(FieldEntries(ds[..i])), ds[i].field.name, ds[i].field)
            else FirstWins(FieldEntries(ds[..i]))
    ensures FirstWins(TableEntries(ds[..i + 1], ts)) ==
            if ds[i].MblTableD? then Emplace(FirstWins(TableEntries(ds[..i], ts)), ts[ds[i].table].name, ds[i].table)
            else FirstWins(TableEntries(ds[..i], ts))
  {
    EntriesSnoc(ds, i, ts);
    match ds[i]
    case ValueD(v) => FirstWinsSnoc(ValueEntries(ds[..i]), (v.name, v));
    case FieldD(f) => FirstWinsSnoc(FieldEntries(ds[..i]), (f.name, f));
    case MblTableD(t, _, _) => FirstWinsSnoc(TableEntries(ds[..i], ts), (ts[t].name, t));
    case _ =>
  }

  /** The entries of a prefix one node longer. */
  lemma EntriesSnoc(ds: seq<Decl>, i: nat, ts: seq<Table>)
    requires i < |ds| && DeclsIn(ds, |ts|)
    ensures ds[i].ValueD? ==> ValueEntries(ds[..i + 1]) == ValueEntries(ds[..i]) + [(ds[i].value.name, ds[i].value)]
    ensures !ds[i].ValueD? ==> ValueEntries(ds[..i + 1]) == ValueEntries(ds[..i])
    ensures ds[i].FieldD? ==> FieldEntries(ds[..i + 1]) == FieldEntries(ds[..i]) + [(ds[i].field.name, ds[i].field)]
    ensures !ds[i].FieldD? ==> FieldEntries(ds[..i + 1]) == FieldEntries(ds[..i])
    ensures ds[i].MblTableD? ==>
              TableEntries(ds[..i + 1], ts) == TableEntries(ds[..i], ts) + [(ts[ds[i].table].name, ds[i].table)]
    ensures !ds[i].MblTableD? ==> TableEntries(ds[..i + 1], ts) == TableEntries(ds[..i], ts)
  {
    assert ds[..i + 1][..i] == ds[..i];
    assert ValueEntries(ds[..i]) + [] == ValueEntries(ds[..i]);
    assert FieldEntries(ds[..i]) + [] == FieldEntries(ds[..i]);
    assert TableEntries(ds[..i], ts) + [] == TableEntries(ds[..i], ts);
  }

  /** One more node can only wrap the table it names. */
  lemma WrappedSnoc(ds: seq<Decl>, i: nat)
    requires i < |ds|
    ensures forall t :: Wrapped(ds[..i + 1], t) <==> Wrapped(ds[..i], t) || (ds[i].MblTableD? && ds[i].table == t)
  {
    forall t ensures Wrapped(ds[..i + 1], t) <==> Wrapped(ds[..i], t) || (ds[i].MblTableD? && ds[i].table == t) {
      if Wrapped(ds[..i + 1], t) {
        var j :| 0 <= j < i + 1 && ds[..i + 1][j].MblTableD? && ds[..i + 1][j].table == t;
        if j < i { assert ds[..i][j] == ds[j]; }
      }
      if Wrapped(ds[..i], t) {
        var j :| 0 <= j < i && ds[..i][j].MblTableD? && ds[..i][j].table == t;
        assert ds[..i + 1][j] == ds[j];
      }
      if ds[i].MblTableD? && ds[i].table == t {
        assert ds[..i + 1][i] == ds[i];
      }
    }
  }

  /** Two table lists agree on every table's reads. */
  predicate SameReads(ts: seq<Table>, ts': seq<Table>)
  {
    |ts'| == |ts| &&
    forall t :: 0 <= t < |ts| ==> ts'[t].readStmts == ts[t].readStmts && ts'[t].hasReads == ts[t].hasReads
  }

  lemma SameReadsTrans(ts: seq<Table>, ts': seq<Table>, ts'': seq<Table>)
    requires SameReads(ts, ts') && SameReads(ts', ts'')
    ensures SameReads(ts, ts'')
  {
  }

  /** Flagging tables malleable changes nothing the arena's validity depends on. */
  lemma TablesStillOk(ar: Arena, ts: seq<Table>)
    requires ArenaOk(ar) && SameReads(ar.tables, ts)
    ensures ArenaOk(ar.(tables := ts))
  {
    forall i | 0 <= i < |ar.locs| ensures LocOk(ar.locs[i], ts, |ar.actions|) {
      assert LocOk(ar.locs[i], ar.tables, |ar.actions|);
    }
  }
}
