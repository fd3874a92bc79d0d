/**
 * Isolation-level inference (inferIngIsolationOpt / inferEgrIsolationOpt)
 * and the measurement-bit correction made after the digest is packed
 * (generateIngDigestPacking / generateEgrDigestPacking).
 *
 * A level is two bits: bit 0 asks for measurement isolation (the mv version
 * bit), bit 1 for update isolation (the vv version bit).
 */
module Isolation {
  import opened Strings
  import opened Consts
  import opened AstP4R
  import opened AstP4
  import opened BinPack
  import opened FindNodes

  /** What findRegargInIng reads of the node array to place a register argument. */
  datatype Scope = Scope(es: seq<Expr>, actions: seq<Action>, tables: seq<Table>, refs: seq<MblRef>)

  predicate ScopeOk(sc: Scope, args: seq<ReactionArg>)
  {
    ActionsOk(sc.actions, sc.refs) && forall i :: 0 <= i < |args| ==> ArgRenderable(args[i])
  }

  // ---------------------------------------------------------------------
  // Which register arguments live in ingress
  // ---------------------------------------------------------------------

  /** The answer findRegargInIng gives for each argument. */
  function Answers(args: seq<ReactionArg>, sc: Scope): (rs: seq<Result<bool>>)
    requires ScopeOk(sc, args)
    ensures |rs| == |args|
  {
    seq(|args|, i requires 0 <= i < |args| => RegargInIng(args[i], sc.es, sc.actions, sc.tables, sc.refs))
  }

  /** The answers taken in order: the first failure aborts, otherwise the flags. */
  function Collect(rs: seq<Result<bool>>): (r: Result<seq<bool>>)
    ensures r.Ok? ==> |r.value| == |rs|
    decreases |rs|
  {
    if |rs| == 0 then Ok([])
    else
      var n := |rs| - 1;
      match Collect(rs[..n])
      case Err(e) => Err(e)
      case Ok(flags) =>
        match rs[n]
        case Err(e) => Err(e)
        case Ok(b) => Ok(flags + [b])
  }

  /** Collecting succeeds exactly when every answer does, and then yields each answer. */
  lemma {:induction false} CollectExact(rs: seq<Result<bool>>)
    ensures Collect(rs).Ok? <==> forall i :: 0 <= i < |rs| ==> rs[i].Ok?
    ensures Collect(rs).Ok? ==> forall i :: 0 <= i < |rs| ==> rs[i] == Ok(Collect(rs).value[i])
    decreases |rs|
  {
    if |rs| > 0 {
      var n := |rs| - 1;
      assert forall i :: 0 <= i < n ==> rs[..n][i] == rs[i];
      CollectExact(rs[..n]);
    }
  }

  /** A failure in a prefix is a failure of the whole. */
  lemma {:induction false} CollectErrPersists(rs: seq<Result<bool>>, k: nat)
    requires k <= |rs| && Collect(rs[..k]).Err?
    ensures Collect(rs).Err?
    decreases |rs| - k
  {
    if k < |rs| {
      assert rs[..k + 1][..k] == rs[..k];
      CollectErrPersists(rs, k + 1);
    } else {
      assert rs[..k] == rs;
    }
  }

  /** findRegargInIng on every argument, in order; the first PANIC aborts. */
  function InIngress(args: seq<ReactionArg>, sc: Scope): (r: Result<seq<bool>>)
    requires ScopeOk(sc, args)
    ensures r.Ok? ==> |r.value| == |args|
  {
    Collect(Answers(args, sc))
  }

  /**
   * The flags succeed exactly when findRegargInIng succeeds on every
   * argument, and then each flag is its answer (false for every
   * non-register argument).
   */
  lemma InIngressExact(args: seq<ReactionArg>, sc: Scope)
    requires ScopeOk(sc, args)
    ensures InIngress(args, sc).Ok? <==>
              forall i :: 0 <= i < |args| ==> RegargInIng(args[i], sc.es, sc.actions, sc.tables, sc.refs).Ok?
    ensures InIngress(args, sc).Ok? ==>
              forall i :: 0 <= i < |args| ==>
                RegargInIng(args[i], sc.es, sc.actions, sc.tables, sc.refs) == Ok(InIngress(args, sc).value[i])
  {
    var rs := Answers(args, sc);
    assert forall i :: 0 <= i < |args| ==> rs[i] == RegargInIng(args[i], sc.es, sc.actions, sc.tables, sc.refs);
    CollectExact(rs);
  }

  // ---------------------------------------------------------------------
  // Counting the arguments of one direction
  // ---------------------------------------------------------------------

  /**
   * The argument counts for the measurement test of a direction: a register
   * argument of that pipeline, or a field or malleable-field argument of it.
   */
  predicate Counts(a: ReactionArg, inIng: bool, ingress: bool)
  {
    if ingress then (a.argType == RegisterArg && inIng) || a.argType == IngressField || a.argType == IngressMblField
    else (a.argType == RegisterArg && !inIng) || a.argType == EgressField || a.argType == EgressMblField
  }

  function NumArgs(args: seq<ReactionArg>, flags: seq<bool>, ingress: bool): nat
    requires |flags| == |args|
    decreases |args|
  {
    if |args| == 0 then 0
    else
      var n := |args| - 1;
      NumArgs(args[..n], flags[..n], ingress) + (if Counts(args[n], flags[n], ingress) then 1 else 0)
  }

  /** Some argument counts exactly when the count is positive. */
  lemma {:induction false} NumArgsPositive(args: seq<ReactionArg>, flags: seq<bool>, ingress: bool)
    requires |flags| == |args|
    ensures NumArgs(args, flags, ingress) > 0 <==>
              exists i :: 0 <= i < |args| && Counts(args[i], flags[i], ingress)
    decreases |args|
  {
    if |args| > 0 {
      var n := |args| - 1;
      NumArgsPositive(args[..n], flags[..n], ingress);
      if exists i :: 0 <= i < |args| && Counts(args[i], flags[i], ingress) {
        var i :| 0 <= i < |args| && Counts(args[i], flags[i], ingress);
        if i < n {
          assert Counts(args[..n][i], flags[..n][i], ingress);
        }
      }
    }
  }

  /** Measurement is needed exactly when two distinct arguments count. */
  lemma {:induction false} NumArgsAboveOne(args: seq<ReactionArg>, flags: seq<bool>, ingress: bool)
    requires |flags| == |args|
    ensures NumArgs(args, flags, ingress) > 1 <==>
              exists i, j :: 0 <= i < j < |args| && Counts(args[i], flags[i], ingress) && Counts(args[j], flags[j], ingress)
    decreases |args|
  {
    if |args| > 0 {
      var n := |args| - 1;
      var a, f := args[..n], flags[..n];
      var last := Counts(args[n], flags[n], ingress);
      assert NumArgs(args, flags, ingress) == NumArgs(a, f, ingress) + (if last then 1 else 0);
      assert NumArgs(a, f, ingress) > 1 <==>
               exists i, j :: 0 <= i < j < n && Counts(a[i], f[i], ingress) && Counts(a[j], f[j], ingress) by {
        NumArgsAboveOne(a, f, ingress);
      }
      assert NumArgs(a, f, ingress) > 0 <==> exists i :: 0 <= i < n && Counts(a[i], f[i], ingress) by {
        NumArgsPositive(a, f, ingress);
      }
      if exists i, j :: 0 <= i < j < |args| && Counts(args[i], flags[i], ingress) && Counts(args[j], flags[j], ingress) {
        var i, j :| 0 <= i < j < |args| && Counts(args[i], flags[i], ingress) && Counts(args[j], flags[j], ingress);
        CountsTake(args, flags, n, i, ingress);
        if j < n {
          CountsTake(args, flags, n, j, ingress);
        }
      }
      if NumArgs(args, flags, ingress) > 1 {
        if NumArgs(a, f, ingress) > 1 {
          var i, j :| 0 <= i < j < n && Counts(a[i], f[i], ingress) && Counts(a[j], f[j], ingress);
          CountsTake(args, flags, n, i, ingress);
          CountsTake(args, flags, n, j, ingress);
        } else {
          var i :| 0 <= i < n && Counts(a[i], f[i], ingress);
          CountsTake(args, flags, n, i, ingress);
        }
      }
    }
  }

  lemma CountsTake(args: seq<ReactionArg>, flags: seq<bool>, n: nat, k: nat, ingress: bool)
    requires |flags| == |args| && k < n <= |args|
    ensures Counts(args[..n][k], flags[..n][k], ingress) == Counts(args[k], flags[k], ingress)
  {
  }

  lemma NumArgsSnoc(args: seq<ReactionArg>, flags: seq<bool>, i: nat, b: bool, ingress: bool)
    requires |flags| == i < |args|
    ensures NumArgs(args[..i + 1], flags + [b], ingress) ==
              NumArgs(args[..i], flags, ingress) + (if Counts(args[i], b, ingress) then 1 else 0)
  {
    assert args[..i + 1][..i] == args[..i];
    assert (flags + [b])[..i] == flags;
  }

  // ---------------------------------------------------------------------
  // The update test
  // ---------------------------------------------------------------------

  /** The reaction text names a `_mod`, `_add` or `_del` operation on table `t`. */
  predicate NamesOperation(dialogue: string, t: string)
  {
    Contains(dialogue, t + "_mod") || Contains(dialogue, t + "_add") || Contains(dialogue, t + "_del")
  }

  predicate MblOperation(tableNames: seq<string>, dialogue: string)
  {
    exists i :: 0 <= i < |tableNames| && NamesOperation(dialogue, tableNames[i])
  }

  /** The reaction's text, or the empty text when the program has no reaction. */
  function Dialogue(reaction: Option<string>): (d: string)
    ensures reaction.None? ==> |d| == 0
  {
    match reaction
    case None => ""
    case Some(body) => body
  }

  /** The scan over the malleable tables, stopping at the first named operation. */
  method FindMblOperation(tableNames: seq<string>, dialogue: string) returns (found: bool)
    ensures found <==> MblOperation(tableNames, dialogue)
  {
    found := false;
    var i := 0;
    while i < |tableNames|
      invariant 0 <= i <= |tableNames|
      invariant forall k :: 0 <= k < i ==> !NamesOperation(dialogue, tableNames[k])
    {
      var t := tableNames[i];
      if Contains(dialogue, t + "_mod") || Contains(dialogue, t + "_add") || Contains(dialogue, t + "_del") {
        found := true;
        return;
      }
      i := i + 1;
    }
  }

  // ---------------------------------------------------------------------
  // The inferred levels
  // ---------------------------------------------------------------------

  /** The ingress level: measurement iff more than one ingress argument, update iff a table operation is named. */
  function IngLevel(args: seq<ReactionArg>, flags: seq<bool>, tableNames: seq<string>, dialogue: string): (l: IsoLevel)
    requires |flags| == |args|
  {
    Level(NumArgs(args, flags, true) > 1, MblOperation(tableNames, dialogue))
  }

  /** The egress level: update isolation is never asked for. */
  function EgrLevel(args: seq<ReactionArg>, flags: seq<bool>): (l: IsoLevel)
    requires |flags| == |args|
  {
    if NumArgs(args, flags, false) > 1 then 1 else 0
  }

  /** The levels mean what they say: bit 0 iff two arguments of the direction, bit 1 iff a named operation (ingress only). */
  lemma LevelsMeaning(args: seq<ReactionArg>, flags: seq<bool>, tableNames: seq<string>, dialogue: string)
    requires |flags| == |args|
    ensures Measurement(IngLevel(args, flags, tableNames, dialogue)) <==>
              exists i, j :: 0 <= i < j < |args| && Counts(args[i], flags[i], true) && Counts(args[j], flags[j], true)
    ensures Update(IngLevel(args, flags, tableNames, dialogue)) <==> MblOperation(tableNames, dialogue)
    ensures EgrLevel(args, flags) == 0 || EgrLevel(args, flags) == 1
    ensures Measurement(EgrLevel(args, flags)) <==>
              exists i, j :: 0 <= i < j < |args| && Counts(args[i], flags[i], false) && Counts(args[j], flags[j], false)
  {
    NumArgsAboveOne(args, flags, true);
    NumArgsAboveOne(args, flags, false);
  }

  /**
   * One step of the argument loops: findRegargInIng is consulted for a
   * register argument only; any other argument is not in ingress.
   */
  method Locate(args: seq<ReactionArg>, sc: Scope, i: nat, ghost flags: seq<bool>) returns (q: Result<bool>)
    requires ScopeOk(sc, args) && i < |args|
    requires Collect(Answers(args, sc)[..i]) == Ok(flags)
    ensures q.Err? ==> InIngress(args, sc).Err?
    ensures q.Ok? ==> Collect(Answers(args, sc)[..i + 1]) == Ok(flags + [q.value])
    ensures q.Ok? && args[i].argType != RegisterArg ==> !q.value
  {
    ghost var rs := Answers(args, sc);
    assert rs[..i + 1][..i] == rs[..i];
    if args[i].argType != RegisterArg {
      assert rs[i] == Ok(false);
      return Ok(false);
    }
    q := FindRegargInIng(args[i], sc.es, sc.actions, sc.tables, sc.refs);
    assert rs[i] == q;
    if q.Err? {
      CollectErrPersists(rs, i + 1);
    }
  }

  /** The counting loop over the reaction arguments shared by both inferences. */
  method CountArgs(args: seq<ReactionArg>, sc: Scope, ingress: bool) returns (r: Result<nat>)
    requires ScopeOk(sc, args)
    ensures r.Err? <==> InIngress(args, sc).Err?
    ensures r.Ok? ==> r.value == NumArgs(args, InIngress(args, sc).value, ingress)
  {
    ghost var flags: seq<bool> := [];
    var num := 0;
    var i := 0;
    while i < |args|
      invariant 0 <= i <= |args|
      invariant Collect(Answers(args, sc)[..i]) == Ok(flags)
      invariant num == NumArgs(args[..i], flags, ingress)
    {
      var a := args[i];
      var q := Locate(args, sc, i, flags);
      if q.Err? {
        return Err(q.msg);
      }
      var inIng := q.value;
      NumArgsSnoc(args, flags, i, inIng, ingress);
      if Counts(a, inIng, ingress) {
        num := num + 1;
      }
      flags := flags + [inIng];
      i := i + 1;
    }
    assert args[..i] == args;
    assert Answers(args, sc)[..i] == Answers(args, sc);
    assert InIngress(args, sc) == Ok(flags);
    return Ok(num);
  }

  /** inferIngIsolationOpt: a PANIC locating a register argument aborts. */
  method InferIngIsolation(args: seq<ReactionArg>, sc: Scope, tableNames: seq<string>, reaction: Option<string>)
    returns (r: Result<IsoLevel>)
    requires ScopeOk(sc, args)
    ensures r.Err? <==> InIngress(args, sc).Err?
    ensures r.Ok? ==> r.value == IngLevel(args, InIngress(args, sc).value, tableNames, Dialogue(reaction))
  {
    var num := CountArgs(args, sc, true);
    if num.Err? {
      return Err(num.msg);
    }
    var requireMeas := num.value > 1;
    var userDialogue := "";
    if reaction.Some? {
      userDialogue := reaction.value;
    }
    var requireReact := FindMblOperation(tableNames, userDialogue);
    var level: IsoLevel;
    if requireMeas && requireReact {
      level := 3;
    } else if requireMeas && !requireReact {
      level := 1;
    } else if !requireMeas && requireReact {
      level := 2;
    } else {
      level := 0;
    }
    return Ok(level);
  }

  /** inferEgrIsolationOpt: egress register arguments are those findRegargInIng does not place in ingress. */
  method InferEgrIsolation(args: seq<ReactionArg>, sc: Scope) returns (r: Result<IsoLevel>)
    requires ScopeOk(sc, args)
    ensures r.Err? <==> InIngress(args, sc).Err?
    ensures r.Ok? ==> r.value == EgrLevel(args, InIngress(args, sc).value)
  {
    var num := CountArgs(args, sc, false);
    if num.Err? {
      return Err(num.msg);
    }
    if num.value > 1 {
      return Ok(1);
    }
    return Ok(0);
  }

  // ---------------------------------------------------------------------
  // The post-packing correction
  // ---------------------------------------------------------------------

  /**
   * The level after packing: when at most one bin was produced and no
   * register argument lives in ingress, 1 becomes 0 and 3 becomes 2.
   */
  function Corrected(level: IsoLevel, numBins: nat, hasIngRegarg: bool): (r: IsoLevel)
    ensures Update(r) == Update(level)
    ensures Measurement(r) <==> Measurement(level) && (numBins > 1 || hasIngRegarg)
  {
    if numBins <= 1 && !hasIngRegarg then
      (if level == 1 then 0 else if level == 3 then 2 else level)
    else level
  }

  predicate HasIngRegarg(args: seq<ReactionArg>, flags: seq<bool>)
    requires |flags| == |args|
  {
    exists i :: 0 <= i < |args| && args[i].argType == RegisterArg && flags[i]
  }

  /** Every argument is at most one register wide, as the packing loop asserts. */
  predicate FitRegisters(sizes: seq<ArgSize>)
  {
    forall j :: 0 <= j < |sizes| ==> sizes[j].width <= RegisterSize
  }

  /** The outcome of one digest packing: the bins and the corrected level. */
  datatype Digest = Digest(bins: seq<Bin>, level: IsoLevel)

  /** The bins are a first-fit packing of the sizes taken in packing order. */
  ghost predicate PackedFrom(bins: seq<Bin>, sizes: seq<ArgSize>, forIng: bool)
  {
    exists s :: SortedForPacking(s) && multiset(s) == multiset(sizes) && bins == Pack(s, forIng)
  }

  /**
   * generateIngDigestPacking / generateEgrDigestPacking, up to the level
   * correction. Both directions test for an INGRESS register argument.
   */
  method DigestPacking(args: seq<ReactionArg>, headerDecs: map<string, seq<FieldDec>>,
                       values: map<string, ValueDecl>, fields: map<string, FieldDecl>,
                       sc: Scope, level: IsoLevel, forIng: bool) returns (r: Result<Digest>)
    requires ScopeOk(sc, args)
    ensures |args| == 0 ==> r == Ok(Digest([], level))
    ensures |args| > 0 && ArgSizes(args, headerDecs, values, fields).Err? ==> r.Err?
    ensures (|args| > 0 && ArgSizes(args, headerDecs, values, fields).Ok? &&
             !FitRegisters(ArgSizes(args, headerDecs, values, fields).value)) ==> r.Err?
    ensures (|args| > 0 && ArgSizes(args, headerDecs, values, fields).Ok? &&
             FitRegisters(ArgSizes(args, headerDecs, values, fields).value) && InIngress(args, sc).Ok?) ==> r.Ok?
    ensures (r.Err? && |args| > 0 && ArgSizes(args, headerDecs, values, fields).Ok? &&
             FitRegisters(ArgSizes(args, headerDecs, values, fields).value)) ==> InIngress(args, sc).Err?
    ensures r.Ok? && |args| > 0 ==>
              ArgSizes(args, headerDecs, values, fields).Ok? &&
              PackedFrom(r.value.bins, ArgSizes(args, headerDecs, values, fields).value, forIng)
    ensures r.Ok? && |args| > 0 && |r.value.bins| > 1 ==> r.value.level == level
    ensures r.Ok? && |args| > 0 && |r.value.bins| <= 1 ==>
              InIngress(args, sc).Ok? &&
              r.value.level == Corrected(level, |r.value.bins|, HasIngRegarg(args, InIngress(args, sc).value))
  {
    if |args| == 0 {
      return Ok(Digest([], level));
    }
    var sizes := FindAllReactionArgSizes(args, headerDecs, values, fields);
    if sizes.Err? {
      return Err(sizes.msg);
    }
    var n := |sizes.value|;
    var a := new ArgSize[n](i requires 0 <= i < n => sizes.value[i]);
    var fit := AllFit(a);
    if !fit {
      return Err("assertion failed: a packed argument is wider than a register");
    }
    assert a[..] == sizes.value;
    var bins := RunBinPack(a, forIng);
    var newLevel := level;
    if |bins| <= 1 {
      var has := FindIngRegarg(args, sc);
      if has.Err? {
        return Err(has.msg);
      }
      newLevel := Corrected(level, |bins|, has.value);
    }
    return Ok(Digest(bins, newLevel));
  }

  /** The width assertion of the packing loop: every argument fits in one register. */
  method AllFit(a: array<ArgSize>) returns (ok: bool)
    ensures ok <==> forall j :: 0 <= j < a.Length ==> a[j].width <= RegisterSize
  {
    var k := 0;
    while k < a.Length
      invariant 0 <= k <= a.Length
      invariant forall j :: 0 <= j < k ==> a[j].width <= RegisterSize
    {
      if a[k].width > RegisterSize {
        return false;
      }
      k := k + 1;
    }
    return true;
  }

  lemma HasIngRegargSnoc(args: seq<ReactionArg>, flags: seq<bool>, i: nat, b: bool)
    requires |flags| == i < |args|
    ensures HasIngRegarg(args[..i + 1], flags + [b]) <==>
              HasIngRegarg(args[..i], flags) || (args[i].argType == RegisterArg && b)
  {
    var a, f := args[..i + 1], flags + [b];
    if HasIngRegarg(a, f) {
      var j :| 0 <= j < i + 1 && a[j].argType == RegisterArg && f[j];
      if j < i {
        assert args[..i][j].argType == RegisterArg && flags[j];
      }
    }
    if HasIngRegarg(args[..i], flags) {
      var j :| 0 <= j < i && args[..i][j].argType == RegisterArg && flags[j];
      assert a[j].argType == RegisterArg && f[j];
    }
    if args[i].argType == RegisterArg && b {
      assert a[i].argType == RegisterArg && f[i];
    }
  }

  /** The has_regarg loop: it examines every register argument, so any PANIC aborts. */
  method FindIngRegarg(args: seq<ReactionArg>, sc: Scope) returns (r: Result<bool>)
    requires ScopeOk(sc, args)
    ensures r.Err? <==> InIngress(args, sc).Err?
    ensures r.Ok? ==> (r.value <==> HasIngRegarg(args, InIngress(args, sc).value))
  {
    ghost var flags: seq<bool> := [];
    var has := false;
    var i := 0;
    while i < |args|
      invariant 0 <= i <= |args|
      invariant Collect(Answers(args, sc)[..i]) == Ok(flags)
      invariant has <==> HasIngRegarg(args[..i], flags)
    {
      var a := args[i];
      var q := Locate(args, sc, i, flags);
      if q.Err? {
        return Err(q.msg);
      }
      var inIng := q.value;
      if a.argType == RegisterArg && inIng {
        has := true;
      }
      HasIngRegargSnoc(args, flags, i, inIng);
      flags := flags + [inIng];
      i := i + 1;
    }
    assert args[..i] == args && Answers(args, sc)[..i] == Answers(args, sc);
    return Ok(has);
  }

  /**
   * The egress correction consults the ingress test: a program whose only
   * register arguments are in egress loses egress measurement isolation
   * whenever its egress fields fill at most one bin, however many egress
   * register arguments it has.
   */
  lemma EgressCorrectionIgnoresEgressRegisters(args: seq<ReactionArg>, flags: seq<bool>, numBins: nat)
    requires |flags| == |args| && numBins <= 1
    requires forall i :: 0 <= i < |args| && args[i].argType == RegisterArg ==> !flags[i]
    ensures Corrected(EgrLevel(args, flags), numBins, HasIngRegarg(args, flags)) == 0
  {
  }
}
