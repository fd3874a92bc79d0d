// The reaction-side C code the control-plane generator emits around the
// version bits (src/compile/compile_c.cpp): the version-bit statics and
// flip macros, the dialogue prologue and epilogue, and the mirroring of
// register and packed field arguments. Each emitter produces structured
// statements rather than C text; `Run`, `ModVarsSeen` and `Unpacked` give
// those statements their meaning.

module Dialogue {
  import opened Strings
  import opened Consts
  import opened AstP4R
  import opened BinPack

  /** The two version bits: `__mantis__mv` (measurement) and `__mantis__vv` (update). */
  datatype VersionBit = Mv | Vv

  /** How one register argument is copied out of its register replicas. */
  datatype Mirror =
    | IsoMirror(reg: string, width: int, instances: int, index: int)   // the isolated template, indexed by mv
    | Mirror64(reg: string, instances: int, index: int)                 // the plain 64-bit template
    | Mirror32(width: int, reg: string, instances: int, index: int)     // the plain template for other widths

  /** A statement of the reaction's C prologue, body or epilogue. */
  datatype CStmt =
    | StaticBit(bit: VersionBit)                 // static unsigned int __mantis__<bit> = 0;
    | HelperDecls                                // reg_flags, value_count, num_actually_read, i
    | SetUpdated(value: int)                     // __mantis__var_updated=<value>;
    | Flip(bit: VersionBit)                      // __mantis__flip_<bit>;
    | ModVars                                    // __mantis__mod_vars;
    | RegMirror(m: Mirror)
    | Poll(size: int, bin: nat)                  // poll packed bin <bin> of <size> bits
    | Extract(width: int, arg: string, bin: nat, mask: string)  // uint<w>_t arg=__mantis__values_<bin>[1]&<mask>;
    | Shift(bin: nat, width: int, assigns: bool) // __mantis__values_<bin>[1]>>w;  (>>= when assigns)

  /** The version-bit declarations: the statics of the reaction and the flip macros defined. */
  datatype VersionDecls = VersionDecls(statics: seq<CStmt>, flipMacros: seq<VersionBit>)

  // ---------------------------------------------------------------------
  // generateMacroXorVersionBits, generateDialogueArgStart, generateDialogueEnd
  // ---------------------------------------------------------------------

  /**
   * generateMacroXorVersionBits: `__mantis__mv` is always declared; the
   * `flip_mv` macro exists exactly under measurement isolation, and the
   * `__mantis__vv` static with its `flip_vv` macro exactly under update
   * isolation.
   */
  function XorVersionBits(level: IsoLevel): (d: VersionDecls)
    ensures StaticBit(Mv) in d.statics
    ensures StaticBit(Vv) in d.statics <==> Update(level)
    ensures Mv in d.flipMacros <==> Measurement(level)
    ensures Vv in d.flipMacros <==> Update(level)
  {
    VersionDecls([StaticBit(Mv)] + (if Update(level) then [StaticBit(Vv)] else []),
                 (if Measurement(level) then [Mv] else []) + (if Update(level) then [Vv] else []))
  }

  /**
   * generateDialogueArgStart: the helper declarations, then, under
   * measurement isolation, a `mod_vars` bracketed by two `flip_mv` and by
   * raising and lowering `var_updated`.
   */
  function DialogueArgStart(level: IsoLevel): (ss: seq<CStmt>)
    ensures |ss| >= 1 && ss[0] == HelperDecls
    ensures Measurement(level) <==> ModVars in ss
  {
    [HelperDecls] + (if Measurement(level) then [SetUpdated(1), Flip(Mv), ModVars, Flip(Mv), SetUpdated(0)] else [])
  }

  /**
   * generateDialogueEnd: `mod_vars` always, then, under update isolation of
   * the ingress, two `flip_vv`.
   */
  function DialogueEnd(ingLevel: IsoLevel, egrLevel: IsoLevel): (ss: seq<CStmt>)
    ensures |ss| >= 1 && ss[0] == ModVars
    ensures Flip(Vv) in ss <==> Update(ingLevel)
  {
    [ModVars] + (if Update(ingLevel) then [Flip(Vv), Flip(Vv)] else [])
  }

  // ---------------------------------------------------------------------
  // The meaning of the version-bit statements
  // ---------------------------------------------------------------------

  /** The control-plane copies of the version bits and of the update flag. */
  datatype Bits = Bits(mv: bool, vv: bool, updated: int)

  function Step(s: CStmt, b: Bits): Bits
  {
    match s
    case Flip(Mv) => b.(mv := !b.mv)
    case Flip(Vv) => b.(vv := !b.vv)
    case SetUpdated(v) => b.(updated := v)
    case _ => b
  }

  /** The bits after running the statements. */
  function Run(ss: seq<CStmt>, b: Bits): Bits
    decreases |ss|
  {
    if |ss| == 0 then b else Run(ss[1..], Step(ss[0], b))
  }

  /** The bits each `mod_vars` of the statements sees, in order. */
  function ModVarsSeen(ss: seq<CStmt>, b: Bits): seq<Bits>
    decreases |ss|
  {
    if |ss| == 0 then []
    else (if ss[0] == ModVars then [b] else []) + ModVarsSeen(ss[1..], Step(ss[0], b))
  }

  /**
   * The dialogue prologue pushes the malleables to the data plane's
   * working copy: its one `mod_vars` runs with `mv` flipped and
   * `var_updated` raised, and afterwards `mv` is back where it was (the
   * flips come in a pair) with `var_updated` lowered. Without measurement
   * isolation it touches no bit and pushes nothing.
   */
  lemma ArgStartRestoresMv(level: IsoLevel, b: Bits)
    ensures Measurement(level) ==> ModVarsSeen(DialogueArgStart(level), b) == [b.(mv := !b.mv, updated := 1)]
    ensures Measurement(level) ==> Run(DialogueArgStart(level), b) == b.(updated := 0)
    ensures !Measurement(level) ==> ModVarsSeen(DialogueArgStart(level), b) == [] && Run(DialogueArgStart(level), b) == b
  {
    var ss := DialogueArgStart(level);
    if Measurement(level) {
      var t0 := [SetUpdated(1), Flip(Mv), ModVars, Flip(Mv), SetUpdated(0)];
      assert ss == [HelperDecls] + t0;
      PushMeasured(b);
      RunCons(HelperDecls, t0, b);
    } else {
      assert ss == [HelperDecls] + [];
      RunCons(HelperDecls, [], b);
    }
  }

  /** The measured part of the prologue: raise, flip, push, flip back, lower. */
  lemma PushMeasured(b: Bits)
    ensures Run([SetUpdated(1), Flip(Mv), ModVars, Flip(Mv), SetUpdated(0)], b) == b.(updated := 0)
    ensures ModVarsSeen([SetUpdated(1), Flip(Mv), ModVars, Flip(Mv), SetUpdated(0)], b) == [b.(mv := !b.mv, updated := 1)]
  {
    var b1 := b.(updated := 1);
    var b2 := b1.(mv := !b.mv);
    var t2 := [ModVars, Flip(Mv), SetUpdated(0)];
    var t1 := [Flip(Mv)] + t2;
    assert [SetUpdated(1), Flip(Mv), ModVars, Flip(Mv), SetUpdated(0)] == [SetUpdated(1)] + t1;
    PushThenRestore(b2);
    assert b2.(mv := !b2.mv, updated := 0) == b.(updated := 0);
    RunCons(Flip(Mv), t2, b1);
    RunCons(SetUpdated(1), t1, b);
  }

  /** The push itself, then the flip back and the lowered flag. */
  lemma PushThenRestore(c: Bits)
    ensures Run([ModVars, Flip(Mv), SetUpdated(0)], c) == c.(mv := !c.mv, updated := 0)
    ensures ModVarsSeen([ModVars, Flip(Mv), SetUpdated(0)], c) == [c]
  {
    var c1 := c.(mv := !c.mv);
    var t2 := [SetUpdated(0)];
    var t1 := [Flip(Mv)] + t2;
    assert [ModVars, Flip(Mv), SetUpdated(0)] == [ModVars] + t1;
    RunCons(SetUpdated(0), [], c1);
    RunCons(Flip(Mv), t2, c);
    RunCons(ModVars, t1, c);
  }

  /**
   * The dialogue epilogue commits the malleables with the bits as they
   * are, and its two `flip_vv` cancel: `vv` points back at the working
   * copy for the next dialogue.
   */
  lemma DialogueEndRestoresVv(ingLevel: IsoLevel, egrLevel: IsoLevel, b: Bits)
    ensures ModVarsSeen(DialogueEnd(ingLevel, egrLevel), b) == [b]
    ensures Run(DialogueEnd(ingLevel, egrLevel), b) == b
  {
    var ss := DialogueEnd(ingLevel, egrLevel);
    if Update(ingLevel) {
      RunCons(Flip(Vv), [], b.(vv := !b.vv));
      RunCons(Flip(Vv), [Flip(Vv)], b);
      RunCons(ModVars, [Flip(Vv), Flip(Vv)], b);
      assert ss == [ModVars] + [Flip(Vv), Flip(Vv)];
    } else {
      RunCons(ModVars, [], b);
      assert ss == [ModVars] + [];
    }
  }

  lemma RunCons(s: CStmt, ss: seq<CStmt>, b: Bits)
    ensures Run([s] + ss, b) == Run(ss, Step(s, b))
    ensures ModVarsSeen([s] + ss, b) == (if s == ModVars then [b] else []) + ModVarsSeen(ss, Step(s, b))
  {
    assert ([s] + ss)[1..] == ss;
  }

  /** Every version bit the statements flip has its flip macro defined. */
  predicate FlipsDefined(ss: seq<CStmt>, d: VersionDecls)
  {
    forall i :: 0 <= i < |ss| && ss[i].Flip? ==> ss[i].bit in d.flipMacros
  }

  /**
   * The prologue and epilogue only flip a version bit whose macro the
   * version-bit declarations of the same level define.
   */
  lemma DialogueFlipsDefined(level: IsoLevel, egrLevel: IsoLevel)
    ensures FlipsDefined(DialogueArgStart(level), XorVersionBits(level))
    ensures FlipsDefined(DialogueEnd(level, egrLevel), XorVersionBits(level))
  {
    var d := XorVersionBits(level);
    if Measurement(level) {
      assert Mv in d.flipMacros;
    }
    if Update(level) {
      assert Vv in d.flipMacros;
    }
  }

  // ---------------------------------------------------------------------
  // mirrorRegisterArgForIng
  // ---------------------------------------------------------------------

  /**
   * A reaction argument as the register mirroring sees it: its text, whether
   * it is a register, where findRegargInIng places it (asked of registers
   * only) and its optional second index.
   */
  datatype RegArg = RegArg(name: string, isRegister: bool, inIng: Result<bool>, index2: Option<int>)

  /** A register declaration: name, cell width and instance count. */
  datatype RegisterView = RegisterView(name: string, width: int, instances: int)

  /** The first register declared with the name, if any. */
  function FindRegister(regs: seq<RegisterView>, name: string): (r: Option<RegisterView>)
    ensures r.Some? ==> r.value in regs && r.value.name == name
    ensures r.None? <==> forall k :: 0 <= k < |regs| ==> regs[k].name != name
    decreases |regs|
  {
    if |regs| == 0 then None
    else if regs[0].name == name then Some(regs[0])
    else FindRegister(regs[1..], name)
  }

  /** The node scan that looks a register argument up by name. */
  method LookupRegister(regs: seq<RegisterView>, name: string) returns (r: Option<RegisterView>)
    ensures r == FindRegister(regs, name)
  {
    var i := 0;
    while i < |regs|
      invariant 0 <= i <= |regs| && FindRegister(regs, name) == FindRegister(regs[i..], name)
    {
      if regs[i].name == name {
        return Some(regs[i]);
      }
      assert regs[i..][1..] == regs[i + 1..];
      i := i + 1;
    }
    return None;
  }

  /** Whether the argument is a register of the direction being mirrored. */
  function InDirection(a: RegArg, forIng: bool): Result<bool>
  {
    if !a.isRegister then Ok(false)
    else match a.inIng
      case Err(m) => Err(m)
      case Ok(ing) => Ok(ing == forIng)
  }

  /**
   * The mirroring of one argument: nothing for a non-register or a register
   * of the other direction; a missing register is fatal in both modes
   * (without measurement isolation through findRegargWidth, which is asked
   * before the warning's test). The index is the second index when given,
   * else the instance count.
   */
  function MirrorOne(a: RegArg, regs: seq<RegisterView>, level: IsoLevel, forIng: bool): (r: Result<seq<CStmt>>)
    ensures r.Ok? ==> |r.value| <= 1
    ensures r.Ok? && |r.value| == 1 ==> r.value[0].RegMirror? && r.value[0].m.reg == a.name
  {
    match InDirection(a, forIng)
    case Err(m) => Err(m)
    case Ok(false) => Ok([])
    case Ok(true) =>
      match FindRegister(regs, a.name)
      case None => Err("PANIC: invalid register argument")
      case Some(reg) =>
        var index := if a.index2.Some? then a.index2.value else reg.instances;
        if Measurement(level) then Ok([RegMirror(IsoMirror(a.name, reg.width, reg.instances, index))])
        else if reg.width == 64 then Ok([RegMirror(Mirror64(a.name, reg.instances, index))])
        else Ok([RegMirror(Mirror32(reg.width, a.name, reg.instances, index))])
  }

  /** The mirroring of the arguments in order; the first fatal argument stops it. */
  function MirrorAll(args: seq<RegArg>, regs: seq<RegisterView>, level: IsoLevel, forIng: bool): (r: Result<seq<CStmt>>)
    decreases |args|
  {
    if |args| == 0 then Ok([])
    else
      var n := |args| - 1;
      match MirrorAll(args[..n], regs, level, forIng)
      case Err(m) => Err(m)
      case Ok(init) =>
        match MirrorOne(args[n], regs, level, forIng)
        case Err(m) => Err(m)
        case Ok(one) => Ok(init + one)
  }

  /** What follows the mirroring: `flip_mv` under measurement, `flip_vv` and the update flag on the ingress under update. */
  function MirrorTrailer(level: IsoLevel, forIng: bool): seq<CStmt>
  {
    (if Measurement(level) then [Flip(Mv)] else [])
    + (if forIng && Update(level) then [Flip(Vv), SetUpdated(1)] else [])
  }

  /** An argument the mirroring cannot handle: a register placed nowhere, or one of its direction not declared. */
  predicate Fatal(a: RegArg, regs: seq<RegisterView>, forIng: bool)
  {
    a.isRegister && (a.inIng.Err? || (a.inIng.value == forIng && FindRegister(regs, a.name).None?))
  }

  /** A register argument of the direction being mirrored. */
  predicate Mirrored(a: RegArg, forIng: bool)
  {
    a.isRegister && a.inIng == Ok(forIng)
  }

  /** The number of arguments satisfying `Mirrored`. */
  function CountMirrored(args: seq<RegArg>, forIng: bool): nat
    decreases |args|
  {
    if |args| == 0 then 0
    else CountMirrored(args[..|args| - 1], forIng) + (if Mirrored(args[|args| - 1], forIng) then 1 else 0)
  }

  /**
   * The mirroring fails exactly when some argument is fatal; otherwise it
   * copies out exactly the registers of its direction, one statement each,
   * and flips no bit.
   */
  lemma {:induction false} MirrorAllMeaning(args: seq<RegArg>, regs: seq<RegisterView>, level: IsoLevel, forIng: bool)
    ensures MirrorAll(args, regs, level, forIng).Err? <==> exists k :: 0 <= k < |args| && Fatal(args[k], regs, forIng)
    ensures MirrorAll(args, regs, level, forIng).Ok? ==>
              |MirrorAll(args, regs, level, forIng).value| == CountMirrored(args, forIng) &&
              forall i :: 0 <= i < |MirrorAll(args, regs, level, forIng).value| ==>
                MirrorAll(args, regs, level, forIng).value[i].RegMirror?
    decreases |args|
  {
    if |args| > 0 {
      var n := |args| - 1;
      MirrorAllMeaning(args[..n], regs, level, forIng);
      assert forall k :: 0 <= k < n ==> args[..n][k] == args[k];
      if MirrorAll(args[..n], regs, level, forIng).Err? {
        var k :| 0 <= k < n && Fatal(args[..n][k], regs, forIng);
        assert Fatal(args[k], regs, forIng);
      } else if MirrorAll(args, regs, level, forIng).Ok? {
        assert !Fatal(args[n], regs, forIng);
        assert forall k :: 0 <= k < |args| ==> !Fatal(args[k], regs, forIng) by {
          forall k | 0 <= k < |args|
            ensures !Fatal(args[k], regs, forIng)
          {
            if k < n {
              assert args[..n][k] == args[k];
            }
          }
        }
      } else {
        assert Fatal(args[n], regs, forIng);
      }
    }
  }

  /** The bits the statements leave are those of their flips: with no flip at all, nothing changes. */
  lemma {:induction false} RunNoFlips(ss: seq<CStmt>, b: Bits)
    requires forall i :: 0 <= i < |ss| ==> ss[i].RegMirror?
    ensures Run(ss, b) == b
    decreases |ss|
  {
    if |ss| > 0 {
      assert forall i :: 0 <= i < |ss[1..]| ==> ss[1..][i] == ss[i + 1];
      RunNoFlips(ss[1..], b);
    }
  }

  lemma {:induction false} RunAppend(ss: seq<CStmt>, ts: seq<CStmt>, b: Bits)
    ensures Run(ss + ts, b) == Run(ts, Run(ss, b))
    decreases |ss|
  {
    if |ss| == 0 {
      assert ss + ts == ts;
    } else {
      assert (ss + ts)[1..] == ss[1..] + ts;
      RunAppend(ss[1..], ts, Step(ss[0], b));
    }
  }

  /**
   * mirrorRegisterArgForIng: mirrors the register arguments of its
   * direction in order, then appends the trailer.
   */
  method MirrorRegisterArg(args: seq<RegArg>, regs: seq<RegisterView>, level: IsoLevel, forIng: bool)
    returns (r: Result<seq<CStmt>>)
    ensures r.Err? <==> MirrorAll(args, regs, level, forIng).Err?
    ensures r.Ok? ==> r.value == MirrorAll(args, regs, level, forIng).value + MirrorTrailer(level, forIng)
  {
    var out: seq<CStmt> := [];
    var i := 0;
    while i < |args|
      invariant 0 <= i <= |args| && MirrorAll(args[..i], regs, level, forIng) == Ok(out)
    {
      assert args[..i + 1][..i] == args[..i];
      var one := MirrorArg(args[i], regs, level, forIng);
      if one.Err? {
        MirrorAllErr(args, regs, level, forIng, i + 1);
        assert args[..i + 1][i] == args[i];
        return Err(one.msg);
      }
      out := out + one.value;
      i := i + 1;
    }
    assert args[..i] == args;
    if Measurement(level) {
      out := out + [Flip(Mv)];
    }
    if forIng && Update(level) {
      out := out + [Flip(Vv), SetUpdated(1)];
    }
    return Ok(out);
  }

  /** The body of the mirroring loop for one argument. */
  method MirrorArg(a: RegArg, regs: seq<RegisterView>, level: IsoLevel, forIng: bool) returns (r: Result<seq<CStmt>>)
    ensures r == MirrorOne(a, regs, level, forIng)
  {
    if !a.isRegister {
      return Ok([]);
    }
    if a.inIng.Err? {
      return Err(a.inIng.msg);
    }
    if a.inIng.value != forIng {
      return Ok([]);
    }
    var reg := LookupRegister(regs, a.name);
    if reg.None? {
      return Err("PANIC: invalid register argument");
    }
    var index := if a.index2.Some? then a.index2.value else reg.value.instances;
    if Measurement(level) {
      return Ok([RegMirror(IsoMirror(a.name, reg.value.width, reg.value.instances, index))]);
    } else if reg.value.width == 64 {
      return Ok([RegMirror(Mirror64(a.name, reg.value.instances, index))]);
    }
    return Ok([RegMirror(Mirror32(reg.value.width, a.name, reg.value.instances, index))]);
  }

  /** Once a prefix fails, every longer prefix fails. */
  lemma {:induction false} MirrorAllErr(args: seq<RegArg>, regs: seq<RegisterView>, level: IsoLevel, forIng: bool, k: nat)
    requires 0 < k <= |args|
    requires MirrorAll(args[..k - 1], regs, level, forIng).Ok? && MirrorOne(args[k - 1], regs, level, forIng).Err?
    ensures MirrorAll(args, regs, level, forIng).Err?
    decreases |args| - k
  {
    assert args[..k][..k - 1] == args[..k - 1];
    if k < |args| {
      MirrorAllErrPersists(args, regs, level, forIng, k);
    } else {
      assert args[..k] == args;
    }
  }

  lemma {:induction false} MirrorAllErrPersists(args: seq<RegArg>, regs: seq<RegisterView>, level: IsoLevel, forIng: bool, k: nat)
    requires 0 < k <= |args| && MirrorAll(args[..k], regs, level, forIng).Err?
    ensures MirrorAll(args, regs, level, forIng).Err?
    decreases |args| - k
  {
    if k < |args| {
      assert args[..k + 1][..k] == args[..k];
      MirrorAllErrPersists(args, regs, level, forIng, k + 1);
    } else {
      assert args[..k] == args;
    }
  }

  /**
   * After a successful mirroring `mv` is flipped exactly under measurement
   * isolation (the reaction then reads the replica the data plane stopped
   * writing), `vv` exactly on the ingress under update isolation, and every
   * flip has its macro defined.
   */
  lemma MirrorFlips(args: seq<RegArg>, regs: seq<RegisterView>, level: IsoLevel, forIng: bool, b: Bits)
    requires MirrorAll(args, regs, level, forIng).Ok?
    ensures Run(MirrorAll(args, regs, level, forIng).value + MirrorTrailer(level, forIng), b).mv == (b.mv != Measurement(level))
    ensures Run(MirrorAll(args, regs, level, forIng).value + MirrorTrailer(level, forIng), b).vv == (b.vv != (forIng && Update(level)))
    ensures FlipsDefined(MirrorAll(args, regs, level, forIng).value + MirrorTrailer(level, forIng), XorVersionBits(level))
  {
    var ms := MirrorAll(args, regs, level, forIng).value;
    var tr := MirrorTrailer(level, forIng);
    var d := XorVersionBits(level);
    MirrorAllMeaning(args, regs, level, forIng);
    RunNoFlips(ms, b);
    RunAppend(ms, tr, b);
    TrailerRun(level, forIng, Run(ms, b));
    assert FlipsDefined(ms, d);
    TrailerFlipsDefined(level, forIng);
    FlipsDefinedAppend(ms, tr, d);
  }

  /** The trailer flips `mv` under measurement isolation and `vv` under ingress update isolation. */
  lemma TrailerRun(level: IsoLevel, forIng: bool, b: Bits)
    ensures Run(MirrorTrailer(level, forIng), b).mv == (b.mv != Measurement(level))
    ensures Run(MirrorTrailer(level, forIng), b).vv == (b.vv != (forIng && Update(level)))
  {
    var tr := MirrorTrailer(level, forIng);
    var mid := if Measurement(level) then b.(mv := !b.mv) else b;
    var rest := if forIng && Update(level) then [Flip(Vv), SetUpdated(1)] else [];
    assert Run(rest, mid).mv == mid.mv && Run(rest, mid).vv == (mid.vv != (forIng && Update(level))) by {
      if forIng && Update(level) {
        RunCons(SetUpdated(1), [], mid.(vv := !mid.vv));
        RunCons(Flip(Vv), [SetUpdated(1)], mid);
      }
    }
    if Measurement(level) {
      assert tr == [Flip(Mv)] + rest;
      RunCons(Flip(Mv), rest, b);
    } else {
      assert tr == rest;
    }
  }

  /** Each flip of the trailer has its macro defined. */
  lemma TrailerFlipsDefined(level: IsoLevel, forIng: bool)
    ensures FlipsDefined(MirrorTrailer(level, forIng), XorVersionBits(level))
  {
    var d := XorVersionBits(level);
    assert Measurement(level) ==> Mv in d.flipMacros;
    assert Update(level) ==> Vv in d.flipMacros;
  }

  lemma FlipsDefinedAppend(ss: seq<CStmt>, ts: seq<CStmt>, d: VersionDecls)
    requires FlipsDefined(ss, d) && FlipsDefined(ts, d)
    ensures FlipsDefined(ss + ts, d)
  {
    forall i | 0 <= i < |ss + ts| && (ss + ts)[i].Flip?
      ensures (ss + ts)[i].bit in d.flipMacros
    {
      if i < |ss| {
        assert (ss + ts)[i] == ss[i];
      } else {
        assert (ss + ts)[i] == ts[i - |ss|];
      }
    }
  }

  // ---------------------------------------------------------------------
  // mirrorFieldArg
  // ---------------------------------------------------------------------

  /** A negative width reads as zero bits (the mask loop does not run). */
  function Bits0(w: int): nat
  {
    if w < 0 then 0 else w
  }

  /** The mask literal for a width: `0b` followed by one `1` per bit. */
  function MaskText(w: int): string
  {
    "0b" + Ones(Bits0(w))
  }

  /** The mask loop of mirrorFieldArg. */
  method Mask(width: int) returns (m: string)
    ensures m == MaskText(width)
  {
    m := "0b";
    var k := 0;
    while k < width
      invariant 0 <= k <= Bits0(width) && m == "0b" + Ones(k)
    {
      assert Ones(k + 1) == Ones(k) + "1";
      m := m + "1";
      k := k + 1;
    }
  }

  /** The value of a string of binary digits, most significant first. */
  function BinValue(digits: string): nat
    decreases |digits|
  {
    if |digits| == 0 then 0
    else 2 * BinValue(digits[..|digits| - 1]) + (if digits[|digits| - 1] == '1' then 1 else 0)
  }

  /** A mask of w ones is 2^w - 1, so `v & mask` keeps exactly the low w bits of v. */
  lemma {:induction false} MaskValue(w: nat)
    ensures BinValue(Ones(w)) == Pow2(w) - 1
  {
    if w > 0 {
      assert Ones(w)[..w - 1] == Ones(w - 1);
      MaskValue(w - 1);
    }
  }

  predicate MembersRenderable(ms: seq<ArgSize>)
  {
    forall k :: 0 <= k < |ms| ==> ArgRenderable(ms[k].arg)
  }

  /** The C name of a packed argument: its text with every `.` made `_`. */
  function CName(a: ReactionArg): string
    requires ArgRenderable(a)
  {
    ReplaceChar(ArgText(a), '.', '_')
  }

  /**
   * The extraction of the members of bin `i`, last member first: each is
   * read under its mask and followed by a shift of the packed value by its
   * width, which assigns the shifted value back only when `assigns` holds.
   */
  function MemberUnpack(ms: seq<ArgSize>, i: nat, assigns: bool): (ss: seq<CStmt>)
    requires MembersRenderable(ms)
    ensures |ss| == 2 * |ms|
    decreases |ms|
  {
    if |ms| == 0 then []
    else
      MemberUnpack(ms[1..], i, assigns)
      + [Extract(ms[0].width, CName(ms[0].arg), i, MaskText(ms[0].width)), Shift(i, ms[0].width, assigns)]
  }

  /** The code for one bin: the poll of its packed value, then the extraction of its members. */
  function BinUnpack(b: Bin, i: nat, assigns: bool): seq<CStmt>
    requires MembersRenderable(b.members)
  {
    [Poll(b.size, i)] + MemberUnpack(b.members, i, assigns)
  }

  predicate BinsRenderable(bins: seq<Bin>)
  {
    forall i :: 0 <= i < |bins| ==> MembersRenderable(bins[i].members)
  }

  /** The field-argument mirroring of all bins, bin by bin. */
  function FieldMirror(bins: seq<Bin>, assigns: bool): (ss: seq<CStmt>)
    requires BinsRenderable(bins)
    decreases |bins|
  {
    if |bins| == 0 then []
    else FieldMirror(bins[..|bins| - 1], assigns) + BinUnpack(bins[|bins| - 1], |bins| - 1, assigns)
  }

  /**
   * mirrorFieldArg, with the shift assigning its result back: for each bin,
   * the poll and then the members in reverse order.
   */
  method MirrorFieldArg(bins: seq<Bin>) returns (ss: seq<CStmt>)
    requires BinsRenderable(bins)
    ensures ss == FieldMirror(bins, true)
  {
    ss := [];
    var i := 0;
    while i < |bins|
      invariant 0 <= i <= |bins| && ss == FieldMirror(bins[..i], true)
    {
      assert bins[..i + 1][..i] == bins[..i];
      var one := UnpackBin(bins[i], i);
      ss := ss + one;
      i := i + 1;
    }
    assert bins[..i] == bins;
  }

  /** The inner loop of mirrorFieldArg over the members of one bin, last first. */
  method UnpackBin(b: Bin, i: nat) returns (ss: seq<CStmt>)
    requires MembersRenderable(b.members)
    ensures ss == BinUnpack(b, i, true)
  {
    var ms := b.members;
    ss := [Poll(b.size, i)];
    var j := |ms|;
    while j > 0
      invariant 0 <= j <= |ms| && ss == [Poll(b.size, i)] + MemberUnpack(ms[j..], i, true)
    {
      j := j - 1;
      assert ms[j..][1..] == ms[j + 1..];
      var m := Mask(ms[j].width);
      ss := ss + [Extract(ms[j].width, CName(ms[j].arg), i, m), Shift(i, ms[j].width, true)];
    }
    assert ms[0..] == ms;
  }

  /**
   * The values the extractions read, in order, starting from the packed
   * value `v`: `v & mask` keeps the low w bits, an assigning shift drops
   * them, a shift that does not assign leaves `v` as it was.
   */
  function Unpacked(ss: seq<CStmt>, v: int): seq<int>
    decreases |ss|
  {
    if |ss| == 0 then []
    else match ss[0]
      case Extract(w, _, _, _) => [v % Pow2(Bits0(w))] + Unpacked(ss[1..], v)
      case Shift(_, w, assigns) => Unpacked(ss[1..], if assigns then v / Pow2(Bits0(w)) else v)
      case _ => Unpacked(ss[1..], v)
  }

  /** The packed value of a bin's members: the first member in the most significant bits. */
  function Packed(ms: seq<ArgSize>, xs: seq<int>): int
    requires |xs| == |ms|
    decreases |ms|
  {
    if |ms| == 0 then 0
    else
      var n := |ms| - 1;
      Packed(ms[..n], xs[..n]) * Pow2(Bits0(ms[n].width)) + xs[n]
  }

  function Reversed(xs: seq<int>): (r: seq<int>)
    ensures |r| == |xs| && forall k :: 0 <= k < |xs| ==> r[k] == xs[|xs| - 1 - k]
    decreases |xs|
  {
    if |xs| == 0 then [] else [xs[|xs| - 1]] + Reversed(xs[..|xs| - 1])
  }

  /** Each member's value fits its width. */
  predicate Fits(ms: seq<ArgSize>, xs: seq<int>)
  {
    |xs| == |ms| && forall k :: 0 <= k < |ms| ==> 0 <= xs[k] < Pow2(Bits0(ms[k].width))
  }

  /** The extraction viewed from the last member. */
  lemma {:induction false} MemberUnpackLast(ms: seq<ArgSize>, i: nat, assigns: bool)
    requires MembersRenderable(ms) && |ms| > 0
    ensures var n := |ms| - 1;
            MemberUnpack(ms, i, assigns)
              == [Extract(ms[n].width, CName(ms[n].arg), i, MaskText(ms[n].width)), Shift(i, ms[n].width, assigns)]
                 + MemberUnpack(ms[..n], i, assigns)
    decreases |ms|
  {
    var n := |ms| - 1;
    var tl := [Extract(ms[n].width, CName(ms[n].arg), i, MaskText(ms[n].width)), Shift(i, ms[n].width, assigns)];
    if n > 0 {
      var t, u := ms[1..], ms[..n];
      var hd := MemberUnpackCons(ms, i, assigns);
      MemberUnpackLast(t, i, assigns);
      assert t[..n - 1] == u[1..] && t[n - 1] == ms[n];
      var x := MemberUnpack(u[1..], i, assigns);
      var hd' := MemberUnpackCons(u, i, assigns);
      assert u[0] == ms[0];
      ConcatAssoc(tl, x, hd);
    } else {
      assert ms[1..] == [] && ms[..n] == [];
    }
  }

  /** The definition of MemberUnpack, unfolded once. */
  lemma MemberUnpackCons(ms: seq<ArgSize>, i: nat, assigns: bool) returns (hd: seq<CStmt>)
    requires MembersRenderable(ms) && |ms| > 0
    ensures hd == [Extract(ms[0].width, CName(ms[0].arg), i, MaskText(ms[0].width)), Shift(i, ms[0].width, assigns)]
    ensures MembersRenderable(ms[1..])
    ensures MemberUnpack(ms, i, assigns) == MemberUnpack(ms[1..], i, assigns) + hd
  {
    hd := [Extract(ms[0].width, CName(ms[0].arg), i, MaskText(ms[0].width)), Shift(i, ms[0].width, assigns)];
  }

  lemma ConcatAssoc<T>(a: seq<T>, b: seq<T>, c: seq<T>)
    ensures (a + b) + c == a + (b + c)
  {
  }

  lemma UnpackedPair(x: CStmt, sh: CStmt, rest: seq<CStmt>, v: int)
    requires x.Extract? && sh.Shift?
    ensures Unpacked([x, sh] + rest, v)
              == [v % Pow2(Bits0(x.width))] + Unpacked(rest, if sh.assigns then v / Pow2(Bits0(sh.width)) else v)
  {
    assert ([x, sh] + rest)[1..] == [sh] + rest;
    assert ([sh] + rest)[1..] == rest;
  }

  lemma MulAtLeast(k: int, m: int)
    requires k >= 1 && m > 0
    ensures k * m >= m
  {
    assert k * m == (k - 1) * m + m;
  }

  lemma DivMod(p: int, m: int, x: int)
    requires m > 0 && 0 <= x < m
    ensures (p * m + x) / m == p && (p * m + x) % m == x
  {
    var v := p * m + x;
    var q, r := v / m, v % m;
    assert q * m + r == v;
    assert (p - q) * m == r - x;
    if p - q >= 1 {
      MulAtLeast(p - q, m);
    } else if q - p >= 1 {
      assert (q - p) * m == x - r;
      MulAtLeast(q - p, m);
    }
  }

  /** The last member sits in the low bits of the packed value, the others above it. */
  lemma PackedLast(ms: seq<ArgSize>, xs: seq<int>)
    requires Fits(ms, xs) && |ms| > 0
    ensures var n := |ms| - 1; var m := Pow2(Bits0(ms[n].width));
            Packed(ms, xs) / m == Packed(ms[..n], xs[..n]) && Packed(ms, xs) % m == xs[n]
  {
    var n := |ms| - 1;
    var m := Pow2(Bits0(ms[n].width));
    assert Packed(ms, xs) == Packed(ms[..n], xs[..n]) * m + xs[n];
    DivMod(Packed(ms[..n], xs[..n]), m, xs[n]);
  }

  /**
   * With the shift assigning back, unpacking a bin's packed value gives
   * back every member's value, last member first.
   */
  lemma {:induction false} FieldMirrorRoundTrip(ms: seq<ArgSize>, xs: seq<int>, i: nat)
    requires MembersRenderable(ms) && Fits(ms, xs)
    ensures Unpacked(MemberUnpack(ms, i, true), Packed(ms, xs)) == Reversed(xs)
    decreases |ms|
  {
    if |ms| > 0 {
      var n := |ms| - 1;
      var ps, qs, x := ms[..n], xs[..n], xs[n];
      var m := Pow2(Bits0(ms[n].width));
      var p := Packed(ps, qs);
      var v := Packed(ms, xs);
      PackedLast(ms, xs);
      var e, sh := Extract(ms[n].width, CName(ms[n].arg), i, MaskText(ms[n].width)), Shift(i, ms[n].width, true);
      var rest := MemberUnpack(ps, i, true);
      MemberUnpackLast(ms, i, true);
      assert MemberUnpack(ms, i, true) == [e, sh] + rest;
      UnpackedPair(e, sh, rest, v);
      assert Unpacked(MemberUnpack(ms, i, true), v) == [x] + Unpacked(rest, p);
      assert MembersRenderable(ps) && Fits(ps, qs) by {
        forall k | 0 <= k < n ensures qs[k] == xs[k] && ps[k] == ms[k] { }
      }
      FieldMirrorRoundTrip(ps, qs, i);
      assert Reversed(xs) == [x] + Reversed(qs);
    }
  }

  /** Every member's value read from the same low bits of `v`, last member first. */
  function LowBits(ms: seq<ArgSize>, v: int): (r: seq<int>)
    ensures |r| == |ms|
    decreases |ms|
  {
    if |ms| == 0 then [] else [v % Pow2(Bits0(ms[|ms| - 1].width))] + LowBits(ms[..|ms| - 1], v)
  }

  /**
   * As written, the shift is an expression statement whose value is
   * dropped: every member of a bin is read from the same low bits of the
   * packed value.
   */
  lemma {:induction false} FieldMirrorAsWritten(ms: seq<ArgSize>, v: int, i: nat)
    requires MembersRenderable(ms)
    ensures Unpacked(MemberUnpack(ms, i, false), v) == LowBits(ms, v)
    decreases |ms|
  {
    if |ms| > 0 {
      var n := |ms| - 1;
      MemberUnpackLast(ms, i, false);
      UnpackedPair(Extract(ms[n].width, CName(ms[n].arg), i, MaskText(ms[n].width)), Shift(i, ms[n].width, false),
                   MemberUnpack(ms[..n], i, false), v);
      FieldMirrorAsWritten(ms[..n], v, i);
    }
  }

  /**
   * The input that shows it: two 8-bit members holding 1 and 2 pack to 258;
   * the code as written reads 2 for both, where the round trip gives 2 then 1.
   */
  lemma FieldMirrorAsWrittenLoses()
    ensures var a := ReactionArg(0, IngressField, FieldArg(FieldName("h", "a")));
            var b := ReactionArg(1, IngressField, FieldArg(FieldName("h", "b")));
            var ms := [ArgSize(a, 8), ArgSize(b, 8)];
            Packed(ms, [1, 2]) == 258 &&
            Unpacked(MemberUnpack(ms, 0, false), 258) == [2, 2] &&
            Unpacked(MemberUnpack(ms, 0, true), 258) == [2, 1]
  {
    var a := ReactionArg(0, IngressField, FieldArg(FieldName("h", "a")));
    var b := ReactionArg(1, IngressField, FieldArg(FieldName("h", "b")));
    var ms := [ArgSize(a, 8), ArgSize(b, 8)];
    assert Pow2(8) == 256 by {
      assert Pow2(4) == 16;
    }
    assert ms[..1] == [ArgSize(a, 8)] && ms[..1][..0] == [];
    assert [1, 2][..1] == [1] && [1][..0] == [];
    assert Packed(ms[..1], [1]) == 1;
    assert Packed(ms, [1, 2]) == 258;
    assert LowBits(ms, 258) == [2, 2];
    assert Fits(ms, [1, 2]);
    assert Reversed([1, 2]) == [2, 1];
    FieldMirrorRoundTrip(ms, [1, 2], 0);
    FieldMirrorAsWritten(ms, 258, 0);
  }
}
