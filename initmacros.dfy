// The malleable-variable macros of the control-plane generator
// (generateMacroInitMbls in src/compile/compile_c.cpp): the C variables
// that hold each malleable's current value, the setter macros a reaction
// calls, and the `__mantis__add_vars` / `__mantis__mod_vars` macros that
// copy the variables into the init action's spec and install it as the
// default action of the init table `__tiSetVars`.

module InitMacros {
  import opened Strings
  import opened Consts
  import opened AstP4R
  import Scaffold
  import Dialogue

  /** A malleable declaration, in the order of the program's nodes. */
  datatype MblDecl =
    | ValueMbl(name: string, init: string)
    | FieldMbl(name: string, init: string, alts: seq<FieldName>)

  /** A statement of the `__mantis__add_vars` and `__mantis__mod_vars` bodies (inside `if(__mantis__var_updated==1)`). */
  datatype VarsLine =
    | DeclInitSpec                               // <prefix>__aiSetVars_action_spec_t __aiSetVars;
    | SetSpecField(param: string, cvar: string)  // __aiSetVars.action_<param>=<cvar>;
    | SetDefaultInit(withSpec: bool)             // ..._set_default_action___aiSetVars(..., [&__aiSetVars, ]&handlers[0]);

  /** A statement of the prologue's initialisation of the malleables. */
  datatype InitLine =
    | DeclUpdated                                  // int __mantis__var_updated=0;
    | DeclMv                                       // unsigned int __mantis__mv = 0x0;
    | DeclVar(cvar: string)                        // int <cvar>;
    | CallValueSetter(name: string, value: string) // __mantis__mod_var_<name>(<value>);
    | CallAltSetter(name: string, alt: string)     // __mantis__mod_var_<name>_<alt>;

  /** A declaration at the head of the dialogue. */
  datatype MirrorLine =
    | DeclUpdatedLocal              // int __mantis__var_updated=0;
    | DeclStaticVv                  // static unsigned int __mantis__vv=0x0;
    | DeclStaticVar(cvar: string)   // static int <cvar>=-1;

  /** A setter macro; each also sets `__mantis__var_updated=1`. */
  datatype SetterMacro =
    | ValueSetter(name: string, target: string)                        // __mantis__mod_var_<name>(var_value) <target>=var_value;
    | AltSetter(name: string, alt: string, target: string, index: int) // __mantis__mod_var_<name>_<alt> <target>=<index>;

  const MvVar := "__mantis__mv"
  const VvVar := "__mantis__vv"

  /** The C variable that holds a malleable's current value. */
  function CVar(name: string): string
  {
    "__mantis__" + name
  }

  function Underscored(s: string): string
  {
    ReplaceChar(s, '.', '_')
  }

  /** The C spelling of a declaration's name: a field's name with `.` made `_`. */
  function VarName(d: MblDecl): string
  {
    match d
    case ValueMbl(n, _) => n
    case FieldMbl(n, _, _) => Underscored(n)
  }

  /**
   * The init action parameter a declaration's statement fills: `p__<name>`;
   * a field's parameter in the init action is `p__<name>__alt`, which the
   * statement names only when `fixed`.
   */
  function DeclParam(d: MblDecl, fixed: bool): (p: string)
    ensures |p| > 0 && p[0] == 'p'
  {
    "p__" + VarName(d) + (if d.FieldMbl? && fixed then IndexSuffix else "")
  }

  // ---------------------------------------------------------------------
  // The add_vars and mod_vars bodies
  // ---------------------------------------------------------------------

  /** The statement that copies a declaration's variable into the init action spec. */
  function DeclSet(d: MblDecl, fixed: bool): VarsLine
  {
    SetSpecField(DeclParam(d, fixed), CVar(VarName(d)))
  }

  function DeclSets(ds: seq<MblDecl>, fixed: bool): (r: seq<VarsLine>)
    ensures |r| == |ds| && forall k :: 0 <= k < |ds| ==> r[k] == DeclSet(ds[k], fixed)
    decreases |ds|
  {
    if |ds| == 0 then [] else DeclSets(ds[..|ds| - 1], fixed) + [DeclSet(ds[|ds| - 1], fixed)]
  }

  /**
   * The version-bit statements. As written, `mv` is set under measurement
   * isolation and `vv` only otherwise, so never both; fixed, each bit of
   * the level is set.
   */
  function VersionSets(level: IsoLevel, fixed: bool): seq<VarsLine>
  {
    if fixed then
      (if Measurement(level) then [SetSpecField(MvField, MvVar)] else [])
      + (if Update(level) then [SetSpecField(VvField, VvVar)] else [])
    else if Measurement(level) then [SetSpecField(MvField, MvVar)]
    else if Update(level) then [SetSpecField(VvField, VvVar)]
    else []
  }

  /**
   * As written, `mv` is filled under measurement isolation and `vv` only
   * without it, never both; fixed, each version bit of the level is filled.
   */
  lemma VersionSetsBits(level: IsoLevel, fixed: bool)
    ensures SetSpecField(MvField, MvVar) in VersionSets(level, fixed) <==> Measurement(level)
    ensures SetSpecField(VvField, VvVar) in VersionSets(level, fixed) <==> Update(level) && (fixed || !Measurement(level))
    ensures forall l :: l in VersionSets(level, fixed) ==> l == SetSpecField(MvField, MvVar) || l == SetSpecField(VvField, VvVar)
    ensures |VersionSets(level, fixed)| == if fixed then BitCount(level) else if level == 0 then 0 else 1
  {
  }

  /**
   * The body of `__mantis__add_vars` (and of `__mantis__mod_vars`, the
   * same): the init action spec is declared, and passed to the call, only
   * when `numMbls` (the init action's parameter count) is not 0.
   */
  function VarsBody(ds: seq<MblDecl>, level: IsoLevel, numMbls: int, fixed: bool): seq<VarsLine>
  {
    (if numMbls != 0 then [DeclInitSpec] else []) + VersionSets(level, fixed) + DeclSets(ds, fixed)
    + [SetDefaultInit(numMbls != 0)]
  }

  /** The body fills the init action parameter `p`. */
  predicate Sets(body: seq<VarsLine>, p: string)
  {
    exists l :: l in body && l.SetSpecField? && l.param == p
  }

  /** The body reads the C variable `v` into the spec. */
  predicate Reads(body: seq<VarsLine>, v: string)
  {
    exists l :: l in body && l.SetSpecField? && l.cvar == v
  }

  // ---------------------------------------------------------------------
  // The prologue and dialogue declarations, and the setter macros
  // ---------------------------------------------------------------------

  /** A declaration's variable and the setter call that gives it its init value. */
  function DeclInit(d: MblDecl): seq<InitLine>
  {
    match d
    case ValueMbl(n, v) => [DeclVar(CVar(n)), CallValueSetter(n, v)]
    case FieldMbl(_, v, _) => [DeclVar(CVar(VarName(d))), CallAltSetter(VarName(d), Underscored(v))]
  }

  function DeclInits(ds: seq<MblDecl>): (r: seq<InitLine>)
    ensures |r| == 2 * |ds|
    decreases |ds|
  {
    if |ds| == 0 then [] else DeclInits(ds[..|ds| - 1]) + DeclInit(ds[|ds| - 1])
  }

  function InitLines(ds: seq<MblDecl>, level: IsoLevel): seq<InitLine>
  {
    [DeclUpdated] + (if Measurement(level) then [DeclMv] else []) + DeclInits(ds)
  }

  function DeclMirrors(ds: seq<MblDecl>): (r: seq<MirrorLine>)
    ensures |r| == |ds| && forall k :: 0 <= k < |ds| ==> r[k] == DeclStaticVar(CVar(VarName(ds[k])))
    decreases |ds|
  {
    if |ds| == 0 then [] else DeclMirrors(ds[..|ds| - 1]) + [DeclStaticVar(CVar(VarName(ds[|ds| - 1])))]
  }

  /** The dialogue's declarations: the static `vv` only when `vv` is set and `mv` is not, as the version statements choose. */
  function MirrorLines(ds: seq<MblDecl>, level: IsoLevel): seq<MirrorLine>
  {
    [DeclUpdatedLocal] + (if !Measurement(level) && Update(level) then [DeclStaticVv] else []) + DeclMirrors(ds)
  }

  /** The variable an alternative's macro writes: `mantis_<name>` as written, the field's own variable when fixed. */
  function AltTarget(name: string, fixed: bool): string
  {
    if fixed then CVar(name) else "mantis_" + name
  }

  /** The macros of the first `k` alternatives, each setting the target to the alternative's mapAltToInt index. */
  function AltSetters(name: string, target: string, alts: seq<FieldName>, k: nat): (r: seq<SetterMacro>)
    requires k <= |alts|
    ensures |r| == k
    ensures forall j :: 0 <= j < k ==>
              r[j] == AltSetter(name, Underscored(FieldText(alts[j])), target, MapAltToInt(alts, FieldText(alts[j])))
    decreases k
  {
    if k == 0 then []
    else
      AltSetters(name, target, alts, k - 1)
      + [AltSetter(name, Underscored(FieldText(alts[k - 1])), target, MapAltToInt(alts, FieldText(alts[k - 1])))]
  }

  function DeclMacros(d: MblDecl, fixed: bool): seq<SetterMacro>
  {
    match d
    case ValueMbl(n, _) => [ValueSetter(n, CVar(n))]
    case FieldMbl(_, _, alts) => AltSetters(VarName(d), AltTarget(VarName(d), fixed), alts, |alts|)
  }

  function SetterMacros(ds: seq<MblDecl>, fixed: bool): seq<SetterMacro>
    decreases |ds|
  {
    if |ds| == 0 then [] else SetterMacros(ds[..|ds| - 1], fixed) + DeclMacros(ds[|ds| - 1], fixed)
  }

  // ---------------------------------------------------------------------
  // generateMacroInitMbls
  // ---------------------------------------------------------------------

  /** The loop over a field's alternatives. */
  method EmitAltSetters(name: string, target: string, alts: seq<FieldName>) returns (ms: seq<SetterMacro>)
    ensures ms == AltSetters(name, target, alts, |alts|)
  {
    ms := [];
    var i := 0;
    while i < |alts|
      invariant 0 <= i <= |alts| && ms == AltSetters(name, target, alts, i)
    {
      var text := FieldText(alts[i]);
      ms := ms + [AltSetter(name, ReplaceChar(text, '.', '_'), target, MapAltToInt(alts, text))];
      i := i + 1;
    }
  }

  /** The work for one declaration. */
  method EmitDecl(d: MblDecl) returns (set1: VarsLine, init: seq<InitLine>, mirror: MirrorLine, macros: seq<SetterMacro>)
    ensures set1 == DeclSet(d, true) && init == DeclInit(d)
    ensures mirror == DeclStaticVar(CVar(VarName(d))) && macros == DeclMacros(d, true)
  {
    match d
    case ValueMbl(n, v) =>
      set1 := SetSpecField("p__" + n, "__mantis__" + n);
      mirror := DeclStaticVar("__mantis__" + n);
      init := [DeclVar("__mantis__" + n), CallValueSetter(n, v)];
      macros := [ValueSetter(n, "__mantis__" + n)];
    case FieldMbl(n, v, alts) =>
      var name := ReplaceChar(n, '.', '_');
      set1 := SetSpecField("p__" + name + IndexSuffix, "__mantis__" + name);
      mirror := DeclStaticVar("__mantis__" + name);
      init := [DeclVar("__mantis__" + name), CallAltSetter(name, ReplaceChar(v, '.', '_'))];
      macros := EmitAltSetters(name, "__mantis__" + name, alts);
  }

  /** The version-bit statements, each bit of the level filled. */
  method VersionStatements(level: IsoLevel) returns (bits: seq<VarsLine>)
    ensures bits == VersionSets(level, true)
  {
    bits := [];
    if Measurement(level) {
      bits := bits + [SetSpecField(MvField, MvVar)];
    }
    if Update(level) {
      bits := bits + [SetSpecField(VvField, VvVar)];
    }
  }

  /** The loop over the declarations, in node order. */
  method EmitDecls(ds: seq<MblDecl>) returns (sets: seq<VarsLine>, inits: seq<InitLine>, mirrors: seq<MirrorLine>, macros: seq<SetterMacro>)
    ensures sets == DeclSets(ds, true) && inits == DeclInits(ds)
    ensures mirrors == DeclMirrors(ds) && macros == SetterMacros(ds, true)
  {
    sets, inits, mirrors, macros := [], [], [], [];
    var i := 0;
    while i < |ds|
      invariant 0 <= i <= |ds|
      invariant sets == DeclSets(ds[..i], true) && inits == DeclInits(ds[..i])
      invariant mirrors == DeclMirrors(ds[..i]) && macros == SetterMacros(ds[..i], true)
    {
      assert ds[..i + 1][..i] == ds[..i];
      var s, il, ml, ms := EmitDecl(ds[i]);
      sets := sets + [s];
      inits := inits + il;
      mirrors := mirrors + [ml];
      macros := macros + ms;
      i := i + 1;
    }
    assert ds[..i] == ds;
  }

  /**
   * generateMacroInitMbls, with its three defects corrected: the prologue
   * lines, the dialogue declarations, the add_vars and mod_vars bodies
   * (built side by side and equal) and the setter macros.
   */
  method GenerateMacroInitMbls(ds: seq<MblDecl>, numMbls: int, level: IsoLevel)
    returns (init: seq<InitLine>, mirror: seq<MirrorLine>, addVars: seq<VarsLine>, modVars: seq<VarsLine>, macros: seq<SetterMacro>)
    ensures init == InitLines(ds, level) && mirror == MirrorLines(ds, level)
    ensures addVars == VarsBody(ds, level, numMbls, true) && modVars == addVars
    ensures macros == SetterMacros(ds, true)
  {
    var mv: seq<InitLine> := [];
    var vv: seq<MirrorLine> := [];
    var head: seq<VarsLine> := if numMbls != 0 then [DeclInitSpec] else [];
    if Measurement(level) {
      mv := [DeclMv];
    }
    if !Measurement(level) && Update(level) {
      vv := [DeclStaticVv];
    }
    var bits := VersionStatements(level);
    var sets, inits, mirrors;
    sets, inits, mirrors, macros := EmitDecls(ds);
    init := [DeclUpdated] + mv + inits;
    mirror := [DeclUpdatedLocal] + vv + mirrors;
    addVars := head + bits + sets + [SetDefaultInit(numMbls != 0)];
    modVars := addVars;
  }

  // ---------------------------------------------------------------------
  // What the add_vars body fills, and from where
  // ---------------------------------------------------------------------

  lemma {:induction false} DeclSetsParams(ds: seq<MblDecl>, fixed: bool)
    ensures forall l :: l in DeclSets(ds, fixed) <==> exists d :: d in ds && l == DeclSet(d, fixed)
  {
    forall l | l in DeclSets(ds, fixed)
      ensures exists d :: d in ds && l == DeclSet(d, fixed)
    {
      var k :| 0 <= k < |ds| && DeclSets(ds, fixed)[k] == l;
      assert ds[k] in ds;
    }
    forall d | d in ds
      ensures DeclSet(d, fixed) in DeclSets(ds, fixed)
    {
      var k :| 0 <= k < |ds| && ds[k] == d;
      assert DeclSets(ds, fixed)[k] == DeclSet(d, fixed);
    }
  }

  lemma SetterParamsMembers(names: seq<string>, suffix: string)
    ensures forall p :: p in Scaffold.SetterParams(names, suffix) <==> exists n :: n in names && p == Scaffold.SetterParam(n + suffix)
  {
    var r := Scaffold.SetterParams(names, suffix);
    forall p | p in r
      ensures exists n :: n in names && p == Scaffold.SetterParam(n + suffix)
    {
      var k :| 0 <= k < |r| && r[k] == p;
      assert names[k] in names;
    }
    forall n | n in names
      ensures Scaffold.SetterParam(n + suffix) in r
    {
      var k :| 0 <= k < |names| && names[k] == n;
      assert r[k] == Scaffold.SetterParam(n + suffix);
    }
  }

  lemma UnderscoredPlain(s: string)
    requires '.' !in s
    ensures Underscored(s) == s
  {
    assert forall i :: 0 <= i < |s| ==> s[i] != '.';
  }

  /** The declarations list the malleable values and fields that the init action's name lists hold; field names are plain words. */
  predicate NamesAre(ds: seq<MblDecl>, valueOrder: seq<string>, fieldOrder: seq<string>)
  {
    (forall d :: d in ds && d.ValueMbl? ==> d.name in valueOrder) &&
    (forall d :: d in ds && d.FieldMbl? ==> d.name in fieldOrder && '.' !in d.name) &&
    (forall v :: v in valueOrder ==> exists d :: d in ds && d.ValueMbl? && d.name == v) &&
    (forall f :: f in fieldOrder ==> exists d :: d in ds && d.FieldMbl? && d.name == f)
  }

  /** A declaration's parameter is the one generateIngInitTable gives its name. */
  lemma DeclParamIsSetterParam(d: MblDecl)
    requires d.FieldMbl? ==> '.' !in d.name
    ensures DeclParam(d, true) == Scaffold.SetterParam(d.name + (if d.FieldMbl? then IndexSuffix else ""))
  {
    if d.FieldMbl? {
      UnderscoredPlain(d.name);
    }
  }

  /** A declaration's parameter is one of the init action's malleable parameters, and each of those comes from a declaration. */
  lemma DeclParamsAreSetterParams(ds: seq<MblDecl>, valueOrder: seq<string>, fieldOrder: seq<string>)
    requires NamesAre(ds, valueOrder, fieldOrder)
    ensures forall p :: (exists d :: d in ds && p == DeclParam(d, true)) <==>
              p in Scaffold.SetterParams(valueOrder, "") + Scaffold.SetterParams(fieldOrder, IndexSuffix)
  {
    SetterParamsMembers(valueOrder, "");
    SetterParamsMembers(fieldOrder, IndexSuffix);
    forall d | d in ds
      ensures DeclParam(d, true) in Scaffold.SetterParams(valueOrder, "") + Scaffold.SetterParams(fieldOrder, IndexSuffix)
    {
      DeclParamIsSetterParam(d);
    }
    forall v | v in valueOrder
      ensures exists d :: d in ds && Scaffold.SetterParam(v + "") == DeclParam(d, true)
    {
      var d :| d in ds && d.ValueMbl? && d.name == v;
      DeclParamIsSetterParam(d);
    }
    forall f | f in fieldOrder
      ensures exists d :: d in ds && Scaffold.SetterParam(f + IndexSuffix) == DeclParam(d, true)
    {
      var d :| d in ds && d.FieldMbl? && d.name == f;
      DeclParamIsSetterParam(d);
    }
  }


  /** The body fills what its version statements and its declaration statements fill. */
  lemma BodySets(ds: seq<MblDecl>, level: IsoLevel, numMbls: int, fixed: bool)
    ensures forall p :: Sets(VarsBody(ds, level, numMbls, fixed), p) <==>
              Sets(VersionSets(level, fixed), p) || exists d :: d in ds && p == DeclParam(d, fixed)
  {
    var body := VarsBody(ds, level, numMbls, fixed);
    var head: seq<VarsLine> := if numMbls != 0 then [DeclInitSpec] else [];
    var vs := VersionSets(level, fixed);
    var dsets := DeclSets(ds, fixed);
    assert body == head + vs + dsets + [SetDefaultInit(numMbls != 0)];
    DeclSetsParams(ds, fixed);
    forall p
      ensures Sets(body, p) <==> Sets(vs, p) || exists d :: d in ds && p == DeclParam(d, fixed)
    {
      if Sets(body, p) {
        var l :| l in body && l.SetSpecField? && l.param == p;
        if l !in vs {
          assert l in dsets;
        }
      }
      if exists d :: d in ds && p == DeclParam(d, fixed) {
        var d :| d in ds && p == DeclParam(d, fixed);
        assert DeclSet(d, fixed) in body;
      }
    }
  }

  /** Fixed, the version statements fill exactly the version parameters generateIngInitTable gives the level. */
  lemma VersionSetsParams(level: IsoLevel)
    ensures forall p :: Sets(VersionSets(level, true), p) <==> p in Scaffold.VersionParams(level)
  {
    VersionSetsBits(level, true);
    forall p | p in Scaffold.VersionParams(level)
      ensures Sets(VersionSets(level, true), p)
    {
      if p == MvField {
        assert SetSpecField(MvField, MvVar) in VersionSets(level, true);
      } else {
        assert SetSpecField(VvField, VvVar) in VersionSets(level, true);
      }
    }
  }

  /**
   * Fixed, the add_vars and mod_vars bodies fill exactly the parameters of
   * the init action generateIngInitTable declares: one per malleable value,
   * one index per malleable field, one per version bit of the level.
   */
  lemma AddVarsSetsInitParams(ds: seq<MblDecl>, level: IsoLevel, numMbls: int, valueOrder: seq<string>, fieldOrder: seq<string>)
    requires NamesAre(ds, valueOrder, fieldOrder)
    ensures forall p :: Sets(VarsBody(ds, level, numMbls, true), p) <==>
              p in Scaffold.SetterParams(valueOrder, "") + Scaffold.SetterParams(fieldOrder, IndexSuffix) + Scaffold.VersionParams(level)
  {
    BodySets(ds, level, numMbls, true);
    VersionSetsParams(level);
    DeclParamsAreSetterParams(ds, valueOrder, fieldOrder);
  }


  /** As written, the init action's `vv` parameter is never filled under isolation level 3. */
  lemma AsWrittenOmitsVv(ds: seq<MblDecl>, numMbls: int)
    ensures VvField in Scaffold.VersionParams(3)
    ensures !Sets(VarsBody(ds, 3, numMbls, false), VvField)
  {
    DeclSetsParams(ds, false);
    VersionSetsBits(3, false);
    var body := VarsBody(ds, 3, numMbls, false);
    forall l | l in body && l.SetSpecField?
      ensures l.param != VvField
    {
      if l in DeclSets(ds, false) {
        var d :| d in ds && l == DeclSet(d, false);
        assert DeclParam(d, false)[0] == 'p';
      }
    }
  }


  /** As written, a malleable field `f`'s index parameter `p__f__alt` is filled as `p__f`, which the init action does not have. */
  lemma AsWrittenMisnamesIndex()
    ensures "p__f__alt" in Scaffold.SetterParams(["f"], IndexSuffix)
    ensures !Sets(VarsBody([FieldMbl("f", "h.a", [FieldName("h", "a")])], 0, 1, false), "p__f__alt")
    ensures Sets(VarsBody([FieldMbl("f", "h.a", [FieldName("h", "a")])], 0, 1, false), "p__f")
  {
    var d := FieldMbl("f", "h.a", [FieldName("h", "a")]);
    UnderscoredPlain("f");
    assert Scaffold.SetterParams(["f"], IndexSuffix)[0] == "p__f__alt";
    assert DeclParam(d, false) == "p__f";
    assert CVar(VarName(d)) == "__mantis__f";
    assert [d][..0] == [];
    assert DeclSets([d], false) == [SetSpecField("p__f", "__mantis__f")];
    var body := VarsBody([d], 0, 1, false);
    assert body == [DeclInitSpec, SetSpecField("p__f", "__mantis__f"), SetDefaultInit(true)];
    assert SetSpecField("p__f", "__mantis__f") in body;
    assert |"p__f"| != |"p__f__alt"|;
  }


  /** The target of each setter macro, by the declaration it comes from. */
  lemma {:induction false} SetterTargets(ds: seq<MblDecl>, fixed: bool)
    ensures forall m :: m in SetterMacros(ds, fixed) ==>
              exists d :: d in ds && m.target == (if m.ValueSetter? then CVar(VarName(d)) else AltTarget(VarName(d), fixed))
    decreases |ds|
  {
    if |ds| > 0 {
      var n := |ds| - 1;
      var d := ds[n];
      SetterTargets(ds[..n], fixed);
      forall m | m in SetterMacros(ds, fixed)
        ensures exists e :: e in ds && m.target == (if m.ValueSetter? then CVar(VarName(e)) else AltTarget(VarName(e), fixed))
      {
        if m in SetterMacros(ds[..n], fixed) {
          var e :| e in ds[..n] && m.target == (if m.ValueSetter? then CVar(VarName(e)) else AltTarget(VarName(e), fixed));
          assert e in ds;
        } else {
          assert m in DeclMacros(d, fixed);
          if d.FieldMbl? {
            var k :| 0 <= k < |DeclMacros(d, fixed)| && DeclMacros(d, fixed)[k] == m;
          }
          assert d in ds;
        }
      }
    }
  }

  /** Fixed, every setter macro writes a variable that the add_vars body copies into the init action spec. */
  lemma SettersFeedAddVars(ds: seq<MblDecl>, level: IsoLevel, numMbls: int)
    ensures forall m :: m in SetterMacros(ds, true) ==> Reads(VarsBody(ds, level, numMbls, true), m.target)
  {
    SetterTargets(ds, true);
    DeclSetsParams(ds, true);
    forall m | m in SetterMacros(ds, true)
      ensures Reads(VarsBody(ds, level, numMbls, true), m.target)
    {
      var d :| d in ds && m.target == (if m.ValueSetter? then CVar(VarName(d)) else AltTarget(VarName(d), true));
      assert DeclSet(d, true) in DeclSets(ds, true);
      assert DeclSet(d, true) in VarsBody(ds, level, numMbls, true);
    }
  }

  /** Every variable an add_vars body reads is a `__mantis__` variable. */
  lemma ReadsMantisVars(ds: seq<MblDecl>, level: IsoLevel, numMbls: int, fixed: bool)
    ensures forall l :: l in VarsBody(ds, level, numMbls, fixed) && l.SetSpecField? ==> |l.cvar| > 0 && l.cvar[0] == '_'
  {
    DeclSetsParams(ds, fixed);
    VersionSetsBits(level, fixed);
    forall l | l in VarsBody(ds, level, numMbls, fixed) && l.SetSpecField?
      ensures |l.cvar| > 0 && l.cvar[0] == '_'
    {
      if l in DeclSets(ds, fixed) {
        var e :| e in ds && l == DeclSet(e, fixed);
      }
    }
  }

  /** As written, an alternative's macro writes `mantis_<name>`, which the add_vars body never reads. */
  lemma AsWrittenAltTargetUnread(ds: seq<MblDecl>, level: IsoLevel, numMbls: int)
    ensures forall m :: m in SetterMacros(ds, false) && m.AltSetter? ==> !Reads(VarsBody(ds, level, numMbls, false), m.target)
  {
    SetterTargets(ds, false);
    ReadsMantisVars(ds, level, numMbls, false);
    forall m | m in SetterMacros(ds, false) && m.AltSetter?
      ensures !Reads(VarsBody(ds, level, numMbls, false), m.target)
    {
      var d :| d in ds && m.target == AltTarget(VarName(d), false);
      assert m.target[0] == 'm';
    }
  }


  /** Fixed, the add_vars body reads the version variable `vv` exactly when the dialogue declares it (generateMacroXorVersionBits). */
  lemma VersionReadsDeclared(ds: seq<MblDecl>, level: IsoLevel, numMbls: int)
    ensures SetSpecField(VvField, VvVar) in VarsBody(ds, level, numMbls, true) <==>
            Dialogue.StaticBit(Dialogue.Vv) in Dialogue.XorVersionBits(level).statics
    ensures SetSpecField(MvField, MvVar) in VarsBody(ds, level, numMbls, true) ==>
            Dialogue.StaticBit(Dialogue.Mv) in Dialogue.XorVersionBits(level).statics
  {
    VersionSetsBits(level, true);
    DeclSetsParams(ds, true);
    forall l | l in DeclSets(ds, true)
      ensures l.param != VvField
    {
      var e :| e in ds && l == DeclSet(e, true);
      assert DeclParam(e, true)[0] == 'p';
    }
  }


  /**
   * Fixed, with the count generateIngInitTable returns, the init action
   * spec is declared and passed exactly when the body fills some parameter.
   */
  lemma InitSpecDeclared(ds: seq<MblDecl>, level: IsoLevel, numMbls: int)
    requires numMbls == |ds| + BitCount(level)
    ensures DeclInitSpec in VarsBody(ds, level, numMbls, true) <==> exists p :: Sets(VarsBody(ds, level, numMbls, true), p)
    ensures SetDefaultInit(true) in VarsBody(ds, level, numMbls, true) <==> DeclInitSpec in VarsBody(ds, level, numMbls, true)
  {
    var body := VarsBody(ds, level, numMbls, true);
    VersionSetsBits(level, true);
    if |ds| > 0 {
      assert DeclSet(ds[0], true) in body;
      assert Sets(body, DeclParam(ds[0], true));
    } else if Measurement(level) {
      assert Sets(body, MvField);
    } else if Update(level) {
      assert Sets(body, VvField);
    } else {
      assert body == [SetDefaultInit(false)];
    }
  }


  // ---------------------------------------------------------------------
  // The alternatives' macros
  // ---------------------------------------------------------------------

  /** With pairwise different alternatives, the macro of alternative k sets the index k. */
  lemma AltSettersIndexed(name: string, target: string, alts: seq<FieldName>)
    requires forall i, j :: 0 <= i < j < |alts| ==> FieldText(alts[i]) != FieldText(alts[j])
    ensures forall k :: 0 <= k < |alts| ==> AltSetters(name, target, alts, |alts|)[k].index == k
  {
    forall k | 0 <= k < |alts|
      ensures AltSetters(name, target, alts, |alts|)[k].index == k
    {
      MapAltToIntDistinct(alts, k);
    }
  }

  /**
   * The prologue's init call for a malleable field whose init is
   * alternative j, with the alternatives' C names pairwise different,
   * names the macro of alternative j, and no other.
   */
  lemma InitCallSelectsInit(d: MblDecl, j: nat, fixed: bool)
    requires d.FieldMbl? && j < |d.alts| && FieldText(d.alts[j]) == d.init
    requires forall i, k :: 0 <= i < k < |d.alts| ==> Underscored(FieldText(d.alts[i])) != Underscored(FieldText(d.alts[k]))
    ensures DeclInit(d)[1].alt == DeclMacros(d, fixed)[j].alt && DeclMacros(d, fixed)[j].index == j
    ensures forall k :: 0 <= k < |DeclMacros(d, fixed)| && DeclMacros(d, fixed)[k].alt == DeclInit(d)[1].alt ==> k == j
  {
    assert forall i, k :: 0 <= i < k < |d.alts| ==> FieldText(d.alts[i]) != FieldText(d.alts[k]);
    MapAltToIntDistinct(d.alts, j);
  }
}
