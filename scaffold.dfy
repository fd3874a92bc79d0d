// The version-bit scaffolding the compiler adds to the data plane
// (src/compile/compile_p4.cpp): the metadata headers, the init actions
// that set the malleables, the set-args register units of the packed
// argument bins and the controls that apply them. Generated code is kept
// as structured records (fields, parameters, assignments, table names),
// not as text.

module Scaffold {
  import opened Strings
  import opened Consts
  import opened AstP4R
  import opened BinPack

  // ---------------------------------------------------------------------
  // Iterating a hash map
  // ---------------------------------------------------------------------

  /** `order` lists the keys of an unordered map once each: one possible iteration order. */
  predicate IterationOrder(order: seq<string>, keys: set<string>)
  {
    (forall i, j :: 0 <= i < j < |order| ==> order[i] != order[j])
    && (forall x :: x in order ==> x in keys) && (forall x :: x in keys ==> x in order)
  }

  /** An iteration visits as many entries as the map holds. */
  lemma {:induction false} OrderLength(order: seq<string>, keys: set<string>)
    requires IterationOrder(order, keys)
    ensures |order| == |keys|
    decreases |order|
  {
    if |order| == 0 {
      assert keys == {};
    } else {
      var n := |order| - 1;
      var x := order[n];
      var init := order[..n];
      assert IterationOrder(init, keys - {x}) by {
        forall y | y in keys - {x} ensures y in init {
          var i :| 0 <= i < |order| && order[i] == y;
          assert i != n;
          assert init[i] == y;
        }
        forall y | y in init ensures y in keys - {x} {
          var i :| 0 <= i < n && init[i] == y;
          assert order[i] == y && i < n;
        }
      }
      OrderLength(init, keys - {x});
      assert x in keys;
    }
  }

  // ---------------------------------------------------------------------
  // generateMetadata
  // ---------------------------------------------------------------------

  /** A metadata field declaration `name : width;`. */
  datatype MetaField = MetaField(name: string, width: string)

  /**
   * The bits that hold a malleable field's alternative index: one bit for a
   * single alternative, otherwise ceil(log2 n), the least width that can
   * number every alternative.
   */
  function IndexWidth(n: nat): (w: nat)
    requires n >= 1
    ensures w >= 1 && Pow2(w) >= n
    ensures n >= 2 ==> Pow2(w - 1) < n
  {
    if n == 1 then 1 else CeilLog2(n)
  }

  /** The one-bit version fields `__mv` and `__vv` a level asks for, in that order. */
  function VersionFields(l: IsoLevel): (r: seq<MetaField>)
    ensures |r| == BitCount(l)
    ensures MetaField(MvField, "1") in r <==> Measurement(l)
    ensures MetaField(VvField, "1") in r <==> Update(l)
    ensures forall k :: 0 <= k < |r| ==> r[k].width == "1"
  {
    (if Measurement(l) then [MetaField(MvField, "1")] else []) + (if Update(l) then [MetaField(VvField, "1")] else [])
  }

  /** The metadata field of a malleable value: as wide as declared. */
  function ValueField(v: ValueDecl): MetaField
  {
    MetaField(v.name, v.width)
  }

  /** The metadata field of a malleable field: its alternative index `<name>__alt`. */
  function IndexField(name: string, f: FieldDecl): MetaField
    requires |f.alts| >= 1
  {
    MetaField(name + IndexSuffix, IntToString(IndexWidth(|f.alts|)))
  }

  /** Every malleable field names at least one alternative. */
  predicate HasAlts(fields: map<string, FieldDecl>)
  {
    forall name :: name in fields ==> |fields[name].alts| >= 1
  }

  /** The metadata fields of the values named by `order`, in that order. */
  function ValueFields(values: map<string, ValueDecl>, order: seq<string>): (r: seq<MetaField>)
    requires forall x :: x in order ==> x in values
    ensures |r| == |order|
    ensures forall k :: 0 <= k < |order| ==> r[k] == ValueField(values[order[k]])
  {
    if |order| == 0 then []
    else
      var n := |order| - 1;
      ValueFields(values, order[..n]) + [ValueField(values[order[n]])]
  }

  /** The index fields of the malleable fields named by `order`, in that order. */
  function IndexFields(fields: map<string, FieldDecl>, order: seq<string>): (r: seq<MetaField>)
    requires HasAlts(fields) && forall x :: x in order ==> x in fields
    ensures |r| == |order|
    ensures forall k :: 0 <= k < |order| ==> r[k] == IndexField(order[k], fields[order[k]])
  {
    if |order| == 0 then []
    else
      var n := |order| - 1;
      IndexFields(fields, order[..n]) + [IndexField(order[n], fields[order[n]])]
  }

  /** The loop over the malleable values in generateMetadata. */
  method CollectValueFields(values: map<string, ValueDecl>, order: seq<string>) returns (r: seq<MetaField>)
    requires forall x :: x in order ==> x in values
    ensures r == ValueFields(values, order)
  {
    r := [];
    var i := 0;
    while i < |order|
      invariant 0 <= i <= |order| && r == ValueFields(values, order[..i])
    {
      assert order[..i + 1][..i] == order[..i];
      r := r + [ValueField(values[order[i]])];
      i := i + 1;
    }
    assert order[..i] == order;
  }

  /** The loop over the malleable fields in generateMetadata. */
  method CollectIndexFields(fields: map<string, FieldDecl>, order: seq<string>) returns (r: seq<MetaField>)
    requires HasAlts(fields) && forall x :: x in order ==> x in fields
    ensures r == IndexFields(fields, order)
  {
    r := [];
    var i := 0;
    while i < |order|
      invariant 0 <= i <= |order| && r == IndexFields(fields, order[..i])
    {
      assert order[..i + 1][..i] == order[..i];
      r := r + [IndexField(order[i], fields[order[i]])];
      i := i + 1;
    }
    assert order[..i] == order;
  }

  /**
   * generateMetadata: the ingress header holds the version fields of the
   * ingress level, then one field per malleable value and one index field
   * per malleable field, in the maps' iteration order; the egress header
   * holds `__mv` under egress measurement isolation and nothing else.
   */
  method GenerateMetadata(values: map<string, ValueDecl>, valueOrder: seq<string>,
                          fields: map<string, FieldDecl>, fieldOrder: seq<string>,
                          ingLevel: IsoLevel, egrLevel: IsoLevel)
    returns (ing: seq<MetaField>, egr: seq<MetaField>)
    requires IterationOrder(valueOrder, values.Keys) && IterationOrder(fieldOrder, fields.Keys)
    requires HasAlts(fields)
    ensures |ing| == BitCount(ingLevel) + |values| + |fields|
    ensures ing == VersionFields(ingLevel) + ValueFields(values, valueOrder) + IndexFields(fields, fieldOrder)
    ensures (MetaField(MvField, "1") in egr <==> Measurement(egrLevel)) && |egr| <= 1
    ensures forall k :: 0 <= k < |egr| ==> egr[k] == MetaField(MvField, "1")
  {
    var vs := CollectValueFields(values, valueOrder);
    var fs := CollectIndexFields(fields, fieldOrder);
    assert |vs| == |values| && |fs| == |fields| by {
      OrderLength(valueOrder, values.Keys);
      OrderLength(fieldOrder, fields.Keys);
      assert |ValueFields(values, valueOrder)| == |valueOrder|;
      assert |IndexFields(fields, fieldOrder)| == |fieldOrder|;
    }
    var bits := CollectVersionFields(ingLevel);
    ing := bits + vs + fs;
    egr := [];
    if Measurement(egrLevel) {
      egr := egr + [MetaField(MvField, "1")];
    }
  }

  /** The version-bit fields of one direction: `__mv` under measurement isolation, then `__vv` under update isolation. */
  method CollectVersionFields(level: IsoLevel) returns (r: seq<MetaField>)
    ensures r == VersionFields(level)
  {
    r := [];
    if Measurement(level) {
      r := r + [MetaField(MvField, "1")];
    }
    if Update(level) {
      r := r + [MetaField(VvField, "1")];
    }
  }

  // ---------------------------------------------------------------------
  // generateIngInitTable and generateEgrInitTable
  // ---------------------------------------------------------------------

  /** `modify_field(target, source);` */
  datatype Assign = Assign(target: string, source: string)

  /** An init action: its parameter names and its assignments, in order. */
  datatype InitAction = InitAction(params: seq<string>, assigns: seq<Assign>)

  /** The parameter and assignment that set one metadata field `meta.<field>` from `p__<field>`. */
  function SetterParam(field: string): string
  {
    "p__" + field
  }

  function Setter(field: string): Assign
  {
    Assign(IngMetadataName + "." + field, SetterParam(field))
  }

  /** The version-bit parameters a level adds, `__mv` then `__vv`. */
  function VersionParams(l: IsoLevel): (r: seq<string>)
    ensures |r| == BitCount(l)
    ensures MvField in r <==> Measurement(l)
    ensures VvField in r <==> Update(l)
  {
    if l == 1 then [MvField] else if l == 2 then [VvField] else if l == 3 then [MvField, VvField] else []
  }

  /** The version-bit assignments a level adds: each bit copied from its parameter. */
  function VersionAssigns(meta: string, l: IsoLevel): (r: seq<Assign>)
    ensures |r| == BitCount(l)
    ensures forall k :: 0 <= k < |r| ==> r[k].source in VersionParams(l) && r[k].target == meta + "." + r[k].source
  {
    (if Measurement(l) then [Assign(meta + "." + MvField, MvField)] else [])
    + (if Update(l) then [Assign(meta + "." + VvField, VvField)] else [])
  }

  /** The parameters `p__<name><suffix>` for `names`, in order. */
  function SetterParams(names: seq<string>, suffix: string): (r: seq<string>)
    ensures |r| == |names| && forall k :: 0 <= k < |names| ==> r[k] == SetterParam(names[k] + suffix)
  {
    if |names| == 0 then []
    else SetterParams(names[..|names| - 1], suffix) + [SetterParam(names[|names| - 1] + suffix)]
  }

  /** The assignments `meta.<name><suffix> := p__<name><suffix>` for `names`, in order. */
  function Setters(names: seq<string>, suffix: string): (r: seq<Assign>)
    ensures |r| == |names| && forall k :: 0 <= k < |names| ==> r[k] == Setter(names[k] + suffix)
  {
    if |names| == 0 then []
    else Setters(names[..|names| - 1], suffix) + [Setter(names[|names| - 1] + suffix)]
  }

  /** A loop over the malleables writing the init action's parameter list. */
  method CollectParams(names: seq<string>, suffix: string) returns (r: seq<string>)
    ensures r == SetterParams(names, suffix)
  {
    r := [];
    var i := 0;
    while i < |names|
      invariant 0 <= i <= |names| && r == SetterParams(names[..i], suffix)
    {
      assert names[..i + 1][..i] == names[..i];
      r := r + [SetterParam(names[i] + suffix)];
      i := i + 1;
    }
    assert names[..i] == names;
  }

  /** A loop over the malleables writing the init action's body. */
  method CollectSetters(names: seq<string>, suffix: string) returns (r: seq<Assign>)
    ensures r == Setters(names, suffix)
  {
    r := [];
    var i := 0;
    while i < |names|
      invariant 0 <= i <= |names| && r == Setters(names[..i], suffix)
    {
      assert names[..i + 1][..i] == names[..i];
      r := r + [Setter(names[i] + suffix)];
      i := i + 1;
    }
    assert names[..i] == names;
  }

  /** The version-bit parameters, assignments and their count in generateIngInitTable. */
  method VersionBits(level: IsoLevel) returns (params: seq<string>, assigns: seq<Assign>, count: int)
    ensures params == VersionParams(level) && assigns == VersionAssigns(IngMetadataName, level)
    ensures count == BitCount(level)
  {
    params, count := [], 0;
    if level == 1 {
      params, count := [MvField], 1;
    } else if level == 2 {
      params, count := [VvField], 1;
    } else if level == 3 {
      params, count := [MvField, VvField], 2;
    }
    assigns := [];
    if Measurement(level) {
      assigns := assigns + [Assign(IngMetadataName + "." + MvField, MvField)];
    }
    if Update(level) {
      assigns := assigns + [Assign(IngMetadataName + "." + VvField, VvField)];
    }
  }

  /**
   * generateIngInitTable: one parameter and one assignment per malleable
   * value, then per malleable field (its index), then per version bit of
   * the level; the count returned is the number of parameters.
   */
  method GenerateIngInitTable(values: map<string, ValueDecl>, valueOrder: seq<string>,
                              fields: map<string, FieldDecl>, fieldOrder: seq<string>, level: IsoLevel)
    returns (act: InitAction, numVars: int)
    requires IterationOrder(valueOrder, values.Keys) && IterationOrder(fieldOrder, fields.Keys)
    ensures numVars == |values| + |fields| + BitCount(level)
    ensures act.params == SetterParams(valueOrder, "") + SetterParams(fieldOrder, IndexSuffix) + VersionParams(level)
    ensures act.assigns == Setters(valueOrder, "") + Setters(fieldOrder, IndexSuffix) + VersionAssigns(IngMetadataName, level)
    ensures |act.params| == numVars
  {
    OrderLength(valueOrder, values.Keys);
    OrderLength(fieldOrder, fields.Keys);
    var valueParams := CollectParams(valueOrder, "");
    var indexParams := CollectParams(fieldOrder, IndexSuffix);
    var bitParams, bitSetters, bitCount := VersionBits(level);
    numVars := |valueParams| + |indexParams| + bitCount;
    var params := valueParams + indexParams + bitParams;
    var valueSetters := CollectSetters(valueOrder, "");
    var indexSetters := CollectSetters(fieldOrder, IndexSuffix);
    var assigns := valueSetters + indexSetters + bitSetters;
    act := InitAction(params, assigns);
  }

  /**
   * The init action is well formed: its i-th assignment copies its i-th
   * parameter, so every metadata field it sets is set from the argument
   * the control plane supplies for it, and the count returned is exactly
   * the number of assignments.
   */
  lemma InitAssignsUseParams(valueOrder: seq<string>, fieldOrder: seq<string>, level: IsoLevel, act: InitAction)
    requires act.params == SetterParams(valueOrder, "") + SetterParams(fieldOrder, IndexSuffix) + VersionParams(level)
    requires act.assigns == Setters(valueOrder, "") + Setters(fieldOrder, IndexSuffix) + VersionAssigns(IngMetadataName, level)
    ensures |act.params| == |act.assigns|
    ensures forall k :: 0 <= k < |act.assigns| ==> act.assigns[k].source == act.params[k]
  {
    var m := |valueOrder|;
    var n := m + |fieldOrder|;
    forall k | 0 <= k < |act.assigns|
      ensures act.assigns[k].source == act.params[k]
    {
      if k < m {
        assert act.assigns[k] == Setter(valueOrder[k] + "");
        assert act.params[k] == SetterParam(valueOrder[k] + "");
      } else if k < n {
        assert act.assigns[k] == Setter(fieldOrder[k - m] + IndexSuffix);
        assert act.params[k] == SetterParam(fieldOrder[k - m] + IndexSuffix);
      } else {
        assert act.assigns[k] == VersionAssigns(IngMetadataName, level)[k - n];
        assert act.params[k] == VersionParams(level)[k - n];
      }
    }
  }

  /** generateEgrInitTable: under measurement isolation the egress action takes and sets `__mv`, otherwise it is empty. */
  function EgrInitAction(level: IsoLevel): (a: InitAction)
    ensures |a.params| == |a.assigns| <= 1
    ensures |a.params| == 1 <==> Measurement(level)
    ensures forall k :: 0 <= k < |a.assigns| ==> a.assigns[k] == Assign(EgrMetadataName + "." + MvField, a.params[k])
  {
    if Measurement(level) then InitAction([MvField], [Assign(EgrMetadataName + "." + MvField, MvField)])
    else InitAction([], [])
  }

  // ---------------------------------------------------------------------
  // generateArgRegistersForIng and generateExportControl
  // ---------------------------------------------------------------------

  /** The set-args table of bin `i` for one direction. */
  function SetArgsTable(i: nat, forIng: bool): string
  {
    (if forIng then "__tiSetArgs" else "__teSetArgs") + NatToString(i)
  }

  /** The packing table of bin `i` for one direction. */
  function PackTable(i: nat, forIng: bool): string
  {
    (if forIng then "__tiPack" else "__tePack") + NatToString(i)
  }

  /**
   * One bin's set-args unit: a table whose default action executes the
   * bin's stateful ALU at the version index, reading the register of the
   * bin's width, two instances deep, into the packed argument header.
   */
  datatype SetArgsUnit = SetArgsUnit(table: string, action: string, blackbox: string, register: string,
                                     versionIndex: string, update: string, width: int, instances: nat)

  /** The version index of the stateful ALU: the `__mv` bit under measurement isolation, else cell 0. */
  function VersionIndex(level: IsoLevel, forIng: bool): (s: string)
    ensures Measurement(level) <==> s != "0"
  {
    if Measurement(level) then (if forIng then IngMetadataName else EgrMetadataName) + "." + MvField else "0"
  }

  function SetArgsUnitOf(i: nat, b: Bin, level: IsoLevel, forIng: bool): SetArgsUnit
  {
    var s := NatToString(i);
    if forIng then
      SetArgsUnit(SetArgsTable(i, true), "__aiSetArgs" + s, "__biSetArgs" + s, "__riSetArgs" + s,
                  VersionIndex(level, true), IngArghdrName + ".reg" + s, b.size, 2)
    else
      SetArgsUnit(SetArgsTable(i, false), "__aeSetArgs" + s, "__beSetArgs" + s, "__reSetArgs" + s,
                  VersionIndex(level, false), EgrArghdrName + ".reg" + s, b.size, 2)
  }

  /**
   * generateArgRegistersForIng: one set-args unit per bin, in bin order,
   * each register as wide as its bin and holding two cells, one per value
   * of the measurement version bit.
   */
  method GenerateArgRegisters(bins: seq<Bin>, level: IsoLevel, forIng: bool) returns (units: seq<SetArgsUnit>)
    ensures |units| == |bins|
    ensures forall i :: 0 <= i < |bins| ==> units[i] == SetArgsUnitOf(i, bins[i], level, forIng)
  {
    units := [];
    var i := 0;
    while i < |bins|
      invariant 0 <= i <= |bins| && |units| == i
      invariant forall k :: 0 <= k < i ==> units[k] == SetArgsUnitOf(k, bins[k], level, forIng)
    {
      units := units + [SetArgsUnitOf(i, bins[i], level, forIng)];
      i := i + 1;
    }
  }

  /** The bins the packer produces fit their registers: each register is as wide as its bin's members, at most 32 bits. */
  lemma SetArgsRegistersFit(s: seq<ArgSize>, forIng: bool, level: IsoLevel, units: seq<SetArgsUnit>)
    requires AllWithin(s)
    requires |units| == |Pack(s, forIng)|
    requires forall i :: 0 <= i < |units| ==> units[i] == SetArgsUnitOf(i, Pack(s, forIng)[i], level, forIng)
    ensures forall i :: 0 <= i < |units| ==>
              units[i].width == Sum(Pack(s, forIng)[i].members) <= RegisterSize && units[i].instances == 2
  {
    var bins := Pack(s, forIng);
    PackBinsGood(s, forIng);
    forall i | 0 <= i < |units| ensures units[i].width == Sum(bins[i].members) <= RegisterSize {
      assert bins[i] in bins;
    }
  }

  /** The table names of bins are distinct: bin numbers are written in decimal. */
  lemma SetArgsTablesDistinct(i: nat, j: nat, forIng: bool)
    requires i != j
    ensures SetArgsTable(i, forIng) != SetArgsTable(j, forIng)
    ensures PackTable(i, forIng) != PackTable(j, forIng)
  {
    var a, b := NatToString(i), NatToString(j);
    var p := if forIng then "__tiSetArgs" else "__teSetArgs";
    var q := if forIng then "__tiPack" else "__tePack";
    assert (p + a)[|p|..] == a && (p + b)[|p|..] == b;
    assert (q + a)[|q|..] == a && (q + b)[|q|..] == b;
  }

  /**
   * generateExportControl: the set-args control of each direction applies,
   * for every bin in order, its packing table and then its set-args table.
   */
  method GenerateExportControl(binsIng: seq<Bin>, binsEgr: seq<Bin>)
    returns (ing: seq<(string, string)>, egr: seq<(string, string)>)
    ensures |ing| == |binsIng| && |egr| == |binsEgr|
    ensures forall i :: 0 <= i < |binsIng| ==> ing[i] == (PackTable(i, true), SetArgsTable(i, true))
    ensures forall i :: 0 <= i < |binsEgr| ==> egr[i] == (PackTable(i, false), SetArgsTable(i, false))
  {
    ing := [];
    var i := 0;
    while i < |binsIng|
      invariant 0 <= i <= |binsIng| && |ing| == i
      invariant forall k :: 0 <= k < i ==> ing[k] == (PackTable(k, true), SetArgsTable(k, true))
    {
      ing := ing + [(PackTable(i, true), SetArgsTable(i, true))];
      i := i + 1;
    }
    egr := [];
    i := 0;
    while i < |binsEgr|
      invariant 0 <= i <= |binsEgr| && |egr| == i
      invariant forall k :: 0 <= k < i ==> egr[k] == (PackTable(k, false), SetArgsTable(k, false))
    {
      egr := egr + [(PackTable(i, false), SetArgsTable(i, false))];
      i := i + 1;
    }
  }

  /**
   * The export control and the set-args units agree: bin by bin, the
   * table applied is the table generated, and no table is applied twice.
   */
  lemma ExportAppliesEveryUnit(bins: seq<Bin>, level: IsoLevel, forIng: bool,
                               units: seq<SetArgsUnit>, applies: seq<(string, string)>)
    requires |units| == |bins| && |applies| == |bins|
    requires forall i :: 0 <= i < |bins| ==> units[i] == SetArgsUnitOf(i, bins[i], level, forIng)
    requires forall i :: 0 <= i < |bins| ==> applies[i] == (PackTable(i, forIng), SetArgsTable(i, forIng))
    ensures |applies| == |units| && forall i :: 0 <= i < |units| ==> applies[i].1 == units[i].table
    ensures forall k, m :: 0 <= k < m < |applies| ==> applies[k].1 != applies[m].1
  {
    forall k, m | 0 <= k < m < |applies| ensures applies[k].1 != applies[m].1 {
      SetArgsTablesDistinct(k, m, forIng);
    }
  }
}
