// The P4R node kinds that the passes read and rewrite
// (src/ast/ast_nodes_p4r.cpp): malleable references, field names,
// malleable declarations with their soft-delete flag, and the stage pragma
// of a malleable table.

module AstP4R {
  import opened Strings

  // ---------------------------------------------------------------------
  // Malleable references `${name}`
  // ---------------------------------------------------------------------

  /**
   * A use of a malleable in the program text. Resolution marks it
   * `transformed` and records the header and field it stands for; a value
   * reference inside the reaction is only flagged `inReaction`.
   */
  datatype MblRef = MblRef(name: string, transformed: bool, inReaction: bool, header: string, field: string)

  /** A reference as the parser creates it. */
  function NewRef(name: string): (r: MblRef)
    ensures r.name == name && !r.transformed && !r.inReaction
  {
    MblRef(name, false, false, "", "")
  }

  /** MblRefNode::transform: the reference now stands for `header.field`. */
  function Transform(r: MblRef, header: string, field: string): (t: MblRef)
    ensures t.transformed && t.header == header && t.field == field
    ensures t.name == r.name && t.inReaction == r.inReaction
  {
    r.(transformed := true, header := header, field := field)
  }

  /** Transforming twice keeps the last header and field. */
  lemma TransformTwice(r: MblRef, h1: string, f1: string, h2: string, f2: string)
    ensures Transform(Transform(r, h1, f1), h2, f2) == Transform(r, h2, f2)
  {
  }

  /**
   * MblRefNode::deepCopy: a new reference with the same name, resolution
   * state, header and field; `inReaction` is not copied and starts false.
   */
  function CopyRef(r: MblRef): (c: MblRef)
    ensures c.name == r.name && c.transformed == r.transformed
    ensures c.header == r.header && c.field == r.field
    ensures !c.inReaction
  {
    NewRef(r.name).(transformed := r.transformed, header := r.header, field := r.field)
  }

  /**
   * The one case MblRefNode::toString has no value for: a transformed
   * reference flagged `inReaction` (the C++ function falls off its end).
   */
  predicate Renderable(r: MblRef)
  {
    !(r.transformed && r.inReaction)
  }

  /** MblRefNode::toString: `${name}` before resolution, `header.field` after. */
  function RefText(r: MblRef): (s: string)
    requires Renderable(r)
    ensures !r.transformed ==> s == "${" + r.name + "}"
    ensures r.transformed ==> s == r.header + "." + r.field
  {
    if r.transformed then r.header + "." + r.field
    else "${" + r.name + "}"
  }

  /** A copy renders like its original, and can always be rendered. */
  lemma CopyRendersAlike(r: MblRef)
    requires Renderable(r)
    ensures Renderable(CopyRef(r)) && RefText(CopyRef(r)) == RefText(r)
  {
  }

  // ---------------------------------------------------------------------
  // Fields `header.field` and lists of them
  // ---------------------------------------------------------------------

  datatype FieldName = FieldName(header: string, field: string)

  function FieldText(f: FieldName): string
  {
    f.header + "." + f.field
  }

  function FieldTexts(fs: seq<FieldName>): (r: seq<string>)
    ensures |r| == |fs| && forall i :: 0 <= i < |fs| ==> r[i] == FieldText(fs[i])
  {
    seq(|fs|, i requires 0 <= i < |fs| => FieldText(fs[i]))
  }

  /** FieldsNode::toString: the fields separated by ", ". */
  function FieldsText(fs: seq<FieldName>): (s: string)
    ensures |fs| == 1 ==> s == fs[0].header + "." + fs[0].field
    ensures |fs| > 0 ==> |s| == |Concat(FieldTexts(fs))| + 2 * (|fs| - 1)
  {
    JoinLength(FieldTexts(fs), ", ");
    Join(FieldTexts(fs), ", ")
  }

  /**
   * P4RMalleableFieldNode::mapAltToInt: the zero-based position of the first
   * alternative whose text equals `input`, or -1 when there is none.
   */
  function MapAltToInt(alts: seq<FieldName>, input: string): (r: int)
    ensures -1 <= r < |alts|
    ensures r >= 0 ==> FieldText(alts[r]) == input
    ensures r >= 0 ==> forall j :: 0 <= j < r ==> FieldText(alts[j]) != input
    ensures r == -1 ==> forall j :: 0 <= j < |alts| ==> FieldText(alts[j]) != input
  {
    if alts == [] then -1
    else if FieldText(alts[0]) == input then 0
    else
      var k := MapAltToInt(alts[1..], input);
      if k < 0 then -1 else k + 1
  }

  /** With pairwise distinct alternatives, alternative k maps to k. */
  lemma MapAltToIntDistinct(alts: seq<FieldName>, k: nat)
    requires k < |alts|
    requires forall i, j :: 0 <= i < j < |alts| ==> FieldText(alts[i]) != FieldText(alts[j])
    ensures MapAltToInt(alts, FieldText(alts[k])) == k
  {
  }

  // ---------------------------------------------------------------------
  // Malleable declarations and their soft delete
  // ---------------------------------------------------------------------

  /** `malleable value name { width: w; init: v; }` */
  datatype ValueDecl = ValueDecl(name: string, width: string, init: string)

  /** `malleable field name { width: w; init: f; alts: { f1, f2, ... } }` */
  datatype FieldDecl = FieldDecl(name: string, width: string, init: string, alts: seq<FieldName>)

  /** P4RMalleableValueNode::toString: a removed declaration prints nothing. */
  function ValueDeclText(v: ValueDecl, removed: bool): (s: string)
    ensures s == "" <==> removed
  {
    if removed then ""
    else ("Malleable value " + v.name + " {\n" + " " + "width: " + v.width + ";" + "\n"
      + " " + "init: " + v.init + ";" + "\n" + "}")
  }

  /** P4RMalleableFieldNode::toString: a removed declaration prints nothing. */
  function FieldDeclText(f: FieldDecl, removed: bool): (s: string)
    ensures s == "" <==> removed
  {
    if removed then ""
    else ("malleable field " + f.name + " {\n" + " " + "width: " + f.width + ";" + "\n"
      + " " + "init: " + f.init + ";" + "\n"
      + " " + "alts: {" + FieldsText(f.alts) + "}" + "\n" + "}")
  }

  /** P4RInitBlockNode::toString, given the rendering of the block's body. */
  function InitBlockText(name: string, body: string, removed: bool): (s: string)
    ensures s == "" <==> removed
  {
    if removed then "" else "initialization " + name + " {\n" + body + "}"
  }

  /** P4RReactionNode::toString, given the renderings of its arguments and body. */
  function ReactionText(name: string, args: string, body: string, removed: bool): (s: string)
    ensures s == "" <==> removed
  {
    if removed then "" else "reaction " + name + " (" + args + " ) {\n" + body + "}"
  }

  // ---------------------------------------------------------------------
  // Stage pragmas
  // ---------------------------------------------------------------------

  /** The tokens followed by one space each. */
  function SpacedPrefix(ts: seq<string>): string
  {
    if ts == [] then "" else SpacedPrefix(ts[..|ts| - 1]) + ts[|ts| - 1] + " "
  }

  /**
   * The pragma rewrite shared by TableNode and P4RMalleableTableNode: split
   * the pragma at every whitespace character, keep all tokens but the last,
   * and replace the last (the stage number) by its successor. It acts once:
   * an empty pragma, or one already rewritten, is left as it is. Returns
   * the new pragma and the new value of the "transformed" flag.
   */
  function TransformPragma(pragma: string, done: bool): (r: Result<(string, bool)>)
    ensures r.Ok? && pragma != "" ==> r.value.1
    ensures pragma == "" || done ==> r == Ok((pragma, done))
  {
    if pragma == "" || done then Ok((pragma, done))
    else
      var toks := SplitOn(pragma, Whitespace);
      match Stoi(toks[|toks| - 1])
      case None => Err("stoi: the last pragma token is not a number")
      case Some(k) =>
        if k == IntMax then Err("stage number overflows int")
        else Ok((SpacedPrefix(toks[..|toks| - 1]) + IntToString(k + 1), true))
  }

  lemma {:induction false} SpacedPrefixJoin(ts: seq<string>, x: string)
    ensures SpacedPrefix(ts) + x == Join(ts + [x], " ")
    decreases |ts|
  {
    if ts != [] {
      var init, last := ts[..|ts| - 1], ts[|ts| - 1];
      SpacedPrefixJoin(init, last);
      assert (ts + [x])[..|ts|] == ts;
      assert init + [last] == ts;
    }
  }

  /**
   * The rewrite increments the stage number by one and keeps every earlier
   * token: splitting the new pragma gives the old tokens with the last one
   * replaced by k + 1.
   */
  lemma PragmaIncrements(pragma: string)
    requires pragma != ""
    requires TransformPragma(pragma, false).Ok?
    ensures var toks := SplitOn(pragma, Whitespace);
            var newToks := SplitOn(TransformPragma(pragma, false).value.0, Whitespace);
            Stoi(toks[|toks| - 1]).Some? &&
            |newToks| == |toks| && newToks[..|toks| - 1] == toks[..|toks| - 1] &&
            Stoi(newToks[|toks| - 1]) == Some(Stoi(toks[|toks| - 1]).value + 1)
  {
    var toks := SplitOn(pragma, Whitespace);
    PragmaOkStoi(pragma, toks);
    var k := Stoi(toks[|toks| - 1]).value;
    PragmaValue(pragma, toks, k);
    var kept := toks[..|toks| - 1];
    var last := IntToString(k + 1);
    SplitPiecesFree(pragma, Whitespace);
    SplitTokensAgain(toks, kept, last);
    StoiIntToString(k + 1);
    assert (kept + [last])[..|toks| - 1] == kept;
  }

  lemma PragmaValue(pragma: string, toks: seq<string>, k: int)
    requires pragma != "" && toks == SplitOn(pragma, Whitespace) && Stoi(toks[|toks| - 1]) == Some(k) && k != IntMax
    ensures TransformPragma(pragma, false) == Ok((SpacedPrefix(toks[..|toks| - 1]) + IntToString(k + 1), true))
  {
  }

  lemma PragmaOkStoi(pragma: string, toks: seq<string>)
    requires pragma != "" && toks == SplitOn(pragma, Whitespace) && TransformPragma(pragma, false).Ok?
    ensures Stoi(toks[|toks| - 1]).Some? && Stoi(toks[|toks| - 1]).value != IntMax
  {
  }

  lemma SplitTokensAgain(toks: seq<string>, kept: seq<string>, last: string)
    requires |toks| >= 1 && kept == toks[..|toks| - 1]
    requires forall i :: 0 <= i < |toks| ==> NoneOf(toks[i], Whitespace)
    requires NoneOf(last, Whitespace)
    ensures SplitOn(SpacedPrefix(kept) + last, Whitespace) == kept + [last]
  {
    SpacedPrefixJoin(kept, last);
    var xs := kept + [last];
    forall i | 0 <= i < |xs| ensures NoneOf(xs[i], Whitespace) {
      if i < |kept| { assert xs[i] == toks[i]; }
    }
    JoinSplit(xs, ' ', Whitespace);
  }

  /** Rewriting a rewritten pragma changes nothing. */
  lemma PragmaOnce(pragma: string, done: bool)
    requires TransformPragma(pragma, done).Ok?
    ensures var (p, d) := TransformPragma(pragma, done).value;
            TransformPragma(p, d) == Ok((p, d))
  {
  }

  /** P4RMalleableTableNode::toString: the pragma line, ` malleable ` unless removed, then the inner table. */
  function MalleableTableText(pragma: string, removed: bool, tableText: string): (s: string)
    ensures var head := if pragma == "" then "" else pragma + "\n";
            (removed ==> s == head + tableText) &&
            (!removed ==> s == head + " malleable " + tableText)
  {
    (if pragma == "" then "" else pragma + "\n")
      + (if removed then "" else " malleable ")
      + tableText
  }

  // ---------------------------------------------------------------------
  // Reaction arguments (ReactionArgNode)
  // ---------------------------------------------------------------------

  /** Which packet state a reaction argument mirrors to the control plane. */
  datatype ArgType = IngressField | EgressField | IngressMblField | EgressMblField | RegisterArg

  /** What an argument names: a header field, a malleable reference, or a register by name. */
  datatype ArgValue = FieldArg(f: FieldName) | RefArg(ref: MblRef) | NameArg(name: string)

  /**
   * One argument of the reaction. `id` stands for the node's address, which
   * the bin packer uses to order arguments of equal width.
   */
  datatype ReactionArg = ReactionArg(id: nat, argType: ArgType, value: ArgValue)

  predicate ArgRenderable(a: ReactionArg)
  {
    a.value.RefArg? ==> Renderable(a.value.ref)
  }

  /** ReactionArgNode::toString: the rendering of the named field, reference or register. */
  function ArgText(a: ReactionArg): (s: string)
    requires ArgRenderable(a)
    ensures a.value.FieldArg? ==> s == FieldText(a.value.f)
    ensures a.value.NameArg? ==> s == a.value.name
  {
    match a.value
    case FieldArg(f) => FieldText(f)
    case RefArg(r) => RefText(r)
    case NameArg(n) => n
  }
}
