// The P4 node kinds the passes read and rewrite (include/ast_nodes_p4.h,
// src/ast/ast_nodes_p4.cpp): words, match lists, tables, actions and
// registers, with their constructors, deep copies and renderings.
//
// Nodes live in an arena (see module Program): a malleable reference inside
// a word, a parameter or a match-list entry is the index of its record in
// the arena's reference list.

module AstP4 {
  import opened Strings
  import opened AstP4R

  // ---------------------------------------------------------------------
  // Enumerations
  // ---------------------------------------------------------------------

  /** TableReadStmtNode::MatchType */
  datatype MatchType = Exact | Ternary

  /** BodyWordNode::WordType */
  datatype WordType = VarRef | Name | FieldWord | Str | Integer | Special

  // ---------------------------------------------------------------------
  // Records
  // ---------------------------------------------------------------------

  /** BodyWordNode: a VARREF word holds a malleable reference; every other word holds text. */
  datatype Word = RefWord(ref: nat) | TextWord(kind: WordType, text: string)

  function KindOf(w: Word): WordType
  {
    match w
    case RefWord(_) => VarRef
    case TextWord(k, _) => k
  }

  /** The field of a match-list entry: a plain name (StrNode), `header.field` (FieldNode) or a malleable reference. */
  datatype ReadField = StrField(text: string) | HdrField(f: FieldName) | RefField(ref: nat)

  /** TableReadStmtNode */
  datatype Read = Read(matchType: MatchType, field: ReadField)

  /**
   * TableNode. `hasReads` is false when the parser gave no read list at all
   * (a null `reads_`), as opposed to an empty one.
   */
  datatype Table = Table(name: string, hasReads: bool, readStmts: seq<Read>, actions: seq<string>,
                         options: seq<string>, pragma: string, pragmaTransformed: bool, isMalleable: bool)

  /** ActionParamNode: a malleable reference or some other node, kept as its text. */
  datatype Param = RefParam(ref: nat) | NodeParam(text: string)

  /** ActionStmtNode::ActionStmtType */
  datatype StmtKind = NameArglist | ProgExec

  /** ActionStmtNode: `name1(args);` or `name1 . name2 ( args );`. */
  datatype ActionStmt = ActionStmt(kind: StmtKind, name1: string, name2: string, index: string, args: seq<Word>)

  /** ActionNode */
  datatype Action = Action(name: string, params: seq<Param>, stmts: seq<ActionStmt>)

  // ---------------------------------------------------------------------
  // TableNode constructor
  // ---------------------------------------------------------------------

  /** What the constructor strips from the end of the options text. */
  const OptionTail: set<char> := {';', ' ', '\t', '\n'}

  function Options(text: string): (opts: seq<string>)
    ensures forall i :: 0 <= i < |opts| ==> NoneOf(opts[i], {';'}) && Trim(opts[i]) == opts[i]
  {
    var t := TrimRightOf(text, OptionTail);
    if t == "" then []
    else
      var pieces := SplitOn(t, {';'});
      SplitPiecesFree(t, {';'});
      seq(|pieces|, i requires 0 <= i < |pieces| =>
        TrimNoSemicolon(pieces[i]);
        Trim(pieces[i]))
  }

  lemma TrimNoSemicolon(p: string)
    requires NoneOf(p, {';'})
    ensures NoneOf(Trim(p), {';'}) && Trim(Trim(p)) == Trim(p)
  {
    TrimIdempotent(p);
    var t := TrimRightOf(p, Whitespace);
    var u := TrimLeftOf(t, Whitespace);
    assert forall i :: 0 <= i < |u| ==> u[i] == p[|t| - |u| + i];
  }

  /**
   * TableNode's constructor: the options text loses its trailing `; \t\n`,
   * is split at ';' (keeping empty pieces) and each option is trimmed; a
   * new table is neither malleable nor pragma-transformed.
   */
  function MakeTable(name: string, hasReads: bool, readStmts: seq<Read>, actions: seq<string>,
                     optionsText: string, pragma: string): (t: Table)
    ensures t.name == name && t.hasReads == hasReads && t.readStmts == readStmts && t.actions == actions
    ensures t.pragma == pragma && !t.pragmaTransformed && !t.isMalleable
    ensures forall i :: 0 <= i < |t.options| ==> NoneOf(t.options[i], {';'}) && Trim(t.options[i]) == t.options[i]
    ensures t.options == [] <==> TrimRightOf(optionsText, OptionTail) == ""
  {
    Table(name, hasReads, readStmts, actions, Options(optionsText), pragma, false, false)
  }

  lemma TrimRightStops(s: string, cs: set<char>)
    requires s != [] && s[|s| - 1] !in cs
    ensures TrimRightOf(s, cs) == s
  {
  }

  /**
   * Options written as `o1;o2;...;on;` come back as [o1, ..., on] when each
   * option is non-empty, trimmed and free of ';'.
   */
  lemma {:induction false} OptionsRoundTrip(xs: seq<string>)
    requires |xs| >= 1
    requires forall i :: 0 <= i < |xs| ==> xs[i] != "" && NoneOf(xs[i], {';'}) && Trim(xs[i]) == xs[i]
    ensures Options(Join(xs, ";") + ";") == xs
  {
    var j := Join(xs, ";");
    LastCharOfJoin(xs);
    TrimRightSemicolon(j);
    JoinSplit(xs, ';', {';'});
    assert SplitOn(TrimRightOf(j + ";", OptionTail), {';'}) == xs;
  }

  lemma LastCharOfJoin(xs: seq<string>)
    requires |xs| >= 1
    requires forall i :: 0 <= i < |xs| ==> xs[i] != "" && NoneOf(xs[i], {';'}) && Trim(xs[i]) == xs[i]
    ensures Join(xs, ";") != "" && Join(xs, ";")[|Join(xs, ";")| - 1] !in OptionTail
  {
    var j := Join(xs, ";");
    var last := xs[|xs| - 1];
    JoinEndsWithLast(xs, ";");
    assert last[|last| - 1] !in Whitespace;
    assert last[|last| - 1] != ';';
    assert j[|j| - 1] == last[|last| - 1];
  }

  lemma TrimRightSemicolon(j: string)
    requires j != "" && j[|j| - 1] !in OptionTail
    ensures TrimRightOf(j + ";", OptionTail) == j
  {
    assert (j + ";")[..|j|] == j;
    TrimRightStops(j, OptionTail);
  }

  lemma {:induction false} JoinEndsWithLast(xs: seq<string>, sep: string)
    requires |xs| >= 1 && xs[|xs| - 1] != ""
    ensures var j := Join(xs, sep); var last := xs[|xs| - 1];
            |j| >= |last| && j[|j| - |last|..] == last
  {
  }

  // ---------------------------------------------------------------------
  // TableNode::transformPragma
  // ---------------------------------------------------------------------

  /** The table's pragma with its stage number incremented once. */
  function TransformTablePragma(t: Table): (r: Result<Table>)
    ensures r.Ok? ==> r.value == t.(pragma := r.value.pragma, pragmaTransformed := r.value.pragmaTransformed)
    ensures r.Ok? && t.pragma != "" ==> r.value.pragmaTransformed
    ensures t.pragma == "" || t.pragmaTransformed ==> r == Ok(t)
  {
    match TransformPragma(t.pragma, t.pragmaTransformed)
    case Err(e) => Err(e)
    case Ok((p, d)) => Ok(t.(pragma := p, pragmaTransformed := d))
  }

  // ---------------------------------------------------------------------
  // P4RegisterNode constructor
  // ---------------------------------------------------------------------

  /** width_ and instanceCount_; None where the body never set them (the C++ fields stay uninitialised). */
  datatype RegisterDims = RegisterDims(width: Option<int>, instanceCount: Option<int>)

  const NoDims := RegisterDims(None, None)

  /** The two keys the register constructor looks for. */
  const WidthKey := "width"
  const CountKey := "instance_count"

  /**
   * The inner getline loop over the ':'-separated tokens of one item: a
   * trimmed token `width` or `instance_count` takes the next token, trimmed,
   * as its value. A key with no value token, or a value std::stoi rejects,
   * throws.
   */
  function ScanTokens(toks: seq<string>, d: RegisterDims): Result<RegisterDims>
    decreases |toks|
  {
    if toks == [] then Ok(d)
    else
      var key := Trim(toks[0]);
      if key == WidthKey || key == CountKey then
        if |toks| < 2 then Err("stoi: missing register value")
        else
          match Stoi(Trim(toks[1]))
          case None => Err("stoi: register value is not a number")
          case Some(v) =>
            var d' := if key == WidthKey then d.(width := Some(v)) else d.(instanceCount := Some(v));
            ScanTokens(toks[2..], d')
      else ScanTokens(toks[1..], d)
  }

  /** The outer getline loop over the ';'-separated items of the body. */
  function ScanItems(items: seq<string>, d: RegisterDims): Result<RegisterDims>
    decreases |items|
  {
    if items == [] then Ok(d)
    else
      match ScanTokens(GetlineSplit(items[0], ':'), d)
      case Err(e) => Err(e)
      case Ok(d') => ScanItems(items[1..], d')
  }

  /** The dimensions the constructor gives a register whose body renders as `body`; an empty body gives -1 and -1. */
  function RegisterDimsOf(bodyIsEmpty: bool, body: string): Result<RegisterDims>
  {
    if bodyIsEmpty then Ok(RegisterDims(Some(-1), Some(-1)))
    else ScanItems(GetlineSplit(body, ';'), NoDims)
  }

  /** P4RegisterNode's constructor: the nested getline loops over the rendered body. */
  method ParseRegister(bodyIsEmpty: bool, body: string) returns (r: Result<RegisterDims>)
    ensures r == RegisterDimsOf(bodyIsEmpty, body)
  {
    if bodyIsEmpty {
      return Ok(RegisterDims(Some(-1), Some(-1)));
    }
    var items := GetlineSplit(body, ';');
    var d := NoDims;
    var i := 0;
    while i < |items|
      invariant 0 <= i <= |items|
      invariant ScanItems(items, NoDims) == ScanItems(items[i..], d)
    {
      assert items[i..][0] == items[i] && items[i..][1..] == items[i + 1..];
      var q := ScanItem(items[i], d);
      if q.Err? {
        return q;
      }
      d := q.value;
      i := i + 1;
    }
    return Ok(d);
  }

  /** The inner getline loop over the ':'-separated tokens of one item. */
  method ScanItem(item: string, d0: RegisterDims) returns (r: Result<RegisterDims>)
    ensures r == ScanTokens(GetlineSplit(item, ':'), d0)
  {
    var toks := GetlineSplit(item, ':');
    var d := d0;
    var j := 0;
    while j < |toks|
      invariant 0 <= j <= |toks|
      invariant ScanTokens(toks, d0) == ScanTokens(toks[j..], d)
      decreases |toks| - j
    {
      var key := Trim(toks[j]);
      j := j + 1;
      if key == WidthKey || key == CountKey {
        if j == |toks| {
          return Err("stoi: missing register value");
        }
        var v := Stoi(Trim(toks[j]));
        if v.None? {
          return Err("stoi: register value is not a number");
        }
        if key == WidthKey { d := d.(width := Some(v.value)); }
        else { d := d.(instanceCount := Some(v.value)); }
        j := j + 1;
      }
    }
    return Ok(d);
  }

  /** One `key : value` item of a register body. */
  function RegisterItem(key: string, value: int): string
  {
    key + ":" + " " + IntToString(value)
  }

  /** The body text of a register declared with `width : w; instance_count : c;`. */
  function RegisterBody(width: int, count: int): string
  {
    RegisterItem(WidthKey + " ", width) + ";" + RegisterItem(" " + CountKey + " ", count) + ";"
  }

  /** The constructor reads back the width and instance count such a body declares. */
  lemma RegisterBodyRoundTrip(width: int, count: int)
    requires IntMin <= width <= IntMax && IntMin <= count <= IntMax
    ensures RegisterDimsOf(false, RegisterBody(width, count)) == Ok(RegisterDims(Some(width), Some(count)))
  {
    KeyFacts();
    KeySeparators();
    ItemsRoundTrip(WidthKey + " ", " " + CountKey + " ", width, count);
  }

  lemma KeyFacts()
    ensures Trim(WidthKey + " ") == WidthKey && Trim(" " + CountKey + " ") == CountKey
  {
    TrimPadded(WidthKey);
    TrimPadded(CountKey);
  }

  lemma KeySeparators()
    ensures NoneOf(WidthKey + " ", {':'}) && NoneOf(WidthKey + " ", {';'})
    ensures NoneOf(" " + CountKey + " ", {':'}) && NoneOf(" " + CountKey + " ", {';'})
  {
  }

  lemma ItemsRoundTrip(kw: string, kc: string, width: int, count: int)
    requires IntMin <= width <= IntMax && IntMin <= count <= IntMax
    requires Trim(kw) == WidthKey && Trim(kc) == CountKey
    requires NoneOf(kw, {':'}) && NoneOf(kw, {';'}) && NoneOf(kc, {':'}) && NoneOf(kc, {';'})
    ensures RegisterDimsOf(false, RegisterItem(kw, width) + ";" + RegisterItem(kc, count) + ";")
         == Ok(RegisterDims(Some(width), Some(count)))
  {
    var a, b := RegisterItem(kw, width), RegisterItem(kc, count);
    ItemNoSemicolon(kw, width);
    ItemNoSemicolon(kc, count);
    RegisterBodyItems(a, b);
    var d1 := NoDims.(width := Some(width));
    KeyValueScan(kw, WidthKey, width, NoDims);
    KeyValueScan(kc, CountKey, count, d1);
    ScanTwoItems(a, b, NoDims, d1, RegisterDims(Some(width), Some(count)));
  }

  lemma ItemNoSemicolon(k: string, n: int)
    requires NoneOf(k, {';'})
    ensures NoneOf(RegisterItem(k, n), {';'})
  {
    IntToStringChars(n);
  }

  lemma ScanTwoItems(a: string, b: string, d0: RegisterDims, d1: RegisterDims, d2: RegisterDims)
    requires ScanTokens(GetlineSplit(a, ':'), d0) == Ok(d1)
    requires ScanTokens(GetlineSplit(b, ':'), d1) == Ok(d2)
    ensures ScanItems([a, b], d0) == Ok(d2)
  {
    assert [a, b][0] == a && [a, b][1..] == [b];
    assert [b][0] == b && [b][1..] == [];
    assert ScanItems([b], d1) == ScanItems([], d2);
    assert ScanItems([a, b], d0) == ScanItems([b], d1);
  }

  lemma RegisterBodyItems(a: string, b: string)
    requires NoneOf(a, {';'}) && NoneOf(b, {';'})
    ensures GetlineSplit(a + ";" + b + ";", ';') == [a, b]
  {
    assert [a, b, ""][..2] == [a, b] && [a, b][..1] == [a];
    assert Join([a, b], ";") == a + ";" + b;
    assert Join([a, b, ""], ";") == Join([a, b], ";") + ";" + "";
    assert Join([a, b, ""], ";") == a + ";" + b + ";";
    JoinSplit([a, b, ""], ';', {';'});
  }

  /** A key padded with spaces trims back to the key. */
  lemma TrimPadded(k: string)
    requires k != [] && k[0] !in Whitespace && k[|k| - 1] !in Whitespace
    ensures Trim(k + " ") == k && Trim(" " + k + " ") == k
  {
    assert (k + " ")[..|k|] == k;
    assert (" " + k + " ")[..|k| + 1] == " " + k;
    assert (" " + k)[1..] == k;
  }

  /** Scanning one `key : n` item, whose key trims to one of the two keys, records n. */
  lemma KeyValueScan(k: string, key: string, n: int, d: RegisterDims)
    requires IntMin <= n <= IntMax
    requires NoneOf(k, {':'}) && Trim(k) == key && (key == WidthKey || key == CountKey)
    ensures ScanTokens(GetlineSplit(RegisterItem(k, n), ':'), d)
         == Ok(if key == WidthKey then d.(width := Some(n)) else d.(instanceCount := Some(n)))
  {
    var v := IntToString(n);
    IntToStringChars(n);
    KeyValueItem(k, v);
    StoiIntToString(n);
    assert [k, " " + v][2..] == [];
  }

  /** One `key : value` item splits at its colon, and the value trims to itself. */
  lemma KeyValueItem(k: string, v: string)
    requires NoneOf(k, {':'}) && v != [] && NoneOf(v, {':'}) && NoneOf(v, Whitespace)
    ensures GetlineSplit(k + ":" + " " + v, ':') == [k, " " + v]
    ensures Trim(" " + v) == v
  {
    assert NoneOf(" " + v, {':'});
    JoinSplit([k, " " + v], ':', {':'});
    assert Join([k, " " + v], ":") == k + ":" + " " + v;
    assert TrimRightOf(" " + v, Whitespace) == " " + v;
    assert (" " + v)[1..] == v;
    assert TrimLeftOf(v, Whitespace) == v;
  }

  // ---------------------------------------------------------------------
  // Renderings (toString), given the arena's reference records
  // ---------------------------------------------------------------------

  /** Every reference the word names exists and can be rendered. */
  predicate WordOk(w: Word, refs: seq<MblRef>)
  {
    w.RefWord? ==> w.ref < |refs| && Renderable(refs[w.ref])
  }

  predicate WordsOk(ws: seq<Word>, refs: seq<MblRef>)
  {
    forall i :: 0 <= i < |ws| ==> WordOk(ws[i], refs)
  }

  /**
   * BodyWordNode::toString for a word of an argument list (its parent is not
   * a BodyNode, and `indent_` keeps its initial 1): integers and special
   * characters print bare, every other word after two spaces; a word whose
   * contents print as ";" is followed by a newline.
   */
  function WordText(w: Word, refs: seq<MblRef>): string
    requires WordOk(w, refs)
  {
    var contents := match w
      case RefWord(i) => RefText(refs[i])
      case TextWord(_, t) => t;
    var lead := if KindOf(w) == Integer || KindOf(w) == Special then "" else "  ";
    lead + contents + (if contents == ";" then "\n" else "")
  }

  function WordTexts(ws: seq<Word>, refs: seq<MblRef>): (r: seq<string>)
    requires WordsOk(ws, refs)
    ensures |r| == |ws| && forall i :: 0 <= i < |ws| ==> r[i] == WordText(ws[i], refs)
  {
    seq(|ws|, i requires 0 <= i < |ws| && WordsOk(ws, refs) => WordText(ws[i], refs))
  }

  /** ArgsNode::toString: the words separated by ", ". */
  function ArgsText(ws: seq<Word>, refs: seq<MblRef>): string
    requires WordsOk(ws, refs)
  {
    Join(WordTexts(ws, refs), ", ")
  }

  predicate ParamOk(p: Param, refs: seq<MblRef>)
  {
    p.RefParam? ==> p.ref < |refs| && Renderable(refs[p.ref])
  }

  predicate ParamsOk(ps: seq<Param>, refs: seq<MblRef>)
  {
    forall i :: 0 <= i < |ps| ==> ParamOk(ps[i], refs)
  }

  /** ActionParamNode::toString: the parameter's own rendering. */
  function ParamText(p: Param, refs: seq<MblRef>): string
    requires ParamOk(p, refs)
  {
    match p
    case RefParam(i) => RefText(refs[i])
    case NodeParam(t) => t
  }

  function ParamTexts(ps: seq<Param>, refs: seq<MblRef>): (r: seq<string>)
    requires ParamsOk(ps, refs)
    ensures |r| == |ps| && forall i :: 0 <= i < |ps| ==> r[i] == ParamText(ps[i], refs)
  {
    seq(|ps|, i requires 0 <= i < |ps| && ParamsOk(ps, refs) => ParamText(ps[i], refs))
  }

  /** ActionParamsNode::toString: the parameters separated by ", ". */
  function ParamsText(ps: seq<Param>, refs: seq<MblRef>): string
    requires ParamsOk(ps, refs)
  {
    Join(ParamTexts(ps, refs), ", ")
  }

  /** Every statement's arguments can be rendered. */
  predicate StmtsOk(ss: seq<ActionStmt>, refs: seq<MblRef>)
    decreases |ss|
  {
    |ss| > 0 ==> WordsOk(ss[0].args, refs) && StmtsOk(ss[1..], refs)
  }

  /** ActionStmtNode::toString, one line per statement. */
  function StmtText(st: ActionStmt, refs: seq<MblRef>): string
    requires WordsOk(st.args, refs)
  {
    match st.kind
    case NameArglist => " " + st.name1 + "(" + ArgsText(st.args, refs) + ");\n"
    case ProgExec => " " + st.name1 + " . " + st.name2 + " ( " + ArgsText(st.args, refs) + " );\n"
  }

  /** The statements' renderings, one after the other. */
  function StmtsText(ss: seq<ActionStmt>, refs: seq<MblRef>): (r: string)
    requires StmtsOk(ss, refs)
    ensures |ss| == 0 ==> r == ""
    decreases |ss|
  {
    if |ss| == 0 then "" else StmtText(ss[0], refs) + StmtsText(ss[1..], refs)
  }

  predicate ActionOk(a: Action, refs: seq<MblRef>)
  {
    ParamsOk(a.params, refs) && StmtsOk(a.stmts, refs)
  }

  /** ActionNode::toString */
  function ActionText(a: Action, refs: seq<MblRef>): string
    requires ActionOk(a, refs)
  {
    "action " + a.name + "(" + ParamsText(a.params, refs) + ") {\n" + StmtsText(a.stmts, refs) + "}\n"
  }

  predicate ReadOk(r: Read, refs: seq<MblRef>)
  {
    r.field.RefField? ==> r.field.ref < |refs| && Renderable(refs[r.field.ref])
  }

  predicate ReadsOk(rs: seq<Read>, refs: seq<MblRef>)
  {
    forall i :: 0 <= i < |rs| ==> ReadOk(rs[i], refs)
  }

  function ReadFieldText(f: ReadField, refs: seq<MblRef>): string
    requires f.RefField? ==> f.ref < |refs| && Renderable(refs[f.ref])
  {
    match f
    case StrField(t) => t
    case HdrField(h) => FieldText(h)
    case RefField(i) => RefText(refs[i])
  }

  /** TableReadStmtNode::toString: `field : exact;` or `field : ternary;` on its own indented line. */
  function ReadText(r: Read, refs: seq<MblRef>): (s: string)
    requires ReadOk(r, refs)
    ensures r.matchType == Exact ==> s == "    " + ReadFieldText(r.field, refs) + " : exact;\n"
    ensures r.matchType == Ternary ==> s == "    " + ReadFieldText(r.field, refs) + " : ternary;\n"
  {
    "    " + ReadFieldText(r.field, refs) + " : " + (if r.matchType == Exact then "exact" else "ternary") + ";\n"
  }

  function ReadTexts(rs: seq<Read>, refs: seq<MblRef>): (r: seq<string>)
    requires ReadsOk(rs, refs)
    ensures |r| == |rs| && forall i :: 0 <= i < |rs| ==> r[i] == ReadText(rs[i], refs)
  {
    seq(|rs|, i requires 0 <= i < |rs| && ReadsOk(rs, refs) => ReadText(rs[i], refs))
  }

  function ActionLines(actions: seq<string>): (r: seq<string>)
    ensures |r| == |actions| && forall i :: 0 <= i < |actions| ==> r[i] == "    " + actions[i] + ";\n"
  {
    seq(|actions|, i requires 0 <= i < |actions| => "    " + actions[i] + ";\n")
  }

  function OptionLines(options: seq<string>): (r: seq<string>)
    ensures |r| == |options| && forall i :: 0 <= i < |options| ==> r[i] == "  " + options[i] + ";\n"
  {
    seq(|options|, i requires 0 <= i < |options| => "  " + options[i] + ";\n")
  }

  /** The `reads { ... }` block, present only for a non-empty read list. */
  function ReadsBlock(t: Table, refs: seq<MblRef>): string
    requires ReadsOk(t.readStmts, refs)
  {
    if t.hasReads && |t.readStmts| > 0 then "  reads {\n" + Concat(ReadTexts(t.readStmts, refs)) + "  }\n"
    else ""
  }

  /** TableNode::toString: optional pragma line, header, read block, actions, one line per option. */
  function TableText(t: Table, refs: seq<MblRef>): string
    requires ReadsOk(t.readStmts, refs)
  {
    (if t.pragma == "" then "" else t.pragma + "\n")
      + "table " + t.name + " {\n"
      + ReadsBlock(t, refs)
      + "  actions {\n" + Concat(ActionLines(t.actions)) + "  }\n"
      + Concat(OptionLines(t.options))
      + "}\n\n"
  }

  /** An empty read list prints exactly like an absent one: no `reads` block at all. */
  lemma EmptyReadsPrintNothing(t: Table, refs: seq<MblRef>)
    requires t.readStmts == []
    ensures TableText(t, refs) == TableText(t.(hasReads := !t.hasReads), refs)
    ensures ReadsBlock(t, refs) == ""
  {
  }

  // ---------------------------------------------------------------------
  // Deep copies: ArgsNode, ActionParamsNode, ActionStmtsNode and
  // ActionNode::duplicateAction
  // ---------------------------------------------------------------------

  /** The ids next, next + 1, ..., next + n - 1: the records a copy appends to the arena. */
  function Ids(next: nat, n: nat): (r: seq<nat>)
    ensures |r| == n && forall k :: 0 <= k < n ==> r[k] == next + k
  {
    seq(n, k requires 0 <= k < n => next + k)
  }

  lemma IdsCons(next: nat, n: nat)
    ensures Ids(next, n + 1) == [next] + Ids(next + 1, n)
  {
    var a, b := Ids(next, n + 1), [next] + Ids(next + 1, n);
    forall k | 0 <= k < n + 1 ensures a[k] == b[k] {
      if k > 0 { assert b[k] == Ids(next + 1, n)[k - 1]; }
    }
  }

  lemma IdsAppend(next: nat, m: nat, n: nat)
    ensures Ids(next, m + n) == Ids(next, m) + Ids(next + m, n)
  {
    var a, b := Ids(next, m + n), Ids(next, m) + Ids(next + m, n);
    forall k | 0 <= k < m + n ensures a[k] == b[k] {
      if k >= m { assert b[k] == Ids(next + m, n)[k - m]; }
    }
  }

  /** The reference ids the words name, in order. */
  function WordRefs(ws: seq<Word>): (r: seq<nat>)
    ensures |r| <= |ws|
  {
    if |ws| == 0 then []
    else (if ws[0].RefWord? then [ws[0].ref] else []) + WordRefs(ws[1..])
  }

  /**
   * ArgsNode::deepCopy: a VARREF word gets a copy of its reference, the
   * copies taking the fresh ids `next`, `next + 1`, ... in order; any other
   * word keeps its contents.
   */
  function CopyWords(ws: seq<Word>, next: nat): (r: seq<Word>)
    ensures |r| == |ws|
  {
    if |ws| == 0 then []
    else [if ws[0].RefWord? then RefWord(next) else ws[0]] + CopyWords(ws[1..], if ws[0].RefWord? then next + 1 else next)
  }

  /** Every word of the copy has the kind of its original, and a text word is kept as it is. */
  lemma {:induction false} CopyWordsKinds(ws: seq<Word>, next: nat)
    ensures forall i :: 0 <= i < |ws| ==>
              KindOf(CopyWords(ws, next)[i]) == KindOf(ws[i]) && (ws[i].TextWord? ==> CopyWords(ws, next)[i] == ws[i])
    decreases |ws|
  {
    if |ws| > 0 {
      var n := if ws[0].RefWord? then next + 1 else next;
      var c := CopyWords(ws, next);
      CopyWordsKinds(ws[1..], n);
      forall i | 1 <= i < |ws| ensures KindOf(c[i]) == KindOf(ws[i]) && (ws[i].TextWord? ==> c[i] == ws[i]) {
        assert ws[i] == ws[1..][i - 1] && c[i] == CopyWords(ws[1..], n)[i - 1];
      }
    }
  }

  /** The copy names exactly the fresh ids `next`, `next + 1`, ..., one per reference of the original. */
  lemma {:induction false} CopyWordsFresh(ws: seq<Word>, next: nat)
    ensures WordRefs(CopyWords(ws, next)) == Ids(next, |WordRefs(ws)|)
    decreases |ws|
  {
    if |ws| > 0 {
      var n := if ws[0].RefWord? then next + 1 else next;
      var c := CopyWords(ws, next);
      CopyWordsFresh(ws[1..], n);
      assert c[1..] == CopyWords(ws[1..], n);
      if ws[0].RefWord? { IdsCons(next, |WordRefs(ws[1..])|); }
    }
  }

  /** The copy records for `ids`, in order: MblRefNode::deepCopy of each. */
  function CopiedRefs(ids: seq<nat>, refs: seq<MblRef>): (r: seq<MblRef>)
    requires forall k :: 0 <= k < |ids| ==> ids[k] < |refs|
    ensures |r| == |ids| && forall k :: 0 <= k < |ids| ==> r[k] == CopyRef(refs[ids[k]])
  {
    seq(|ids|, k requires 0 <= k < |ids| && ids[k] < |refs| => CopyRef(refs[ids[k]]))
  }

  /** `refs'` holds, from id `next` on, the copy records of `ids` in order. */
  predicate CopiesAt(ids: seq<nat>, next: nat, refs: seq<MblRef>, refs': seq<MblRef>)
  {
    next + |ids| <= |refs'| &&
    forall k {:trigger ids[k]} :: 0 <= k < |ids| ==> ids[k] < |refs| && refs'[next + k] == CopyRef(refs[ids[k]])
  }

  lemma CopiesAtSplit(xs: seq<nat>, ys: seq<nat>, next: nat, refs: seq<MblRef>, refs': seq<MblRef>)
    requires CopiesAt(xs + ys, next, refs, refs')
    ensures CopiesAt(xs, next, refs, refs') && CopiesAt(ys, next + |xs|, refs, refs')
  {
    forall k | 0 <= k < |xs| ensures xs[k] < |refs| && refs'[next + k] == CopyRef(refs[xs[k]]) {
      assert (xs + ys)[k] == xs[k];
    }
    forall k | 0 <= k < |ys| ensures ys[k] < |refs| && refs'[next + |xs| + k] == CopyRef(refs[ys[k]]) {
      assert (xs + ys)[|xs| + k] == ys[k];
    }
  }

  /** `copy` is `orig` with its reference, if any, replaced by a copy record in `refs'`. */
  predicate WordCopied(orig: Word, copy: Word, refs: seq<MblRef>, refs': seq<MblRef>)
  {
    if orig.RefWord? then
      copy.RefWord? && orig.ref < |refs| && copy.ref < |refs'| && refs'[copy.ref] == CopyRef(refs[orig.ref])
    else copy == orig
  }

  lemma {:induction false} WordRefsInRange(ws: seq<Word>, refs: seq<MblRef>)
    requires WordsOk(ws, refs)
    ensures forall k :: 0 <= k < |WordRefs(ws)| ==> WordRefs(ws)[k] < |refs|
    decreases |ws|
  {
    if |ws| > 0 {
      WordRefsInRange(ws[1..], refs);
    }
  }

  /** Each word of the copy stands for the word of the original, once the copy records are in place. */
  lemma {:induction false} CopyWordsCorrespond(ws: seq<Word>, next: nat, refs: seq<MblRef>, refs': seq<MblRef>)
    requires CopiesAt(WordRefs(ws), next, refs, refs')
    ensures forall i :: 0 <= i < |ws| ==> WordCopied(ws[i], CopyWords(ws, next)[i], refs, refs')
    decreases |ws|
  {
    if |ws| > 0 {
      var n := if ws[0].RefWord? then next + 1 else next;
      CopiesAtSplit(if ws[0].RefWord? then [ws[0].ref] else [], WordRefs(ws[1..]), next, refs, refs');
      CopyWordsCorrespond(ws[1..], n, refs, refs');
      var c := CopyWords(ws, next);
      assert c[1..] == CopyWords(ws[1..], n);
      if ws[0].RefWord? {
        assert WordRefs(ws)[0] == ws[0].ref;
      }
      forall i | 1 <= i < |ws| ensures WordCopied(ws[i], c[i], refs, refs') {
        assert ws[i] == ws[1..][i - 1] && c[i] == CopyWords(ws[1..], n)[i - 1];
      }
    }
  }

  /** A copied word renders like its original. */
  lemma WordCopyRenders(orig: Word, copy: Word, refs: seq<MblRef>, refs': seq<MblRef>)
    requires WordOk(orig, refs) && WordCopied(orig, copy, refs, refs')
    ensures WordOk(copy, refs') && WordText(copy, refs') == WordText(orig, refs)
  {
    if orig.RefWord? {
      CopyRendersAlike(refs[orig.ref]);
    }
  }

  /** Argument lists whose words correspond render alike. */
  lemma ArgsCopyRender(ws: seq<Word>, cs: seq<Word>, refs: seq<MblRef>, refs': seq<MblRef>)
    requires WordsOk(ws, refs) && |cs| == |ws|
    requires forall i :: 0 <= i < |ws| ==> WordCopied(ws[i], cs[i], refs, refs')
    ensures WordsOk(cs, refs') && ArgsText(cs, refs') == ArgsText(ws, refs)
  {
    forall i | 0 <= i < |ws| ensures WordOk(cs[i], refs') && WordText(cs[i], refs') == WordText(ws[i], refs) {
      WordCopyRenders(ws[i], cs[i], refs, refs');
    }
    assert WordTexts(cs, refs') == WordTexts(ws, refs);
  }

  /** The reference ids the parameters name, in order. */
  function ParamRefs(ps: seq<Param>): (r: seq<nat>)
    ensures |r| <= |ps|
  {
    if |ps| == 0 then []
    else (if ps[0].RefParam? then [ps[0].ref] else []) + ParamRefs(ps[1..])
  }

  /**
   * ActionParamsNode::deepCopy: a parameter that is a malleable reference
   * gets a copy of it under the next fresh id; any other parameter keeps
   * its node.
   */
  function CopyParams(ps: seq<Param>, next: nat): (r: seq<Param>)
    ensures |r| == |ps|
  {
    if |ps| == 0 then []
    else [if ps[0].RefParam? then RefParam(next) else ps[0]] + CopyParams(ps[1..], if ps[0].RefParam? then next + 1 else next)
  }

  /** A reference parameter is copied to a reference parameter; any other parameter is kept as it is. */
  lemma {:induction false} CopyParamsKinds(ps: seq<Param>, next: nat)
    ensures forall i :: 0 <= i < |ps| ==>
              CopyParams(ps, next)[i].RefParam? == ps[i].RefParam? && (ps[i].NodeParam? ==> CopyParams(ps, next)[i] == ps[i])
    decreases |ps|
  {
    if |ps| > 0 {
      var n := if ps[0].RefParam? then next + 1 else next;
      var c := CopyParams(ps, next);
      CopyParamsKinds(ps[1..], n);
      forall i | 1 <= i < |ps| ensures c[i].RefParam? == ps[i].RefParam? && (ps[i].NodeParam? ==> c[i] == ps[i]) {
        assert ps[i] == ps[1..][i - 1] && c[i] == CopyParams(ps[1..], n)[i - 1];
      }
    }
  }

  /** The copy names exactly the fresh ids `next`, `next + 1`, ..., one per reference of the original. */
  lemma {:induction false} CopyParamsFresh(ps: seq<Param>, next: nat)
    ensures ParamRefs(CopyParams(ps, next)) == Ids(next, |ParamRefs(ps)|)
    decreases |ps|
  {
    if |ps| > 0 {
      var n := if ps[0].RefParam? then next + 1 else next;
      var c := CopyParams(ps, next);
      CopyParamsFresh(ps[1..], n);
      assert c[1..] == CopyParams(ps[1..], n);
      if ps[0].RefParam? { IdsCons(next, |ParamRefs(ps[1..])|); }
    }
  }

  predicate ParamCopied(orig: Param, copy: Param, refs: seq<MblRef>, refs': seq<MblRef>)
  {
    if orig.RefParam? then
      copy.RefParam? && orig.ref < |refs| && copy.ref < |refs'| && refs'[copy.ref] == CopyRef(refs[orig.ref])
    else copy == orig
  }

  lemma {:induction false} ParamRefsInRange(ps: seq<Param>, refs: seq<MblRef>)
    requires ParamsOk(ps, refs)
    ensures forall k :: 0 <= k < |ParamRefs(ps)| ==> ParamRefs(ps)[k] < |refs|
    decreases |ps|
  {
    if |ps| > 0 {
      ParamRefsInRange(ps[1..], refs);
    }
  }

  lemma {:induction false} CopyParamsCorrespond(ps: seq<Param>, next: nat, refs: seq<MblRef>, refs': seq<MblRef>)
    requires CopiesAt(ParamRefs(ps), next, refs, refs')
    ensures forall i :: 0 <= i < |ps| ==> ParamCopied(ps[i], CopyParams(ps, next)[i], refs, refs')
    decreases |ps|
  {
    if |ps| > 0 {
      var n := if ps[0].RefParam? then next + 1 else next;
      CopiesAtSplit(if ps[0].RefParam? then [ps[0].ref] else [], ParamRefs(ps[1..]), next, refs, refs');
      CopyParamsCorrespond(ps[1..], n, refs, refs');
      var c := CopyParams(ps, next);
      assert c[1..] == CopyParams(ps[1..], n);
      if ps[0].RefParam? {
        assert ParamRefs(ps)[0] == ps[0].ref;
      }
      forall i | 1 <= i < |ps| ensures ParamCopied(ps[i], c[i], refs, refs') {
        assert ps[i] == ps[1..][i - 1] && c[i] == CopyParams(ps[1..], n)[i - 1];
      }
    }
  }

  lemma ParamsCopyRender(ps: seq<Param>, cs: seq<Param>, refs: seq<MblRef>, refs': seq<MblRef>)
    requires ParamsOk(ps, refs) && |cs| == |ps|
    requires forall i :: 0 <= i < |ps| ==> ParamCopied(ps[i], cs[i], refs, refs')
    ensures ParamsOk(cs, refs') && ParamsText(cs, refs') == ParamsText(ps, refs)
  {
    forall i | 0 <= i < |ps| ensures ParamOk(cs[i], refs') && ParamText(cs[i], refs') == ParamText(ps[i], refs) {
      if ps[i].RefParam? {
        CopyRendersAlike(refs[ps[i].ref]);
      }
    }
    assert ParamTexts(cs, refs') == ParamTexts(ps, refs);
  }

  /** The copied parameter list renders like the original once the copy records are in place. */
  lemma CopyParamsRender(ps: seq<Param>, next: nat, refs: seq<MblRef>, refs': seq<MblRef>)
    requires ParamsOk(ps, refs) && CopiesAt(ParamRefs(ps), next, refs, refs')
    ensures ParamsOk(CopyParams(ps, next), refs') && ParamsText(CopyParams(ps, next), refs') == ParamsText(ps, refs)
  {
    CopyParamsCorrespond(ps, next, refs, refs');
    ParamsCopyRender(ps, CopyParams(ps, next), refs, refs');
  }

  /** The reference ids the statements' arguments name, statement by statement. */
  function StmtRefs(ss: seq<ActionStmt>): seq<nat>
  {
    if |ss| == 0 then [] else WordRefs(ss[0].args) + StmtRefs(ss[1..])
  }

  /**
   * ActionStmtsNode::deepCopy: each statement keeps its kind and shares its
   * names and index; only its argument list is copied.
   */
  function CopyStmts(ss: seq<ActionStmt>, next: nat): (r: seq<ActionStmt>)
    ensures |r| == |ss|
  {
    if |ss| == 0 then []
    else [ss[0].(args := CopyWords(ss[0].args, next))] + CopyStmts(ss[1..], next + |WordRefs(ss[0].args)|)
  }

  /** The copied statements name exactly the fresh ids, in order. */
  lemma {:induction false} CopyStmtsFresh(ss: seq<ActionStmt>, next: nat)
    ensures StmtRefs(CopyStmts(ss, next)) == Ids(next, |StmtRefs(ss)|)
    decreases |ss|
  {
    if |ss| > 0 {
      var m := |WordRefs(ss[0].args)|;
      var c := CopyStmts(ss, next);
      CopyStmtsFresh(ss[1..], next + m);
      CopyWordsFresh(ss[0].args, next);
      CopyStmtsCons(ss, next);
      assert StmtRefs(c) == WordRefs(c[0].args) + StmtRefs(c[1..]);
      IdsAppend(next, m, |StmtRefs(ss[1..])|);
    }
  }

  lemma {:induction false} StmtRefsAppend(xs: seq<ActionStmt>, ys: seq<ActionStmt>)
    ensures StmtRefs(xs + ys) == StmtRefs(xs) + StmtRefs(ys)
    decreases |xs|
  {
    if |xs| > 0 {
      StmtRefsAppend(xs[1..], ys);
      assert (xs + ys)[0] == xs[0] && (xs + ys)[1..] == xs[1..] + ys;
      assert StmtRefs(xs + ys) == WordRefs(xs[0].args) + StmtRefs(xs[1..] + ys);
      assert StmtRefs(xs) == WordRefs(xs[0].args) + StmtRefs(xs[1..]);
      var a, b, c := WordRefs(xs[0].args), StmtRefs(xs[1..]), StmtRefs(ys);
      assert a + (b + c) == (a + b) + c;
    } else {
      assert xs + ys == ys;
    }
  }

  lemma {:induction false} StmtRefsInRange(ss: seq<ActionStmt>, refs: seq<MblRef>)
    requires StmtsOk(ss, refs)
    ensures forall k :: 0 <= k < |StmtRefs(ss)| ==> StmtRefs(ss)[k] < |refs|
    decreases |ss|
  {
    if |ss| > 0 {
      WordRefsInRange(ss[0].args, refs);
      StmtRefsInRange(ss[1..], refs);
    }
  }

  lemma CopyStmtsCons(ss: seq<ActionStmt>, next: nat)
    requires |ss| > 0
    ensures CopyStmts(ss, next)[0] == ss[0].(args := CopyWords(ss[0].args, next))
    ensures CopyStmts(ss, next)[1..] == CopyStmts(ss[1..], next + |WordRefs(ss[0].args)|)
  {
  }

  lemma CopyStmtsUnfold(ss: seq<ActionStmt>, next: nat)
    requires |ss| > 0
    ensures CopyStmts(ss, next) == [ss[0].(args := CopyWords(ss[0].args, next))] + CopyStmts(ss[1..], next + |WordRefs(ss[0].args)|)
  {
  }

  /** A copied argument list renders like its original. */
  lemma ArgsCopyRenders(ws: seq<Word>, next: nat, refs: seq<MblRef>, refs': seq<MblRef>)
    requires WordsOk(ws, refs) && CopiesAt(WordRefs(ws), next, refs, refs')
    ensures WordsOk(CopyWords(ws, next), refs') && ArgsText(CopyWords(ws, next), refs') == ArgsText(ws, refs)
  {
    CopyWordsCorrespond(ws, next, refs, refs');
    ArgsCopyRender(ws, CopyWords(ws, next), refs, refs');
  }

  /** Each copied statement keeps the kind, names, index and number of arguments of its original. */
  lemma {:induction false} CopyStmtsShape(ss: seq<ActionStmt>, next: nat)
    ensures forall i :: 0 <= i < |ss| ==>
              CopyStmts(ss, next)[i] == ss[i].(args := CopyStmts(ss, next)[i].args) &&
              |CopyStmts(ss, next)[i].args| == |ss[i].args|
    decreases |ss|
  {
    if |ss| > 0 {
      var m := |WordRefs(ss[0].args)|;
      var c := CopyStmts(ss, next);
      CopyStmtsCons(ss, next);
      CopyStmtsShape(ss[1..], next + m);
      forall i | 1 <= i < |ss|
        ensures c[i] == ss[i].(args := c[i].args) && |c[i].args| == |ss[i].args|
      {
        assert ss[i] == ss[1..][i - 1] && c[i] == CopyStmts(ss[1..], next + m)[i - 1];
      }
    }
  }

  /** A statement whose argument list is replaced by one rendering alike renders alike. */
  lemma StmtArgsRender(st: ActionStmt, cs: seq<Word>, refs: seq<MblRef>, refs': seq<MblRef>)
    requires WordsOk(st.args, refs) && WordsOk(cs, refs') && ArgsText(cs, refs') == ArgsText(st.args, refs)
    ensures StmtText(st.(args := cs), refs') == StmtText(st, refs)
  {
  }

  /** The first statement of a copy renders like its original. */
  lemma CopyStmtsHead(ss: seq<ActionStmt>, next: nat, refs: seq<MblRef>, refs': seq<MblRef>)
    requires |ss| > 0 && WordsOk(ss[0].args, refs) && CopiesAt(WordRefs(ss[0].args), next, refs, refs')
    ensures var h := ss[0].(args := CopyWords(ss[0].args, next));
            WordsOk(h.args, refs') && StmtText(h, refs') == StmtText(ss[0], refs)
  {
    ArgsCopyRenders(ss[0].args, next, refs, refs');
    StmtArgsRender(ss[0], CopyWords(ss[0].args, next), refs, refs');
  }

  /** The copy records of a statement list split into those of the first statement and those of the rest. */
  lemma CopyStmtsSplit(ss: seq<ActionStmt>, next: nat, refs: seq<MblRef>, refs': seq<MblRef>)
    requires |ss| > 0 && StmtsOk(ss, refs) && CopiesAt(StmtRefs(ss), next, refs, refs')
    ensures WordsOk(ss[0].args, refs) && CopiesAt(WordRefs(ss[0].args), next, refs, refs')
    ensures StmtsOk(ss[1..], refs) && CopiesAt(StmtRefs(ss[1..]), next + |WordRefs(ss[0].args)|, refs, refs')
  {
    var ws, rest := WordRefs(ss[0].args), StmtRefs(ss[1..]);
    assert StmtRefs(ss) == ws + rest;
    CopiesAtSplit(ws, rest, next, refs, refs');
  }

  /** A statement list given by its first statement and the rest renders as the two one after the other. */
  lemma StmtsCons(h: ActionStmt, t: seq<ActionStmt>, refs: seq<MblRef>)
    ensures StmtsOk([h] + t, refs) <==> WordsOk(h.args, refs) && StmtsOk(t, refs)
    ensures StmtsOk([h] + t, refs) ==> StmtsText([h] + t, refs) == StmtText(h, refs) + StmtsText(t, refs)
  {
    assert ([h] + t)[0] == h && ([h] + t)[1..] == t;
  }

  /** A list made of a first statement and a rest that render like those of `ss` renders like `ss`. */
  lemma RendersLikeCons(ss: seq<ActionStmt>, c: seq<ActionStmt>, h: ActionStmt, t: seq<ActionStmt>, refs: seq<MblRef>, refs': seq<MblRef>)
    requires |ss| > 0 && StmtsOk(ss, refs) && WordsOk(h.args, refs') && StmtsOk(t, refs') && c == [h] + t
    requires StmtText(h, refs') == StmtText(ss[0], refs) && StmtsText(t, refs') == StmtsText(ss[1..], refs)
    ensures StmtsOk(c, refs') && StmtsText(c, refs') == StmtsText(ss, refs)
  {
    StmtsCons(h, t, refs');
  }

  /** If the copy `tail` of all statements but the first renders like them, the whole copy `cs` renders like `ss`. */
  lemma CopyStmtsStep(ss: seq<ActionStmt>, cs: seq<ActionStmt>, next: nat, tail: seq<ActionStmt>, refs: seq<MblRef>, refs': seq<MblRef>)
    requires |ss| > 0 && cs == CopyStmts(ss, next) && tail == CopyStmts(ss[1..], next + |WordRefs(ss[0].args)|)
    requires StmtsOk(ss, refs) && WordsOk(ss[0].args, refs) && CopiesAt(WordRefs(ss[0].args), next, refs, refs')
    requires StmtsOk(tail, refs') && StmtsText(tail, refs') == StmtsText(ss[1..], refs)
    ensures StmtsOk(cs, refs') && StmtsText(cs, refs') == StmtsText(ss, refs)
  {
    var h := ss[0].(args := CopyWords(ss[0].args, next));
    CopyStmtsUnfold(ss, next);
    CopyStmtsHead(ss, next, refs, refs');
    RendersLikeCons(ss, cs, h, tail, refs, refs');
  }

  /** The copy `cs` of the statements renders like its originals, once the copy records are in place. */
  lemma {:induction false} CopyStmtsRender(ss: seq<ActionStmt>, cs: seq<ActionStmt>, next: nat, refs: seq<MblRef>, refs': seq<MblRef>)
    requires cs == CopyStmts(ss, next)
    requires StmtsOk(ss, refs) && CopiesAt(StmtRefs(ss), next, refs, refs')
    ensures StmtsOk(cs, refs')
    ensures StmtsText(cs, refs') == StmtsText(ss, refs)
    decreases |ss|
  {
    if |ss| > 0 {
      var m := |WordRefs(ss[0].args)|;
      var tail := CopyStmts(ss[1..], next + m);
      assert StmtsOk(tail, refs') && StmtsText(tail, refs') == StmtsText(ss[1..], refs) by {
        CopyStmtsSplit(ss, next, refs, refs');
        CopyStmtsRender(ss[1..], tail, next + m, refs, refs');
      }
      assert WordsOk(ss[0].args, refs) && CopiesAt(WordRefs(ss[0].args), next, refs, refs') by {
        CopyStmtsSplit(ss, next, refs, refs');
      }
      CopyStmtsStep(ss, cs, next, tail, refs, refs');
    } else {
      assert cs == [];
    }
  }

  /** The reference ids an action names: its parameters', then its statements'. */
  function ActionRefs(a: Action): seq<nat>
  {
    ParamRefs(a.params) + StmtRefs(a.stmts)
  }

  /**
   * ActionNode::duplicateAction: an action with the new name and deep
   * copies of the parameter and statement lists (the parameters are copied
   * first). The copies name fresh ids `next`, `next + 1`, ... only.
   */
  function DuplicateAction(a: Action, name: string, next: nat): (d: Action)
    ensures d.name == name && |d.params| == |a.params| && |d.stmts| == |a.stmts|
  {
    Action(name, CopyParams(a.params, next), CopyStmts(a.stmts, next + |ParamRefs(a.params)|))
  }

  /** Each statement of a duplicate keeps the kind, names, index and number of arguments of its original. */
  lemma DuplicateActionShape(a: Action, name: string, next: nat)
    ensures var d := DuplicateAction(a, name, next);
            forall i :: 0 <= i < |a.stmts| ==>
              d.stmts[i] == a.stmts[i].(args := d.stmts[i].args) && |d.stmts[i].args| == |a.stmts[i].args|
  {
    CopyStmtsShape(a.stmts, next + |ParamRefs(a.params)|);
  }

  /** A duplicate names exactly the fresh ids `next`, `next + 1`, ..., one per reference of the original. */
  lemma DuplicateActionFresh(a: Action, name: string, next: nat)
    ensures ActionRefs(DuplicateAction(a, name, next)) == Ids(next, |ActionRefs(a)|)
  {
    var m := |ParamRefs(a.params)|;
    IdsAppend(next, m, |StmtRefs(a.stmts)|);
    CopyParamsFresh(a.params, next);
    CopyStmtsFresh(a.stmts, next + m);
  }

  lemma ActionRefsInRange(a: Action, refs: seq<MblRef>)
    requires ActionOk(a, refs)
    ensures forall k :: 0 <= k < |ActionRefs(a)| ==> ActionRefs(a)[k] < |refs|
  {
    ParamRefsInRange(a.params, refs);
    StmtRefsInRange(a.stmts, refs);
    var ps := ParamRefs(a.params);
    forall k | 0 <= k < |ActionRefs(a)| ensures ActionRefs(a)[k] < |refs| {
      if k >= |ps| { assert ActionRefs(a)[k] == StmtRefs(a.stmts)[k - |ps|]; }
    }
  }

  /** Appending the copy records of `ids` to the arena puts them right after the old records. */
  lemma CopiesAtEnd(ids: seq<nat>, refs: seq<MblRef>)
    requires forall k :: 0 <= k < |ids| ==> ids[k] < |refs|
    ensures CopiesAt(ids, |refs|, refs, refs + CopiedRefs(ids, refs))
  {
  }

  /** The copy records a duplicate needs, appended to the arena in id order. */
  function DuplicateRefs(a: Action, refs: seq<MblRef>): (r: seq<MblRef>)
    requires ActionOk(a, refs)
    ensures |r| == |ActionRefs(a)|
    ensures forall k :: 0 <= k < |r| ==> !r[k].inReaction
  {
    ActionRefsInRange(a, refs);
    CopiedRefs(ActionRefs(a), refs)
  }

  /** Actions with the same name whose parameter lists and statement lists render alike render alike. */
  lemma ActionTextOfParts(a: Action, b: Action, refs: seq<MblRef>, refs': seq<MblRef>)
    requires ActionOk(b, refs) && ParamsOk(a.params, refs') && StmtsOk(a.stmts, refs') && a.name == b.name
    requires ParamsText(a.params, refs') == ParamsText(b.params, refs)
    requires StmtsText(a.stmts, refs') == StmtsText(b.stmts, refs)
    ensures ActionOk(a, refs') && ActionText(a, refs') == ActionText(b, refs)
  {
  }

  /** A duplicate renders as its original under the new name wherever its copy records are in place. */
  lemma DuplicateRendersWith(a: Action, name: string, next: nat, refs: seq<MblRef>, refs': seq<MblRef>)
    requires ActionOk(a, refs) && CopiesAt(ActionRefs(a), next, refs, refs')
    ensures var d := DuplicateAction(a, name, next);
            ActionOk(d, refs') && ActionText(d, refs') == ActionText(a.(name := name), refs)
  {
    var d := DuplicateAction(a, name, next);
    CopiesAtSplit(ParamRefs(a.params), StmtRefs(a.stmts), next, refs, refs');
    assert ParamsOk(d.params, refs') && ParamsText(d.params, refs') == ParamsText(a.params, refs) by {
      CopyParamsRender(a.params, next, refs, refs');
    }
    CopyStmtsRender(a.stmts, d.stmts, next + |ParamRefs(a.params)|, refs, refs');
    ActionTextOfParts(d, a.(name := name), refs, refs');
  }

  /**
   * A duplicate, with its copy records appended to the arena, renders as the
   * original action under the new name: the same parameters and statements
   * in the same order.
   */
  lemma DuplicateActionRenders(a: Action, name: string, refs: seq<MblRef>)
    requires ActionOk(a, refs)
    ensures var refs' := refs + DuplicateRefs(a, refs);
            var d := DuplicateAction(a, name, |refs|);
            ActionOk(d, refs') && ActionText(d, refs') == ActionText(a.(name := name), refs)
  {
    ActionRefsInRange(a, refs);
    CopiesAtEnd(ActionRefs(a), refs);
    DuplicateRendersWith(a, name, |refs|, refs, refs + DuplicateRefs(a, refs));
  }
}
