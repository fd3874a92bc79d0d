# A verified model of the Mantis compiler's middle end

Mantis extends P4-14 with *malleable* values, fields and tables and with a
*reaction*: a piece of C code that the control plane runs in a loop,
reading packet state and updating the malleables. The compiler's middle end
turns such a program into plain P4 and control-plane C. This project models
that middle end and proves what it promises.

- **Declarations.** The malleable declarations are collected into three
  maps and marked removed, and table pragmas have their stage number
  incremented once.
- **Reference resolution.** Every `${name}` reference is resolved by a
  worklist:
  - a malleable value becomes a field of the ingress metadata header
    `__P4RIngMeta`;
  - a malleable field used in an action duplicates the action once per
    alternative, and rewrites every table listing it;
  - a malleable field used in a match list adds one read per alternative.
- **Isolation level.** The level is inferred from the reaction's arguments
  and body. Bit 0 asks for measurement isolation, the `mv` version bit. Bit
  1 asks for update isolation, the `vv` version bit.
- **Argument packing.** The reaction's field arguments are packed first fit,
  widest first, into 32-bit register bins. Packing may then clear the
  measurement bit.
- **Version-bit scaffolding.** The level decides the scaffolding that is
  generated:
  - the metadata fields, the init table's action and the set-args
    registers;
  - the control-plane macros that flip the version bits, mirror the
    arguments into C variables, and add, modify or delete table entries;
  - the macros that set the malleables.

The modules follow the source files:

| module | file | models |
|---|---|---|
| `Strings` | `strings.dfy` | the library operations the compiler uses: `find`, `stoi`, `to_string`, Boost `split`/`trim`, `getline` |
| `Consts` | `consts.dfy` | the names of `compile_const.h`, `REGISTER_SIZE`, the 2-bit level |
| `AstNodes` | `ast.dfy` | `AstNode`, `EmptyNode`, `NameNode`, `ListNode`, `InputNode` as classes with parent links |
| `AstP4R` | `p4r.dfy` | `MblRefNode`, field lists, `mapAltToInt`, soft-deleted declarations, the stage pragma |
| `AstP4` | `p4.dfy` | tables, reads, actions, registers, their constructors, renderings and deep copies |
| `BinPack` | `binpack.dfy` | `runBinPackForIng`: an in-place sort on an array, then a first-fit loop |
| `FindNodes` | `findnodes.dfy` | the read-only queries of `find_nodes.cpp` |
| `Isolation` | `isolation.dfy` | the two level inferences and the post-packing correction |
| `Resolution` | `resolution.dfy` | reference resolution as functions on an arena of tables, actions and reference records |
| `Program` | `program.dfy` | the node array as a class whose methods run the passes in place, each proved equal to its specification |
| `Scaffold` | `scaffold.dfy` | metadata, init actions, set-args registers and the export control |
| `Dialogue` | `dialogue.dfy` | the version-bit statics and flips, the dialogue prologue and epilogue, and register and field mirroring |
| `TableMacros` | `tablemacros.dfy` | the add, modify, delete and set-default macros of plain and malleable tables |
| `InitMacros` | `initmacros.dfy` | `generateMacroInitMbls`: the malleable variables, their setter macros, `add_vars` and `mod_vars` |

Nodes live in an arena. A reference inside a word, parameter or read is the
index of its `MblRef` record. Each record keeps the location its parent walk
finds first: an action, a table's read, the reaction or nowhere.

Generated code is kept as structured records, not as text:
- fields, parameters and assignments;
- C statements;
- macros, each with its name, its parameters and its body statements.

`std::unordered_map` iteration order is a parameter of the model: a sequence
listing each key once.

## Model

| member | source | states |
|---|---|---|
| AstNodes.AstNode.constructor | include/ast_nodes.h:31-41 | a new node is valid, has no parent and is not removed |
| AstNodes.EmptyNode.constructor | include/ast_nodes.h:43-53 | the empty node is the one invalid node, with no parent and not removed |
| AstNodes.EmptyNode.ToString | include/ast_nodes.h:43-53 | the empty node renders as the empty string |
| AstNodes.NameNode.DeepCopy | include/ast_nodes.h:63-65 | the copy is a fresh node, distinct from the original, holding an equal word |
| AstNodes.ListNode.constructor | include/ast_nodes_p4.h:22-27 | a new list node has an empty list |
| AstNodes.ListNode.PushBack | include/ast_nodes_p4.h:28-31 | the list grows by exactly the new element, at the end; the element's parent becomes the list node; earlier elements and the element's other fields are unchanged |
| AstNodes.InputNode.constructor | include/ast_nodes.h:129-134 | the expression's parent becomes the new node, and the chain of declarations is the previous chain plus this expression |
| AstNodes.InputToStringIsJoin | include/ast_nodes.h:135-142 | the rendering of a chain is its expressions, oldest first, joined by newlines |
| AstP4R.NewRef | src/ast/ast_nodes_p4r.cpp:294-297 | a new reference is neither transformed nor flagged as in the reaction |
| AstP4R.Transform | src/ast/ast_nodes_p4r.cpp:299-304 | the reference becomes transformed and records the header and field; its name and reaction flag are kept |
| AstP4R.TransformTwice | src/ast/ast_nodes_p4r.cpp:299-304 | transforming twice is the same as transforming once with the last header and field |
| AstP4R.CopyRef | src/ast/ast_nodes_p4r.cpp:306-313 | the copy keeps name, transformed flag, header and field; its reaction flag is false |
| AstP4R.RefText | src/ast/ast_nodes_p4r.cpp:315-325 | an untransformed reference renders as `${name}`; a transformed one not in the reaction renders as `header.field`; the case with no return value is excluded by a precondition |
| AstP4R.CopyRendersAlike | src/ast/ast_nodes_p4r.cpp:306-325 | a copy can always be rendered, and renders like its original |
| AstP4R.FieldsText | src/ast/ast_nodes_p4r.cpp:65-90 | one field renders as `header.field`; n fields render as their texts plus n−1 separators of two characters |
| AstP4R.MapAltToInt | src/ast/ast_nodes_p4r.cpp:125-135 | the result is in −1..n−1; it is the position of the first alternative whose text equals the input, or −1 when none does |
| AstP4R.MapAltToIntDistinct | src/ast/ast_nodes_p4r.cpp:125-135 | with pairwise different alternatives, alternative k maps to k |
| AstP4R.ValueDeclText | src/ast/ast_nodes_p4r.cpp:46-57 | a malleable value renders as the empty string exactly when it is removed |
| AstP4R.FieldDeclText | src/ast/ast_nodes_p4r.cpp:111-123 | a malleable field renders as the empty string exactly when it is removed |
| AstP4R.InitBlockText | src/ast/ast_nodes_p4r.cpp:212-224 | an init block renders as the empty string exactly when it is removed |
| AstP4R.ReactionText | src/ast/ast_nodes_p4r.cpp:246-260 | a reaction renders as the empty string exactly when it is removed |
| AstP4R.TransformPragma | src/ast/ast_nodes_p4r.cpp:145-160 | a non-empty pragma becomes transformed; an empty or already transformed pragma is left as it is |
| AstP4R.PragmaIncrements | src/ast/ast_nodes_p4r.cpp:145-160 | the new pragma splits into the old tokens, except that the last (the stage number k) becomes k+1 |
| AstP4R.PragmaOnce | src/ast/ast_nodes_p4r.cpp:145-160 | rewriting a rewritten pragma changes nothing |
| AstP4R.MalleableTableText | src/ast/ast_nodes_p4r.cpp:162-174 | the pragma line, then ` malleable ` unless removed, then the inner table |
| AstP4R.ArgText | src/ast/ast_nodes_p4r.cpp:290-292 | a field argument renders as its field and a register argument as its name |
| AstP4.MakeTable | src/ast/ast_nodes_p4.cpp:290-311 | the table keeps its parts; it starts neither malleable nor pragma-transformed; each option is trimmed and free of `;`; there are no options exactly when the text is only `; \t\n` |
| AstP4.OptionsRoundTrip | src/ast/ast_nodes_p4.cpp:302-310 | options written `o1;…;on;` come back as exactly `[o1, …, on]` when each is non-empty, trimmed and free of `;` |
| AstP4.TransformTablePragma | src/ast/ast_nodes_p4.cpp:334-349 | only the pragma and its flag change; a non-empty pragma becomes transformed; an empty or transformed one is left as it is |
| AstP4.ParseRegister | src/ast/ast_nodes_p4.cpp:105-135 | the nested getline loops compute the width and instance count of the register body |
| AstP4.ScanItem | src/ast/ast_nodes_p4.cpp:117-131 | the inner getline loop over one item's ':'-separated tokens sets the width or instance count named by a trimmed key from the next token, and fails when the value is missing or not a number |
| AstP4.RegisterBodyRoundTrip | src/ast/ast_nodes_p4.cpp:105-135 | a body `width : w; instance_count : c;` is read back as exactly w and c |
| AstP4.ItemsRoundTrip | src/ast/ast_nodes_p4.cpp:114-131 | any two items whose keys trim to `width` and `instance_count` set exactly those dimensions |
| AstP4.KeyValueScan | src/ast/ast_nodes_p4.cpp:118-129 | scanning one `key : n` item records n under that key and changes nothing else |
| AstP4.WordTexts | src/ast/ast_nodes_p4.cpp:48-66 | one rendering per word, in order |
| AstP4.ParamTexts | src/ast/ast_nodes_p4.cpp:462-464 | one rendering per parameter, in order |
| AstP4.ReadText | src/ast/ast_nodes_p4.cpp:244-253 | a read renders as `field : exact;` or `field : ternary;` by its match type |
| AstP4.ActionLines | src/ast/ast_nodes_p4.cpp:313-332 | one indented `action;` line per action entry, in order |
| AstP4.OptionLines | src/ast/ast_nodes_p4.cpp:313-332 | one `option;` line per option, in order |
| AstP4.EmptyReadsPrintNothing | src/ast/ast_nodes_p4.cpp:313-332 | an empty read list prints no `reads` block, exactly like an absent one |
| AstP4.StmtsText | src/ast/ast_nodes_p4.cpp:547-553 | an empty statement list renders as the empty string |
| AstP4.CopyWords | src/ast/ast_nodes_p4.cpp:423-431 | the copy of an argument list has as many words as the original |
| AstP4.CopyWordsKinds | src/ast/ast_nodes_p4.cpp:38-46 | each copied word has its original's kind; a word that is not a VARREF is kept as it is |
| AstP4.CopyWordsFresh | src/ast/ast_nodes_p4.cpp:38-46 | the copy names exactly the fresh reference ids next, next+1, …, one per reference of the original |
| AstP4.CopyParams | src/ast/ast_nodes_p4.cpp:470-478 | the copy of a parameter list has as many parameters as the original |
| AstP4.CopyParamsKinds | src/ast/ast_nodes_p4.cpp:453-460 | a reference parameter is copied to a reference parameter; any other parameter is kept as it is |
| AstP4.CopyParamsFresh | src/ast/ast_nodes_p4.cpp:453-460 | the copied parameters name exactly the fresh ids, one per reference of the original |
| AstP4.CopyParamsRender | src/ast/ast_nodes_p4.cpp:470-492 | with the copy records in place, the copied parameter list renders like the original |
| AstP4.CopyStmts | src/ast/ast_nodes_p4.cpp:537-545 | the copy of a statement list has as many statements as the original |
| AstP4.CopyStmtsShape | src/ast/ast_nodes_p4.cpp:507-509 | each copied statement keeps kind, names and index, and has as many arguments as the original |
| AstP4.CopyStmtsFresh | src/ast/ast_nodes_p4.cpp:537-545 | the copied statements name exactly the fresh ids, in order |
| AstP4.CopyStmtsRender | src/ast/ast_nodes_p4.cpp:507-553 | with the copy records in place, the copied statements render like the originals |
| AstP4.DuplicateAction | src/ast/ast_nodes_p4.cpp:565-569 | the duplicate has the new name, and as many parameters and statements as the original |
| AstP4.DuplicateActionShape | src/ast/ast_nodes_p4.cpp:565-569 | each statement of the duplicate keeps kind, names, index and argument count |
| AstP4.DuplicateActionFresh | src/ast/ast_nodes_p4.cpp:565-569 | the duplicate names only fresh reference ids, one per reference of the original |
| AstP4.DuplicateActionRenders | src/ast/ast_nodes_p4.cpp:565-578 | with its copy records appended, the duplicate renders as the original under the new name: same parameters and statements, same order |
| BinPack.Selected | src/compile/compile_p4.cpp:780-788 | the packer keeps only arguments of the requested direction, drawn from the input |
| BinPack.FitIndex | src/compile/compile_p4.cpp:790-804 | the index of the first bin with room, or the number of bins when none has room |
| BinPack.SortArgs | src/compile/compile_p4.cpp:766-773 | the array ends sorted by the comparator (wider first, then higher address) and is a permutation of its old contents |
| BinPack.RunBinPack | src/compile/compile_p4.cpp:763-808 | the array is sorted and permuted in place, and the bins are the first-fit packing of the sorted arguments |
| BinPack.PackBinsGood | src/compile/compile_p4.cpp:777-804 | every bin is non-empty, fits in 32 bits, and records the sum of its members' widths as its size |
| BinPack.PackConserves | src/compile/compile_p4.cpp:780-804 | the bins hold exactly the arguments of the direction, with multiplicity; there are no more bins than packed arguments |
| BinPack.PackedSomewhere | src/compile/compile_p4.cpp:780-804 | every argument of the direction ends up in some bin |
| BinPack.PackFirstFit | src/compile/compile_p4.cpp:790-804 | no earlier bin had room for the first member of a later bin |
| BinPack.PackStep | src/compile/compile_p4.cpp:790-804 | each argument joins the first bin with room, leaving the others unchanged, or opens a new bin only when no bin has room |
| Consts.Level | src/compile/compile_p4.cpp:101-109 | the level's bit 0 is the measurement flag and its bit 1 the update flag |
| Consts.LevelOfBits | src/compile/compile_p4.cpp:101-109 | a level is determined by its two bits |
| Consts.BitCount | src/compile/compile_p4.cpp:1209-1219 | the number of version bits the level asks for |
| Dialogue.XorVersionBits | src/compile/compile_c.cpp:263-281 | the static `mv` is always declared; `flip_mv` is defined iff bit 0; the static `vv` and `flip_vv` exist iff bit 1 |
| Dialogue.DialogueArgStart | src/compile/compile_c.cpp:284-300 | the helper declarations come first; `mod_vars` appears iff bit 0 |
| Dialogue.DialogueEnd | src/compile/compile_c.cpp:1253-1266 | `mod_vars` comes first; `flip_vv` appears iff ingress bit 1 |
| Dialogue.ArgStartRestoresMv | src/compile/compile_c.cpp:284-300 | under bit 0 the one `mod_vars` runs with `mv` flipped and `var_updated` set, and afterwards `mv` is restored with `var_updated` cleared; otherwise nothing changes |
| Dialogue.PushMeasured | src/compile/compile_c.cpp:292-298 | the measured prologue pushes once with `mv` flipped and `var_updated` raised, and leaves only `var_updated` lowered |
| Dialogue.DialogueEndRestoresVv | src/compile/compile_c.cpp:1253-1266 | `mod_vars` runs with the bits as they are, and the two `flip_vv` cancel |
| Dialogue.DialogueFlipsDefined | src/compile/compile_c.cpp:263-300 | the prologue and epilogue only flip a bit whose macro is defined at the same level |
| Dialogue.FindRegister | src/compile/compile_c.cpp:179-189 | the first register with the name, or none exactly when no register has it |
| Dialogue.LookupRegister | src/compile/compile_c.cpp:179-189 | the node scan finds that register |
| Dialogue.MirrorOne | src/compile/compile_c.cpp:164-249 | at most one statement, a copy of the argument's own register |
| Dialogue.MirrorAllMeaning | src/compile/compile_c.cpp:164-249 | mirroring fails iff some argument is fatal; otherwise it yields one register copy per register of the direction, with no flips |
| Dialogue.MirrorRegisterArg | src/compile/compile_c.cpp:161-261 | the mirroring loop then the trailer: `flip_mv` under bit 0, and on ingress under bit 1 `flip_vv` and `var_updated=1` |
| Dialogue.MirrorArg | src/compile/compile_c.cpp:164-249 | one turn of the mirroring loop computes the mirroring of that argument |
| Dialogue.MirrorAllErrPersists | src/compile/compile_c.cpp:164-249 | a fatal argument aborts the whole mirroring |
| Dialogue.MirrorFlips | src/compile/compile_c.cpp:161-261 | afterwards `mv` is flipped iff bit 0 and `vv` iff ingress bit 1, and every flip has its macro |
| Dialogue.TrailerRun | src/compile/compile_c.cpp:202-259 | the statements after the argument mirroring flip `mv` iff bit 0 and `vv` iff bit 1 for the ingress |
| Dialogue.Mask | src/compile/compile_c.cpp:137-141 | the mask loop writes `0b` followed by one `1` per bit of the width |
| Dialogue.MaskValue | src/compile/compile_c.cpp:137-141 | a mask of w ones has value 2^w − 1 |
| Dialogue.MemberUnpack | src/compile/compile_c.cpp:130-157 | two statements per member: a read under its mask, then a shift |
| Dialogue.UnpackBin | src/compile/compile_c.cpp:130-157 | the inner loop produces a bin's extraction, last member first |
| Dialogue.MirrorFieldArg | src/compile/compile_c.cpp:123-159 | bin by bin, the poll of the packed value, then the members in reverse order, with the shift assigning back (see Findings) |
| Dialogue.FieldMirrorRoundTrip | src/compile/compile_c.cpp:130-157 | with the shift assigning back, unpacking a bin's packed value yields every member's value, last member first |
| Dialogue.FieldMirrorAsWritten | src/compile/compile_c.cpp:152-156 | as written, every member is read from the same low bits of the packed value |
| Dialogue.FieldMirrorAsWrittenLoses | src/compile/compile_c.cpp:152-156 | two 8-bit members 1 and 2 pack to 258; the code as written reads [2, 2]; the corrected code reads [2, 1] |
| FindNodes.FirstControl | src/compile/find_nodes.cpp:43-68 | the first expression whose name names the direction's control block, or none when none does |
| FindNodes.FindControl | src/compile/find_nodes.cpp:43-68 | findIngress / findEgress return that first block |
| FindNodes.FirstEntry | src/compile/find_nodes.cpp:125-136 | the first entry equal to the name, or none when the name is absent |
| FindNodes.ActionEntriesSound | src/compile/find_nodes.cpp:121-138 | every entry found is the first entry of that name in a table listing the action |
| FindNodes.ActionEntriesOrdered | src/compile/find_nodes.cpp:121-138 | entries come in strictly increasing table order, so each table appears at most once |
| FindNodes.ActionEntriesComplete | src/compile/find_nodes.cpp:121-138 | every table listing the action has an entry |
| FindNodes.FindTableActionStmts | src/compile/find_nodes.cpp:121-138 | the loop returns those entries |
| FindNodes.FindTableReadStmt | src/compile/find_nodes.cpp:140-152 | fails exactly for a table without a read list; otherwise true iff some read is on the plain name, where `header.field` reads never match |
| FindNodes.FieldWidth | src/compile/find_nodes.cpp:254-270 | a width found is the declared width of that field in that header |
| FindNodes.MblWidth | src/compile/find_nodes.cpp:271-289 | a width found is a malleable value's declared width, else a malleable field's |
| FindNodes.ArgSizesExact | src/compile/find_nodes.cpp:247-295 | unless it fails, one pair per non-register argument, in input order, each with its declared width |
| FindNodes.NonRegister | src/compile/find_nodes.cpp:252-253 | no register argument is kept |
| FindNodes.FindAllReactionArgSizes | src/compile/find_nodes.cpp:247-295 | the loop computes that list |
| FindNodes.ErrPersists | src/compile/find_nodes.cpp:247-295 | a failing argument fails the whole call, with its message |
| FindNodes.Blackboxes | src/compile/find_nodes.cpp:70-81 | every blackbox found is an expression of the program whose keyword mentions `blackbox` |
| FindNodes.ScanPieces | src/compile/find_nodes.cpp:342-357 | the inner getline loop computes the register name of one item |
| FindNodes.ScanRegName | src/compile/find_nodes.cpp:336-358 | the nested loops compute a blackbox body's register name |
| FindNodes.FindProgName | src/compile/find_nodes.cpp:332-362 | the loop computes the program name of the register |
| FindNodes.ProgFromFirst | src/compile/find_nodes.cpp:332-362 | it is the name of the first blackbox whose register is the argument |
| FindNodes.ProgFromNone | src/compile/find_nodes.cpp:332-362 | with no such blackbox it is the last blackbox's name |
| FindNodes.TableOf | src/compile/find_nodes.cpp:381-396 | the first table listing the action, or none when no table lists it |
| FindNodes.RegargInIng | src/compile/find_nodes.cpp:325-416 | false for a non-register argument; for a register, a missing ingress or egress control block is fatal |
| FindNodes.FindRegargInIng | src/compile/find_nodes.cpp:325-416 | the three searches compute that answer |
| FindNodes.ActionRunsProg | src/compile/find_nodes.cpp:366-378 | the statement loop tells whether the action executes the program |
| FindNodes.FindRegargWidth | src/compile/find_nodes.cpp:418-426 | the width of the first register with the argument's name; fails exactly when no register has it |
| Isolation.Collect | src/compile/compile_p4.cpp:50-61 | the answers are taken in order, one flag per answer |
| Isolation.CollectExact | src/compile/compile_p4.cpp:50-61 | collecting succeeds iff every answer does, and then each flag is its answer |
| Isolation.InIngressExact | src/compile/compile_p4.cpp:50-61 | the flags exist iff findRegargInIng succeeds on every argument, and each flag is its answer |
| Isolation.NumArgsPositive | src/compile/compile_p4.cpp:50-64 | the count is positive iff some argument counts |
| Isolation.NumArgsAboveOne | src/compile/compile_p4.cpp:50-64 | the count exceeds one iff two different arguments count |
| Isolation.FindMblOperation | src/compile/compile_p4.cpp:86-97 | true iff the reaction names `<t>_mod`, `<t>_add` or `<t>_del` for some malleable table t |
| Isolation.LevelsMeaning | src/compile/compile_p4.cpp:40-150 | ingress bit 0 iff two ingress arguments count; bit 1 iff a table operation is named; the egress level is 0 or 1, with bit 0 iff two egress arguments count |
| Isolation.CountArgs | src/compile/compile_p4.cpp:50-64 | the counting loop fails iff locating an argument fails, and otherwise yields the count |
| Isolation.InferIngIsolation | src/compile/compile_p4.cpp:40-114 | fails iff locating a register argument fails; otherwise the ingress level |
| Isolation.InferEgrIsolation | src/compile/compile_p4.cpp:116-150 | fails iff locating a register argument fails; otherwise the egress level |
| Isolation.Corrected | src/compile/compile_p4.cpp:1032-1050 | bit 1 is kept; bit 0 survives iff it was set and there are several bins or an ingress register argument |
| Isolation.DigestPacking | src/compile/compile_p4.cpp:1011-1107 | no arguments leave the level alone with no bins; otherwise it succeeds whenever the sizes are found, every argument fits one register and the ingress lookup works, and fails only when one of these does not; the bins are a first-fit packing of the argument sizes, and with at most one bin the level is corrected |
| Isolation.AllFit | src/compile/compile_p4.cpp:775-776 | succeeds exactly when every argument is at most one register wide |
| Isolation.FindIngRegarg | src/compile/compile_p4.cpp:1034-1042 | fails iff locating fails; otherwise true iff some register argument is in ingress |
| Isolation.EgressCorrectionIgnoresEgressRegisters | src/compile/compile_p4.cpp:1081-1099 | the egress correction consults the ingress test, so with egress-only register arguments and at most one bin the egress level becomes 0 |
| Resolution.Retarget | src/compile/find_nodes.cpp:160-173 | retargeting keeps the number of records |
| Resolution.RetargetNames | src/compile/find_nodes.cpp:160-173 | retargeting keeps every name and never un-transforms a reference |
| Resolution.PendingExact | src/compile/find_nodes.cpp:167-171 | exactly the untransformed references of other names are queued |
| Resolution.InActionStep | src/compile/find_nodes.cpp:154-174 | only reference records change, and the arena stays valid |
| Resolution.AltNames | src/compile/compile_p4.cpp:279-288 | one name `__header__field__act` per alternative, in order |
| Resolution.AddCopy | src/compile/compile_p4.cpp:290-313 | one more action, a duplicate of the action under the alternative's name, plus its copied records |
| Resolution.AddCopies | src/compile/compile_p4.cpp:290-313 | the actions grow by one per alternative, and the old actions are kept |
| Resolution.DuplicateArena | src/compile/compile_p4.cpp:277-315 | no alternatives change nothing; otherwise N−1 actions are added |
| Resolution.DuplicateArenaNames | src/compile/compile_p4.cpp:277-315 | the action takes the first alternative's name; the duplicates follow in order, named for the other alternatives; other actions are unchanged |
| Resolution.AltTable | src/compile/compile_p4.cpp:317-345 | fails exactly for a table without a read list; the table keeps its name and does not shrink |
| Resolution.AltTableMeaning | src/compile/compile_p4.cpp:317-345 | the entry takes the first name and the other names are appended; other entries stay; the reads are kept, with the selector present and added at most once |
| Resolution.AltTables | src/compile/compile_p4.cpp:317-345 | every table listing the action is rewritten, and reads are never lost |
| Resolution.AltTablesFails | src/compile/compile_p4.cpp:317-345 | the table side fails iff a visited table has no read list |
| Resolution.DuplicateAll | src/compile/compile_p4.cpp:265-346 | a successful duplication leaves a valid arena |
| Resolution.DuplicateAllFails | src/compile/compile_p4.cpp:265-346 | duplication fails iff some table listing the action has no read list |
| Resolution.Promoted | src/compile/compile_p4.cpp:247-250 | a read holding the reference is never left exact |
| Resolution.AltReads | src/compile/compile_p4.cpp:251-260 | one read per further alternative, all with the given match type |
| Resolution.WithRefRead | src/compile/compile_p4.cpp:225-263 | only tables and records change, and the arena stays valid |
| Resolution.WithRefReadRefs | src/compile/compile_p4.cpp:243-250 | the reference stands for the first alternative; no other record or table changes |
| Resolution.WithRefReadReads | src/compile/compile_p4.cpp:232-262 | the selector read is present; old reads stay in place, the reference's read promoted to ternary; each further alternative adds a read of that type at the end |
| Resolution.FieldRefStep | src/compile/compile_p4.cpp:348-371 | fails iff the reference has no enclosing node, or its action's duplication fails |
| Resolution.WorkStep | src/compile/compile_p4.cpp:378-415 | one turn keeps the arena valid |
| Resolution.WorkStepMeaning | src/compile/compile_p4.cpp:378-415 | a transformed reference is only popped; a value reference outside the reaction becomes `__P4RIngMeta.<name>`; inside the reaction it is only flagged; an unknown name is popped and left |
| Resolution.WorkStepExtends | src/compile/compile_p4.cpp:378-415 | a turn keeps every name, never un-transforms, and only adds records, actions and reads |
| Resolution.Run | src/compile/compile_p4.cpp:373-416 | an empty worklist is a fixed point |
| Resolution.RunExtends | src/compile/compile_p4.cpp:373-416 | the whole loop keeps names and transformations |
| Program.FirstWinsMeaning | src/compile/find_nodes.cpp:89-107 | a map filled by `emplace` has exactly the entries' keys, each mapped to the first entry with that key |
| Program.PragmaStepLocal | src/compile/compile_p4.cpp:25-38 | a step changes only its own node |
| Program.PragmaPassLocal | src/compile/compile_p4.cpp:25-38 | the pass leaves unvisited nodes unchanged |
| Program.StepSettles | src/compile/compile_p4.cpp:25-38 | a step settles its node and unsettles none |
| Program.PassSettles | src/compile/compile_p4.cpp:25-38 | after the pass every visited node is settled |
| Program.SettledPass | src/compile/compile_p4.cpp:25-38 | a pass over settled nodes changes nothing |
| Program.PragmaPassIdempotent | src/compile/compile_p4.cpp:25-38 | running the pass on its own result changes nothing: each stage number is incremented at most once |
| Program.PragmaErrPersists | src/compile/compile_p4.cpp:25-38 | a failing node fails the pass with that node's error |
| Program.WithVvReads | src/compile/compile_p4.cpp:418-428 | the number of tables is kept |
| Program.WithVvReadsMeaning | src/compile/compile_p4.cpp:418-428 | under bit 1 each malleable table keeps its reads and gains exactly one exact `__P4RIngMeta.__vv` read at the end; otherwise nothing changes |
| Program.Program.constructor | src/compile/find_nodes.cpp:83-88 | the node array starts with nothing removed and an empty worklist |
| Program.Program.FindAndRemoveMalleables | src/compile/find_nodes.cpp:83-109 | the maps are filled in node order, first declaration winning; malleable declarations and the init block are marked removed; inner tables are flagged malleable |
| Program.Program.Visit | src/compile/find_nodes.cpp:89-107 | one turn of that loop extends the maps and marks by one node |
| Program.Program.TransformPragmas | src/compile/compile_p4.cpp:25-38 | the node array becomes the pass's result, and fails exactly when the pass does |
| Program.Program.RewritePragmas | src/compile/compile_p4.cpp:25-38 | the node loop yields the pass's result and stops at the first failure |
| Program.Program.RewritePragma | src/compile/compile_p4.cpp:27-36 | one node rewritten as the step says |
| Program.PragmaPassReads | src/compile/compile_p4.cpp:25-38 | the pass rewrites pragmas only: every table keeps its reads |
| Program.Program.TransformMalleableTables | src/compile/compile_p4.cpp:418-428 | the tables become WithVvReads; fails exactly under bit 1 when a malleable table has no read list |
| Program.Program.AddVvReads | src/compile/compile_p4.cpp:420-426 | succeeds exactly when every target table has a read list, and then the tables become WithVvReads, nothing else changing |
| Program.Program.TransformMblRefsInAction | src/compile/find_nodes.cpp:154-174 | the arena becomes InActionStep |
| Program.Program.RetargetWords | src/compile/find_nodes.cpp:164-172 | the inner loop retargets and queues one statement's arguments |
| Program.Program.RetargetWord | src/compile/find_nodes.cpp:166-171 | one argument retargeted or queued |
| Program.Program.TransformTableWithRefRead | src/compile/compile_p4.cpp:225-263 | the arena becomes WithRefRead |
| Program.Program.ReadAlts | src/compile/compile_p4.cpp:243-262 | the loop over every alternative: the first retargets the reference and widens an exact read to ternary, each further one appends a read of its field with that match type |
| Program.Program.ReadAlt | src/compile/compile_p4.cpp:243-262 | one alternative of the read loop |
| Program.Program.AddDuplicate | src/compile/compile_p4.cpp:290-313 | the arena becomes AddCopy |
| Program.Program.DuplicateStep | src/compile/compile_p4.cpp:277-315 | one alternative of the action side |
| Program.Program.RewriteEntry | src/compile/compile_p4.cpp:317-345 | one table rewritten as AltTable says |
| Program.Program.DuplicateActions | src/compile/compile_p4.cpp:265-346 | the arena becomes DuplicateAll, and fails exactly when it does |
| Program.Program.DuplicateAlts | src/compile/compile_p4.cpp:277-315 | the action loop turns the arena into DuplicateArena and returns the alternative names in order, leaving the declarations and removals unchanged |
| Program.Program.RewriteTables | src/compile/compile_p4.cpp:317-345 | the tables become AltTables |
| Program.Program.TransformMalleableFieldRef | src/compile/compile_p4.cpp:348-371 | the arena becomes FieldRefStep, and fails exactly when it does |
| Program.Program.ResolveNext | src/compile/compile_p4.cpp:378-415 | the arena becomes WorkStep |
| Program.Program.TransformMalleableRefs | src/compile/compile_p4.cpp:373-416 | the arena becomes Run; the result says whether the worklist emptied |
| Program.Program.FindMalleableRefs | src/compile/find_nodes.cpp:111-119 | every reference joins the worklist, in order |
| Scaffold.OrderLength | src/compile/compile_p4.cpp:1128-1144 | an iteration over a map visits as many entries as the map holds |
| Scaffold.IndexWidth | src/compile/compile_p4.cpp:1138-1141 | at least one bit; the least width that can number every alternative, when there are two or more |
| Scaffold.VersionFields | src/compile/compile_p4.cpp:1120-1125 | `__mv` iff bit 0 and `__vv` iff bit 1, each one bit wide |
| Scaffold.ValueFields | src/compile/compile_p4.cpp:1128-1134 | one field per malleable value, in iteration order |
| Scaffold.IndexFields | src/compile/compile_p4.cpp:1135-1144 | one `<name>__alt` field per malleable field, in iteration order |
| Scaffold.CollectValueFields | src/compile/compile_p4.cpp:1128-1134 | the loop computes those fields |
| Scaffold.CollectIndexFields | src/compile/compile_p4.cpp:1135-1144 | the loop computes those fields |
| Scaffold.GenerateMetadata | src/compile/compile_p4.cpp:1110-1170 | ingress holds the version, value and index fields, |values|+|fields|+popcount(level) in all; egress holds `__mv` iff egress bit 0 |
| Scaffold.VersionParams | src/compile/compile_p4.cpp:1207-1220 | `__mv` iff bit 0 and `__vv` iff bit 1 |
| Scaffold.VersionAssigns | src/compile/compile_p4.cpp:1237-1246 | each version bit is copied from its parameter |
| Scaffold.SetterParams | src/compile/compile_p4.cpp:1186-1205 | one `p__<name>` parameter per malleable, in order |
| Scaffold.Setters | src/compile/compile_p4.cpp:1225-1235 | one assignment from its parameter per malleable, in order |
| Scaffold.CollectParams | src/compile/compile_p4.cpp:1186-1205 | the loop computes those parameters |
| Scaffold.CollectSetters | src/compile/compile_p4.cpp:1225-1235 | the loop computes those assignments |
| Scaffold.VersionBits | src/compile/compile_p4.cpp:1207-1246 | the version parameters, their assignments, and the popcount of the level |
| Scaffold.GenerateIngInitTable | src/compile/compile_p4.cpp:1173-1264 | returns |values|+|fields|+popcount(level), which is the parameter count |
| Scaffold.InitAssignsUseParams | src/compile/compile_p4.cpp:1186-1246 | the i-th assignment copies the i-th parameter, and the counts agree |
| Scaffold.EgrInitAction | src/compile/compile_p4.cpp:1266-1301 | the egress action takes and sets `__mv` iff egress bit 0, and is empty otherwise |
| Scaffold.VersionIndex | src/compile/compile_p4.cpp:837-841 | the stateful ALU reads at the `__mv` bit under bit 0, else at cell 0 |
| Scaffold.GenerateArgRegisters | src/compile/compile_p4.cpp:810-862 | one set-args unit per bin, in bin order |
| Scaffold.SetArgsRegistersFit | src/compile/compile_p4.cpp:810-862 | each register is as wide as its bin, at most 32 bits, with two cells |
| Scaffold.SetArgsTablesDistinct | src/compile/compile_p4.cpp:810-862 | different bins have different table names |
| Scaffold.GenerateExportControl | src/compile/compile_p4.cpp:430-456 | each direction applies, bin by bin, the packing table then the set-args table |
| Scaffold.ExportAppliesEveryUnit | src/compile/compile_p4.cpp:430-456 | the control applies each generated set-args table once, and no table twice |
| TableMacros.MatchesNumbered | src/compile/compile_c.cpp:367-449 | one consecutive number from 0 per read taking a user argument; ternary reads add a mask; no parameter is named twice |
| TableMacros.MatchesMasks | src/compile/compile_c.cpp:325-333 | a mask parameter appears iff some read is ternary |
| TableMacros.MatchArgs | src/compile/compile_c.cpp:367-449 | the read loop computes those parameters and statements |
| TableMacros.FindTernary | src/compile/compile_c.cpp:325-333 | true iff some read is ternary |
| TableMacros.LookupParams | src/compile/compile_c.cpp:459-480 | the parameters of the first action with the name |
| TableMacros.ActionArgs | src/compile/compile_c.cpp:459-498 | one parameter and one statement per action parameter |
| TableMacros.ActionArgsNumbered | src/compile/compile_c.cpp:459-498 | with the index advancing, parameter k is ARG_ACTION_k |
| TableMacros.ActionArgsRepeated | src/compile/compile_c.cpp:518-539 | as written, every parameter is ARG_ACTION_0 |
| TableMacros.CollectActionArgs | src/compile/compile_c.cpp:459-480 | the parameter loop computes that part |
| TableMacros.EntryMacros | src/compile/compile_c.cpp:363-565 | two macros, add and modify, per action |
| TableMacros.MacrosOf | src/compile/compile_c.cpp:315-647 | 1 + 2·|actions| macros for a table with reads, |actions| without |
| TableMacros.AddMacroWellFormed | src/compile/compile_c.cpp:363-498 | corrected, the add macro is well formed (parameters distinct, none empty, each used by the body and nothing else used); ARG_PRIO iff some read is ternary |
| TableMacros.AddMacroAsWrittenAgrees | src/compile/compile_c.cpp:363-447 | when some read takes a user argument, the header as written is the corrected one |
| TableMacros.AddMacroAsWrittenEmpty | src/compile/compile_c.cpp:363-367 | as written, with no read taking a user argument, the parameter after ARG_INDEX is empty and the macro is not well formed |
| TableMacros.ModMacroWellFormed | src/compile/compile_c.cpp:499-565 | corrected, the modify macro is well formed: ARG_INDEX then ARG_ACTION_k for parameter k |
| TableMacros.ModMacroAsWrittenRepeats | src/compile/compile_c.cpp:518-539 | as written, an action with two or more parameters names ARG_ACTION_0 twice |
| TableMacros.DefaultMacroWellFormed | src/compile/compile_c.cpp:567-647 | the set-default macro is well formed |
| TableMacros.MacrosOfWellFormed | src/compile/compile_c.cpp:315-647 | every macro of a table is well formed and carries the table's name |
| TableMacros.NonMblMacrosPlain | src/compile/compile_c.cpp:304-651 | every plain-table macro is well formed and belongs to a non-malleable table |
| TableMacros.MblMacrosWellFormed | src/compile/compile_c.cpp:654-1017 | every malleable-table macro is well formed and belongs to one of the tables |
| TableMacros.EntryLoop | src/compile/compile_c.cpp:357-565 | the action loop computes the entry macros |
| TableMacros.BuildAdd | src/compile/compile_c.cpp:363-498 | builds the add macro |
| TableMacros.BuildMod | src/compile/compile_c.cpp:499-565 | builds the modify macro with the index advancing |
| TableMacros.DefaultLoop | src/compile/compile_c.cpp:567-647 | the loop computes the set-default macros |
| TableMacros.TableMacrosFor | src/compile/compile_c.cpp:315-647 | computes one table's macros |
| TableMacros.GenerateMacroNonMblTable | src/compile/compile_c.cpp:304-651 | the macros of the non-malleable tables, table by table |
| TableMacros.GenerateMacroMblTable | src/compile/compile_c.cpp:654-1017 | the macros of the malleable tables, table by table |
| InitMacros.DeclSets | src/compile/compile_c.cpp:1096-1186 | one spec statement per declaration, in order |
| InitMacros.VersionSetsBits | src/compile/compile_c.cpp:1060-1091 | as written, `mv` is set iff bit 0 and `vv` only without bit 0; corrected, each bit of the level is set |
| InitMacros.DeclInits | src/compile/compile_c.cpp:1117-1180 | two prologue lines per declaration |
| InitMacros.DeclMirrors | src/compile/compile_c.cpp:1121-1172 | one static variable per declaration |
| InitMacros.AltSetters | src/compile/compile_c.cpp:1187-1203 | one macro per alternative, setting its mapAltToInt index |
| InitMacros.EmitAltSetters | src/compile/compile_c.cpp:1187-1203 | the alternatives loop computes those macros |
| InitMacros.EmitDecl | src/compile/compile_c.cpp:1096-1204 | the work of one declaration |
| InitMacros.VersionStatements | src/compile/compile_c.cpp:1060-1091 | every version bit of the level is filled (corrected) |
| InitMacros.EmitDecls | src/compile/compile_c.cpp:1093-1205 | the declaration loop computes the four outputs |
| InitMacros.GenerateMacroInitMbls | src/compile/compile_c.cpp:1020-1251 | the prologue, dialogue declarations, `add_vars` (equal to `mod_vars`) and setter macros, with three defects corrected |
| InitMacros.DeclParamsAreSetterParams | src/compile/compile_c.cpp:1096-1186 | the declaration parameters are exactly the init action's malleable parameters |
| InitMacros.VersionSetsParams | src/compile/compile_p4.cpp:1207-1220 | corrected, the version statements fill exactly the version parameters |
| InitMacros.AddVarsSetsInitParams | src/compile/compile_c.cpp:1020-1251 | corrected, `add_vars` fills exactly the init action's parameters: values, indexes, version bits |
| InitMacros.AsWrittenOmitsVv | src/compile/compile_c.cpp:1060-1091 | as written, at level 3 the `__vv` parameter is never filled |
| InitMacros.AsWrittenMisnamesIndex | src/compile/compile_c.cpp:1150-1168 | as written, field f fills `p__f` rather than `p__f__alt` |
| InitMacros.SetterTargets | src/compile/compile_c.cpp:1096-1203 | each setter macro writes its declaration's variable |
| InitMacros.SettersFeedAddVars | src/compile/compile_c.cpp:1187-1203 | corrected, every setter writes a variable that `add_vars` reads |
| InitMacros.AsWrittenAltTargetUnread | src/compile/compile_c.cpp:1187-1203 | as written, alternative macros write `mantis_<var>`, which `add_vars` never reads |
| InitMacros.VersionReadsDeclared | src/compile/compile_c.cpp:1060-1091 | corrected, `add_vars` reads `vv` iff the static `vv` is declared |
| InitMacros.InitSpecDeclared | src/compile/compile_c.cpp:1036-1058 | with the count of the init table, the spec is declared and passed iff some parameter is filled |
| InitMacros.AltSettersIndexed | src/compile/compile_c.cpp:1187-1203 | with pairwise different alternatives, the k-th macro sets k |
| InitMacros.InitCallSelectsInit | src/compile/compile_c.cpp:1171-1180 | the prologue's init call names exactly the macro of the init alternative |
| Strings.ContainsIff | src/compile/find_nodes.cpp:35-41 | the containment test holds iff `find` returns a position, i.e. the text occurs somewhere |
| Strings.SplitJoin | src/ast/ast_nodes_p4r.cpp:147-148 | joining the pieces of a split with the separator gives back the text |
| Strings.JoinSplit | src/ast/ast_nodes_p4r.cpp:147-156 | splitting a join gives back the pieces when none holds a separator |
| Strings.TrimIdempotent | src/ast/ast_nodes_p4.cpp:302-310 | trimming a trimmed text changes nothing |
| Strings.StoiIntToString | src/ast/ast_nodes_p4.cpp:334-349 | `std::stoi` reads back what `std::to_string` writes |
| Strings.CeilLog2 | src/compile/compile_p4.cpp:1138-1141 | the least k with 2^k ≥ n |

## Left out

- `typeContains` (src/compile/find_nodes.cpp:27-33): node kinds are datatype constructors, so each query selects nodes by kind; the substring test on mangled type names is not modelled.
- Resolution.Run, Program.Program.TransformMalleableRefs: the worklist loop runs for at most `fuel` turns, because duplication re-queues copied references and termination has no simple measure; the result reports whether the worklist emptied.
- `std::unordered_map` iteration order is a parameter (`IterationOrder`), not the library's hash order.
- Output streams, `boost::format` templates, `prefix_str`, `kErrorCheckStr`, `kMantisNl`, indentation and other exact text: generated code is structured records.
- `extractReactionMacro`, `generateDialogueNode`, `generatePrologueNode` and `generateMacroNode`: file and regex handling of the reaction text.
- `generatePackingTablesForIng`, `generateRegArgGateControl`, `generateDupRegArgProg`, `augmentRegisterArgProgForIng`, `augmentIngress`/`augmentEgress` and `generateSetvarControl` are not part of this model. Dialogue.Packed states the packing the field unpacking assumes: first member in the most significant bits.
- The driver `src/compile/compile.cpp` calls `inferIsoOptForIng`, `generateInitTableForIng` and a 4-argument `generateMacroXorVersionBits`, which differ from the functions in `compile_p4.cpp`/`compile_c.cpp`; the model follows the latter and does not model the driver.
- Floating-point `ceil(log2(n))` is replaced by the integer Strings.CeilLog2.
- Scaffold.IndexWidth, Scaffold.GenerateMetadata: a malleable field with no alternatives (`log2(0)`) is excluded by `HasAlts`.
- PANIC, a failed `assert`, a null dereference and an uncaught `std::stoi` exception all become `Err`; the state after an `Err` is not specified.
- AstP4R.TransformPragma: the increment `stage_num ++` of a stage number equal to INT_MAX is signed overflow, undefined behaviour in C++; the model reports it as `Err` instead of guessing a wrapped value.
- FindNodes.RegargInIng: stated only for non-register arguments and missing control blocks. For a register, the answer follows the blackbox/action/table search, as FindRegargInIng computes it.
- Dialogue.MirrorRegisterArg: `findRegargInIng`'s answer enters as the argument's `inIng` field, and `std::stoi` of the second index as `index2`.
- AstP4R.RefText: a transformed reference flagged `inReaction` has no rendering, since the C++ function returns no value there; it is excluded by `Renderable`.
- Program.Program.DuplicateActions: the duplicates are appended to the action list. Their insertion into the `InputNode` chain next to the original is not modelled.
- `ListNode<T>` holds node headers only; the element type parameter is not modelled.
- Dialogue.MirrorFieldArg, TableMacros.GenerateMacroNonMblTable, TableMacros.GenerateMacroMblTable, InitMacros.GenerateMacroInitMbls: these emit the corrected code from Findings. Each defect is modelled as written beside the correction.
- A malleable value named `vv` or `mv` would collide with `__mantis__vv`/`__mantis__mv`; the model does not exclude such names.

## Findings

| source | as written | input that shows it | evidently intended | confidence | as-written member | corrected member |
|---|---|---|---|---|---|---|
| src/compile/compile_c.cpp:152-156 | the shift `__mantis__values_i[1]>>w;` discards its result | one bin, two 8-bit members with values 1 and 2, packed to 258: the code reads 2 for both | `>>=`, so each member is read from its own bits | high, not executed | Dialogue.FieldMirrorAsWrittenLoses | Dialogue.FieldMirrorRoundTrip |
| src/compile/compile_c.cpp:363-367 | the add macro's header is opened as `(ARG_INDEX,` before any match argument (the same at :711) | a table with no reads, or a malleable table whose only read is the added `__vv`: the header is `<t>_add_<a>(ARG_INDEX,)` (or `(ARG_INDEX,,ARG_ACTION_0...)`), an empty parameter the C preprocessor refuses | the comma written before each argument, as for the later ones | medium, not executed | TableMacros.AddMacroAsWrittenEmpty | TableMacros.AddMacroWellFormed |
| src/compile/compile_c.cpp:518-539 | the modify macro's `action_arg_index` never advances (the same at :887-908) | any action with two or more parameters: the macro names ARG_ACTION_0 twice | ARG_ACTION_k for parameter k, as the add macro does | high, not executed | TableMacros.ModMacroAsWrittenRepeats | TableMacros.ModMacroWellFormed |
| src/compile/compile_c.cpp:1060-1091 | `action___vv` is set only in an `else if` after `action___mv` | isolation level 3: the init action declares `__mv` and `__vv` (src/compile/compile_p4.cpp:1217-1219), but only `__mv` is filled | both bits filled under level 3 | medium, not executed | InitMacros.AsWrittenOmitsVv | InitMacros.AddVarsSetsInitParams |
| src/compile/compile_c.cpp:1150-1168 | a malleable field's spec field is `action_p__<f>` | a malleable field `f`: the init action's parameter is `p__f__alt` (src/compile/compile_p4.cpp:1203) | `action_p__<f>__alt` | medium, not executed | InitMacros.AsWrittenMisnamesIndex | InitMacros.AddVarsSetsInitParams |
| src/compile/compile_c.cpp:1187-1203 | an alternative's macro assigns `mantis_<var>` | any malleable field: `mantis_<var>` is never declared, and `add_vars` reads `__mantis__<var>` | assign `__mantis__<var>` | medium, not executed | InitMacros.AsWrittenAltTargetUnread | InitMacros.SettersFeedAddVars |
