# design-patterns-cxx core, modelled in Dafny

This project models the core of the C++ header library `design-patterns-cxx`:

- **The red-black tree** `dp::tree::rb_tree` with `int` keys, and its `tree_ops` helpers. This covers height, count, the four depth-first traversals and the level-order traversal. It also covers insertion with its colour repair (`insert_rbt`, `insert_rbt_fixup`), deletion with its repair (`delete_rbt`, `delete_rbt_fixup`) and the two rotations.
- **The two chain-of-responsibility dispatchers:**
  - `dp::resp_chain::message_chain_t`, with its `sender_t`;
  - `dp::msg_disp::message_bumper_t`, over `message_bumper_base_t`.
- **The helpers in `dp-util.hh`, `dp-debug.hh` and `dp-def.hh`:**
  - `id_name`, `__enum_id_gen` and `factory::create`;
  - `type_name` and `short_type_name`;
  - the enum printer generated by `AWESOME_MAKE_ENUM`, `hash_combine`, and `cross::max`/`min`.
- **The memento, command-history and flyweight classes** that the tests define: `memento_t`, `originator_t`, `history_t`, `editors_holder` and the two `flyweight_factory` classes.

## How the tree is modelled

- **Nodes are values.** A node pointer is the subtree it roots (`TreeOps.Tree`), and `Nil` stands for `nullptr`.
- **The parent links become a zipper.** The engine walks up through `parent`. Here its position is a focus subtree plus the path of its ancestors, nearest first (`RbZipper.Frame`). `RbZipper.Plug` rebuilds the whole tree from the focus and the path.
- **The engine is imperative.** `insert_rbt`, `insert_rbt_fixup`, `delete_rbt` and `delete_rbt_fixup` are methods with the source's loops. They keep the source's case split: cases 1–3 of insertion and cases 1–4 of deletion, on both sides. Each case is one lemma that carries the loop invariant from one iteration to the next.
- **The class holds the root.** `RedBlackTree.RbTree` keeps `_root` as a field, and `insert`, `emplace`, `erase` and `clear` reassign it.
- **The contracts are tied to a reference.** They relate the in-order key sequence to `RbSpec.SortedInsert` and `RbSpec.Remove`, and they keep `RbSpec.IsRB`: ascending keys, a black root, no red-red edge and equal black heights. The logarithmic height bound is proved from that.

Pointer identity matters in one place: the rotations do not re-parent the inner subtree that they move. That is modelled separately, on heap nodes (`RbLinks`).

The engine models the repair loops with two corrections, both listed under "## Findings":

- its parent links are always consistent;
- delete-fixup's left case 1 rotates at the parent.

## How the dispatchers are modelled

A receiver is a function from the sender and the message to an optional answer. `Dispatch.Outcome` and `Dispatch.Reached` say what one `send` means:

- the receivers are consulted in order;
- the first empty answer stops the chain;
- the last answer consulted is the result.

Both dispatcher classes are proved to compute exactly that.

## Model

| member | source | states |
|---|---|---|
| TreeOps.LevelOrder | include/design_patterns_cxx/dp-tree.hh:93-96 | level order visits levels 1 to the height in turn, and so every node exactly once (same multiset as in-order) |
| TreeOps.CountIsInOrderLength | include/design_patterns_cxx/dp-tree.hh:46-53 | `calc_count` equals the number of nodes a traversal visits |
| TreeOps.HeightCountBounds | include/design_patterns_cxx/dp-tree.hh:37-53 | height h and count n of any tree satisfy h <= n < 2^h |
| TreeOps.TraversalsSameNodes | include/design_patterns_cxx/dp-tree.hh:57-91 | pre-, in- and post-order visit the same nodes, each once |
| TreeOps.InOrderRevIsReverse | include/design_patterns_cxx/dp-tree.hh:66-73 | the intended reverse in-order traversal is the in-order sequence backwards |
| TreeOps.InOrderRevAsWrittenDiffers | include/design_patterns_cxx/dp-tree.hh:66-73 | as written, the reverse traversal of 3(2(1)) yields 3, 1, 2, not 3, 2, 1 |
| TreeOps.LevelBeyondHeightEmpty | include/design_patterns_cxx/dp-tree.hh:99-108 | `traverse_current_level` below the height visits nothing |
| TreeOps.LevelWithinHeightNonEmpty | include/design_patterns_cxx/dp-tree.hh:99-108 | every level from 1 to the height holds at least one node |
| TreeOps.LevelsCoverTree | include/design_patterns_cxx/dp-tree.hh:93-108 | levels 1..n, for any n at least the height, visit every node exactly once |
| TreeOps.LevelsSaturate | include/design_patterns_cxx/dp-tree.hh:93-108 | levels past the height add nothing to the visit |
| RbSpec.Blacken | include/design_patterns_cxx/dp-tree.hh:304 | blackening a possibly null root makes it black and keeps its keys |
| RbSpec.BlackenFacts | include/design_patterns_cxx/dp-tree.hh:521-523 | blackening keeps balance, adds a black level only to a red root, and creates no red-red edge |
| RbSpec.BlackHeightCount | include/design_patterns_cxx/dp-tree.hh:112-124 | a balanced tree of black height h has at least 2^h - 1 nodes |
| RbSpec.HeightBlackHeight | include/design_patterns_cxx/dp-tree.hh:112-124 | without red-red edges, height is at most twice the black height (plus one for a red root) |
| RbSpec.RbHeightBound | include/design_patterns_cxx/dp-tree.hh:156 | a red-black tree of n nodes has height h with 2^(h/2) <= n + 1 |
| RbSpec.SearchTreeIffIncreasing | include/design_patterns_cxx/dp-tree.hh:213-218 | the node-by-node ordering the descent relies on holds exactly when in-order keys ascend |
| RbSpec.SortedInsertIncreasing | include/design_patterns_cxx/dp-tree.hh:209-232 | reference insertion keeps keys ascending and adds one key exactly when it was absent |
| RbSpec.SortedInsertPresent | include/design_patterns_cxx/dp-tree.hh:213-218 | inserting a present key changes nothing |
| RbSpec.SortedInsertBetween | include/design_patterns_cxx/dp-tree.hh:220-229 | a key linked between smaller and larger keys lands in sorted position |
| RbSpec.RemoveIncreasing | include/design_patterns_cxx/dp-tree.hh:355-433 | reference removal keeps keys ascending and drops one key exactly when it was present |
| RbSpec.RemoveBetween | include/design_patterns_cxx/dp-tree.hh:366-432 | removing a key held once removes just that occurrence |
| RbRotate.RotateLeft | include/design_patterns_cxx/dp-tree.hh:335-352 | left rotation keeps the in-order keys |
| RbRotate.RotateRight | include/design_patterns_cxx/dp-tree.hh:312-328 | right rotation keeps the in-order keys |
| RbRotate.RotationsInverse | include/design_patterns_cxx/dp-tree.hh:312-352 | each rotation undoes the other |
| RbRotate.RotateLeftAt | include/design_patterns_cxx/dp-tree.hh:335-340 | a left rotation on a possibly null node succeeds exactly when node and right child exist |
| RbZipper.PlugInOrder | include/design_patterns_cxx/dp-tree.hh:117 | the rebuilt tree's keys are the ancestors' smaller keys, the focus, then the larger ones |
| RbZipper.PlugBalanced | include/design_patterns_cxx/dp-tree.hh:117 | the rebuilt tree is balanced exactly when the focus and the path are |
| RbZipper.PlugNoRedRed | include/design_patterns_cxx/dp-tree.hh:117 | the rebuilt tree has no red-red edge exactly when neither the focus nor the path has one |
| RbZipper.PlugColor | include/design_patterns_cxx/dp-tree.hh:117 | the root's colour is the farthest ancestor's, or the focus's when the path is empty |
| RbZipper.PlugAppend | include/design_patterns_cxx/dp-tree.hh:117 | rebuilding through a path equals rebuilding in two stages |
| RbZipper.PlugIsRB | include/design_patterns_cxx/dp-tree.hh:117 | a rebuilt tree is red-black exactly when keys ascend and focus and path meet the colour conditions |
| RbInsert.InsertRbt | include/design_patterns_cxx/dp-tree.hh:209-232 | status 1 exactly when the key is present, the tree then unchanged; otherwise the key inserted in order; result red-black |
| RbInsert.InsertFixup | include/design_patterns_cxx/dp-tree.hh:235-306 | the repair loop keeps the keys and ends with a black root, no red-red edge and equal black heights |
| RbInsert.LinkNew | include/design_patterns_cxx/dp-tree.hh:220-229 | where the descent falls off, the key is absent and a red leaf there meets the loop invariant |
| RbInsert.Case1Recolor | include/design_patterns_cxx/dp-tree.hh:248-255 | recolouring under a red uncle moves the fault two levels up and keeps the keys |
| RbInsert.Case2Left | include/design_patterns_cxx/dp-tree.hh:258-266 | the inner-grandchild rotation keeps the invariant and the keys |
| RbInsert.Case2Right | include/design_patterns_cxx/dp-tree.hh:273-301 | mirror of case 2 on the right side |
| RbInsert.Case3Left | include/design_patterns_cxx/dp-tree.hh:269-271 | recolouring and rotating the grandparent fixes the red-red edge, keeping keys and black heights |
| RbInsert.Case3Right | include/design_patterns_cxx/dp-tree.hh:273-301 | mirror of case 3 on the right side |
| RbInsert.FixupDone | include/design_patterns_cxx/dp-tree.hh:304 | once the parent is not red, blackening the root gives a valid colouring |
| RbDelete.DeleteRbt | include/design_patterns_cxx/dp-tree.hh:355-433 | status -1 exactly when the key is absent, the tree then unchanged; otherwise exactly that key removed; result red-black |
| RbDelete.DeleteFixup | include/design_patterns_cxx/dp-tree.hh:436-525 | the repair loop keeps the keys and restores a black root, no red-red edge and equal black heights |
| RbDelete.FixupLeft | include/design_patterns_cxx/dp-tree.hh:440-480 | one left-side pass keeps the invariant and keys and either ends or moves the fault up |
| RbDelete.FixupLeftBlack | include/design_patterns_cxx/dp-tree.hh:455-478 | cases 2–4 with a black brother either end the repair or move the focus up to the parent, taking its colour |
| RbDelete.FixupRight | include/design_patterns_cxx/dp-tree.hh:481-518 | mirror of the left pass |
| RbDelete.FixupRightBlack | include/design_patterns_cxx/dp-tree.hh:481-518 | mirror of cases 2–4 with a black brother |
| RbDelete.NotFound | include/design_patterns_cxx/dp-tree.hh:363-364 | when the descent falls off the tree, the key is absent and removal changes nothing |
| RbDelete.SpliceChildOrder | include/design_patterns_cxx/dp-tree.hh:411-432 | splicing out a node with at most one child removes exactly its key |
| RbDelete.SpliceChildColors | include/design_patterns_cxx/dp-tree.hh:411-432 | after that splice the repair loop's invariant holds for the child |
| RbDelete.SpliceSuccessorOrder | include/design_patterns_cxx/dp-tree.hh:366-409 | replacing a two-child node by its in-order successor removes exactly its key |
| RbDelete.SpliceSuccessorColors | include/design_patterns_cxx/dp-tree.hh:366-409 | after the successor splice the invariant holds for the successor's old child |
| RbDelete.DelBrother | include/design_patterns_cxx/dp-tree.hh:436-445 | while the focus is one black level short, its brother exists and is one black level taller |
| RbDelete.DelCase1Left | include/design_patterns_cxx/dp-tree.hh:447-453 | a red brother, recoloured and rotated at the parent, becomes a black one; keys and invariant kept |
| RbDelete.DelCase1Right | include/design_patterns_cxx/dp-tree.hh:485-491 | mirror of case 1 on the right side |
| RbDelete.DelCase2 | include/design_patterns_cxx/dp-tree.hh:455-460 | reddening a black brother with black children moves the missing black level up to the parent |
| RbDelete.DelCase3Left | include/design_patterns_cxx/dp-tree.hh:462-469 | rotating the brother turns a red inner nephew into a red outer one; keys and invariant kept |
| RbDelete.DelCase3Right | include/design_patterns_cxx/dp-tree.hh:481-518 | mirror of case 3 on the right side |
| RbDelete.DelCase4Left | include/design_patterns_cxx/dp-tree.hh:471-478 | a red outer nephew lets the parent's rotation restore the black level and end the repair |
| RbDelete.DelCase4Right | include/design_patterns_cxx/dp-tree.hh:481-518 | mirror of case 4 on the right side |
| RbDelete.DelDone | include/design_patterns_cxx/dp-tree.hh:521-523 | when the loop stops, blackening the focus leaves a valid tree |
| RbDelete.LeftCase1AsWritten | include/design_patterns_cxx/dp-tree.hh:447-453 | as written, case 1 rotates the focus: it dereferences null exactly when the focus or its right child is null |
| RbDelete.LeftCase1NullFocus | include/design_patterns_cxx/dp-tree.hh:451 | a concrete red-black tree where erasing reaches case 1 with a null focus, so the written rotation crashes |
| RedBlackTree.RbTree.constructor | include/design_patterns_cxx/dp-tree.hh:135-144 | a new tree is empty and valid |
| RedBlackTree.RbTree.Clear | include/design_patterns_cxx/dp-tree.hh:147-152 | `clear` leaves an empty, valid tree |
| RedBlackTree.RbTree.Height | include/design_patterns_cxx/dp-tree.hh:156 | height is 0 exactly for the empty tree, and logarithmic in the key count on a valid tree |
| RedBlackTree.RbTree.Count | include/design_patterns_cxx/dp-tree.hh:157 | count is the number of keys |
| RedBlackTree.RbTree.Insert | include/design_patterns_cxx/dp-tree.hh:159-174 | keys become the sorted insertion; a present key leaves the tree as it was; validity kept; count grows by one exactly for a new key |
| RedBlackTree.RbTree.Emplace | include/design_patterns_cxx/dp-tree.hh:175-183 | the same as `insert` |
| RedBlackTree.RbTree.Erase | include/design_patterns_cxx/dp-tree.hh:192-196 | true exactly when the key was present; false leaves the tree unchanged; exactly that key is removed; validity kept |
| RedBlackTree.InsertSevenEraseFour | tests/tree.cc:17-30 | inserting 1..7 and erasing 4 leaves keys 1, 2, 3, 5, 6, 7 and reports the erase |
| RbLinks.LinkedTree.RotateLeftAsWritten | include/design_patterns_cxx/dp-tree.hh:335-352 | on heap nodes, the rotation relinks node and child and the parent's slot that held node (the other slot, or else `root`, unchanged), keeps every key and colour, and leaves the moved subtree's parent stale |
| RbLinks.LinkedTree.RotateLeft | include/design_patterns_cxx/dp-tree.hh:335-352 | the same relinking and framing, with the moved subtree re-parented and otherwise untouched, so parent links stay consistent |
| RbLinks.LinkedTree.RotateRightAsWritten | include/design_patterns_cxx/dp-tree.hh:312-328 | mirror: same relinking and framing, the moved subtree keeps a stale parent |
| RbLinks.LinkedTree.RotateRight | include/design_patterns_cxx/dp-tree.hh:312-328 | mirror: same relinking and framing, with consistent parent links |
| RbLinks.StaleParentAfterRotateLeft | include/design_patterns_cxx/dp-tree.hh:349 | on the tree 1(-, 3(2, -)) the written rotation leaves 2's parent stale; the corrected one does not |
| Dispatch.OutcomeAt | include/design_patterns_cxx/dp-resp-chain.hh:72-80 | if the first n-1 receivers answer and the n-th is last or empty, n are consulted and the n-th answer is returned |
| Dispatch.OutcomeEmpty | include/design_patterns_cxx/dp-resp-chain.hh:72-80 | with no receivers the result is empty and nobody is consulted |
| Dispatch.OutcomeStops | include/design_patterns_cxx/dp-resp-chain.hh:76-77 | the first empty answer stops the chain and is the result |
| Dispatch.OutcomeAllAnswer | include/design_patterns_cxx/dp-resp-chain.hh:74-79 | when all answer, all are consulted and the last answer is the result |
| Dispatch.OutcomeAppend | include/design_patterns_cxx/dp-resp-chain.hh:68-80 | adding a receiver changes nothing after an earlier stop, and otherwise hands it the message |
| RespChain.MessageChain.AddReceiver | include/design_patterns_cxx/dp-resp-chain.hh:68-70 | the receiver is appended after all earlier ones |
| RespChain.MessageChain.Send | include/design_patterns_cxx/dp-resp-chain.hh:72-80 | the loop returns the chain's outcome and consults exactly the receivers up to the first empty answer |
| RespChain.Sender.Send | include/design_patterns_cxx/dp-resp-chain.hh:39 | sending goes through the controller with this sender as the sender |
| RespChain.ChainTest | tests/dp-responsibility-chain.cc:75-96 | a plain message reaches all three receivers; "quit" stops at bb2; a broadcast "quit" reaches bb3 |
| MsgDispatch.MessageBumperBase.AddReceiver | include/design_patterns/dp-msg-dispatch.hh:66-68 | the receiver is appended |
| MsgDispatch.MessageBumperBase.Send | include/design_patterns/dp-msg-dispatch.hh:83-91 | the loop returns the chain's outcome, stopping after the first empty answer |
| MsgDispatch.MessageBumper.AddReceiver | include/design_patterns/dp-msg-dispatch.hh:107-109 | forwarding appends to the inner chain |
| MsgDispatch.MessageBumper.Send | include/design_patterns/dp-msg-dispatch.hh:111-113 | forwarding returns the inner chain's outcome |
| MsgDispatch.Sender.Send | include/design_patterns/dp-msg-dispatch.hh:119-122 | sending goes through the controller with this sender as the sender |
| MsgDispatch.DispatchTest | tests/msg-dispatch.cc:84-96 | "quit" stops at bb2; a broadcast "quit" reaches bb3 |
| StringView.SizeSub | include/design_patterns_cxx/dp-util.hh:88 | `size_t` subtraction wraps modulo 2^64 when the result would be negative |
| StringView.Find | include/design_patterns_cxx/dp-util.hh:84-86 | `find` reports the first occurrence, or none when there is none |
| StringView.RFind | include/design_patterns_cxx/dp-debug.hh:110 | `rfind` reports the last occurrence, or none |
| StringView.Substr | include/design_patterns_cxx/dp-util.hh:88 | `substr(pos, n)` returns the characters from pos, clamped to the end |
| StringView.FindAtZero | include/design_patterns_cxx/dp-debug.hh:86-97 | `find` returns 0 exactly when the string starts with the pattern |
| Util.IdEnd | include/design_patterns_cxx/dp-util.hh:85-87 | the end is the first '<', or the end of the name |
| Util.IdNameSlice | include/design_patterns_cxx/dp-util.hh:83-89 | `id_name` is the text between "()::" and the first '<'; when the '<' comes first, the rest of the name |
| Util.IdNameLocalClass | include/design_patterns_cxx/dp-util.hh:83-89 | "f()::Shape<int>" names "Shape" |
| Util.IdNameWraps | include/design_patterns_cxx/dp-util.hh:83-89 | "vec<f()::X>" yields "X>" because the length wraps and is clamped |
| Util.EnumId | include/design_patterns_cxx/dp-util.hh:66-74 | the enum id is the longest prefix of the type name without '<' |
| Util.CreateSelects | include/design_patterns_cxx/dp-util.hh:131-139 | `create` yields nothing exactly when no product has the id, and otherwise the last matching product |
| TypeNames.DetailTypeName | include/design_patterns_cxx/dp-debug.hh:52-59 | the name is cut from the wrapped string at the probe's prefix length |
| TypeNames.DetailTypeNameRecovers | include/design_patterns_cxx/dp-debug.hh:44-59 | with the same prefix and suffix around every name, the type's own name is recovered |
| TypeNames.StripAtStart | include/design_patterns_cxx/dp-debug.hh:86-97 | a keyword is removed only at the start |
| TypeNames.TypeName | include/design_patterns_cxx/dp-debug.hh:81-100 | `type_name` is a suffix of the detail name |
| TypeNames.TypeNameStripsLeading | include/design_patterns_cxx/dp-debug.hh:86-89 | "struct Point" becomes "Point" |
| TypeNames.TypeNameKeepsSecondKeyword | include/design_patterns_cxx/dp-debug.hh:86-93 | "class struct X" keeps "struct X": each keyword is tested once, in order |
| TypeNames.ShortTypeName | include/design_patterns_cxx/dp-debug.hh:107-112 | the short name is the view after its last "::", or the whole view when it has none, and holds no "::" |
| TypeNames.ShortTypeNameAsWritten | include/design_patterns_cxx/dp-debug.hh:107-112 | as written, the result runs from the short name's start to the next NUL of the underlying buffer |
| TypeNames.ShortTypeNameAgrees | include/design_patterns_cxx/dp-debug.hh:107-112 | when the view ends at the terminator, the written and the intended results agree |
| TypeNames.ShortTypeNameKeepsSuffix | include/design_patterns_cxx/dp-debug.hh:111 | for the view "ns::Foo" inside "...[with T = ns::Foo]", the written code yields "Foo]" instead of "Foo" |
| Defs.ReadIntShow | include/design_patterns/dp-def.hh:101-102 | reading a printed number back, before any non-digit, gives the number |
| Defs.ReadIntShowNegative | include/design_patterns/dp-def.hh:101-102 | the same with a leading minus |
| Defs.Stripped | include/design_patterns/dp-def.hh:94 | the printer drops every whitespace character |
| Defs.StrippedAppend | include/design_patterns/dp-def.hh:93-108 | stripping distributes over concatenation |
| Defs.FieldsNoComma | include/design_patterns/dp-def.hh:95-108 | no field the printer collects holds a comma |
| Defs.JoinFields | include/design_patterns/dp-def.hh:95-110 | joining the fields with commas gives back the text |
| Defs.FieldsJoin | include/design_patterns/dp-def.hh:95-110 | splitting comma-free fields joined with commas gives back the fields |
| Defs.Number | include/design_patterns/dp-def.hh:97-105 | a member takes its explicit value or the previous plus one; an existing name for that value is never overwritten |
| Defs.PrintEnum | include/design_patterns/dp-def.hh:87-122 | the printer's loop writes the enum name, "::" and the numbered member's name ("" when none) |
| Defs.NumberingKeepsFirst | include/design_patterns/dp-def.hh:105 | later members never change a name already given |
| Defs.ImplicitNumbering | include/design_patterns/dp-def.hh:90-104 | without "=", members are numbered 0, 1, 2, ... in order |
| Defs.ExplicitThenImplicit | include/design_patterns/dp-def.hh:97-104 | after "NAME=v" the next plain member takes v + 1 |
| Defs.StrippedListed | include/design_patterns/dp-def.hh:89-94 | a stringified list "a, b, c" stripped is "a,b,c" |
| Defs.PlainEnumText | include/design_patterns/dp-def.hh:84-122 | for plain names, value i prints as Enum::name_i, and an out-of-range value as "Enum::" |
| Defs.HashAllAppend | include/design_patterns/dp-def.hh:144-150 | combining a list equals combining its parts one after the other |
| Defs.HashCombine | include/design_patterns/dp-def.hh:144-156 | the in-place update applies one combining step per argument, left to right |
| Defs.Max | include/design_patterns/dp-def.hh:197-198 | the larger argument |
| Defs.Min | include/design_patterns/dp-def.hh:199-200 | the smaller argument |
| Undo.Memento.Push | tests/undo.cc:34-37 | the state goes to the back |
| Undo.Memento.Pop | tests/undo.cc:38-47 | empty gives nothing and no change; otherwise the most recent state is returned and removed |
| Undo.Memento.Size | tests/undo.cc:48 | the number of saved states |
| Undo.Memento.Empty | tests/undo.cc:49 | empty exactly when the size is 0 |
| Undo.Memento.CanPop | tests/undo.cc:50 | poppable exactly when not empty |
| Undo.Originator.Set | tests/undo.cc:62-65 | the state is replaced |
| Undo.Originator.SaveToMemento | tests/undo.cc:66-69 | the current state is pushed onto the history |
| Undo.Originator.RestoreFromMemento | tests/undo.cc:70-73 | the most recent saved state becomes current and leaves the history |
| Undo.CaretakerRun | tests/undo.cc:85-95 | after the caretaker's run the state is "state3" and "state2" is still saved |
| CommandHistory.History.Push | tests/dp-memento.cc:79 | the command goes to the back |
| CommandHistory.History.Pop | tests/dp-memento.cc:80-84 | the last command is returned and removed |
| CommandHistory.HistoryIsLifo | tests/dp-memento.cc:79-84 | two pushes then two pops return the commands in reverse, leaving the history as it was |
| CommandHistory.EditorsHolder.Add | tests/dp-memento.cc:202-206 | the editor is appended, earlier editors stay, and the new one is current |
| CommandHistory.HolderTest | tests/dp-memento.cc:252-259 | after adding one editor, it is the current one |
| Flyweight.Key | tests/dp-flyweight.cc:85-87 | the key starts with the brand and a '_' |
| Flyweight.KeyInjective | tests/dp-flyweight.cc:85-87 | when brand and model hold no '_', equal keys mean equal states |
| Flyweight.KeyCollides | tests/dp-flyweight.cc:85-87 | a '_' inside a field lets two different states share a key |
| Flyweight.Table | tests/dp-flyweight.cc:90-94 | the table built by inserting each state under its key has exactly the listed states' keys; both factories build it |
| Flyweight.TableKeepsFirst | tests/dp-flyweight.cc:90-94 | each key holds the first state listed with it, as `insert` and `emplace` keep an existing entry |
| Flyweight.FlyweightFactory.constructor | tests/dp-flyweight.cc:90-94 | the constructor's loop builds that table |
| Flyweight.FlyweightFactory.Get | tests/dp-flyweight.cc:99-108 | a present key is reused unchanged; a new key adds exactly one flyweight; the result is the stored one |
| Flyweight.InitialKeys | tests/dp-flyweight.cc:135-150 | the five initial cars have five keys; BMW M5 red is among them, BMW X1 red is not |
| Flyweight.FlyweightTest | tests/dp-flyweight.cc:132-153 | five flyweights, still five after reusing BMW M5 red, six after BMW X1 red |
| Flyweight.TableEntriesListed | tests/dp-flyweight.cc:234-238 | every entry is a listed state stored under its own key |
| Flyweight.MetaFlyweightFactory.constructor | tests/dp-flyweight.cc:234-238 | the `emplace` loop builds that table keyed by the hash, so a repeated hash keeps the first state |
| Flyweight.MetaFlyweightFactory.Get | tests/dp-flyweight.cc:240-249 | a present hash is reused, even for a different state; a new hash adds exactly one flyweight |
| Flyweight.MetaFlyweightTest | tests/dp-flyweight.cc:279-304 | keyed by the `hash_combine` of the three fields, reusing BMW M5 red adds nothing; BMW X1 red adds one exactly when its hash is new; with six different hashes the counts are 5, 5, 6 |

## Left out

- **Memory:** allocation, `delete` and the recursive node destructor (`dp-tree.hh:120-123`). Leaks and double frees are not modelled.
- **Nodes are values** in the tree model, so aliasing between node pointers is not captured. The one property that depends on identity is modelled on heap nodes in `RbLinks`: the stale `parent` after a rotation.
- **RbLinks rotations:** they require the nodes involved to be pairwise distinct, as they are in any tree.
- **The public `insert`/`emplace`** discard `insert_rbt`'s status. The model does the same. The key type is fixed to `int`, and `emplace` takes an already built key.
- **`rb_tree::erase` on an empty tree:** it returns `false` without calling `delete_rbt`. The model follows that branch.
- **Pointer accessors and logging:** `root()` returning a pointer, the tree iterators and the `tree_t` wrapper are not part of this model. Nor are `dbg_print`, the console output of the tests, or `flyweight_factory::list`.
- **`sender_t::controller()`:** the sender's controller is a nullable object reference. Sending without one is excluded by a precondition, because the source dereferences null there.
- **Undo.Originator.RestoreFromMemento** and **CommandHistory.History.Pop:** each requires a non-empty history. The source dereferences `*_history.pop()` (tests/undo.cc:71) and calls `back()` (tests/dp-memento.cc:81) without a check, which is undefined on an empty container.
- **Receivers:** each is a pure function of the sender and the message. Their own state and side effects are not modelled.
- **`make_unique`, `make_shared` and `create_nacked_ptr`** (`dp-util.hh:140-152`): ownership wrappers around `create`. Only the selection of the product is modelled (`Util.Create`).
- **Compiler strings:** `__PRETTY_FUNCTION__` and the demangled names are inputs to `TypeNames`. Demangling and stack traces are not modelled.
- **Defs.ReadInt:** does not model the 32-bit `int` range of `val`. An out-of-range value read by `>>`, or `val++` past `INT_MAX`, is unbounded here.
- **`std::hash`:** of a string it is an input function. The meta factory's hasher is an input function to `nat`. A hash collision is modelled, since keys are compared by value.
- **Defs.HashCombine:** its injectivity or spreading is not claimed. Only its step-by-step meaning is.
- **Flyweight.FlyweightFactory.Get:** returns the stored state rather than a copy of a `flyweight` object. Copying and `shared_ptr` ownership are not modelled.
- **Commands:** the editor, clipboard and `command_t` execution of `dp-memento.cc` are outside this model. `history_t` and `editors_holder` are generic over the command and editor types.
- **RbInsert.InsertFixup:** it walks parent links that are always consistent, so it never reads the stale `parent` that the written rotations leave (first "## Findings" row). It models the repair as evidently intended, not a walk over stale links.
- **RbDelete.DeleteFixup:** likewise it walks consistent parent links. Its left case 1 rotates at the parent (`RbDelete.DelCase1Left`), not at the possibly null focus as written (second "## Findings" row). The crash of the written case is shown only by `RbDelete.LeftCase1NullFocus`.
- **Flyweight.MetaFlyweightTest:** `std::hash` of a string is an input function, so the test's counts of 5, 5 and 6 are proved only for hashes that differ.
- **RedBlackTree.RbTree.Height:** states a logarithmic bound, not an exact height for particular key sequences.

## Findings

| source | as written | input that shows it | evidently intended | confidence | as-written member | corrected member |
|---|---|---|---|---|---|---|
| include/design_patterns_cxx/dp-tree.hh:349 | `rbt_rotate_left` moves the right child's left subtree under `node` but never sets that subtree's `parent` (same at :325 for `rbt_rotate_right`) | tree 1(-, 3(2, -)), rotate left at 1: node 2 now hangs under 1 but its `parent` still names 3 | the moved subtree's `parent` is set to `node` | high (not executed) | RbLinks.StaleParentAfterRotateLeft | RbLinks.LinkedTree.RotateLeft |
| include/design_patterns_cxx/dp-tree.hh:451 | delete-fixup case 1 on the left calls `rbt_rotate_left(root, node)`, rotating the focus, which may be null | a black-rooted tree 2(1, 4R(3, 5(-, 6R))); erasing 1 reaches case 1 with a null focus, and the rotation dereferences null | rotate at `parent`, as the right-side case does | high (not executed) | RbDelete.LeftCase1NullFocus | RbDelete.DelCase1Left |
| include/design_patterns_cxx/dp-tree.hh:66-73 | `traverse_in_order_rev` calls `traverse_in_order` for both subtrees, so only the top level is reversed | tree 3(2(1), -): visits 3, 1, 2 | recursion on the reverse traversal itself, giving 3, 2, 1 | high (not executed) | TreeOps.InOrderRevAsWrittenDiffers | TreeOps.InOrderRevIsReverse |
| include/design_patterns_cxx/dp-debug.hh:111 | `short_type_name` rebuilds its result from a bare `char*`, so it runs to the next NUL of the buffer behind the view | the view "ns::Foo" inside "f() [with T = ns::Foo]": the result is "Foo]" | the part of the view after the last "::", "Foo" | medium (not executed) | TypeNames.ShortTypeNameKeepsSuffix | TypeNames.ShortTypeName |
