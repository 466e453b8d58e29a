# SIL basic block

A model of `SILBasicBlock`, the basic block of Swift's intermediate language
(SIL). A block is a node of a function's control-flow graph and owns three
lists:

- `insts`: an ordered instruction list whose last element, once the block is
  complete, is its terminator;
- `args`: the ordered block arguments;
- `preds`: the predecessor list. It holds the edge records (successor operands)
  of the terminators in the function that branch to this block.

A block's successors are read off its terminator. Its predecessors are the
sources of the records in its predecessor list.

The project has two modules:

- `PredecessorLists` (`predecessor_lists.dfy`) states the edge-record
  bookkeeping over plain values. An edge record `EdgeRef(src, idx)` names the
  `idx`-th successor operand of the terminator of block `src`. `Linked` is the
  invariant the predecessor lists keep: every block's list holds each record
  that targets it exactly once, and nothing else. Each edit is a map
  transformation with a lemma proving it keeps `Linked`. The edits are adding
  a block, moving a terminator, linking and unlinking the records of a
  terminator, and retargeting one operand.
- `SIL` (`sil_basic_block.dfy`) holds the classes `Block` and `Function`.
  - `Block` keeps the three lists as fields that its methods update in place.
  - `Function` is the minimal container a block needs: the ordered block list
    and the object invariant `Valid()`. `Valid()` says that blocks occur once
    and name the function as their parent, and that a terminator only ends a
    block. It also says the predecessor lists are `Linked` to the terminators,
    through two ghost maps that mirror them.
  - The block's methods are proved to keep `Valid()` and to produce exactly the
    predecessor lists the pure functions of `PredecessorLists` describe.

Predecessor lists are kept in a fixed order. A new edge record goes to the
head of its target's list; this order is the model's choice. Only
membership and counts are stated as the invariant.

## Model

| member | source | states |
|---|---|---|
| SIL.Block.constructor | include/swift/SIL/SILBasicBlock.h:56 | a new block belongs to the given function and has no instructions, arguments or predecessors |
| SIL.Block.Empty | include/swift/SIL/SILBasicBlock.h:81 | `empty` holds when the block has no instructions, and then it has no terminator to ask for |
| SIL.Block.GetTerminator | include/swift/SIL/SILBasicBlock.h:91-94 | only allowed on a block ending in a terminator; the result is a terminator of the block, and in a well-formed block it is the only one |
| SIL.Block.GetSuccs | include/swift/SIL/SILBasicBlock.h:145-147 | the successors are the successor list of the block's terminator |
| SIL.Block.GetSinglePredecessor | include/swift/SIL/SILBasicBlock.h:166-171 | a block is returned exactly when the predecessor list holds one edge record, and it is that record's source |
| SIL.Block.GetSingleSuccessor | include/swift/SIL/SILBasicBlock.h:173-178 | a block is returned exactly when the terminator has one successor operand, and the successor list is then that block alone |
| SIL.Block.GetNumBBArg | include/swift/SIL/SILBasicBlock.h:121-130 | the argument count is zero exactly when `bbarg_empty` (`SIL.Block.BBArgEmpty`) holds |
| SIL.Block.GetBBArg | include/swift/SIL/SILBasicBlock.h:131-132 | only allowed for an index below the count; the result is one of the block's arguments |
| SIL.Block.SameArguments | include/swift/SIL/SILBasicBlock.h:128-132 | the count and the indexed arguments determine the argument list: two blocks have the same list exactly when `getNumBBArg` and every `getBBArg` agree, so the count and the indexed getters observe the whole list |
| SIL.Block.AddArgument | include/swift/SIL/SILBasicBlock.h:201-203 | the count grows by one, earlier arguments keep their positions, the last is the new one; only the argument list changes and the function stays valid |
| SIL.Block.EraseArgument | include/swift/SIL/SILBasicBlock.h:197-198 | needs an index in range; the count drops by one, arguments before the index are kept and later ones move down by one; only the argument list changes |
| SIL.Block.DropAllArgs | include/swift/SIL/SILBasicBlock.h:134-135 | the argument list is empty afterwards; nothing else changes and the function stays valid |
| SIL.Block.AppendInstruction | include/swift/SIL/SILBasicBlock.h:73-74 | appending a non-terminator through the instruction list leaves the block without a terminator, and keeps the function valid if the block had none |
| SIL.Block.AppendTerminator | include/swift/SIL/SILBasicBlock.h:39-42 | creating a terminator at the end of a block links one record per successor operand at the head of each target's predecessor list, and keeps the function valid |
| SIL.Block.SplitBasicBlock | include/swift/SIL/SILBasicBlock.h:100-105 | the two instruction lists concatenate to the old one and the original keeps exactly the first `i` instructions. The original has no terminator unless nothing moved. The new block directly follows it in the function, has no arguments or predecessors, and the records of a moved terminator name the new block. The function stays valid |
| SIL.Block.SplitBasicBlockAndBranch | include/swift/SIL/SILBasicBlock.h:107-112 | the original keeps the instructions before `i` plus one unconditional branch, whose single successor is the new block. The new block holds the rest in order, and its predecessor list is exactly that branch's one edge record, so its single predecessor is the original block. The function stays valid |
| SIL.Block.BranchTo | include/swift/SIL/SILBasicBlock.h:107-112 | the unconditional branch that ends the split block has the target as its single successor, and adds exactly one record to the target's list and none to any other |
| SIL.Block.SetSuccessor | include/swift/SIL/SILBasicBlock.h:39-42 | retargeting a successor operand takes its record out of the old target's list and puts it at the head of the new target's list; nothing changes when the target is the same |
| SIL.Block.EraseTerminator | include/swift/SIL/SILBasicBlock.h:39-42 | destroying a terminator removes its records from every predecessor list and leaves the block without a terminator; the function stays valid |
| SIL.Function.CreateBlock | include/swift/SIL/SILBasicBlock.h:56 | a new empty block, owned by the function, is appended to its block list and the function stays valid |
| SIL.Function.CreateBlockAfter | include/swift/SIL/SILBasicBlock.h:100-105 | a new empty block is inserted directly after the given one, no other block is added or lost, and the function stays valid |
| SIL.Function.SplitBlock | include/swift/SIL/SILBasicBlock.h:100-105 | the function-side split: the same instruction, placement and predecessor facts as `SplitBasicBlock` |
| SIL.Function.MoveTail | include/swift/SIL/SILBasicBlock.h:100-105 | moving the tail of a block, terminator included, into an empty block keeps the instruction order and renames the moved records' source in every predecessor list |
| SIL.Function.InsertBlockAfter | include/swift/SIL/SILBasicBlock.h:100-105 | the block list gains the new block directly after the given one and stays duplicate-free |
| SIL.Function.LinkEdges | include/swift/SIL/SILBasicBlock.h:39-42 | every block's predecessor list gains at its head exactly the records of the operands that name it |
| SIL.Function.MoveEdgeSources | include/swift/SIL/SILBasicBlock.h:39-42 | every record whose source is the old block now names the new block, in every predecessor list and in place |
| SIL.Function.DropEdgeSources | include/swift/SIL/SILBasicBlock.h:39-42 | every predecessor list loses exactly the records of the given block's terminator |
| SIL.Function.ResyncAfterLink | include/swift/SIL/SILBasicBlock.h:39-42 | after a terminator is linked, the predecessor lists are again exactly the records targeting each block |
| SIL.Function.ResyncAfterMove | include/swift/SIL/SILBasicBlock.h:100-105 | after a terminator moves to the new block of a split, the predecessor lists are again exact |
| SIL.Function.ResyncAfterRetarget | include/swift/SIL/SILBasicBlock.h:39-42 | after one operand is retargeted, the predecessor lists are again exact |
| SIL.Function.ResyncAfterErase | include/swift/SIL/SILBasicBlock.h:39-42 | after a terminator is destroyed, the predecessor lists are again exact |
| SIL.Function.PredEmptyIffNoBranchIn | include/swift/SIL/SILBasicBlock.h:160 | `pred_empty` (`SIL.Block.PredEmpty`) holds exactly when no terminator of the function has a successor operand naming the block |
| SIL.Function.SinglePredecessorIffOneEdge | include/swift/SIL/SILBasicBlock.h:166-171 | there is a single predecessor exactly when one edge of the function targets the block, and that edge is the list's record, leaving a block of the function |
| SIL.Function.TwoEdgesNoSinglePredecessor | include/swift/SIL/SILBasicBlock.h:166-171 | two operands of one terminator naming the same block leave it without a single predecessor, since edges are counted and not blocks |
| SIL.Function.SuccEmptyIffNoRecordFrom | include/swift/SIL/SILBasicBlock.h:152 | `succ_empty` (`SIL.Block.SuccEmpty`) holds exactly when no predecessor list in the function holds a record from the block |
| SIL.Function.SingleSuccessorLinksBack | include/swift/SIL/SILBasicBlock.h:173-178 | the single successor's predecessor list holds the block's edge record |
| SIL.SplitShape | include/swift/SIL/SILBasicBlock.h:100-105 | cutting a well-formed instruction list gives two well-formed lists; the tail keeps the terminator and all out-edges, and the head has none |
| PredecessorLists.AddBlock | include/swift/SIL/SILBasicBlock.h:56 | a new block with no instructions and no predecessors joins the function without breaking the invariant |
| PredecessorLists.MoveTerminator | include/swift/SIL/SILBasicBlock.h:100-105 | moving a terminator to an empty block and renaming its records' source in every list keeps the invariant |
| PredecessorLists.IncomingFromExact | include/swift/SIL/SILBasicBlock.h:39-42 | the records a terminator links into a block's list are exactly those of its operands naming that block, each once |
| PredecessorLists.LinkSuccessors | include/swift/SIL/SILBasicBlock.h:39-42 | creating a terminator and linking one record per operand keeps the invariant |
| PredecessorLists.LinkLast | include/swift/SIL/SILBasicBlock.h:39-42 | linking the last operand's record after the others keeps the invariant |
| PredecessorLists.AddEdge | include/swift/SIL/SILBasicBlock.h:39-42 | adding one operand and pushing its record on the target's list keeps the invariant |
| PredecessorLists.LinkAllStep | include/swift/SIL/SILBasicBlock.h:39-42 | linking all operands equals linking all but the last, then pushing the last record on its target's list |
| PredecessorLists.DropSourceExact | include/swift/SIL/SILBasicBlock.h:39-42 | dropping a block's records keeps exactly the records from other sources, and keeps a list duplicate-free |
| PredecessorLists.UnlinkSuccessors | include/swift/SIL/SILBasicBlock.h:39-42 | destroying a terminator and unlinking all its records keeps the invariant |
| PredecessorLists.RetargetEdge | include/swift/SIL/SILBasicBlock.h:39-42 | moving one record from the old target's list to the head of the new target's list keeps the invariant |
| PredecessorLists.PredCount | include/swift/SIL/SILBasicBlock.h:158-164 | a predecessor list has exactly as many entries as there are edges into the block |
| PredecessorLists.PredEmptyIffNoInEdge | include/swift/SIL/SILBasicBlock.h:160 | a predecessor list is empty exactly when no edge targets the block |
| PredecessorLists.TwoEdgesTwoEntries | include/swift/SIL/SILBasicBlock.h:166-171 | two operands of one terminator naming a block give it at least two predecessor entries |
| PredecessorLists.SuccEmptyIffNoOutRecord | include/swift/SIL/SILBasicBlock.h:152 | a block has no successors exactly when no predecessor list holds a record from it |
| PredecessorLists.Without | include/swift/SIL/SILBasicBlock.h:39-42 | removing a record from a list keeps every other record, drops that one, and shortens a duplicate-free list by one |
| PredecessorLists.MoveSource | include/swift/SIL/SILBasicBlock.h:100-105 | renaming a moved terminator's source in a list keeps its length and changes it record by record |

## Left out

- The instruction list is a Dafny sequence addressed by position. The iterators, reverse iterators, the argument and successor iterators, `getBBArgs` and `getPreds` (SILBasicBlock.h:76-89, :118-128, :149-164) are access to the same sequences and are not modelled separately. The emptiness queries in those ranges are modelled: `empty` (:81) as `Empty`, `bbarg_empty` (:121) as `BBArgEmpty`, `succ_empty` (:152) as `SuccEmpty` and `pred_empty` (:160) as `PredEmpty`. `bbarg_size` (:122) is the same count as `getNumBBArg`, modelled by `GetNumBBArg`. Of the mutable access `getInstList` gives (SILBasicBlock.h:73-74), the model covers appending: `AppendInstruction` and `AppendTerminator`. Inserting or removing instructions at other positions is not modelled.
- `dump`, `print`, `printAsOperand` and `operator<<` (SILBasicBlock.h:184-190, :206-210) write text to a stream and are left out.
- The `llvm::ilist_traits` sentinel hooks and `getSublistAccess` (SILBasicBlock.h:192-195, :213-240) are intrusive-list machinery that sequences replace.
- The `SILAllocated` arena, the deleted assignment and `operator delete`, and the sentinel constructor (SILBasicBlock.h:31, :51-53) are allocation policy with no behaviour to state.
- Block destruction is not modelled: the destructor `~SILBasicBlock` (SILBasicBlock.h:57) and `eraseFromParent` (SILBasicBlock.h:64-67). Destroying a block destroys its instruction list, and with it the terminator's edge records leave their targets' predecessor lists. `EraseTerminator` models that unlinking step only. Removing the block from the function and destroying its other instructions and its arguments are not modelled.
- `getModule` (SILBasicBlock.h:62) needs `SILFunction`, which is not part of this model. `Function` is only the block list and the invariant a block needs. `getParent` (SILBasicBlock.h:59-60) is the constant field `parent`.
- Instructions are opaque values. Each is a terminator or not, and a terminator has a kind and an ordered successor list. `SILLocation` is an opaque token. Instruction semantics and `SILArgument` are not part of this model.
- The bodies of `splitBasicBlock`, `splitBasicBlockAndBranch` and the `SILSuccessor` linking are not in the header. They are modelled from the documented behaviour: split at a position, the instructions before it stay, the rest move to the new block, and the original is left without a terminator. Placing the new block directly after the original in the function's block list is this model's choice, since the header does not say where it goes. Linking a new record at the head of its target's list is this model's choice, since the header documents no order.
- SIL.Block.SplitBasicBlock: a split at the end of the block moves nothing, so a block that had a terminator keeps it. This follows the header's rule that the instructions before the split position stay in the original block (SILBasicBlock.h:102-103), not its note that the original is left without a terminator (SILBasicBlock.h:103-104). Any split before the end moves the terminator, and the original is then left without one, as the contract states.
- SIL.Block.SplitBasicBlockAndBranch: at the end of a block that already has a terminator, the split would give the block two terminators. The model requires the split position to be before the end, or the block to have no terminator.
- SIL.Block.GetTerminator: names the last instruction only through its ensures, which says the result is a terminator of the block and, in a well-formed block, the only one. It does not restate that it is the last element.
- SIL.Block.EraseArgument: takes a `nat` index. The source's signed `int` index with a negative value is undefined behaviour, and is not modelled. Argument counts and indices are unbounded here, so the 32-bit `unsigned` truncation of `getNumBBArg` and `getBBArg` (SILBasicBlock.h:130-132) above 2^32 arguments is not modelled either; nothing in the block depends on it.
- SIL.Block.SetSuccessor: "no other predecessor list changes" is stated by its `modifies` frame, which names only the old and new targets' lists, and not by an ensures.
- Predecessor lists are specified in the order the model builds them: newest record first, with removal and renaming in place. The header does not promise an order.
