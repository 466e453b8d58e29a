/**
 * A SIL basic block: a node of a function's control-flow graph that owns an
 * ordered instruction list ending in a terminator, an ordered list of block
 * arguments, and a predecessor list made of the edge records (successor
 * operands) of the terminators that branch to it.
 *
 * `Block` keeps the three lists as fields that its methods update in place.
 * `Function` is the minimal container the block needs: the ordered list of
 * blocks, and the object invariant `Valid()` that ties every block's
 * predecessor list to the terminators of the function (`PredecessorLists.Linked`).
 */
module SIL {
  import opened PredecessorLists

  datatype Option<T> = None | Some(value: T)

  /** A source location, passed through as an opaque token. */
  datatype Location = Location(id: nat)

  /** A block argument, an opaque identity owned by its block. */
  datatype Argument = Argument(id: nat)

  /** The terminators the model tells apart: the unconditional branch, and all others by opcode. */
  datatype TermKind = Branch | OtherTerminator(opcode: nat)

  /**
   * An instruction, opaque except for what the block relies on: whether it is
   * a terminator, and a terminator's ordered successor list (one entry per
   * successor operand, duplicates allowed).
   */
  datatype Inst =
    | Plain(opcode: nat, loc: Location)
    | Term(kind: TermKind, loc: Location, succs: seq<Block>)
  {
    predicate IsTerminator() {
      Term?
    }
  }

  /** A terminator may only stand at the end of an instruction list. */
  predicate WellFormed(insts: seq<Inst>) {
    forall j :: 0 <= j < |insts| - 1 ==> !insts[j].IsTerminator()
  }

  /** The out-edges an instruction list gives its block: its terminator's successors, none without one. */
  function SuccessorsOf(insts: seq<Inst>): seq<Block> {
    if insts != [] && insts[|insts| - 1].Term? then insts[|insts| - 1].succs else []
  }

  /**
   * Cutting a well-formed instruction list before position `i < |insts|`
   * gives two well-formed lists; the tail keeps the terminator and with it
   * every out-edge, the head has none.
   */
  lemma SplitShape(insts: seq<Inst>, i: nat)
    requires WellFormed(insts) && i < |insts|
    ensures WellFormed(insts[..i]) && WellFormed(insts[i..])
    ensures SuccessorsOf(insts[..i]) == [] && SuccessorsOf(insts[i..]) == SuccessorsOf(insts)
  {
  }

  /**
   * Appending a terminator to a well-formed list without one gives a
   * well-formed list that ends in it and whose out-edges are its successors.
   */
  lemma AppendShape(insts: seq<Inst>, t: Inst)
    requires WellFormed(insts) && (insts == [] || !insts[|insts| - 1].IsTerminator()) && t.IsTerminator()
    ensures WellFormed(insts + [t]) && SuccessorsOf(insts + [t]) == t.succs
    ensures (insts + [t])[|insts|] == t
  {
  }

  /** Position of the first occurrence of `x` in `s`. */
  function IndexOf<T(==)>(s: seq<T>, x: T): (i: nat)
    requires x in s
    ensures i < |s| && s[i] == x && x !in s[..i]
  {
    if s[0] == x then 0 else 1 + IndexOf(s[1..], x)
  }

  /** The list `s` with `y` inserted right after the first occurrence of `x`. */
  function InsertAfter<T(==)>(s: seq<T>, x: T, y: T): seq<T>
    requires x in s
  {
    var p := IndexOf(s, x);
    s[..p + 1] + [y] + s[p + 1..]
  }

  class Block {
    /** The containing function, set at construction and never reassigned. */
    const parent: Function
    /** The ordered instruction list; once complete its last element is the terminator. */
    var insts: seq<Inst>
    /** The ordered block arguments. */
    var args: seq<Argument>
    /** The edge records of the terminators that branch to this block. */
    var preds: seq<EdgeRef<Block>>

    constructor (f: Function)
      ensures parent == f && insts == [] && args == [] && preds == []
    {
      parent := f;
      insts := [];
      args := [];
      preds := [];
    }

    /** A block with no instructions; it has no terminator to ask for. */
    predicate Empty()
      reads this`insts
      ensures Empty() ==> !HasTerminator()
    {
      insts == []
    }

    predicate HasTerminator()
      reads this`insts
    {
      insts != [] && insts[|insts| - 1].IsTerminator()
    }

    /**
     * The block's terminator: its last instruction. Asking a block that does
     * not end in a terminator is a contract violation.
     */
    function GetTerminator(): (t: Inst)
      reads this`insts
      requires HasTerminator()
      ensures t.IsTerminator() && t in insts
      ensures WellFormed(insts) ==> forall j :: 0 <= j < |insts| && insts[j].IsTerminator() ==> insts[j] == t
    {
      insts[|insts| - 1]
    }

    /** The successor list, read off the terminator. */
    function GetSuccs(): (s: seq<Block>)
      reads this`insts
      requires HasTerminator()
      ensures s == SuccessorsOf(insts)
    {
      GetTerminator().succs
    }

    predicate SuccEmpty()
      reads this`insts
      requires HasTerminator()
    {
      GetSuccs() == []
    }

    predicate PredEmpty()
      reads this`preds
    {
      preds == []
    }

    /**
     * The source block of the one predecessor edge, if there is exactly one
     * edge record in the list; two edges from the same block still give None.
     */
    function GetSinglePredecessor(): (r: Option<Block>)
      reads this`preds
      ensures r.Some? <==> |preds| == 1
      ensures r.Some? ==> preds[0].src == r.value
    {
      if PredEmpty() || |preds| != 1 then None else Some(preds[0].src)
    }

    /**
     * The target of the one successor edge, if the terminator has exactly one
     * successor operand; two operands naming the same block still give None.
     */
    function GetSingleSuccessor(): (r: Option<Block>)
      reads this`insts
      requires HasTerminator()
      ensures r.Some? <==> |GetSuccs()| == 1
      ensures r.Some? ==> GetSuccs() == [r.value]
    {
      if SuccEmpty() || |GetSuccs()| != 1 then None else Some(GetSuccs()[0])
    }

    function GetNumBBArg(): (n: nat)
      reads this`args
      ensures n == 0 <==> BBArgEmpty()
    {
      |args|
    }

    predicate BBArgEmpty()
      reads this`args
    {
      args == []
    }

    /** The `i`-th block argument; asking past the end is a contract violation. */
    function GetBBArg(i: nat): (a: Argument)
      reads this`args
      requires i < GetNumBBArg()
      ensures a in args
    {
      args[i]
    }

    /**
     * The count and the indexed arguments determine the argument list: two
     * blocks have the same arguments exactly when they agree on both.
     */
    lemma SameArguments(other: Block)
      ensures args == other.args <==>
                GetNumBBArg() == other.GetNumBBArg() &&
                forall j :: 0 <= j < GetNumBBArg() ==> GetBBArg(j) == other.GetBBArg(j)
    {
      if GetNumBBArg() == other.GetNumBBArg() && forall j :: 0 <= j < GetNumBBArg() ==> GetBBArg(j) == other.GetBBArg(j) {
        forall j | 0 <= j < |args|
          ensures args[j] == other.args[j]
        {
          assert GetBBArg(j) == other.GetBBArg(j);
        }
      }
    }

    //===------------------------------------------------------------------===//
    // Argument list manipulation
    //===------------------------------------------------------------------===//

    /** Appends `a` to the argument list; nothing else changes. */
    method AddArgument(a: Argument)
      modifies this`args
      ensures GetNumBBArg() == old(GetNumBBArg()) + 1
      ensures forall j :: 0 <= j < old(GetNumBBArg()) ==> GetBBArg(j) == old(GetBBArg(j))
      ensures GetBBArg(GetNumBBArg() - 1) == a
      ensures old(parent.Valid()) ==> parent.Valid()
    {
      args := args + [a];
    }

    /** Removes the `idx`-th argument; the later ones move down by one. */
    method EraseArgument(idx: nat)
      requires idx < GetNumBBArg()
      modifies this`args
      ensures GetNumBBArg() == old(GetNumBBArg()) - 1
      ensures forall j :: 0 <= j < idx ==> GetBBArg(j) == old(GetBBArg(j))
      ensures forall j :: idx <= j < GetNumBBArg() ==> GetBBArg(j) == old(GetBBArg(j + 1))
      ensures old(parent.Valid()) ==> parent.Valid()
    {
      args := args[..idx] + args[idx + 1..];
    }

    /** Removes every argument; nothing else changes. */
    method DropAllArgs()
      modifies this`args
      ensures BBArgEmpty()
      ensures old(parent.Valid()) ==> parent.Valid()
    {
      args := [];
    }

    //===------------------------------------------------------------------===//
    // Instruction list manipulation
    //===------------------------------------------------------------------===//

    /**
     * Appends a non-terminator instruction. The function stays valid when the
     * block did not already end in a terminator.
     */
    method AppendInstruction(i: Inst)
      requires !i.IsTerminator()
      modifies this`insts
      ensures insts == old(insts) + [i]
      ensures !HasTerminator()
      ensures old(parent.Valid()) && !old(HasTerminator()) ==> parent.Valid()
    {
      insts := insts + [i];
      if old(parent.Valid()) && !old(HasTerminator()) {
        assert insts[|insts| - 1] == i;
        assert SuccessorsOf(insts) == [];
        assert SuccessorsOf(old(insts)) == [];
        assert this in parent.blocks ==> WellFormed(insts);
      }
    }

    /**
     * Appends terminator `t` to a block that has none, and links one edge
     * record per successor operand at the head of its target's predecessor
     * list.
     */
    method AppendTerminator(t: Inst)
      requires parent.Valid() && this in parent.blocks && !HasTerminator()
      requires t.IsTerminator() && forall s :: s in t.succs ==> s in parent.blocks
      modifies parent, this`insts, parent.blocks`preds
      ensures parent.Valid() && parent.blocks == old(parent.blocks)
      ensures insts == old(insts) + [t] && HasTerminator() && GetTerminator() == t
      ensures forall s :: s in parent.blocks ==> s.preds == IncomingFrom(this, t.succs, s) + old(s.preds)
    {
      var f := parent;
      ghost var succMap0: map<Block, seq<Block>>, predMap0: map<Block, seq<EdgeRef<Block>>> := f.succMap, f.predMap;
      assert WellFormed(insts) && succMap0[this] == [];
      AppendShape(insts, t);
      insts := insts + [t];
      f.LinkEdges(this, t.succs);
      f.ResyncAfterLink(this, succMap0, predMap0);
    }

    /**
     * Splits the block at instruction position `i`: the instructions before
     * `i` stay, the new block that follows this one in the function holds `i`
     * to the end in the same order, and this block is left without a
     * terminator. Edge records of a moved terminator now name the new block.
     */
    method SplitBasicBlock(i: nat) returns (nb: Block)
      requires parent.Valid() && this in parent.blocks && i <= |insts|
      modifies parent, this`insts, parent.blocks`preds
      ensures parent.Valid()
      ensures fresh(nb) && nb.parent == parent
      ensures insts + nb.insts == old(insts) && |insts| == i
      ensures HasTerminator() <==> i == old(|insts|) && old(HasTerminator())
      ensures nb.args == [] && nb.preds == []
      ensures parent.blocks == InsertAfter(old(parent.blocks), this, nb)
      ensures forall s :: s in parent.blocks <==> s in old(parent.blocks) || s == nb
      ensures forall j :: 0 <= j < |parent.blocks| ==> parent.blocks[j] in old(parent.blocks) || parent.blocks[j] == nb
      ensures forall s :: s in old(parent.blocks) ==>
                s.preds == if i < old(|insts|) then MoveSource(old(s.preds), this, nb) else old(s.preds)
    {
      nb := parent.SplitBlock(this, i);
    }

    /**
     * Splits the block at position `i` as `SplitBasicBlock` does, then ends
     * this block with an unconditional branch to the new block, whose
     * predecessor list is that branch's one edge record.
     */
    method SplitBasicBlockAndBranch(i: nat, branchLoc: Location) returns (nb: Block)
      requires parent.Valid() && this in parent.blocks && i <= |insts|
      requires i < |insts| || !HasTerminator()
      modifies parent, this`insts, parent.blocks`preds
      ensures parent.Valid()
      ensures fresh(nb) && nb.parent == parent
      ensures insts == old(insts[..i]) + [Term(Branch, branchLoc, [nb])]
      ensures nb.insts == old(insts[i..])
      ensures HasTerminator() && GetSingleSuccessor() == Some(nb)
      ensures nb.preds == [EdgeRef(this, 0)] && nb.GetSinglePredecessor() == Some(this)
      ensures nb.args == []
      ensures parent.blocks == InsertAfter(old(parent.blocks), this, nb)
      ensures forall s :: s in old(parent.blocks) ==>
                s.preds == if i < old(|insts|) then MoveSource(old(s.preds), this, nb) else old(s.preds)
    {
      nb := SplitBasicBlock(i);
      BranchTo(nb, branchLoc);
    }

    /**
     * Ends the block with an unconditional branch to block `t`, which gains
     * the branch's one edge record; no other predecessor list changes.
     */
    method BranchTo(t: Block, loc: Location)
      requires parent.Valid() && this in parent.blocks && !HasTerminator() && t in parent.blocks
      modifies parent, this`insts, parent.blocks`preds
      ensures parent.Valid() && parent.blocks == old(parent.blocks)
      ensures insts == old(insts) + [Term(Branch, loc, [t])]
      ensures GetSingleSuccessor() == Some(t)
      ensures t.preds == [EdgeRef(this, 0)] + old(t.preds)
      ensures forall s :: s in parent.blocks && s != t ==> s.preds == old(s.preds)
    {
      IncomingFromSingle(this, t);
      AppendTerminator(Term(Branch, loc, [t]));
    }

    /**
     * Points the `k`-th successor operand of the terminator at block `t1`:
     * its edge record leaves the old target's predecessor list and is linked
     * at the head of `t1`'s. Nothing happens when the target is unchanged.
     */
    method SetSuccessor(k: nat, t1: Block)
      requires parent.Valid() && this in parent.blocks && HasTerminator()
      requires k < |GetSuccs()| && t1 in parent.blocks
      modifies parent`succMap, parent`predMap, this`insts, (GetSuccs()[k] as Block)`preds, t1`preds
      ensures parent.Valid() && parent.blocks == old(parent.blocks)
      ensures var t := old(GetTerminator());
              insts == old(insts[..|insts| - 1]) + [t.(succs := t.succs[k := t1])]
      ensures var t0 := old(GetSuccs()[k]);
              t0 != t1 ==>
                t0.preds == Without(old(t0.preds), EdgeRef(this, k)) && t1.preds == [EdgeRef(this, k)] + old(t1.preds)
      ensures old(GetSuccs()[k]) == t1 ==> unchanged(t1`preds)
    {
      var f := parent;
      var term := GetTerminator();
      var t0 := term.succs[k];
      if t0 == t1 {
        assert term.succs[k := t1] == term.succs;
        return;
      }
      var e := EdgeRef(this, k);
      ghost var succMap0: map<Block, seq<Block>>, predMap0: map<Block, seq<EdgeRef<Block>>> := f.succMap, f.predMap;
      assert succMap0[this] == term.succs && WellFormed(insts);
      assert t0 in f.blocks by {
        assert t0 in succMap0[this];
      }
      insts := insts[..|insts| - 1] + [term.(succs := term.succs[k := t1])];
      assert WellFormed(insts) && SuccessorsOf(insts) == term.succs[k := t1] by {
        assert insts[..|insts| - 1] == old(insts[..|insts| - 1]);
      }
      t0.preds := Without(t0.preds, e);
      t1.preds := [e] + t1.preds;
      f.ResyncAfterRetarget(this, k, t1, succMap0, predMap0);
    }

    /**
     * Erases the terminator: each of its edge records unlinks itself from its
     * target's predecessor list, and the block is left without a terminator.
     */
    method EraseTerminator()
      requires parent.Valid() && this in parent.blocks && HasTerminator()
      modifies parent, this`insts, parent.blocks`preds
      ensures parent.Valid() && parent.blocks == old(parent.blocks)
      ensures insts == old(insts[..|insts| - 1]) && !HasTerminator()
      ensures forall s :: s in parent.blocks ==> s.preds == DropSource(old(s.preds), this)
    {
      var f := parent;
      ghost var succMap0: map<Block, seq<Block>>, predMap0: map<Block, seq<EdgeRef<Block>>> := f.succMap, f.predMap;
      assert WellFormed(insts);
      insts := insts[..|insts| - 1];
      f.DropEdgeSources(this);
      f.ResyncAfterErase(this, succMap0, predMap0);
    }
  }

  class Function {
    /** The blocks of the function, in order. */
    var blocks: seq<Block>
    /** Every block's successor list, as its terminator gives it. */
    ghost var succMap: map<Block, seq<Block>>
    /** Every block's predecessor list. */
    ghost var predMap: map<Block, seq<EdgeRef<Block>>>

    /**
     * The object invariant: blocks occur once and name this function as their
     * parent, terminators stand only at the end of a block, the two ghost
     * maps mirror every block's successors and predecessor list, and every
     * predecessor list holds exactly the edge records that target its block.
     */
    ghost predicate Valid()
      reads this, blocks
    {
      && NoDuplicates(blocks)
      && (forall b :: b in blocks ==> b.parent == this && WellFormed(b.insts))
      && Linked(blocks, succMap, predMap)
      && (forall b :: b in blocks ==> succMap[b] == SuccessorsOf(b.insts) && predMap[b] == b.preds)
    }

    constructor ()
      ensures Valid() && blocks == []
    {
      blocks := [];
      succMap := map[];
      predMap := map[];
    }

    /** Creates an empty block owned by this function, at the end of the block list. */
    method CreateBlock() returns (b: Block)
      requires Valid()
      modifies this
      ensures Valid() && fresh(b) && blocks == old(blocks) + [b]
      ensures b.parent == this && b.insts == [] && b.args == [] && b.preds == []
    {
      ghost var bs := blocks;
      b := new Block(this);
      AppendKeepsDistinct(bs, b);
      blocks := blocks + [b];
      AddBlock(bs, succMap, predMap, b, blocks);
      succMap := succMap[b := []];
      predMap := predMap[b := []];
      forall x | x in blocks
        ensures x.parent == this && WellFormed(x.insts)
        ensures succMap[x] == SuccessorsOf(x.insts) && predMap[x] == x.preds
      {
        if x != b {
          assert x in bs;
        }
      }
    }

    /** Creates an empty block owned by this function, right after block `b` in the block list. */
    method CreateBlockAfter(b: Block) returns (nb: Block)
      requires Valid() && b in blocks
      modifies this
      ensures Valid() && fresh(nb)
      ensures blocks == InsertAfter(old(blocks), b, nb)
      ensures forall x :: x in blocks <==> x in old(blocks) || x == nb
      ensures forall j :: 0 <= j < |blocks| ==> blocks[j] in old(blocks) || blocks[j] == nb
      ensures nb.parent == this && nb.insts == [] && nb.args == [] && nb.preds == []
    {
      ghost var bs := blocks;
      nb := new Block(this);
      InsertBlockAfter(b, nb);
      AddBlock(bs, succMap, predMap, nb, blocks);
      succMap := succMap[nb := []];
      predMap := predMap[nb := []];
      forall x | x in blocks
        ensures x.parent == this && WellFormed(x.insts)
        ensures succMap[x] == SuccessorsOf(x.insts) && predMap[x] == x.preds
      {
        if x != nb {
          assert x in old(blocks);
        }
      }
    }

    /** Splits block `b` at instruction position `i`; see `Block.SplitBasicBlock`. */
    method SplitBlock(b: Block, i: nat) returns (nb: Block)
      requires Valid() && b in blocks && i <= |b.insts|
      modifies this, b`insts, blocks`preds
      ensures Valid()
      ensures fresh(nb) && nb.parent == this
      ensures b.insts + nb.insts == old(b.insts) && |b.insts| == i
      ensures b.HasTerminator() <==> i == old(|b.insts|) && old(b.HasTerminator())
      ensures nb.args == [] && nb.preds == []
      ensures blocks == InsertAfter(old(blocks), b, nb)
      ensures forall s :: s in blocks <==> s in old(blocks) || s == nb
      ensures forall j :: 0 <= j < |blocks| ==> blocks[j] in old(blocks) || blocks[j] == nb
      ensures forall s :: s in old(blocks) ==>
                s.preds == if i < old(|b.insts|) then MoveSource(old(s.preds), b, nb) else old(s.preds)
    {
      ghost var bs := blocks;
      nb := CreateBlockAfter(b);
      if i < |b.insts| {
        MoveTail(b, nb, i, bs);
      } else {
        assert b.insts + nb.insts == b.insts;
      }
    }

    /**
     * Moves instructions `i` to the end of block `b`, its terminator among
     * them, into the empty block `nb`; the records of the moved terminator
     * now name `nb` as their source.
     */
    method MoveTail(b: Block, nb: Block, i: nat, ghost bs: seq<Block>)
      requires Valid() && b in blocks && nb in blocks && b != nb && i < |b.insts|
      requires nb.insts == [] && nb.preds == []
      requires forall j :: 0 <= j < |blocks| ==> blocks[j] in bs || blocks[j] == nb
      modifies b`insts, nb`insts, nb`preds, bs`preds, this`succMap, this`predMap
      ensures Valid()
      ensures b.insts + nb.insts == old(b.insts) && |b.insts| == i && !b.HasTerminator()
      ensures forall s :: s in blocks ==> s.preds == MoveSource(old(s.preds), b, nb)
    {
      ghost var out: map<Block, seq<Block>>, ins: map<Block, seq<EdgeRef<Block>>> := succMap, predMap;
      var head, tail := b.insts[..i], b.insts[i..];
      assert WellFormed(b.insts) && out[b] == SuccessorsOf(b.insts) && out[nb] == [] && ins[nb] == [];
      SplitShape(b.insts, i);
      assert head + tail == b.insts;
      nb.insts := tail;
      b.insts := head;
      MoveEdgeSources(b, nb);
      ResyncAfterMove(b, nb, out, ins);
    }

    /** Inserts block `nb` into the block list right after block `b`. */
    method InsertBlockAfter(b: Block, nb: Block)
      requires NoDuplicates(blocks) && b in blocks && nb !in blocks
      modifies this`blocks
      ensures blocks == InsertAfter(old(blocks), b, nb)
      ensures forall x :: x in blocks <==> x in old(blocks) || x == nb
      ensures NoDuplicates(blocks)
    {
      InsertKeepsDistinct(blocks, IndexOf(blocks, b) + 1, nb);
      blocks := InsertAfter(blocks, b, nb);
    }

    /** Links, at the head of each target's predecessor list, one record per successor of `src`. */
    method LinkEdges(src: Block, succs: seq<Block>)
      requires forall s :: s in succs ==> s in blocks
      modifies blocks`preds
      ensures blocks == old(blocks)
      ensures forall b :: b in blocks ==> b.preds == IncomingFrom(src, succs, b) + old(b.preds)
    {
      var k := 0;
      while k < |succs|
        invariant 0 <= k <= |succs| && blocks == old(blocks)
        invariant forall b :: b in blocks ==> b.preds == IncomingFrom(src, succs[..k], b) + old(b.preds)
      {
        var s := succs[k];
        assert s in succs;
        forall b | b in blocks
          ensures IncomingFrom(src, succs[..k + 1], b) + old(b.preds)
               == if b == s then [EdgeRef(src, k)] + b.preds else b.preds
        {
          IncomingFromStep(src, succs, k, b);
        }
        s.preds := [EdgeRef(src, k)] + s.preds;
        k := k + 1;
      }
      assert succs[..k] == succs;
    }

    /** Renames, in every predecessor list, the records of block `from`'s terminator to block `to`. */
    method MoveEdgeSources(from: Block, to: Block)
      requires NoDuplicates(blocks)
      modifies blocks`preds
      ensures blocks == old(blocks)
      ensures forall b :: b in blocks ==> b.preds == MoveSource(old(b.preds), from, to)
    {
      var j := 0;
      while j < |blocks|
        invariant 0 <= j <= |blocks| && blocks == old(blocks)
        invariant forall b :: b in blocks ==>
                    b.preds == if b in blocks[..j] then MoveSource(old(b.preds), from, to) else old(b.preds)
      {
        var b := blocks[j];
        b.preds := MoveSource(b.preds, from, to);
        j := j + 1;
      }
    }

    /** Removes, from every predecessor list, the records of block `src`'s terminator. */
    method DropEdgeSources(src: Block)
      requires NoDuplicates(blocks)
      modifies blocks`preds
      ensures blocks == old(blocks)
      ensures forall b :: b in blocks ==> b.preds == DropSource(old(b.preds), src)
    {
      var j := 0;
      while j < |blocks|
        invariant 0 <= j <= |blocks| && blocks == old(blocks)
        invariant forall b :: b in blocks ==>
                    b.preds == if b in blocks[..j] then DropSource(old(b.preds), src) else old(b.preds)
      {
        var b := blocks[j];
        b.preds := DropSource(b.preds, src);
        j := j + 1;
      }
    }

    /**
     * Re-establishes the invariant once block `src`, which had no terminator,
     * has gained one and every successor's list has been given its records;
     * `out` and `ins` are the two maps from before the edit.
     */
    ghost method ResyncAfterLink(src: Block, out: map<Block, seq<Block>>, ins: map<Block, seq<EdgeRef<Block>>>)
      requires NoDuplicates(blocks) && Linked(blocks, out, ins) && src in blocks && out[src] == []
      requires forall b :: b in blocks ==> b.parent == this && WellFormed(b.insts)
      requires forall b :: b in blocks && b != src ==> out[b] == SuccessorsOf(b.insts)
      requires forall s :: s in SuccessorsOf(src.insts) ==> s in blocks
      requires forall b :: b in blocks ==> b.preds == IncomingFrom(src, SuccessorsOf(src.insts), b) + ins[b]
      modifies this`succMap, this`predMap
      ensures Valid()
    {
      var succs := SuccessorsOf(src.insts);
      LinkSuccessors(blocks, out, ins, src, succs);
      succMap := out[src := succs];
      predMap := LinkAll(ins, src, succs);
    }

    /**
     * Re-establishes the invariant once block `nb`, which had neither
     * instructions nor predecessors, has taken over the terminator of block
     * `b`, and every record of that terminator names `nb`; `out` and `ins`
     * are the two maps from before the move.
     */
    ghost method ResyncAfterMove(b: Block, nb: Block, out: map<Block, seq<Block>>, ins: map<Block, seq<EdgeRef<Block>>>)
      requires NoDuplicates(blocks) && Linked(blocks, out, ins) && b in blocks && nb in blocks && b != nb
      requires out[nb] == [] && ins[nb] == []
      requires var out' := out[b := []][nb := out[b]];
               var ins' := MoveAll(ins, b, nb);
               forall x :: x in blocks ==>
                 x.parent == this && WellFormed(x.insts) && SuccessorsOf(x.insts) == out'[x] && x.preds == ins'[x]
      modifies this`succMap, this`predMap
      ensures Valid()
    {
      MoveTerminator(blocks, out, ins, b, nb);
      succMap := out[b := []][nb := out[b]];
      predMap := MoveAll(ins, b, nb);
    }

    /**
     * Re-establishes the invariant once the `k`-th successor of block `src`
     * names `t1` instead of a different block, and the two targets' lists
     * have lost and gained its record; `out` and `ins` are from before.
     */
    ghost method ResyncAfterRetarget(src: Block, k: nat, t1: Block,
                                     out: map<Block, seq<Block>>, ins: map<Block, seq<EdgeRef<Block>>>)
      requires NoDuplicates(blocks) && Linked(blocks, out, ins) && src in blocks && t1 in blocks
      requires k < |out[src]| && out[src][k] != t1
      requires var out' := out[src := out[src][k := t1]];
               var ins' := Relink(ins, EdgeRef(src, k), out[src][k], t1);
               forall b :: b in blocks ==>
                 b.parent == this && WellFormed(b.insts) && SuccessorsOf(b.insts) == out'[b] && b.preds == ins'[b]
      modifies this`succMap, this`predMap
      ensures Valid()
    {
      RetargetEdge(blocks, out, ins, src, k, t1);
      succMap := out[src := out[src][k := t1]];
      predMap := Relink(ins, EdgeRef(src, k), out[src][k], t1);
    }

    /**
     * Re-establishes the invariant once block `src` has lost its terminator
     * and every predecessor list has dropped `src`'s records; `out` and `ins`
     * are the two maps from before the edit.
     */
    ghost method ResyncAfterErase(src: Block, out: map<Block, seq<Block>>, ins: map<Block, seq<EdgeRef<Block>>>)
      requires NoDuplicates(blocks) && Linked(blocks, out, ins) && src in blocks
      requires forall b :: b in blocks ==> b.parent == this && WellFormed(b.insts)
      requires forall b :: b in blocks && b != src ==> out[b] == SuccessorsOf(b.insts)
      requires SuccessorsOf(src.insts) == []
      requires forall b :: b in blocks ==> b.preds == DropSource(ins[b], src)
      modifies this`succMap, this`predMap
      ensures Valid()
    {
      UnlinkSuccessors(blocks, out, ins, src);
      succMap := out[src := []];
      predMap := DropAll(ins, src);
    }

    //===------------------------------------------------------------------===//
    // What the invariant says about the block queries
    //===------------------------------------------------------------------===//

    /** `PredEmpty` holds exactly when no terminator of the function branches to the block. */
    lemma PredEmptyIffNoBranchIn(b: Block)
      requires Valid() && b in blocks
      ensures b.PredEmpty() <==>
                forall s, k :: s in blocks && 0 <= k < |SuccessorsOf(s.insts)| ==> SuccessorsOf(s.insts)[k] != b
    {
      PredEmptyIffNoInEdge(blocks, succMap, predMap, b);
    }

    /**
     * `GetSinglePredecessor` answers a block exactly when one edge of the
     * function targets `b`, and then that edge leaves the answered block.
     */
    lemma SinglePredecessorIffOneEdge(b: Block)
      requires Valid() && b in blocks
      ensures b.GetSinglePredecessor().Some? <==> |InEdges(blocks, succMap, b)| == 1
      ensures b.GetSinglePredecessor().Some? ==>
                InEdges(blocks, succMap, b) == {b.preds[0]} && b.GetSinglePredecessor().value in blocks
    {
      PredCount(blocks, succMap, predMap, b);
      if |b.preds| == 1 {
        var e := b.preds[0];
        assert Targets(succMap, e, b);
        assert e in InEdges(blocks, succMap, b);
      }
    }

    /** Two successor operands of one terminator naming `b` leave `b` with no single predecessor. */
    lemma TwoEdgesNoSinglePredecessor(b: Block, s: Block, k1: nat, k2: nat)
      requires Valid() && b in blocks && s in blocks
      requires k1 < k2 < |SuccessorsOf(s.insts)| && SuccessorsOf(s.insts)[k1] == b && SuccessorsOf(s.insts)[k2] == b
      ensures b.GetSinglePredecessor() == None
    {
      TwoEdgesTwoEntries(blocks, succMap, predMap, b, s, k1, k2);
    }

    /** `SuccEmpty` holds exactly when no predecessor list of the function holds a record from `b`. */
    lemma SuccEmptyIffNoRecordFrom(b: Block)
      requires Valid() && b in blocks && b.HasTerminator()
      ensures b.SuccEmpty() <==> forall t, e :: t in blocks && e in t.preds ==> e.src != b
    {
      SuccEmptyIffNoOutRecord(blocks, succMap, predMap, b);
    }

    /** The one successor of `b`, if any, lists `b`'s edge record among its predecessors. */
    lemma SingleSuccessorLinksBack(b: Block)
      requires Valid() && b in blocks && b.HasTerminator() && b.GetSingleSuccessor().Some?
      ensures EdgeRef(b, 0) in b.GetSingleSuccessor().value.preds
    {
    }
  }
}
