/**
 * The edge-record bookkeeping behind a basic block's predecessor list, stated
 * over plain values.
 *
 * A control-flow graph is described by three values:
 *  - `blocks`: the blocks of one function, in function order;
 *  - `out`: for every block, the successor list of the terminator that ends it
 *    (empty when the block has no terminator);
 *  - `ins`: for every block, its predecessor list, a sequence of edge records.
 *
 * An edge record `EdgeRef(src, idx)` names the `idx`-th successor operand of
 * the terminator of block `src`. `Linked` is the invariant the predecessor
 * lists are meant to keep: every block's list holds exactly the edge records
 * that target it, each once. The lemmas show that the edits a block performs
 * (adding a block, moving a terminator to another block, linking, unlinking or
 * retargeting edge records) keep `Linked`, and what the invariant says about
 * the emptiness and size of a predecessor list.
 */
module PredecessorLists {

  /** The `idx`-th successor operand of the terminator that ends block `src`. */
  datatype EdgeRef<N> = EdgeRef(src: N, idx: nat)

  predicate NoDuplicates<T(==)>(s: seq<T>) {
    forall i, j :: 0 <= i < j < |s| ==> s[i] != s[j]
  }

  /** Edge record `e` exists under `out` and points at block `b`. */
  predicate Targets<N(==)>(out: map<N, seq<N>>, e: EdgeRef<N>, b: N) {
    e.src in out && e.idx < |out[e.src]| && out[e.src][e.idx] == b
  }

  /**
   * The predecessor lists `ins` agree with the successor lists `out`: each
   * block's list holds no record twice, holds only records that target it, and
   * holds every record that targets it.
   */
  ghost predicate Linked<N>(blocks: seq<N>, out: map<N, seq<N>>, ins: map<N, seq<EdgeRef<N>>>) {
    && (forall b :: b in blocks ==> b in out && b in ins)
    && (forall b :: b in ins ==> b in blocks)
    && (forall b, k {:trigger out[b][k]} :: b in blocks && b in out && 0 <= k < |out[b]| ==> out[b][k] in blocks)
    && (forall b :: b in blocks && b in ins ==> NoDuplicates(ins[b]))
    && (forall b, e :: b in blocks && b in ins && e in ins[b] ==> Incoming(blocks, out, e, b))
    && (forall s, k {:trigger out[s][k]} :: s in blocks && s in out && 0 <= k < |out[s]| && out[s][k] in ins ==>
          EdgeRef(s, k) in ins[out[s][k]])
  }

  /** Edge record `e` leaves a block of the function and points at block `b`. */
  predicate Incoming<N(==)>(blocks: seq<N>, out: map<N, seq<N>>, e: EdgeRef<N>, b: N) {
    e.src in blocks && Targets(out, e, b)
  }

  /** The set of edge records that target `b`: the predecessor edges the terminators define. */
  ghost function InEdges<N>(blocks: seq<N>, out: map<N, seq<N>>, b: N): set<EdgeRef<N>> {
    set s, k | s in blocks && s in out && 0 <= k < |out[s]| && out[s][k] == b :: EdgeRef(s, k)
  }

  //===--------------------------------------------------------------------===//
  // Sequence helpers
  //===--------------------------------------------------------------------===//

  /** `s` with every occurrence of `x` removed. */
  function Without<T(==)>(s: seq<T>, x: T): (r: seq<T>)
    ensures forall y :: y in r ==> y in s && y != x
    ensures forall y :: y in s && y != x ==> y in r
    ensures NoDuplicates(s) ==> NoDuplicates(r)
    ensures NoDuplicates(s) && x in s ==> |r| == |s| - 1
    ensures x !in s ==> r == s
  {
    if s == [] then []
    else
      var rest := Without(s[1..], x);
      assert s == [s[0]] + s[1..];
      TailDistinct(s);
      if s[0] == x then rest else [s[0]] + rest
  }

  /** The head of a duplicate-free sequence does not recur, and its tail is duplicate-free. */
  lemma TailDistinct<T>(s: seq<T>)
    requires s != []
    ensures NoDuplicates(s) ==> s[0] !in s[1..] && NoDuplicates(s[1..])
    ensures forall x :: x !in s[1..] && NoDuplicates(s[1..]) ==> NoDuplicates([x] + s[1..])
  {
  }

  /** The distinct elements of a duplicate-free sequence are as many as its length. */
  lemma {:induction false} DistinctCard<T>(s: seq<T>)
    requires NoDuplicates(s)
    ensures |set x | x in s| == |s|
  {
    if s != [] {
      DistinctCard(s[1..]);
      var tail := set x | x in s[1..];
      assert (set x | x in s) == tail + {s[0]};
      TailDistinct(s);
    }
  }

  /** Inserting a new element keeps a sequence duplicate-free. */
  lemma InsertKeepsDistinct<T>(s: seq<T>, p: nat, x: T)
    requires NoDuplicates(s) && x !in s && p <= |s|
    ensures NoDuplicates(s[..p] + [x] + s[p..])
    ensures forall y :: y in s[..p] + [x] + s[p..] <==> y in s || y == x
  {
  }

  /** Appending a new element keeps a sequence duplicate-free. */
  lemma AppendKeepsDistinct<T>(s: seq<T>, x: T)
    requires NoDuplicates(s) && x !in s
    ensures NoDuplicates(s + [x])
    ensures forall y :: y in s + [x] <==> y in s || y == x
  {
    InsertKeepsDistinct(s, |s|, x);
    assert s[..|s|] + [x] + s[|s|..] == s + [x];
  }

  //===--------------------------------------------------------------------===//
  // Moving a terminator to another block
  //===--------------------------------------------------------------------===//

  /** The edge record `e` after the terminator of block `from` has moved to block `to`. */
  function Moved<N(==)>(e: EdgeRef<N>, from: N, to: N): EdgeRef<N> {
    if e.src == from then EdgeRef(to, e.idx) else e
  }

  /** A predecessor list after the terminator of `from` has moved to `to`: element by element. */
  function MoveSource<N(==)>(ps: seq<EdgeRef<N>>, from: N, to: N): (r: seq<EdgeRef<N>>)
    ensures |r| == |ps|
    ensures forall j :: 0 <= j < |ps| ==> r[j] == Moved(ps[j], from, to)
  {
    if ps == [] then [] else [Moved(ps[0], from, to)] + MoveSource(ps[1..], from, to)
  }

  /** Every predecessor list after the terminator of `from` has moved to `to`. */
  function MoveAll<N(==)>(ins: map<N, seq<EdgeRef<N>>>, from: N, to: N): map<N, seq<EdgeRef<N>>> {
    map t | t in ins :: MoveSource(ins[t], from, to)
  }

  /**
   * A new block with no instructions and no predecessors can join the function
   * without disturbing the predecessor lists.
   */
  lemma AddBlock<N>(blocks: seq<N>, out: map<N, seq<N>>, ins: map<N, seq<EdgeRef<N>>>, nb: N, blocks': seq<N>)
    requires Linked(blocks, out, ins) && nb !in blocks
    requires forall x :: x in blocks' <==> x in blocks || x == nb
    ensures Linked(blocks', out[nb := []], ins[nb := []])
  {
  }

  /**
   * Moving the whole terminator of `b` into `nb`, a block of the function with
   * no terminator and no predecessors, leaves `b` without out-edges and gives
   * `nb` those of `b`; renaming the source of the moved edge records in every
   * predecessor list keeps the lists exact.
   */
  lemma MoveTerminator<N>(blocks: seq<N>, out: map<N, seq<N>>, ins: map<N, seq<EdgeRef<N>>>, b: N, nb: N)
    requires Linked(blocks, out, ins) && b in blocks && nb in blocks && b != nb
    requires out[nb] == [] && ins[nb] == []
    ensures Linked(blocks, out[b := []][nb := out[b]], MoveAll(ins, b, nb))
  {
    var out' := out[b := []][nb := out[b]];
    var ins' := MoveAll(ins, b, nb);
    forall x, k | x in blocks && 0 <= k < |out'[x]|
      ensures out'[x][k] in blocks
    {
      if x == nb {
        assert out'[x][k] == out[b][k];
      } else {
        assert x != b && out'[x][k] == out[x][k];
      }
    }
    forall x | x in blocks
      ensures NoDuplicates(ins'[x])
    {
      var ps := ins[x];
      var r := ins'[x];
      forall i, j | 0 <= i < j < |r|
        ensures r[i] != r[j]
      {
        assert ps[i] in ps && ps[j] in ps;
        assert Incoming(blocks, out, ps[i], x) && Incoming(blocks, out, ps[j], x);
        assert ps[i].src != nb && ps[j].src != nb;
      }
    }
    forall x, e: EdgeRef<N> | x in blocks && e in ins'[x]
      ensures Incoming(blocks, out', e, x)
    {
      var ps := ins[x];
      var j :| 0 <= j < |ins'[x]| && ins'[x][j] == e;
      assert ps[j] in ps;
      assert Incoming(blocks, out, ps[j], x);
    }
    forall s, k | s in blocks && 0 <= k < |out'[s]|
      ensures EdgeRef(s, k) in ins'[out'[s][k]]
    {
      var t := out'[s][k];
      var s0 := if s == nb then b else s;
      assert out[s0][k] == t;
      assert EdgeRef(s0, k) in ins[t];
      var j :| 0 <= j < |ins[t]| && ins[t][j] == EdgeRef(s0, k);
      assert ins'[t][j] == EdgeRef(s, k);
    }
  }

  //===--------------------------------------------------------------------===//
  // Linking and unlinking edge records
  //===--------------------------------------------------------------------===//

  /**
   * The edge records that a successor list `succs` of block `src` links into
   * the predecessor list of `t`, in the order they end up at its front:
   * each record is pushed at the head, so the last successor comes first.
   */
  function IncomingFrom<N(==)>(src: N, succs: seq<N>, t: N): seq<EdgeRef<N>>
    decreases |succs|
  {
    if succs == [] then []
    else
      var n := |succs| - 1;
      (if succs[n] == t then [EdgeRef(src, n)] else []) + IncomingFrom(src, succs[..n], t)
  }

  /**
   * `IncomingFrom(src, succs, t)` holds exactly the records of the successor
   * operands of `succs` that name `t`, each once.
   */
  lemma {:induction false} IncomingFromExact<N>(src: N, succs: seq<N>, t: N)
    ensures forall e :: e in IncomingFrom(src, succs, t) ==> OperandOf(src, succs, e, t)
    ensures forall k :: 0 <= k < |succs| && succs[k] == t ==> EdgeRef(src, k) in IncomingFrom(src, succs, t)
    ensures NoDuplicates(IncomingFrom(src, succs, t))
    decreases |succs|
  {
    if succs != [] {
      var n := |succs| - 1;
      var rest := IncomingFrom(src, succs[..n], t);
      IncomingFromExact(src, succs[..n], t);
      forall e | e in rest
        ensures e.idx < n && OperandOf(src, succs, e, t)
      {
        assert OperandOf(src, succs[..n], e, t);
      }
    }
  }

  /** Edge record `e` is the record of an operand of a terminator of `src`, with successors `succs`, naming `t`. */
  predicate OperandOf<N(==)>(src: N, succs: seq<N>, e: EdgeRef<N>, t: N) {
    e.src == src && e.idx < |succs| && succs[e.idx] == t
  }

  /** Linking successor `k` pushes its one record at the head of its target's list, and touches no other list. */
  lemma IncomingFromStep<N>(src: N, succs: seq<N>, k: nat, t: N)
    requires k < |succs|
    ensures IncomingFrom(src, succs[..k + 1], t)
         == (if succs[k] == t then [EdgeRef(src, k)] else []) + IncomingFrom(src, succs[..k], t)
  {
    assert succs[..k + 1][..k] == succs[..k];
  }

  /** A terminator with one successor operand links its one record into its target's list only. */
  lemma IncomingFromSingle<N>(src: N, t: N)
    ensures forall u :: IncomingFrom(src, [t], u) == if t == u then [EdgeRef(src, 0)] else []
  {
  }

  /** Every predecessor list after the terminator of `src`, with successors `succs`, is created. */
  function LinkAll<N(==)>(ins: map<N, seq<EdgeRef<N>>>, src: N, succs: seq<N>): map<N, seq<EdgeRef<N>>> {
    map t | t in ins :: IncomingFrom(src, succs, t) + ins[t]
  }

  /** A predecessor list without the records whose source is block `src`. */
  function DropSource<N(==)>(ps: seq<EdgeRef<N>>, src: N): seq<EdgeRef<N>> {
    if ps == [] then []
    else
      var rest := DropSource(ps[1..], src);
      if ps[0].src == src then rest else [ps[0]] + rest
  }

  /**
   * `DropSource(ps, src)` keeps exactly the records of `ps` whose source is
   * not `src`, and keeps a duplicate-free list duplicate-free.
   */
  lemma {:induction false} DropSourceExact<N>(ps: seq<EdgeRef<N>>, src: N)
    ensures forall e :: e in DropSource(ps, src) ==> e in ps && e.src != src
    ensures forall e :: e in ps && e.src != src ==> e in DropSource(ps, src)
    ensures NoDuplicates(ps) ==> NoDuplicates(DropSource(ps, src))
  {
    if ps != [] {
      DropSourceExact(ps[1..], src);
      assert ps == [ps[0]] + ps[1..];
      TailDistinct(ps);
      if ps[0].src != src && NoDuplicates(ps) {
        var rest := DropSource(ps[1..], src);
        assert ps[0] !in rest;
      }
    }
  }

  /** Every predecessor list after the terminator of `src` is destroyed. */
  function DropAll<N(==)>(ins: map<N, seq<EdgeRef<N>>>, src: N): map<N, seq<EdgeRef<N>>> {
    map t | t in ins :: DropSource(ins[t], src)
  }

  /** Appending one successor to the terminator of `b` and linking its record at the head of the target's list. */
  lemma AddEdge<N>(blocks: seq<N>, out: map<N, seq<N>>, ins: map<N, seq<EdgeRef<N>>>, b: N, t: N)
    requires Linked(blocks, out, ins) && b in blocks && t in blocks
    ensures Linked(blocks, out[b := out[b] + [t]], ins[t := [EdgeRef(b, |out[b]|)] + ins[t]])
  {
    var n := |out[b]|;
    var out' := out[b := out[b] + [t]];
    var ins' := ins[t := [EdgeRef(b, n)] + ins[t]];
    assert EdgeRef(b, n) !in ins[t];
    forall x, u | x in blocks && u in out'[x]
      ensures u in blocks
    {
      if x == b && u != t {
        assert u in out[b] by {
          var j :| 0 <= j < |out'[b]| && out'[b][j] == u;
          assert j < n && out[b][j] == u;
        }
      }
    }
    forall x | x in blocks
      ensures NoDuplicates(ins'[x])
    {
      if x == t {
        var r := ins'[t];
        forall i, j | 0 <= i < j < |r|
          ensures r[i] != r[j]
        {
          if i == 0 {
            assert r[j] == ins[t][j - 1];
          } else {
            assert r[i] == ins[t][i - 1] && r[j] == ins[t][j - 1];
          }
        }
      }
    }
    forall x, e: EdgeRef<N> | x in blocks && e in ins'[x]
      ensures e.src in blocks && Targets(out', e, x)
    {
      if e != EdgeRef(b, n) || x != t {
        assert e in ins[x];
        assert Targets(out, e, x);
      }
    }
    forall s, k | s in blocks && 0 <= k < |out'[s]|
      ensures EdgeRef(s, k) in ins'[out'[s][k]]
    {
      if s != b || k < n {
        assert out'[s][k] == out[s][k];
        assert EdgeRef(s, k) in ins[out[s][k]];
      }
    }
  }

  /**
   * Creating a terminator with successors `succs` at the end of a block that
   * has none, and linking one record per successor operand, keeps the
   * predecessor lists exact.
   */
  lemma {:induction false} LinkSuccessors<N>(blocks: seq<N>, out: map<N, seq<N>>, ins: map<N, seq<EdgeRef<N>>>,
                                             b: N, succs: seq<N>)
    requires Linked(blocks, out, ins) && b in blocks && out[b] == []
    requires forall t :: t in succs ==> t in blocks
    ensures Linked(blocks, out[b := succs], LinkAll(ins, b, succs))
    decreases |succs|
  {
    if succs == [] {
      assert out[b := []] == out;
      assert LinkAll(ins, b, []) == ins by {
        forall t | t in ins
          ensures LinkAll(ins, b, [])[t] == ins[t]
        {
          assert IncomingFrom(b, [], t) == [];
        }
      }
    } else {
      var n := |succs| - 1;
      LinkSuccessors(blocks, out, ins, b, succs[..n]);
      LinkLast(blocks, out, ins, b, succs);
    }
  }

  /** Linking the last successor operand after all the others keeps the lists exact. */
  lemma LinkLast<N>(blocks: seq<N>, out: map<N, seq<N>>, ins: map<N, seq<EdgeRef<N>>>, b: N, succs: seq<N>)
    requires succs != [] && b in blocks && succs[|succs| - 1] in blocks
    requires Linked(blocks, out[b := succs[..|succs| - 1]], LinkAll(ins, b, succs[..|succs| - 1]))
    ensures Linked(blocks, out[b := succs], LinkAll(ins, b, succs))
  {
    var n := |succs| - 1;
    var t := succs[n];
    var out1 := out[b := succs[..n]];
    var ins1 := LinkAll(ins, b, succs[..n]);
    AddEdge(blocks, out1, ins1, b, t);
    assert out1[b := out1[b] + [t]] == out[b := succs] by {
      assert succs[..n] + [t] == succs;
    }
    LinkAllStep(ins, b, succs);
  }

  /** The list of `u` after linking all successors, against the list after linking all but the last. */
  lemma LinkOneList<N>(ps: seq<EdgeRef<N>>, b: N, succs: seq<N>, u: N)
    requires succs != []
    ensures var n := |succs| - 1;
            IncomingFrom(b, succs, u) + ps
            == (if succs[n] == u then [EdgeRef(b, n)] else []) + (IncomingFrom(b, succs[..n], u) + ps)
  {
  }

  /** Linking all successors is linking all but the last, then the last one at the head of its target's list. */
  lemma LinkAllStep<N>(ins: map<N, seq<EdgeRef<N>>>, b: N, succs: seq<N>)
    requires succs != [] && succs[|succs| - 1] in ins
    ensures var n := |succs| - 1;
            var ins1 := LinkAll(ins, b, succs[..n]);
            LinkAll(ins, b, succs) == ins1[succs[n] := [EdgeRef(b, n)] + ins1[succs[n]]]
  {
    var n := |succs| - 1;
    var t := succs[n];
    var ins1 := LinkAll(ins, b, succs[..n]);
    var ins2 := ins1[t := [EdgeRef(b, n)] + ins1[t]];
    forall u | u in ins
      ensures LinkAll(ins, b, succs)[u] == ins2[u]
    {
      LinkOneList(ins[u], b, succs, u);
    }
    assert LinkAll(ins, b, succs).Keys == ins2.Keys;
  }

  /**
   * Destroying the terminator of `b` unlinks every one of its edge records:
   * afterwards `b` has no out-edges, no list holds a record from `b`, and the
   * lists are exact.
   */
  lemma UnlinkSuccessors<N>(blocks: seq<N>, out: map<N, seq<N>>, ins: map<N, seq<EdgeRef<N>>>, b: N)
    requires Linked(blocks, out, ins) && b in blocks
    ensures Linked(blocks, out[b := []], DropAll(ins, b))
  {
    var out' := out[b := []];
    var ins' := DropAll(ins, b);
    forall x | x in blocks
      ensures NoDuplicates(ins'[x])
    {
      DropSourceExact(ins[x], b);
    }
    forall x, e: EdgeRef<N> | x in blocks && e in ins'[x]
      ensures Incoming(blocks, out', e, x)
    {
      DropSourceExact(ins[x], b);
      assert e in ins[x] && Incoming(blocks, out, e, x);
    }
    forall s, k | s in blocks && 0 <= k < |out'[s]|
      ensures EdgeRef(s, k) in ins'[out'[s][k]]
    {
      assert s != b && out'[s][k] == out[s][k];
      assert EdgeRef(s, k) in ins[out[s][k]];
      DropSourceExact(ins[out[s][k]], b);
    }
  }

  /** Every predecessor list after edge record `e` has moved from the list of `t0` to the head of the list of `t1`. */
  function Relink<N(==)>(ins: map<N, seq<EdgeRef<N>>>, e: EdgeRef<N>, t0: N, t1: N): map<N, seq<EdgeRef<N>>>
    requires t0 in ins && t1 in ins
  {
    ins[t0 := Without(ins[t0], e)][t1 := [e] + ins[t1]]
  }

  /**
   * Pointing the `k`-th successor operand of the terminator of `b` at a
   * different block: its record leaves the old target's list and is linked at
   * the head of the new target's list.
   */
  lemma RetargetEdge<N>(blocks: seq<N>, out: map<N, seq<N>>, ins: map<N, seq<EdgeRef<N>>>, b: N, k: nat, t1: N)
    requires Linked(blocks, out, ins) && b in blocks && k < |out[b]| && t1 in blocks && out[b][k] != t1
    ensures Linked(blocks, out[b := out[b][k := t1]], Relink(ins, EdgeRef(b, k), out[b][k], t1))
  {
    var t0 := out[b][k];
    var e0 := EdgeRef(b, k);
    var out' := out[b := out[b][k := t1]];
    var ins' := ins[t0 := Without(ins[t0], e0)][t1 := [e0] + ins[t1]];
    assert e0 !in ins[t1];
    forall x, u | x in blocks && u in out'[x]
      ensures u in blocks
    {
      if x == b && u != t1 {
        var j :| 0 <= j < |out'[b]| && out'[b][j] == u;
        assert out[b][j] == u;
      }
    }
    forall x | x in blocks
      ensures NoDuplicates(ins'[x])
    {
      if x == t1 {
        var r := ins'[t1];
        forall i, j | 0 <= i < j < |r|
          ensures r[i] != r[j]
        {
          if i == 0 {
            assert r[j] == ins[t1][j - 1];
          } else {
            assert r[i] == ins[t1][i - 1] && r[j] == ins[t1][j - 1];
          }
        }
      }
    }
    forall x, e: EdgeRef<N> | x in blocks && e in ins'[x]
      ensures e.src in blocks && Targets(out', e, x)
    {
      if x == t1 && e == e0 {
      } else {
        assert e in ins[x] && e != e0;
        assert Targets(out, e, x);
      }
    }
    forall s, k' | s in blocks && 0 <= k' < |out'[s]|
      ensures EdgeRef(s, k') in ins'[out'[s][k']]
    {
      if s != b || k' != k {
        assert out'[s][k'] == out[s][k'];
        assert EdgeRef(s, k') in ins[out[s][k']];
      }
    }
  }

  //===--------------------------------------------------------------------===//
  // What the invariant says about one predecessor list
  //===--------------------------------------------------------------------===//

  /** A predecessor list has exactly as many entries as there are edges targeting its block. */
  lemma PredCount<N>(blocks: seq<N>, out: map<N, seq<N>>, ins: map<N, seq<EdgeRef<N>>>, b: N)
    requires Linked(blocks, out, ins) && b in blocks
    ensures |ins[b]| == |InEdges(blocks, out, b)|
  {
    var inE := InEdges(blocks, out, b);
    forall e | e in inE
      ensures e in ins[b]
    {
      assert EdgeRef(e.src, e.idx) in ins[out[e.src][e.idx]];
    }
    forall e | e in ins[b]
      ensures e in inE
    {
      assert Targets(out, e, b);
    }
    assert (set x | x in ins[b]) == inE;
    DistinctCard(ins[b]);
  }

  /** A predecessor list is empty exactly when no edge targets its block. */
  lemma PredEmptyIffNoInEdge<N>(blocks: seq<N>, out: map<N, seq<N>>, ins: map<N, seq<EdgeRef<N>>>, b: N)
    requires Linked(blocks, out, ins) && b in blocks
    ensures ins[b] == [] <==> forall s, k :: s in blocks && 0 <= k < |out[s]| ==> out[s][k] != b
  {
    if ins[b] != [] {
      var e := ins[b][0];
      assert e in ins[b];
      assert Incoming(blocks, out, e, b);
      assert out[e.src][e.idx] == b;
    }
  }

  /**
   * Two operands of one terminator that both branch to `b` give `b` two
   * predecessor entries: predecessors are counted per edge, not per block.
   */
  lemma TwoEdgesTwoEntries<N>(blocks: seq<N>, out: map<N, seq<N>>, ins: map<N, seq<EdgeRef<N>>>,
                              b: N, s: N, k1: nat, k2: nat)
    requires Linked(blocks, out, ins) && b in blocks && s in blocks
    requires k1 < k2 < |out[s]| && out[s][k1] == b && out[s][k2] == b
    ensures |ins[b]| >= 2
  {
  }

  /** A block's successor list is empty exactly when no predecessor list holds a record from it. */
  lemma SuccEmptyIffNoOutRecord<N>(blocks: seq<N>, out: map<N, seq<N>>, ins: map<N, seq<EdgeRef<N>>>, b: N)
    requires Linked(blocks, out, ins) && b in blocks
    ensures out[b] == [] <==> forall t, e :: t in blocks && e in ins[t] ==> e.src != b
  {
    if out[b] != [] {
      assert EdgeRef(b, 0) in ins[out[b][0]];
    } else {
      forall t, e: EdgeRef<N> | t in blocks && e in ins[t]
        ensures e.src != b
      {
        assert Targets(out, e, t);
      }
    }
  }
}
