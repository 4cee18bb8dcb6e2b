/**
Use lists of the SSA intermediate representation (classes `Value`, `User`, `Instruction`, `Phi`,
`BasicBlock` and the terminators of artiq/compiler/ir.py).

Operands are compared by identity, which leaves out constants; names, types and locations play no
role here.  `U` is the set of values of one function.
*/
module SSA {

  datatype Kind = Argument | Block | Plain | PhiNode | Terminator

  class Value {
    const kind: Kind
    var uses: set<Value>
    var operands: seq<Value>
    var basicBlock: Value?
    var instructions: seq<Value>
    var isRemoved: bool

    constructor (k: Kind)
      ensures kind == k && uses == {} && operands == [] && basicBlock == null && instructions == [] && !isRemoved
    {
      kind, uses, operands, basicBlock, instructions, isRemoved := k, {}, [], null, [], false;
    }

    // ----- operands -----

    /** Takes this user out of the use lists of `vs`. */
    method Unuse(vs: set<Value>)
      modifies vs`uses
      ensures forall v | v in vs :: v.uses == old(v.uses) - {this}
    {
      var todo := vs;
      while todo != {}
        invariant todo <= vs
        invariant forall v | v in vs :: v.uses == if v in todo then old(v.uses) else old(v.uses) - {this}
      {
        var v :| v in todo;
        v.uses := v.uses - {this};
        todo := todo - {v};
      }
    }

    /** Puts this user on the use lists of `vs`. */
    method Use(vs: set<Value>)
      modifies vs`uses
      ensures forall v | v in vs :: v.uses == old(v.uses) + {this}
    {
      var todo := vs;
      while todo != {}
        invariant todo <= vs
        invariant forall v | v in vs :: v.uses == if v in todo then old(v.uses) else old(v.uses) + {this}
      {
        var v :| v in todo;
        v.uses := v.uses + {this};
        todo := todo - {v};
      }
    }

    /** `User.set_operands`. */
    method SetOperands(newOperands: seq<Value>, ghost U: set<Value>)
      requires Consistent(U) && this in U && Members(newOperands) <= U
      modifies U`uses, this`operands
      ensures Consistent(U) && operands == newOperands
      ensures forall v | v in U :: v.uses == old(v.uses) - {this} + if v in newOperands then {this} else {}
    {
      Unuse(Members(operands));
      assert forall v | v in U :: v.uses == old(v.uses) - {this};
      operands := newOperands;
      Use(Members(operands));
      assert forall v | v in U :: v.uses == old(v.uses) - {this} + if v in newOperands then {this} else {};
    }

    /** `User.drop_references`. */
    method DropReferences(ghost U: set<Value>)
      requires Consistent(U) && this in U
      modifies U`uses, this`operands
      ensures Consistent(U) && operands == []
      ensures forall v | v in U :: v.uses == old(v.uses) - {this}
    {
      SetOperands([], U);
    }

    /** `User.replace_uses_of`; the source asserts that there is something to replace. */
    method ReplaceUsesOf(value: Value, replacement: Value, ghost U: set<Value>)
      requires Consistent(U) && this in U && value in U && replacement in U && value in operands
      modifies value`uses, replacement`uses, this`operands
      ensures Consistent(U) && operands == Replaced(old(operands), value, replacement)
    {
      ghost var ops, uses0 := OperandsOf(U), UsesOf(U);
      ConsistentIsInverse(U);
      for i := 0 to |operands|
        invariant value.uses == old(value.uses) && replacement.uses == old(replacement.uses)
        invariant |operands| == |old(operands)|
        invariant forall j | 0 <= j < |operands| ::
                    operands[j] == if j < i && old(operands)[j] == value then replacement else old(operands)[j]
      {
        if operands[i] == value {
          operands := operands[i := replacement];
        }
      }
      assert operands == Replaced(old(operands), value, replacement);
      value.uses := value.uses - {this};
      replacement.uses := replacement.uses + {this};
      ReplacedMembers(old(operands), value, replacement);
      assert Members(operands) <= Members(old(operands)) + {replacement};
      EditedHeap(this, U, ops, uses0);
    }

    /** `Value.replace_all_uses_with`: afterwards nothing refers to this value any more. */
    method ReplaceAllUsesWith(value: Value, ghost U: set<Value>)
      requires Consistent(U) && this in U && value in U
      modifies U`uses, U`operands
      ensures Consistent(U)
      ensures forall u | u in U :: u.operands == Replaced(old(u.operands), this, value)
      ensures value != this ==> uses == {} && forall u | u in U :: this !in u.operands
    {
      ghost var users := uses;
      var todo := uses;
      while todo != {}
        invariant todo <= users && Consistent(U)
        invariant forall u | u in U ::
                    u.operands == if u in users - todo then Replaced(old(u.operands), this, value) else old(u.operands)
      {
        var u :| u in todo;
        assert u in U && this in old(u.operands);
        u.ReplaceUsesOf(this, value, U);
        todo := todo - {u};
      }
      forall u | u in U ensures u.operands == Replaced(old(u.operands), this, value) {
        ReplacedMembers(old(u.operands), this, value);
        if u !in users {
          ReplacedAbsent(old(u.operands), this, value);
        }
      }
      forall u | u in U ensures value != this ==> this !in u.operands {
        ReplacedMembers(old(u.operands), this, value);
      }
    }

    /** One more operand: `IndirectBranch.add_destination`, `LandingPad.add_clause`. */
    method AddOperand(v: Value, ghost U: set<Value>)
      requires Consistent(U) && this in U && v in U
      modifies v`uses, this`operands
      ensures Consistent(U) && operands == old(operands) + [v]
    {
      v.uses := v.uses + {this};
      operands := operands + [v];
    }

    /** `Branch.set_target`, `Delay.set_target` and `Delay.set_decomposition` overwrite one operand.
        The use lists stay right exactly if the old operand does not occur at another place. */
    method SetOperand(i: nat, v: Value, ghost U: set<Value>)
      requires Consistent(U) && this in U && v in U && i < |operands|
      modifies U`uses, this`operands
      ensures operands == old(operands)[i := v]
      ensures Consistent(U) <==> v == old(operands)[i] || OnlyAt(old(operands), i)
    {
      ghost var ops, uses0 := OperandsOf(U), UsesOf(U);
      ConsistentIsInverse(U);
      var w := operands[i];
      assert w in Members(operands);
      w.uses := w.uses - {this};
      operands := operands[i := v];
      v.uses := v.uses + {this};
      UpdatedMembers(old(operands), i, v);
      EditedHeap(this, U, ops, uses0);
      assert this in w.uses <==> v == w;
    }

    // ----- phi nodes -----

    /** `Phi.add_incoming`. */
    method AddIncoming(value: Value, block: Value, ghost U: set<Value>)
      requires Consistent(U) && this in U && value in U && block in U
      modifies value`uses, block`uses, this`operands
      ensures Consistent(U) && operands == old(operands) + [value, block]
    {
      AddOperand(value, U);
      AddOperand(block, U);
    }

    /** The common end of the two methods below: the pair at `i` goes, and so do its two uses.  The
        use lists stay right exactly if neither member of the pair occurs again. */
    method RemovePair(i: nat, ghost U: set<Value>)
      requires Consistent(U) && this in U && i + 1 < |operands| && operands[i] != operands[i + 1]
      modifies U`uses, this`operands
      ensures operands == Cut(old(operands), i)
      ensures Consistent(U) <==> OnlyAt(old(operands), i) && OnlyAt(old(operands), i + 1)
    {
      ghost var ops, uses0 := OperandsOf(U), UsesOf(U);
      ConsistentIsInverse(U);
      var v, b := operands[i], operands[i + 1];
      assert v in Members(operands) && b in Members(operands);
      v.uses := v.uses - {this};
      b.uses := b.uses - {this};
      operands := Cut(operands, i);
      CutMembers(old(operands), i);
      EditedHeap(this, U, ops, uses0);
    }

    /** `Phi.remove_incoming_value`; a value that is not there is an error in the source. */
    method RemoveIncomingValue(value: Value, ghost U: set<Value>) returns (i: nat)
      requires Consistent(U) && this in U && Pairs(operands) && value in operands && !value.kind.Block?
      modifies U`uses, this`operands
      ensures i + 1 < |old(operands)| && old(operands)[i] == value && value !in old(operands)[..i]
      ensures operands == Cut(old(operands), i) && Pairs(operands)
      ensures Consistent(U) <==> OnlyAt(old(operands), i) && OnlyAt(old(operands), i + 1)
    {
      i := Index(operands, value);
      assert i % 2 == 0;
      CutPairs(operands, i);
      RemovePair(i, U);
    }

    /** `Phi.remove_incoming_block`. */
    method RemoveIncomingBlock(block: Value, ghost U: set<Value>) returns (i: nat)
      requires Consistent(U) && this in U && Pairs(operands) && block in operands && block.kind.Block?
      modifies U`uses, this`operands
      ensures i + 1 < |old(operands)| && old(operands)[i + 1] == block && block !in old(operands)[..i + 1]
      ensures operands == Cut(old(operands), i) && Pairs(operands)
      ensures Consistent(U) <==> OnlyAt(old(operands), i) && OnlyAt(old(operands), i + 1)
    {
      var k := Index(operands, block);
      i := k - 1;
      assert i % 2 == 0;
      CutPairs(operands, i);
      RemovePair(i, U);
    }

    // ----- blocks -----

    /** `BasicBlock.prepend`, `append` and `insert`: the instruction enters at place `k`. */
    method InsertAt(k: nat, insn: Value, ghost U: set<Value>)
      requires Placed(U) && this in U && insn in U && insn.basicBlock == null && k <= |instructions|
      modifies insn`basicBlock, this`instructions
      ensures Placed(U) && insn.basicBlock == this
      ensures instructions == old(instructions)[..k] + [insn] + old(instructions)[k..]
    {
      insn.basicBlock := this;
      instructions := instructions[..k] + [insn] + instructions[k..];
      InsertedMembers(old(instructions), k, insn);
    }

    /** `BasicBlock.remove`; the source asserts that the instruction is there. */
    method Remove(insn: Value, ghost U: set<Value>)
      requires Placed(U) && this in U && insn in U && insn in instructions
      modifies insn`basicBlock, this`instructions
      ensures Placed(U) && insn.basicBlock == null
      ensures exists k | 0 <= k < |old(instructions)| && old(instructions)[k] == insn ::
                instructions == old(instructions)[..k] + old(instructions)[k + 1..]
    {
      insn.basicBlock := null;
      var k := Index(instructions, insn);
      instructions := instructions[..k] + instructions[k + 1..];
      RemovedMembers(old(instructions), k);
    }

    /** `BasicBlock.replace`: insert before, then remove. */
    method Replace(insn: Value, replacement: Value, ghost U: set<Value>) returns (k: nat)
      requires Placed(U) && this in U && insn in U && replacement in U
      requires insn in instructions && replacement.basicBlock == null
      modifies insn`basicBlock, replacement`basicBlock, this`instructions
      ensures Placed(U) && insn.basicBlock == null && replacement.basicBlock == this
      ensures k < |old(instructions)| && old(instructions)[k] == insn
      ensures instructions == old(instructions)[k := replacement]
    {
      k := Index(instructions, insn);
      ghost var before := instructions;
      InsertAt(k, replacement, U);
      InsertedMembers(before, k, replacement);
      ghost var between := instructions;
      assert between[k + 1] == insn;
      Remove(insn, U);
      UniquePlace(between, insn, k + 1);
      assert between[..k + 1] + between[k + 2..] == before[k := replacement];
    }

    /** `Instruction.erase`; `ok` says that the final assertion of the source holds. */
    method Erase(ghost U: set<Value>) returns (ok: bool)
      requires Consistent(U) && Placed(U) && this in U
      modifies U`uses, U`instructions, this`operands, this`basicBlock
      ensures Consistent(U) && Placed(U) && operands == [] && basicBlock == null
      ensures forall b | b in U && b != old(basicBlock) :: b.instructions == old(b.instructions)
      ensures forall v | v in U :: v.uses == old(v.uses) - {this}
      ensures ok <==> forall u | u in uses :: u.isRemoved
    {
      if basicBlock != null {
        basicBlock.Remove(this, U);
      }
      DropReferences(U);
      ok := forall u | u in uses :: u.isRemoved;
    }

    /** `Instruction.replace_with`.  Afterwards nothing refers to this instruction, it refers to
        nothing, and a replacement that is an instruction stands at its place. */
    method ReplaceWith(value: Value, ghost U: set<Value>) returns (ok: bool)
      requires Consistent(U) && Placed(U) && this in U && value in U && value != this
      requires IsInstruction(value) ==> basicBlock != null && value.basicBlock == null
      modifies U`uses, U`operands, U`instructions, U`basicBlock
      ensures Consistent(U) && Placed(U) && ok
      ensures uses == {} && operands == [] && basicBlock == null
      ensures forall u | u in U :: this !in u.operands && this !in u.uses
      ensures forall u | u in U && u != this :: u.operands == Replaced(old(u.operands), this, value)
      ensures IsInstruction(value) ==>
                && value.basicBlock == old(basicBlock)
                && exists k | 0 <= k < |old(basicBlock.instructions)| && old(basicBlock.instructions)[k] == this ::
                     old(basicBlock).instructions == old(basicBlock.instructions)[k := value]
    {
      ReplaceAllUsesWith(value, U);
      if IsInstruction(value) {
        var k := basicBlock.Replace(this, value, U);
        DropReferences(U);
        ok := true;
      } else {
        ok := Erase(U);
      }
    }
  }

  predicate IsInstruction(v: Value) {
    v.kind.Plain? || v.kind.PhiNode? || v.kind.Terminator?
  }

  /** The instruction lists and the links from instructions to their blocks agree. */
  ghost predicate Placed(U: set<Value>)
    reads U
  {
    && (forall b | b in U :: Members(b.instructions) <= U && NoRepeats(b.instructions))
    && (forall b, i | b in U && i in U :: i in b.instructions <==> i.basicBlock == b)
    && (forall i | i in U :: i.basicBlock == null || i.basicBlock in U)
  }

  ghost predicate NoRepeats(vs: seq<Value>) {
    forall i, j | 0 <= i < j < |vs| :: vs[i] != vs[j]
  }

  lemma InsertedMembers(vs: seq<Value>, k: nat, v: Value)
    requires k <= |vs|
    ensures forall x :: x in vs[..k] + [v] + vs[k..] <==> x == v || x in vs
    ensures NoRepeats(vs) && v !in vs ==> NoRepeats(vs[..k] + [v] + vs[k..])
  {
    var ws := vs[..k] + [v] + vs[k..];
    assert ws[k] == v;
    forall j | 0 <= j < |vs| ensures vs[j] in ws {
      assert vs[j] == ws[if j < k then j else j + 1];
    }
  }

  lemma RemovedMembers(vs: seq<Value>, k: nat)
    requires k < |vs| && NoRepeats(vs)
    ensures forall x :: x in vs[..k] + vs[k + 1..] <==> x in vs && x != vs[k]
    ensures NoRepeats(vs[..k] + vs[k + 1..])
  {
    var ws := vs[..k] + vs[k + 1..];
    forall j | 0 <= j < |vs| && j != k ensures vs[j] in ws {
      assert vs[j] == ws[if j < k then j else j - 1];
    }
    forall x | x in ws ensures x in vs && x != vs[k] {
      var i :| 0 <= i < |ws| && ws[i] == x;
      assert x == vs[if i < k then i else i + 1];
    }
  }

  lemma UniquePlace(vs: seq<Value>, v: Value, k: nat)
    requires NoRepeats(vs) && k < |vs| && vs[k] == v
    ensures forall j | 0 <= j < |vs| && vs[j] == v :: j == k
  {
  }

  /** Incoming values and blocks alternate. */
  ghost predicate Pairs(vs: seq<Value>) {
    |vs| % 2 == 0 && forall i | 0 <= i < |vs| :: vs[i].kind.Block? <==> i % 2 == 1
  }

  /** Python's `list.index`. */
  method Index(vs: seq<Value>, v: Value) returns (i: nat)
    requires v in vs
    ensures i < |vs| && vs[i] == v && v !in vs[..i]
  {
    i := 0;
    while vs[i] != v
      invariant i < |vs| && v !in vs[..i]
      decreases |vs| - i
    {
      i := i + 1;
    }
  }

  /** The list without the pair at `i`. */
  function Cut(vs: seq<Value>, i: nat): seq<Value>
    requires i + 1 < |vs|
  {
    vs[..i] + vs[i + 2..]
  }

  lemma CutPairs(vs: seq<Value>, i: nat)
    requires Pairs(vs) && i < |vs| && i % 2 == 0
    ensures i + 1 < |vs| && vs[i] != vs[i + 1] && Pairs(Cut(vs, i))
  {
    assert i + 1 < |vs|;
    assert vs[i + 1].kind.Block? && !vs[i].kind.Block?;
    var ws := Cut(vs, i);
    forall j | 0 <= j < |ws| ensures ws[j].kind.Block? <==> j % 2 == 1 {
      if j < i {
        assert ws[j] == vs[j];
      } else {
        assert ws[j] == vs[j + 2];
        SameParity(j);
      }
    }
  }

  lemma SameParity(j: nat)
    ensures (j + 2) % 2 == j % 2
  {
  }

  lemma CutMembers(vs: seq<Value>, i: nat)
    requires i + 1 < |vs| && vs[i] != vs[i + 1]
    ensures forall x :: x in Cut(vs, i) <==>
                        && x in vs
                        && (x == vs[i] ==> !OnlyAt(vs, i))
                        && (x == vs[i + 1] ==> !OnlyAt(vs, i + 1))
  {
    var ws := Cut(vs, i);
    forall j | 0 <= j < |vs| && j != i && j != i + 1 ensures vs[j] in ws {
      assert vs[j] == ws[if j < i then j else j - 2];
    }
    forall x | x in ws
      ensures x in vs && (x == vs[i] ==> !OnlyAt(vs, i)) && (x == vs[i + 1] ==> !OnlyAt(vs, i + 1))
    {
      var k :| 0 <= k < |ws| && ws[k] == x;
      var j := if k < i then k else k + 2;
      assert vs[j] == x;
    }
  }

  lemma TwoPairs(v: Value, b: Value, w: Value, c: Value)
    requires !v.kind.Block? && !w.kind.Block? && b.kind.Block? && c.kind.Block?
    ensures Pairs([v, b, w, c])
  {
  }

  /** A phi that gets the same value from two blocks, as every join of equal values is, loses its
      entry in the use list of that value with the first of the two. */
  method SharedIncomingValueIsLost(phi: Value, value: Value, left: Value, right: Value, ghost U: set<Value>)
    requires Consistent(U) && {phi, value, left, right} <= U && phi.operands == []
    requires !value.kind.Block? && left.kind.Block? && right.kind.Block? && left != right
    modifies U`uses, phi`operands
    ensures phi.operands == [value, right] && !Consistent(U)
  {
    phi.AddIncoming(value, left, U);
    phi.AddIncoming(value, right, U);
    ghost var vs := [value, left, value, right];
    assert phi.operands == vs;
    TwoPairs(value, left, value, right);
    var i := phi.RemoveIncomingBlock(left, U);
    assert i == 0 && vs[2] == vs[0];
  }

  function Members(vs: seq<Value>): set<Value> {
    set v | v in vs
  }

  type Operands = map<Value, seq<Value>>
  type Uses = map<Value, set<Value>>

  ghost function OperandsOf(U: set<Value>): Operands
    reads U
  {
    map v | v in U :: v.operands
  }

  ghost function UsesOf(U: set<Value>): Uses
    reads U
  {
    map v | v in U :: v.uses
  }

  /** The use lists are the inverse of the operand lists. */
  ghost predicate Inverse(ops: Operands, uses: Uses) {
    && ops.Keys == uses.Keys
    && (forall u | u in ops :: uses[u] <= ops.Keys && Members(ops[u]) <= ops.Keys)
    && (forall u, v | u in ops && v in ops :: u in uses[v] <==> v in ops[u])
  }

  /** The same, of the heap. */
  ghost predicate Consistent(U: set<Value>)
    reads U
  {
    && (forall u | u in U :: u.uses <= U && Members(u.operands) <= U)
    && (forall u, v | u in U && v in U :: u in v.uses <==> v in u.operands)
  }

  lemma ConsistentIsInverse(U: set<Value>)
    ensures Consistent(U) <==> Inverse(OperandsOf(U), UsesOf(U))
  {
    var ops, uses := OperandsOf(U), UsesOf(U);
    if Consistent(U) {
      forall u | u in ops ensures uses[u] <= ops.Keys && Members(ops[u]) <= ops.Keys {
        assert u.uses <= U && Members(u.operands) <= U;
      }
      forall u, v | u in ops && v in ops ensures u in uses[v] <==> v in ops[u] {
        assert u in v.uses <==> v in u.operands;
      }
    }
    if Inverse(ops, uses) {
      forall u | u in U ensures u.uses <= U && Members(u.operands) <= U {
        assert u in ops && uses[u] == u.uses && ops[u] == u.operands;
      }
      forall u, v | u in U && v in U ensures u in v.uses <==> v in u.operands {
        assert u in ops && v in ops;
        assert u in uses[v] <==> v in ops[u];
      }
    }
  }

  /** The one user may differ from before, and the use lists only in that user. */
  ghost predicate EditsOne(u: Value, U: set<Value>, ops: Operands, uses: Uses)
    reads U
  {
    && u in U && Members(u.operands) <= U && ops.Keys == uses.Keys == U
    && (forall v | v in U :: v.uses - {u} == uses[v] - {u} && (v != u ==> v.operands == ops[v]))
  }

  lemma EditedHeap(u: Value, U: set<Value>, ops: Operands, uses: Uses)
    requires Inverse(ops, uses) && EditsOne(u, U, ops, uses)
    ensures Consistent(U) <==> forall v | v in U :: u in v.uses <==> v in u.operands
  {
    ConsistentIsInverse(U);
    var ops', uses' := OperandsOf(U), UsesOf(U);
    EditedOne(u, ops, uses, ops', uses');
    assert forall v | v in U :: v in ops && uses'[v] == v.uses;
    assert ops'[u] == u.operands;
  }

  /** An edit that touches one user and its place in the use lists is right exactly if it is right
      for that user. */
  lemma EditedOne(u: Value, ops: Operands, uses: Uses, ops': Operands, uses': Uses)
    requires Inverse(ops, uses) && u in ops && ops'.Keys == uses'.Keys == ops.Keys
    requires forall v | v in ops :: uses'[v] - {u} == uses[v] - {u} && (v != u ==> ops'[v] == ops[v])
    requires Members(ops'[u]) <= ops.Keys
    ensures Inverse(ops', uses') <==> forall v | v in ops :: u in uses'[v] <==> v in ops'[u]
  {
    forall x, v | x in ops && v in ops && x != u ensures x in uses'[v] <==> x in uses[v] {
      assert x in uses'[v] <==> x in uses'[v] - {u};
      assert x in uses[v] <==> x in uses[v] - {u};
    }
    forall v | v in ops ensures uses'[v] <= ops.Keys {
      assert uses'[v] <= (uses'[v] - {u}) + {u};
    }
  }

  lemma UpdatedMembers(vs: seq<Value>, i: nat, w: Value)
    requires i < |vs|
    ensures forall x :: x in vs[i := w] <==> x == w || (x in vs && (x != vs[i] || !OnlyAt(vs, i)))
  {
    var ws := vs[i := w];
    forall x | x in vs && x != vs[i] ensures x in ws {
      var j :| 0 <= j < |vs| && vs[j] == x;
      assert ws[j] == x;
    }
    if !OnlyAt(vs, i) {
      var j :| 0 <= j < |vs| && j != i && vs[j] == vs[i];
      assert ws[j] == vs[i];
    }
    assert ws[i] == w;
  }

  /** No place but `i` holds the same value. */
  ghost predicate OnlyAt(vs: seq<Value>, i: nat)
    requires i < |vs|
  {
    forall j | 0 <= j < |vs| && j != i :: vs[j] != vs[i]
  }

  ghost function Replaced(vs: seq<Value>, v: Value, w: Value): seq<Value> {
    seq(|vs|, i requires 0 <= i < |vs| => if vs[i] == v then w else vs[i])
  }

  lemma ReplacedMembers(vs: seq<Value>, v: Value, w: Value)
    ensures forall x :: x in Replaced(vs, v, w) <==> (x in vs && x != v) || (x == w && v in vs)
  {
    var ws := Replaced(vs, v, w);
    forall i | 0 <= i < |vs| ensures (if vs[i] == v then w else vs[i]) in ws {
      assert ws[i] in ws;
    }
  }

  lemma ReplacedAbsent(vs: seq<Value>, v: Value, w: Value)
    requires v !in vs
    ensures Replaced(vs, v, w) == vs
  {
  }

  // ----- control flow -----

  /** `successors` of the terminator that ends a block. */
  ghost function Successors(b: Value): set<Value>
    reads b, b.instructions
  {
    if b.instructions != [] && Last(b.instructions).kind.Terminator? then
      set v | v in Last(b.instructions).operands && v.kind.Block?
    else {}
  }

  function Last(vs: seq<Value>): Value
    requires vs != []
  {
    vs[|vs| - 1]
  }

  /** `predecessors`: the blocks of the terminators that use `b`. */
  ghost function Predecessors(b: Value): set<Value?>
    reads b, b.uses
  {
    set u | u in b.uses && u.kind.Terminator? :: u.basicBlock
  }

  /** Every terminator that refers to something ends a block. */
  ghost predicate Terminated(U: set<Value>)
    reads U
  {
    forall t | t in U && t.kind.Terminator? && t.operands != [] ::
      && t.basicBlock != null && t.basicBlock in U
      && t.basicBlock.instructions != [] && Last(t.basicBlock.instructions) == t
  }

  /** The two views of the control flow graph agree. */
  lemma PredecessorsMatchSuccessors(U: set<Value>, b: Value, p: Value)
    requires Consistent(U) && Placed(U) && Terminated(U) && b in U && p in U && b.kind.Block?
    ensures p in Predecessors(b) <==> b in Successors(p)
  {
    if p in Predecessors(b) {
      var t :| t in b.uses && t.kind.Terminator? && t.basicBlock == p;
      assert t in U && b in t.operands;
      assert Last(p.instructions) == t;
    }
    if b in Successors(p) {
      var t := Last(p.instructions);
      assert t in Members(p.instructions) && t in U;
      assert t in b.uses && t.basicBlock == p;
    }
  }
}
