// The tables below a position of a tree, branch by branch.
module EptTeardown {
  import opened EptTree

  // The prefix of the position at level `level` on the path from the root to c.
  function Lift(c: Position, level: nat): nat
    decreases level
  {
    if level <= c.level then c.prefix else Lift(c, level - 1) / TABLE_LENGTH
  }

  predicate Under(c: Position, p: Position) {
    c.level <= p.level && Lift(c, p.level) == p.prefix
  }

  // The index of p's entry through which c is reached.
  function Branch(c: Position, p: Position): nat
    requires p.level > 0
  {
    Lift(c, p.level - 1) % TABLE_LENGTH
  }

  ghost predicate InBranches(c: Position, p: Position, n: nat)
    requires p.level > 0
  {
    c.level < p.level && Under(c, p) && Branch(c, p) < n
  }

  // The frames of the tables at and below p, and of those below its first n entries.
  ghost function Below(at: Placement, p: Position): set<nat> {
    set c | c in at && Under(c, p) :: at[c]
  }

  ghost function BelowBranches(at: Placement, p: Position, n: nat): set<nat>
    requires p.level > 0
  {
    set c | c in at && InBranches(c, p, n) :: at[c]
  }

  // What remains true of a subtree while other parts of the tree are freed.
  ghost predicate SubtreeLinked(mem: Memory, at: Placement, p: Position) {
    forall c <- at :: Under(c, p) ==>
      && at[c] in mem
      && (1 < c.level ==> forall i: nat :: i < TABLE_LENGTH ==> mem[at[c]][i] == LinkOrZero(at, Child(c, i)))
  }

  lemma {:induction false} UnderChild(c: Position, p: Position, i: nat)
    requires p.level > 0 && i < TABLE_LENGTH
    ensures Under(c, Child(p, i)) <==> c.level < p.level && Under(c, p) && Branch(c, p) == i
  {
    if c.level < p.level {
      assert Lift(c, p.level) == Lift(c, p.level - 1) / TABLE_LENGTH;
    }
  }

  // The ancestors of a placed position are placed.
  lemma {:induction false} AncestorPlaced(at: Placement, root: nat, c: Position, level: nat)
    requires Placed(at, root) && c in at && c.level <= level <= 4
    ensures Position(level, Lift(c, level)) in at
    decreases level
  {
    if c.level < level {
      AncestorPlaced(at, root, c, level - 1);
      assert Parent(Position(level - 1, Lift(c, level - 1))) == Position(level, Lift(c, level));
    }
  }

  // Every table of a tree is below its root.
  lemma {:induction false} AllBelowRoot(at: Placement, root: nat)
    requires Placed(at, root)
    ensures Below(at, ROOT) == at.Values
  {
    forall c <- at
      ensures Under(c, ROOT)
    {
      AncestorPlaced(at, root, c, 4);
    }
  }

  // Adding branch i adds exactly the tables at and below child i.
  lemma {:induction false} NextBranch(at: Placement, root: nat, p: Position, i: nat)
    requires Placed(at, root) && p in at && 1 < p.level && i < TABLE_LENGTH
    ensures BelowBranches(at, p, i + 1) == BelowBranches(at, p, i) + Below(at, Child(p, i))
    ensures BelowBranches(at, p, i) !! Below(at, Child(p, i))
    ensures Child(p, i) !in at ==> Below(at, Child(p, i)) == {}
  {
    forall c <- at
      ensures Under(c, Child(p, i)) <==> InBranches(c, p, i + 1) && !InBranches(c, p, i)
      ensures Under(c, Child(p, i)) ==> Child(p, i) in at
    {
      UnderChild(c, p, i);
      if Under(c, Child(p, i)) {
        AncestorPlaced(at, root, c, p.level - 1);
      }
    }
  }

  // All branches together are everything below p except p's own table.
  lemma {:induction false} AllBranches(at: Placement, root: nat, p: Position)
    requires Placed(at, root) && p in at && 1 < p.level
    ensures Below(at, p) == BelowBranches(at, p, TABLE_LENGTH) + {at[p]}
    ensures at[p] !in BelowBranches(at, p, TABLE_LENGTH)
    ensures BelowBranches(at, p, 0) == {}
  {
    forall c <- at
      ensures Under(c, p) <==> c == p || InBranches(c, p, TABLE_LENGTH)
    {
    }
    assert Under(p, p);
  }

  lemma {:induction false} NothingBelowPageTable(at: Placement, root: nat, p: Position)
    requires Placed(at, root) && p in at && p.level == 1
    ensures Below(at, p) == {at[p]}
  {
    assert Under(p, p);
  }

  // With the first i branches freed, the table of p and branch i are intact.
  lemma {:induction false} BranchIntact(mem: Memory, at: Placement, root: nat, p: Position, i: nat)
    requires Placed(at, root) && p in at && 1 < p.level && i < TABLE_LENGTH && SubtreeLinked(mem, at, p)
    ensures var rest := mem - BelowBranches(at, p, i);
      && at[p] in rest
      && rest[at[p]][i] == LinkOrZero(at, Child(p, i))
      && (Child(p, i) in at ==>
            SubtreeLinked(rest, at, Child(p, i)) && at[Child(p, i)] in rest && at[Child(p, i)] > 0)
  {
    var rest := mem - BelowBranches(at, p, i);
    assert Under(p, p);
    forall c <- at | Under(c, p) && !InBranches(c, p, i)
      ensures at[c] in rest
    {
    }
    forall c <- at | Under(c, Child(p, i))
      ensures Under(c, p) && !InBranches(c, p, i)
    {
      UnderChild(c, p, i);
    }
    assert Under(Child(p, i), Child(p, i));
  }

  lemma {:induction false} SubtreeInMemory(mem: Memory, at: Placement, p: Position)
    requires p in at && SubtreeLinked(mem, at, p)
    ensures at[p] in mem && Below(at, p) <= mem.Keys
  {
    assert Under(p, p);
  }
}
