/**
 scripts/remote_linux_idle_cpu_smoke.py: the processes that descend from a root.
 */
module ProcessTree {
  import opened Options

  /** A process listing entry; the parent is missing when the stat could not be read. */
  datatype Proc = Proc(pid: int, ppid: Option<int>)

  predicate IsChild(table: seq<Proc>, child: int, parent: int) {
    Proc(child, Some(parent)) in table
  }

  /** Following parent links from `pid`, `steps` of them, leads to `root`. */
  ghost predicate LeadsTo(table: seq<Proc>, pid: int, root: int, steps: nat)
    decreases steps
  {
    if steps == 0 then pid == root
    else exists parent :: IsChild(table, pid, parent) && LeadsTo(table, parent, root, steps - 1)
  }

  ghost predicate Descends(table: seq<Proc>, pid: int, root: int) {
    exists steps: nat :: steps > 0 && LeadsTo(table, pid, root, steps)
  }

  function ChildrenOf(table: seq<Proc>, parent: int): (children: seq<int>) {
    if table == [] then []
    else
      var last := table[|table| - 1];
      ChildrenOf(table[..|table| - 1], parent) + if last.ppid == Some(parent) then [last.pid] else []
  }

  lemma {:induction false} ChildrenAre(table: seq<Proc>, parent: int)
    ensures forall child :: child in ChildrenOf(table, parent) <==> IsChild(table, child, parent)
    decreases |table|
  {
    if table != [] {
      ChildrenAre(table[..|table| - 1], parent);
      assert table == table[..|table| - 1] + [table[|table| - 1]];
    }
  }

  method MapChildren(table: seq<Proc>) returns (mapping: map<int, seq<int>>)
    ensures forall parent :: parent in mapping ==> mapping[parent] == ChildrenOf(table, parent)
    ensures forall parent :: parent !in mapping ==> ChildrenOf(table, parent) == []
  {
    mapping := map[];
    for i := 0 to |table|
      invariant forall parent :: parent in mapping ==> mapping[parent] == ChildrenOf(table[..i], parent)
      invariant forall parent :: parent !in mapping ==> ChildrenOf(table[..i], parent) == []
    {
      assert table[..i + 1][..i] == table[..i];
      var p := table[i];
      if p.ppid.Some? {
        var siblings := if p.ppid.value in mapping then mapping[p.ppid.value] else [];
        mapping := mapping[p.ppid.value := siblings + [p.pid]];
      }
    }
    assert table[..|table|] == table;
  }

  function Pids(table: seq<Proc>): (pids: set<int>) {
    set p | p in table :: p.pid
  }

  lemma DescendsStep(table: seq<Proc>, child: int, parent: int, root: int)
    requires IsChild(table, child, parent) && (parent == root || Descends(table, parent, root))
    ensures Descends(table, child, root)
  {
    if parent == root {
      assert LeadsTo(table, parent, root, 0);
      assert LeadsTo(table, child, root, 1);
    } else {
      var steps: nat :| steps > 0 && LeadsTo(table, parent, root, steps);
      assert LeadsTo(table, child, root, steps + 1);
    }
  }

  /** A set that holds the children of the root and of its own members holds every descendant. */
  lemma {:induction false} ClosedHoldsDescendants(table: seq<Proc>, result: set<int>, pid: int, root: int, steps: nat)
    requires forall child, parent :: IsChild(table, child, parent) && (parent == root || parent in result) ==> child in result
    requires LeadsTo(table, pid, root, steps)
    ensures steps > 0 ==> pid in result
    decreases steps
  {
    if steps > 0 {
      var parent :| IsChild(table, pid, parent) && LeadsTo(table, parent, root, steps - 1);
      ClosedHoldsDescendants(table, result, parent, root, steps - 1);
    }
  }

  /** The search: a stack of processes whose children are still to be looked at. */
  method Descendants(table: seq<Proc>, root: int) returns (result: set<int>)
    ensures forall pid :: pid in result <==> Descends(table, pid, root)
  {
    var mapping := MapChildren(table);
    result := {};
    var stack := [root];
    while stack != []
      invariant result <= Pids(table)
      invariant forall pid :: pid in result ==> Descends(table, pid, root)
      invariant forall k :: 0 <= k < |stack| ==> stack[k] == root || stack[k] in result
      invariant forall child, parent :: IsChild(table, child, parent) && (parent == root || parent in result) ==>
        parent in stack || child in result
      decreases Pids(table) - result, |stack|
    {
      var parent := stack[|stack| - 1];
      ghost var popped := stack[..|stack| - 1];
      assert stack == popped + [parent];
      stack := stack[..|stack| - 1];
      var children := if parent in mapping then mapping[parent] else [];
      ChildrenAre(table, parent);
      ghost var before, rest := result, stack;
      for i := 0 to |children|
        invariant children == ChildrenOf(table, parent)
        invariant before <= result <= Pids(table)
        invariant result == before ==> stack == rest
        invariant forall pid :: pid in result ==> Descends(table, pid, root)
        invariant forall k :: 0 <= k < |stack| ==> stack[k] == root || stack[k] in result
        invariant forall k :: 0 <= k < i ==> children[k] in result
        invariant forall x :: x in rest ==> x in stack
        invariant forall x :: x in result && x !in before ==> x in stack
      {
        var child := children[i];
        if child !in result {
          assert child in children && IsChild(table, child, parent);
          DescendsStep(table, child, parent, root);
          assert Proc(child, Some(parent)) in table;
          result := result + {child};
          stack := stack + [child];
        }
      }
      forall child, up | IsChild(table, child, up) && (up == root || up in result)
        ensures up in stack || child in result
      {
        if up == parent {
          assert child in children;
        }
      }
    }
    forall pid | Descends(table, pid, root)
      ensures pid in result
    {
      var steps: nat :| steps > 0 && LeadsTo(table, pid, root, steps);
      ClosedHoldsDescendants(table, result, pid, root, steps);
    }
  }
}
