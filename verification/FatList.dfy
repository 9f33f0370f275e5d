// include/fat_list.h: the intrusive doubly linked list.
module FatList {

  predicate Distinct<T(==)>(s: seq<T>) {
    forall i, j :: 0 <= i < j < |s| ==> s[i] != s[j]
  }

  function RemoveAt<T>(s: seq<T>, k: nat): (r: seq<T>)
    requires k < |s|
  {
    s[..k] + s[k + 1..]
  }

  function InsertAt<T>(s: seq<T>, k: nat, x: T): (r: seq<T>)
    requires k <= |s|
  {
    s[..k] + [x] + s[k..]
  }

  lemma DistinctRemoveAt<T>(s: seq<T>, k: nat)
    requires k < |s| && Distinct(s)
    ensures Distinct(RemoveAt(s, k)) && s[k] !in RemoveAt(s, k)
    ensures forall x :: x in s <==> x == s[k] || x in RemoveAt(s, k)
  {
  }

  lemma DistinctInsertAt<T>(s: seq<T>, k: nat, x: T)
    requires k <= |s| && Distinct(s) && x !in s
    ensures Distinct(InsertAt(s, k, x))
    ensures forall y :: y in InsertAt(s, k, x) <==> y == x || y in s
  {
  }

  // The neighbour a list link denotes: null on either side of the sequence.
  function Link(s: seq<FatNode>, i: int): (n: FatNode?) {
    if 0 <= i < |s| then s[i] else null
  }

  // The node a link points at, as a frame: nothing for null.
  function Node(link: FatNode?): (frame: set<FatNode>) {
    if link == null then {} else {link}
  }

  // The position of x in s; |s| when there is none.
  function IndexOf<T(==)>(s: seq<T>, x: T): (k: nat)
    ensures k <= |s|
    ensures k < |s| ==> s[k] == x
    ensures k < |s| <==> x in s
    ensures forall i :: 0 <= i < k ==> s[i] != x
  {
    if s == [] then 0 else if s[0] == x then 0 else 1 + IndexOf(s[1..], x)
  }

  class FatNode {
    var previous: FatNode?
    var next: FatNode?
  }

  // Starting at head, the next links run through s and end in null.
  ghost predicate Forward(s: seq<FatNode>, head: FatNode?)
    reads s`next
  {
    && head == Link(s, 0)
    && forall i {:trigger s[i].next} :: 0 <= i < |s| ==> s[i].next == Link(s, i + 1)
  }

  // Starting at tail, the previous links run backwards through s and end in null.
  ghost predicate Backward(s: seq<FatNode>, tail: FatNode?)
    reads s`previous
  {
    && tail == Link(s, |s| - 1)
    && forall i {:trigger s[i].previous} :: 0 <= i < |s| ==> s[i].previous == Link(s, i - 1)
  }

  // If the next links are those of s except that position k - 1 skips k, they run through s
  // without k. The next three lemmas say the same backwards and for a new position k.
  lemma ForwardWithout(s: seq<FatNode>, k: nat, head: FatNode?)
    requires k < |s|
    requires head == if k == 0 then Link(s, 1) else Link(s, 0)
    requires forall i {:trigger s[i].next} :: 0 <= i < |s| ==> s[i].next == Link(s, if i == k - 1 then k + 1 else i + 1)
    ensures Forward(RemoveAt(s, k), head)
  {
  }

  lemma BackwardWithout(s: seq<FatNode>, k: nat, tail: FatNode?)
    requires k < |s|
    requires tail == Link(s, if k == |s| - 1 then |s| - 2 else |s| - 1)
    requires forall i {:trigger s[i].previous} :: 0 <= i < |s| ==>
      s[i].previous == Link(s, if i == k + 1 then k - 1 else i - 1)
    ensures Backward(RemoveAt(s, k), tail)
  {
  }

  lemma ForwardWith(s: seq<FatNode>, k: nat, x: FatNode, head: FatNode?)
    requires k <= |s| && x.next == Link(s, k)
    requires head == if k == 0 then x else Link(s, 0)
    requires forall i {:trigger s[i].next} :: 0 <= i < |s| ==> s[i].next == if i == k - 1 then x else Link(s, i + 1)
    ensures Forward(InsertAt(s, k, x), head)
  {
  }

  lemma BackwardWith(s: seq<FatNode>, k: nat, x: FatNode, tail: FatNode?)
    requires k <= |s| && x.previous == Link(s, k - 1)
    requires tail == if k == |s| then x else Link(s, |s| - 1)
    requires forall i {:trigger s[i].previous} :: 0 <= i < |s| ==> s[i].previous == if i == k then x else Link(s, i - 1)
    ensures Backward(InsertAt(s, k, x), tail)
  {
  }

  class FatList {
    var head: FatNode?
    var tail: FatNode?
    ghost var nodes: seq<FatNode>

    // Both directions agree on one sequence without repetition: head and tail are null together,
    // the links are mutually inverse, both ends are null and there is no cycle.
    ghost predicate Valid()
      reads this, nodes
    {
      Distinct(nodes) && Forward(nodes, head) && Backward(nodes, tail)
    }

    // fat_list_init
    constructor ()
      ensures Valid() && nodes == []
    {
      head, tail := null, null;
      nodes := [];
    }

    // The next link that leads to position k, or head, is made to skip it.
    method UnlinkForward(previous: FatNode?, next: FatNode?, ghost k: int)
      requires 0 <= k < |nodes| && Distinct(nodes) && Forward(nodes, head)
      requires previous == Link(nodes, k - 1) && next == Link(nodes, k + 1)
      modifies this`head, Node(previous)`next
      ensures Forward(RemoveAt(nodes, k), head)
    {
      if previous == null {
        head := next;
      } else {
        previous.next := next;
      }
      ForwardWithout(nodes, k, head);
    }

    // The previous link that leads to position k, or tail, is made to skip it.
    method UnlinkBackward(previous: FatNode?, next: FatNode?, ghost k: int)
      requires 0 <= k < |nodes| && Distinct(nodes) && Backward(nodes, tail)
      requires previous == Link(nodes, k - 1) && next == Link(nodes, k + 1)
      modifies this`tail, Node(next)`previous
      ensures Backward(RemoveAt(nodes, k), tail)
    {
      if next == null {
        tail := previous;
      } else {
        next.previous := previous;
      }
      BackwardWithout(nodes, k, tail);
    }

    // fat_list_remove. The removed node keeps its own links.
    method Remove(node: FatNode)
      requires Valid() && node in nodes
      modifies this, Node(node.previous)`next, Node(node.next)`previous
      ensures Valid()
      ensures nodes == RemoveAt(old(nodes), IndexOf(old(nodes), node))
      ensures node.previous == old(node.previous) && node.next == old(node.next)
    {
      ghost var k: int := IndexOf(nodes, node);
      assert node.previous == Link(nodes, k - 1) && node.next == Link(nodes, k + 1);
      UnlinkForward(node.previous, node.next, k);
      UnlinkBackward(node.previous, node.next, k);
      DistinctRemoveAt(nodes, k);
      nodes := RemoveAt(nodes, k);
    }

    // Setting the links of a node that is not in the list leaves the list as it is.
    method SetLinks(x: FatNode, previous: FatNode?, next: FatNode?)
      requires Valid() && x !in nodes
      modifies x
      ensures Valid() && x.previous == previous && x.next == next
    {
      x.previous := previous;
      x.next := next;
      assert Forward(nodes, head) && Backward(nodes, tail);
    }

    // The next link in front of position k, or head, is made to lead to x.
    method LinkForward(previous: FatNode?, x: FatNode, ghost k: int)
      requires 0 <= k <= |nodes| && Distinct(nodes) && Forward(nodes, head) && x !in nodes
      requires previous == Link(nodes, k - 1) && x.next == Link(nodes, k)
      modifies this`head, Node(previous)`next
      ensures Forward(InsertAt(nodes, k, x), head)
    {
      if previous == null {
        head := x;
      } else {
        previous.next := x;
      }
      ForwardWith(nodes, k, x, head);
    }

    // The previous link behind position k - 1, or tail, is made to lead to x.
    method LinkBackward(next: FatNode?, x: FatNode, ghost k: int)
      requires 0 <= k <= |nodes| && Distinct(nodes) && Backward(nodes, tail) && x !in nodes
      requires next == Link(nodes, k) && x.previous == Link(nodes, k - 1)
      modifies this`tail, Node(next)`previous
      ensures Backward(InsertAt(nodes, k, x), tail)
    {
      if next == null {
        tail := x;
      } else {
        next.previous := x;
      }
      BackwardWith(nodes, k, x, tail);
    }

    // Once the links run through x at position k, so does the sequence.
    ghost method EnterAt(x: FatNode, k: int)
      requires 0 <= k <= |nodes| && Distinct(nodes) && x !in nodes
      requires Forward(InsertAt(nodes, k, x), head) && Backward(InsertAt(nodes, k, x), tail)
      modifies this`nodes
      ensures Valid() && nodes == InsertAt(old(nodes), k, x)
    {
      DistinctInsertAt(nodes, k, x);
      nodes := InsertAt(nodes, k, x);
    }

    // fat_list_insert_after
    method InsertAfter(node: FatNode, newNode: FatNode)
      requires Valid() && node in nodes && newNode !in nodes
      modifies this, newNode, node`next, Node(node.next)`previous
      ensures Valid()
      ensures nodes == InsertAt(old(nodes), IndexOf(old(nodes), node) + 1, newNode)
    {
      ghost var k: int := IndexOf(nodes, node) + 1;
      assert nodes[k - 1] == node && node.next == Link(nodes, k);
      SetLinks(newNode, node, node.next);
      LinkBackward(node.next, newNode, k);
      LinkForward(node, newNode, k);
      EnterAt(newNode, k);
    }

    // fat_list_insert_before
    method InsertBefore(node: FatNode, newNode: FatNode)
      requires Valid() && node in nodes && newNode !in nodes
      modifies this, newNode, node`previous, Node(node.previous)`next
      ensures Valid()
      ensures nodes == InsertAt(old(nodes), IndexOf(old(nodes), node), newNode)
    {
      ghost var k: int := IndexOf(nodes, node);
      assert nodes[k] == node && node.previous == Link(nodes, k - 1);
      SetLinks(newNode, node.previous, node);
      LinkForward(node.previous, newNode, k);
      LinkBackward(node, newNode, k);
      EnterAt(newNode, k);
    }

    // fat_list_insert_first
    method InsertFirst(node: FatNode)
      requires Valid() && node !in nodes
      modifies this, node, Node(head)`previous
      ensures Valid()
      ensures nodes == [node] + old(nodes)
    {
      if head == null {
        head := node;
        tail := node;
        node.previous := null;
        node.next := null;
        nodes := [node];
      } else {
        assert head.previous == nodes[0].previous == null;
        InsertBefore(head, node);
      }
    }

    // fat_list_insert_last
    method InsertLast(node: FatNode)
      requires Valid() && node !in nodes
      modifies this, node, Node(tail)`next
      ensures Valid()
      ensures nodes == old(nodes) + [node]
    {
      if tail == null {
        InsertFirst(node);
      } else {
        assert tail.next == nodes[|nodes| - 1].next == null;
        assert IndexOf(nodes, tail) == |nodes| - 1;
        InsertAfter(tail, node);
      }
    }

    // fat_list_is_empty
    method IsEmpty() returns (empty: bool)
      requires Valid()
      ensures empty <==> nodes == []
    {
      empty := head == null;
    }

    // fat_list_pop_head
    method PopHead() returns (node: FatNode?)
      requires Valid()
      modifies this, if head == null then {} else Node(head.next)`previous
      ensures Valid()
      ensures old(nodes) == [] ==> node == null && nodes == []
      ensures old(nodes) != [] ==> node == old(nodes[0]) && nodes == old(nodes[1..])
    {
      node := head;
      if node != null {
        assert head.previous == nodes[0].previous == null;
        Remove(node);
      }
    }

    // fat_list_for_each: forward traversal through next.
    method ForEach() returns (visited: seq<FatNode>)
      requires Valid()
      ensures visited == nodes
    {
      visited := [];
      var p := head;
      while p != null
        invariant |visited| <= |nodes| && visited == nodes[..|visited|]
        invariant p == if |visited| == |nodes| then null else nodes[|visited|]
        decreases |nodes| - |visited|
      {
        assert p.next == nodes[|visited|].next;
        visited := visited + [p];
        p := p.next;
      }
    }

    // fat_list_last followed by fat_list_prev: backward traversal.
    method ForEachBackward() returns (visited: seq<FatNode>)
      requires Valid()
      ensures |visited| == |nodes|
      ensures forall i :: 0 <= i < |nodes| ==> visited[i] == nodes[|nodes| - 1 - i]
    {
      visited := [];
      var p := tail;
      while p != null
        invariant |visited| <= |nodes|
        invariant forall i :: 0 <= i < |visited| ==> visited[i] == nodes[|nodes| - 1 - i]
        invariant p == if |visited| == |nodes| then null else nodes[|nodes| - 1 - |visited|]
        decreases |nodes| - |visited|
      {
        assert p.previous == nodes[|nodes| - 1 - |visited|].previous;
        visited := visited + [p];
        p := p.previous;
      }
    }
  }

  // ---- Runs of operations -------------------------------------------------------------------

  datatype Op =
    | PushFirst(node: FatNode)
    | PushLast(node: FatNode)
    | PutBefore(at: FatNode, node: FatNode)
    | PutAfter(at: FatNode, node: FatNode)
    | Drop(node: FatNode)
    | Pop

  // What the list asks of its callers: a node enters only when it is in no list position yet, and
  // a reference node or a node to remove is in the list.
  predicate Applicable(s: seq<FatNode>, op: Op) {
    match op
    case PushFirst(x) => x !in s
    case PushLast(x) => x !in s
    case PutBefore(y, x) => y in s && x !in s
    case PutAfter(y, x) => y in s && x !in s
    case Drop(x) => x in s
    case Pop => true
  }

  // The operation on the abstract sequence.
  function Apply(s: seq<FatNode>, op: Op): (r: seq<FatNode>)
    requires Applicable(s, op)
  {
    match op
    case PushFirst(x) => [x] + s
    case PushLast(x) => s + [x]
    case PutBefore(y, x) => InsertAt(s, IndexOf(s, y), x)
    case PutAfter(y, x) => InsertAt(s, IndexOf(s, y) + 1, x)
    case Drop(x) => RemoveAt(s, IndexOf(s, x))
    case Pop => if s == [] then [] else s[1..]
  }

  predicate Runnable(s: seq<FatNode>, ops: seq<Op>)
    decreases |ops|
  {
    ops == [] || (Applicable(s, ops[0]) && Runnable(Apply(s, ops[0]), ops[1..]))
  }

  function Fold(s: seq<FatNode>, ops: seq<Op>): (r: seq<FatNode>)
    requires Runnable(s, ops)
    decreases |ops|
  {
    if ops == [] then s else Fold(Apply(s, ops[0]), ops[1..])
  }

  // The node an operation brings into the list, and the node it takes out.
  function Entering(op: Op): (r: seq<FatNode>) {
    if op.Pop? || op.Drop? then [] else [op.node]
  }

  function Departing(s: seq<FatNode>, op: Op): (r: seq<FatNode>) {
    if op.Drop? then [op.node] else if op.Pop? && s != [] then [s[0]] else []
  }

  // The nodes handed out by Pop along a run; popping an empty list hands out nothing.
  function Popped(s: seq<FatNode>, ops: seq<Op>): (r: seq<FatNode>)
    requires Runnable(s, ops)
    decreases |ops|
  {
    if ops == [] then []
    else (if ops[0].Pop? then Departing(s, ops[0]) else []) + Popped(Apply(s, ops[0]), ops[1..])
  }

  lemma ApplyNodes(s: seq<FatNode>, op: Op)
    requires Distinct(s) && Applicable(s, op)
    ensures forall x :: x in Apply(s, op) ==> x in s || (!op.Pop? && x == op.node)
  {
  }

  method Perform(list: FatList, op: Op) returns (popped: seq<FatNode>)
    requires list.Valid() && Applicable(list.nodes, op)
    modifies list, list.nodes, if op.Pop? then {} else {op.node}
    ensures list.Valid()
    ensures list.nodes == Apply(old(list.nodes), op)
    ensures popped == if op.Pop? then Departing(old(list.nodes), op) else []
  {
    popped := [];
    match op
    case PushFirst(x) => list.InsertFirst(x);
    case PushLast(x) => list.InsertLast(x);
    case PutBefore(y, x) => list.InsertBefore(y, x);
    case PutAfter(y, x) => list.InsertAfter(y, x);
    case Drop(x) => list.Remove(x);
    case Pop =>
      var x := list.PopHead();
      if x != null {
        popped := [x];
      }
  }

  // Any run of operations keeps the list valid and refines the same run on the sequence. The pool
  // holds the nodes in play.
  method RunOps(list: FatList, ops: seq<Op>, ghost pool: set<FatNode>) returns (popped: seq<FatNode>)
    requires list.Valid() && Runnable(list.nodes, ops)
    requires forall x :: x in list.nodes ==> x in pool
    requires forall i :: 0 <= i < |ops| && !ops[i].Pop? ==> ops[i].node in pool
    modifies list, pool
    ensures list.Valid()
    ensures list.nodes == Fold(old(list.nodes), ops)
    ensures popped == Popped(old(list.nodes), ops)
    decreases |ops|
  {
    if ops == [] {
      return [];
    }
    ApplyNodes(list.nodes, ops[0]);
    popped := Perform(list, ops[0]);
    var rest := RunOps(list, ops[1..], pool);
    popped := popped + rest;
  }

  function Entered(ops: seq<Op>): (r: seq<FatNode>) {
    if ops == [] then [] else Entering(ops[0]) + Entered(ops[1..])
  }

  function Departed(s: seq<FatNode>, ops: seq<Op>): (r: seq<FatNode>)
    requires Runnable(s, ops)
    decreases |ops|
  {
    if ops == [] then [] else Departing(s, ops[0]) + Departed(Apply(s, ops[0]), ops[1..])
  }

  lemma InsertAtAddsOne<T>(s: seq<T>, k: nat, x: T)
    requires k <= |s|
    ensures multiset(InsertAt(s, k, x)) == multiset(s) + multiset([x])
  {
    assert s == s[..k] + s[k..];
  }

  lemma RemoveAtTakesOne<T>(s: seq<T>, k: nat)
    requires k < |s|
    ensures multiset(RemoveAt(s, k)) + multiset([s[k]]) == multiset(s)
  {
    assert s == s[..k] + [s[k]] + s[k + 1..];
  }

  lemma EnteringConserves(s: seq<FatNode>, op: Op)
    requires Applicable(s, op) && !op.Pop? && !op.Drop?
    ensures multiset(Apply(s, op)) == multiset(s) + multiset(Entering(op))
  {
    var k := match op
             case PushFirst(_) => 0
             case PutBefore(y, _) => IndexOf(s, y)
             case PutAfter(y, _) => IndexOf(s, y) + 1
             case _ => |s|;
    assert Apply(s, op) == InsertAt(s, k, op.node);
    InsertAtAddsOne(s, k, op.node);
  }

  lemma DepartingConserves(s: seq<FatNode>, op: Op)
    requires Applicable(s, op) && (op.Pop? || op.Drop?)
    ensures multiset(Apply(s, op)) + multiset(Departing(s, op)) == multiset(s)
  {
    if s != [] {
      var k := if op.Pop? then 0 else IndexOf(s, op.node);
      assert Apply(s, op) == RemoveAt(s, k);
      RemoveAtTakesOne(s, k);
    }
  }

  lemma ApplyConserves(s: seq<FatNode>, op: Op)
    requires Applicable(s, op)
    ensures multiset(Apply(s, op)) + multiset(Departing(s, op)) == multiset(s) + multiset(Entering(op))
  {
    if op.Pop? || op.Drop? {
      DepartingConserves(s, op);
    } else {
      EnteringConserves(s, op);
    }
  }

  lemma DepartedUnfolds(s: seq<FatNode>, ops: seq<Op>)
    requires ops != [] && Runnable(s, ops)
    ensures multiset(Departed(s, ops))
            == multiset(Departing(s, ops[0])) + multiset(Departed(Apply(s, ops[0]), ops[1..]))
  {
  }

  lemma EnteredUnfolds(ops: seq<Op>)
    requires ops != []
    ensures multiset(Entered(ops)) == multiset(Entering(ops[0])) + multiset(Entered(ops[1..]))
  {
  }

  // Balances compose: a step s -> t and a rest t -> f give a run s -> f.
  lemma BalancesCompose<T>(s: multiset<T>, t: multiset<T>, f: multiset<T>,
                           in0: multiset<T>, in1: multiset<T>, out0: multiset<T>, out1: multiset<T>)
    requires t + out0 == s + in0 && f + out1 == t + in1
    ensures f + (out0 + out1) == s + (in0 + in1)
  {
    assert f + (out0 + out1) == (f + out1) + out0;
    assert (t + in1) + out0 == (t + out0) + in1;
  }

  // Over any run no node is lost or duplicated: what is in the list at the end, with what left it,
  // is what was there at the start, with what entered.
  lemma {:induction false} RunConservesNodes(s: seq<FatNode>, ops: seq<Op>)
    requires Runnable(s, ops)
    ensures multiset(Fold(s, ops)) + multiset(Departed(s, ops)) == multiset(s) + multiset(Entered(ops))
    decreases |ops|
  {
    if ops != [] {
      ghost var t, rest := Apply(s, ops[0]), ops[1..];
      ApplyConserves(s, ops[0]);
      RunConservesNodes(t, rest);
      DepartedUnfolds(s, ops);
      EnteredUnfolds(ops);
      BalancesCompose(multiset(s), multiset(t), multiset(Fold(t, rest)),
                      multiset(Entering(ops[0])), multiset(Entered(rest)),
                      multiset(Departing(s, ops[0])), multiset(Departed(t, rest)));
    }
  }

  lemma StepIsFifo(s: seq<FatNode>, op: Op)
    requires Applicable(s, op) && (op.PushLast? || op.Pop?)
    ensures Departing(s, op) + Apply(s, op) == s + Entering(op)
  {
  }

  lemma PiecesCompose<T>(s: seq<T>, t: seq<T>, f: seq<T>, in0: seq<T>, in1: seq<T>, out0: seq<T>, out1: seq<T>)
    requires out0 + t == s + in0 && out1 + f == t + in1
    ensures (out0 + out1) + f == s + (in0 + in1)
  {
    assert (out0 + out1) + f == out0 + (out1 + f);
    assert out0 + (t + in1) == (out0 + t) + in1;
  }

  // With insert_last and pop_head only, the list is a first-in first-out queue: the nodes popped
  // so far followed by the nodes still queued are the initial nodes followed by the ones pushed.
  lemma {:induction false} QueueIsFifo(s: seq<FatNode>, ops: seq<Op>)
    requires Runnable(s, ops)
    requires forall i :: 0 <= i < |ops| ==> ops[i].PushLast? || ops[i].Pop?
    ensures Popped(s, ops) + Fold(s, ops) == s + Entered(ops)
    decreases |ops|
  {
    if ops != [] {
      var op, t, rest := ops[0], Apply(s, ops[0]), ops[1..];
      StepIsFifo(s, op);
      QueueIsFifo(t, rest);
      PiecesCompose(s, t, Fold(t, rest), Entering(op), Entered(rest), Departing(s, op), Popped(t, rest));
    }
  }

  // insert_first directly followed by pop_head hands the node back and changes nothing.
  lemma PopUndoesPushFirst(s: seq<FatNode>, x: FatNode, ops: seq<Op>)
    requires x !in s && Runnable(s, ops)
    ensures var run := [PushFirst(x), Pop] + ops;
            Runnable(s, run) && Fold(s, run) == Fold(s, ops) && Popped(s, run) == [x] + Popped(s, ops)
  {
  }

  // How many pops still look for a push in front of op, if d do behind it.
  function DepthBefore(op: Op, d: nat): (r: nat) {
    if op.Pop? then d + 1 else if d == 0 then 0 else d - 1
  }

  // The node op pushes, unless one of d pops behind it takes it.
  function StaysOnTop(op: Op, d: nat): (r: seq<FatNode>) {
    if op.PushFirst? && d == 0 then [op.node] else []
  }

  // Reading a run of insert_first and pop_head backwards, each pop takes the nearest push before it
  // that no later pop takes. With d pops still looking for a push behind the run: the pushes that
  // none takes, newest first,
  function Pending(ops: seq<Op>, d: nat): (r: seq<FatNode>)
    requires forall i :: 0 <= i < |ops| ==> ops[i].PushFirst? || ops[i].Pop?
  {
    if ops == [] then []
    else
      var front, op := ops[..|ops| - 1], ops[|ops| - 1];
      StaysOnTop(op, d) + Pending(front, DepthBefore(op, d))
  }

  // and the number of pops that find no push.
  function Unmatched(ops: seq<Op>, d: nat): (n: nat)
    requires forall i :: 0 <= i < |ops| ==> ops[i].PushFirst? || ops[i].Pop?
  {
    if ops == [] then d
    else Unmatched(ops[..|ops| - 1], DepthBefore(ops[|ops| - 1], d))
  }

  // What is left of s without its first n elements.
  function Rest<T>(s: seq<T>, n: nat): (r: seq<T>) {
    if n <= |s| then s[n..] else []
  }

  lemma {:induction false} RunInTwo(s: seq<FatNode>, ops: seq<Op>, last: Op)
    requires Runnable(s, ops + [last])
    ensures Runnable(s, ops) && Applicable(Fold(s, ops), last)
    ensures Fold(s, ops + [last]) == Apply(Fold(s, ops), last)
    ensures Popped(s, ops + [last]) == Popped(s, ops) + if last.Pop? then Departing(Fold(s, ops), last) else []
    decreases |ops|
  {
    var all := ops + [last];
    if ops == [] {
      assert all == [last] && all[1..] == [];
    } else {
      assert all[1..] == ops[1..] + [last];
      RunInTwo(Apply(s, ops[0]), ops[1..], last);
    }
  }

  lemma RestOfStep(f: seq<FatNode>, op: Op, d: nat)
    requires Applicable(f, op) && (op.PushFirst? || op.Pop?)
    ensures Rest(Apply(f, op), d) == StaysOnTop(op, d) + Rest(f, DepthBefore(op, d))
  {
  }

  lemma Associative<T>(s: seq<T>, t: seq<T>, u: seq<T>)
    ensures s + t + u == s + (t + u)
  {
  }

  // The list without its first d nodes, after any run of insert_first and pop_head.
  lemma {:induction false} StackBelow(s: seq<FatNode>, ops: seq<Op>, d: nat)
    requires Runnable(s, ops)
    requires forall i :: 0 <= i < |ops| ==> ops[i].PushFirst? || ops[i].Pop?
    ensures Rest(Fold(s, ops), d) == Pending(ops, d) + Rest(s, Unmatched(ops, d))
    decreases |ops|
  {
    if ops != [] {
      var front, last := ops[..|ops| - 1], ops[|ops| - 1];
      var e := DepthBefore(last, d);
      assert ops == front + [last];
      RunInTwo(s, front, last);
      RestOfStep(Fold(s, front), last, d);
      StackBelow(s, front, e);
      Associative(StaysOnTop(last, d), Pending(front, e), Rest(s, Unmatched(front, e)));
    }
  }

  // With insert_first and pop_head only, the list is a last-in first-out stack: after any run it
  // holds the pushes no pop has taken, newest first, and then the initial nodes without as many as
  // there were pops that found no push. A further pop hands out the first of these.
  lemma StackIsLifo(s: seq<FatNode>, ops: seq<Op>)
    requires Runnable(s, ops)
    requires forall i :: 0 <= i < |ops| ==> ops[i].PushFirst? || ops[i].Pop?
    ensures Fold(s, ops) == Pending(ops, 0) + Rest(s, Unmatched(ops, 0))
    ensures Runnable(s, ops + [Pop])
    ensures var left := Pending(ops, 0) + Rest(s, Unmatched(ops, 0));
            Popped(s, ops + [Pop]) == Popped(s, ops) + if left == [] then [] else [left[0]]
  {
    StackBelow(s, ops, 0);
    assert Rest(Fold(s, ops), 0) == Fold(s, ops);
    PopMayFollow(s, ops);
    RunInTwo(s, ops, Pop);
  }

  // pop_head asks nothing of the list, so it may follow any run.
  lemma {:induction false} PopMayFollow(s: seq<FatNode>, ops: seq<Op>)
    requires Runnable(s, ops)
    ensures Runnable(s, ops + [Pop])
    decreases |ops|
  {
    if ops == [] {
      assert ([] + [Pop])[1..] == [];
    } else {
      assert (ops + [Pop])[1..] == ops[1..] + [Pop];
      PopMayFollow(Apply(s, ops[0]), ops[1..]);
    }
  }

  // A removed node is gone; the others stay in their order.
  lemma DropLeavesTheOthers(s: seq<FatNode>, x: FatNode)
    requires x in s && Distinct(s)
    ensures x !in Apply(s, Drop(x))
    ensures exists front, back :: s == front + [x] + back && Apply(s, Drop(x)) == front + back
  {
    var k := IndexOf(s, x);
    assert s == s[..k] + [x] + s[k + 1..];
  }

  // A node put before or after a member ends up next to it, on that side.
  lemma PutIsAdjacent(s: seq<FatNode>, at: FatNode, x: FatNode)
    requires at in s && x !in s
    ensures var r, k := Apply(s, PutBefore(at, x)), IndexOf(s, at); r[k] == x && r[k + 1] == at
    ensures var r, k := Apply(s, PutAfter(at, x)), IndexOf(s, at); r[k] == at && r[k + 1] == x
  {
  }

  // ---- Inserting a node and removing it again -------------------------------------------------

  datatype Place = AtFirst | AtLast | Before(node: FatNode) | After(node: FatNode)

  predicate PlaceIn(s: seq<FatNode>, place: Place) {
    place.Before? || place.After? ==> place.node in s
  }

  // Where a place is in the sequence.
  function Position(s: seq<FatNode>, place: Place): (k: nat)
    requires PlaceIn(s, place)
    ensures k <= |s|
  {
    match place
    case AtFirst => 0
    case AtLast => |s|
    case Before(y) => IndexOf(s, y)
    case After(y) => IndexOf(s, y) + 1
  }

  // A node inserted at a place is the first, the last, or next to the named node on that side.
  lemma InsertedAtPlace(s: seq<FatNode>, place: Place, x: FatNode)
    requires PlaceIn(s, place) && x !in s
    ensures var r := InsertAt(s, Position(s, place), x);
            match place
            case AtFirst => r == [x] + s
            case AtLast => r == s + [x]
            case Before(y) => exists k :: 0 <= k < |s| && r[k] == x && r[k + 1] == y
            case After(y) => exists k :: 0 <= k < |s| && r[k] == y && r[k + 1] == x
  {
    var r, i := InsertAt(s, Position(s, place), x), if place.Before? || place.After? then IndexOf(s, place.node) else 0;
    assert place.Before? ==> 0 <= i < |s| && r[i] == x && r[i + 1] == place.node;
    assert place.After? ==> 0 <= i < |s| && r[i] == place.node && r[i + 1] == x;
  }

  lemma RemoveUndoesInsert(s: seq<FatNode>, k: nat, x: FatNode)
    requires k <= |s| && x !in s
    ensures IndexOf(InsertAt(s, k, x), x) == k && RemoveAt(InsertAt(s, k, x), k) == s
    ensures var r := InsertAt(s, k, x);
            r[k] == x && Link(r, k + 1) == Link(s, k) && Link(r, k as int - 1) == Link(s, k as int - 1)
  {
  }

  method InsertAtPlace(list: FatList, place: Place, x: FatNode)
    requires list.Valid() && x !in list.nodes
    requires PlaceIn(list.nodes, place)
    modifies list, list.nodes, x
    ensures list.Valid()
    ensures list.nodes == InsertAt(old(list.nodes), Position(old(list.nodes), place), x)
  {
    match place
    case AtFirst => list.InsertFirst(x);
    case AtLast => list.InsertLast(x);
    case Before(y) => list.InsertBefore(y, x);
    case After(y) => list.InsertAfter(y, x);
  }

  method InsertAndRemove(list: FatList, place: Place, x: FatNode)
    requires list.Valid() && x !in list.nodes
    requires PlaceIn(list.nodes, place)
    modifies list, list.nodes, x
    ensures list.Valid() && list.nodes == old(list.nodes)
  {
    ghost var before := list.nodes;
    ghost var k: int := Position(before, place);
    InsertAtPlace(list, place, x);
    RemoveInserted(list, before, k, x);
  }

  method RemoveInserted(list: FatList, ghost before: seq<FatNode>, ghost k: int, x: FatNode)
    requires list.Valid() && 0 <= k <= |before| && x !in before && list.nodes == InsertAt(before, k, x)
    modifies list, before
    ensures list.Valid() && list.nodes == before
  {
    RemoveUndoesInsert(before, k, x);
    assert list.nodes[k].previous == Link(before, k - 1) && list.nodes[k].next == Link(before, k);
    list.Remove(x);
  }

  // Each of the four inserts followed by the removal of the inserted node restores the list:
  // its ends and both links of every member.
  method InsertThenRemove(list: FatList, place: Place, x: FatNode)
    requires list.Valid() && x !in list.nodes
    requires PlaceIn(list.nodes, place)
    modifies list, list.nodes, x
    ensures list.Valid() && list.nodes == old(list.nodes)
    ensures list.head == old(list.head) && list.tail == old(list.tail)
    ensures forall i {:trigger list.nodes[i].next} :: 0 <= i < |list.nodes| ==>
      list.nodes[i].next == old(list.nodes[i].next)
    ensures forall i {:trigger list.nodes[i].previous} :: 0 <= i < |list.nodes| ==>
      list.nodes[i].previous == old(list.nodes[i].previous)
  {
    InsertAndRemove(list, place, x);
  }

  // ---- Moving nodes between two lists ---------------------------------------------------------

  // One move: pop the head of one list and insert it at a place of the other.
  datatype Move = Move(fromLeft: bool, place: Place)

  function MoveHead(source: seq<FatNode>, target: seq<FatNode>, place: Place): (r: (seq<FatNode>, seq<FatNode>))
    requires PlaceIn(target, place)
  {
    if source == [] then (source, target)
    else (source[1..], InsertAt(target, Position(target, place), source[0]))
  }

  predicate MoveAllowed(left: seq<FatNode>, right: seq<FatNode>, m: Move) {
    PlaceIn(if m.fromLeft then right else left, m.place)
  }

  function ApplyMove(left: seq<FatNode>, right: seq<FatNode>, m: Move): (r: (seq<FatNode>, seq<FatNode>))
    requires MoveAllowed(left, right, m)
  {
    if m.fromLeft then MoveHead(left, right, m.place)
    else
      var (r, l) := MoveHead(right, left, m.place);
      (l, r)
  }

  predicate MovesAllowed(left: seq<FatNode>, right: seq<FatNode>, ms: seq<Move>)
    decreases |ms|
  {
    ms == [] ||
      (&& MoveAllowed(left, right, ms[0])
       && var (l, r) := ApplyMove(left, right, ms[0]);
          MovesAllowed(l, r, ms[1..]))
  }

  function FoldMoves(left: seq<FatNode>, right: seq<FatNode>, ms: seq<Move>): (r: (seq<FatNode>, seq<FatNode>))
    requires MovesAllowed(left, right, ms)
    decreases |ms|
  {
    if ms == [] then (left, right)
    else
      var (l, r) := ApplyMove(left, right, ms[0]);
      FoldMoves(l, r, ms[1..])
  }

  // A move takes the head of the list it is said to take from and puts it where it is said to.
  lemma MoveTakesHead(left: seq<FatNode>, right: seq<FatNode>, m: Move)
    requires MoveAllowed(left, right, m) && Distinct(left + right)
    ensures var (l, r) := ApplyMove(left, right, m);
            var (source, target) := if m.fromLeft then (left, right) else (right, left);
            var (s, t) := if m.fromLeft then (l, r) else (r, l);
            if source == [] then s == source && t == target
            else && source == [source[0]] + s
                 && match m.place
                    case AtFirst => t == [source[0]] + target
                    case AtLast => t == target + [source[0]]
                    case Before(y) => exists k :: 0 <= k < |target| && t[k] == source[0] && t[k + 1] == y
                    case After(y) => exists k :: 0 <= k < |target| && t[k] == y && t[k + 1] == source[0]
  {
    var source, target := if m.fromLeft then left else right, if m.fromLeft then right else left;
    if source != [] {
      assert source[0] !in target by {
        assert forall i :: 0 <= i < |left| ==> (left + right)[i] == left[i];
        assert forall i :: 0 <= i < |right| ==> (left + right)[|left| + i] == right[i];
      }
      InsertedAtPlace(target, m.place, source[0]);
    }
  }

  lemma MoveHeadConserves(source: seq<FatNode>, target: seq<FatNode>, place: Place)
    requires PlaceIn(target, place)
    ensures var (f, t) := MoveHead(source, target, place);
            multiset(f) + multiset(t) == multiset(source) + multiset(target)
  {
    if source != [] {
      InsertAtAddsOne(target, Position(target, place), source[0]);
      RemoveAtTakesOne(source, 0);
      assert RemoveAt(source, 0) == source[1..];
    }
  }

  lemma ApplyMoveConserves(left: seq<FatNode>, right: seq<FatNode>, m: Move)
    requires MoveAllowed(left, right, m)
    ensures var (l, r) := ApplyMove(left, right, m);
            multiset(l) + multiset(r) == multiset(left) + multiset(right)
  {
    if m.fromLeft {
      MoveHeadConserves(left, right, m.place);
    } else {
      MoveHeadConserves(right, left, m.place);
      var (r, l) := MoveHead(right, left, m.place);
      assert multiset(l) + multiset(r) == multiset(r) + multiset(l);
    }
  }

  lemma {:induction false} MovesConserveNodes(left: seq<FatNode>, right: seq<FatNode>, ms: seq<Move>)
    requires MovesAllowed(left, right, ms)
    ensures var (l, r) := FoldMoves(left, right, ms);
            multiset(l) + multiset(r) == multiset(left) + multiset(right)
    decreases |ms|
  {
    if ms != [] {
      var (l, r) := ApplyMove(left, right, ms[0]);
      ApplyMoveConserves(left, right, ms[0]);
      MovesConserveNodes(l, r, ms[1..]);
    }
  }

  ghost predicate Disjoint(s: seq<FatNode>, t: seq<FatNode>) {
    forall x :: x in s ==> x !in t
  }

  // Popping from one of two disjoint lists leaves the other alone.
  method PopBeside(source: FatList, other: FatList) returns (x: FatNode?)
    requires source != other && source.Valid() && other.Valid() && Disjoint(source.nodes, other.nodes)
    modifies source, source.nodes
    ensures source.Valid() && other.Valid() && other.nodes == old(other.nodes)
    ensures old(source.nodes) == [] ==> x == null && source.nodes == []
    ensures old(source.nodes) != [] ==> x != null && old(source.nodes) == [x] + source.nodes
    ensures x != null ==> x !in source.nodes && x !in other.nodes
    ensures Disjoint(source.nodes, other.nodes)
  {
    ghost var was, untouched := source.nodes, other.nodes;
    assert forall i :: 0 <= i < |untouched| ==> untouched[i] !in was;
    assert source.head == Link(was, 0);
    assert source.head != null ==> source.head.next == was[0].next == Link(was, 1);
    x := source.PopHead();
    assert Forward(untouched, other.head) && Backward(untouched, other.tail);
    if x != null {
      assert was == [x] + was[1..];
    }
  }

  // Inserting into one of two disjoint lists leaves the other alone.
  method InsertBeside(target: FatList, place: Place, x: FatNode, other: FatList)
    requires target != other && target.Valid() && other.Valid() && Disjoint(other.nodes, target.nodes)
    requires x !in target.nodes && x !in other.nodes && PlaceIn(target.nodes, place)
    modifies target, target.nodes, x
    ensures target.Valid() && other.Valid() && other.nodes == old(other.nodes)
    ensures target.nodes == InsertAt(old(target.nodes), Position(old(target.nodes), place), x)
  {
    ghost var untouched := other.nodes;
    assert forall i :: 0 <= i < |untouched| ==> untouched[i] != x && untouched[i] !in target.nodes;
    InsertAtPlace(target, place, x);
    assert Forward(untouched, other.head) && Backward(untouched, other.tail);
  }

  method PerformMove(source: FatList, target: FatList, place: Place)
    requires source != target && source.Valid() && target.Valid()
    requires Disjoint(source.nodes, target.nodes) && PlaceIn(target.nodes, place)
    modifies source, target, source.nodes, target.nodes
    ensures source.Valid() && target.Valid()
    ensures Disjoint(source.nodes, target.nodes)
    ensures (source.nodes, target.nodes) == MoveHead(old(source.nodes), old(target.nodes), place)
    ensures forall x :: x in source.nodes || x in target.nodes ==> x in old(source.nodes) || x in old(target.nodes)
  {
    var x := PopBeside(source, target);
    if x != null {
      DistinctInsertAt(target.nodes, Position(target.nodes, place), x);
      InsertBeside(target, place, x, source);
    }
  }

  // Any run of moves keeps two valid lists disjoint; by MovesConserveNodes their union is constant.
  method RunMoves(left: FatList, right: FatList, ms: seq<Move>)
    requires left != right && left.Valid() && right.Valid()
    requires Disjoint(left.nodes, right.nodes) && MovesAllowed(left.nodes, right.nodes, ms)
    modifies left, right, left.nodes, right.nodes
    ensures left.Valid() && right.Valid()
    ensures Disjoint(left.nodes, right.nodes)
    ensures (left.nodes, right.nodes) == FoldMoves(old(left.nodes), old(right.nodes), ms)
    decreases |ms|
  {
    if ms != [] {
      if ms[0].fromLeft {
        PerformMove(left, right, ms[0].place);
      } else {
        PerformMove(right, left, ms[0].place);
      }
      RunMoves(left, right, ms[1..]);
    }
  }
}
