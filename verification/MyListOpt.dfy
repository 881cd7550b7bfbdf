/** The intrusive list module: tail insertion, deletion during a safe traversal, and its life from init to exit. */
module MyListOpt {
  import opened Words

  /** A list element with its links; the list head and the two poison addresses are of the same kind. */
  class Node {
    var next: Node
    var prev: Node
    const id: int

    constructor (id: int)
      ensures this.id == id && next == this && prev == this
    {
      this.id := id;
      next, prev := this, this;
    }
  }

  // ----- the operations on sequences ----------------------------------------

  predicate Matches(n: Node, id: int, all: bool) { n.id == id || all }

  /** Of the first `n` nodes, those that a deletion keeps, in order. */
  function Survivors(s: seq<Node>, n: nat, id: int, all: bool): seq<Node>
    requires n <= |s|
  {
    if n == 0 then []
    else Survivors(s, n - 1, id, all) + if Matches(s[n - 1], id, all) then [] else [s[n - 1]]
  }

  /** Of the first `n` nodes, those that a deletion takes out, in order. */
  function Victims(s: seq<Node>, n: nat, id: int, all: bool): seq<Node>
    requires n <= |s|
  {
    if n == 0 then []
    else Victims(s, n - 1, id, all) + if Matches(s[n - 1], id, all) then [s[n - 1]] else []
  }

  /** A deletion that has visited the first `i` of `nodes`: what is left on the ring, and what was freed. */
  ghost predicate Visited(nodes: seq<Node>, i: nat, id: int, all: bool, kept: seq<Node>, ring: seq<Node>,
                          before: seq<Node>, freed: seq<Node>) {
    && i <= |nodes|
    && kept == Survivors(nodes, i, id, all) && ring == kept + nodes[i..]
    && freed == before + Victims(nodes, i, id, all)
  }

  lemma VisitOne(nodes: seq<Node>, i: nat, id: int, all: bool, kept: seq<Node>, ring: seq<Node>,
                 before: seq<Node>, freed: seq<Node>)
    requires Visited(nodes, i, id, all, kept, ring, before, freed) && i < |nodes|
    ensures |kept| < |ring| && ring[|kept|] == nodes[i]
    ensures if Matches(nodes[i], id, all)
            then Visited(nodes, i + 1, id, all, kept, Without(ring, |kept|), before, freed + [nodes[i]])
            else Visited(nodes, i + 1, id, all, kept + [nodes[i]], ring, before, freed)
  {
    if Matches(nodes[i], id, all) {
      assert Without(ring, |kept|) == kept + nodes[i + 1..];
    } else {
      assert ring == kept + [nodes[i]] + nodes[i + 1..];
    }
  }

  lemma VisitedAll(nodes: seq<Node>, i: nat, id: int, all: bool, kept: seq<Node>, ring: seq<Node>,
                   before: seq<Node>, freed: seq<Node>)
    requires Visited(nodes, i, id, all, kept, ring, before, freed) && |kept| == |ring|
    ensures ring == Survivors(nodes, |nodes|, id, all) && freed == before + Victims(nodes, |nodes|, id, all)
  {
    assert i == |nodes| && nodes[i..] == [];
  }

  function Ids(s: seq<Node>): (ids: seq<int>)
    ensures |ids| == |s| && forall i :: 0 <= i < |s| ==> ids[i] == s[i].id
  {
    seq(|s|, i requires 0 <= i < |s| => s[i].id)
  }

  lemma IdsSnoc(s: seq<Node>, p: Node)
    ensures Ids(s + [p]) == Ids(s) + [p.id]
  {
  }

  lemma Regroup<T>(a: seq<T>, b: seq<T>, c: seq<T>)
    ensures a + b + c == a + (b + c)
  {
  }

  ghost predicate Distinct(s: seq<Node>) {
    forall i, j :: 0 <= i < j < |s| ==> s[i] != s[j]
  }

  ghost function Elements(s: seq<Node>): set<Node> { set n | n in s }

  /** Allocated nodes are on the list or freed, never both, and never the head or a poison. */
  ghost predicate Accounts(head: Node, poison1: Node, poison2: Node,
                           ring: seq<Node>, freed: seq<Node>, made: set<Node>) {
    && head != poison1 && head != poison2 && poison1 != poison2
    && Distinct(ring) && Distinct(freed)
    && (forall n :: n in ring ==> n !in freed)
    && made == Elements(ring) + Elements(freed)
    && head !in ring && head !in freed && poison1 !in ring && poison1 !in freed && poison2 !in ring && poison2 !in freed
  }

  function Without<T>(s: seq<T>, k: nat): (r: seq<T>)
    requires k < |s|
    ensures |r| == |s| - 1
    ensures forall i {:trigger r[i]} :: 0 <= i < |r| ==> r[i] == if i < k then s[i] else s[i + 1]
  {
    s[..k] + s[k + 1..]
  }

  /** Moving one node from the list to the freed ones keeps the account. */
  lemma AccountMove(head: Node, poison1: Node, poison2: Node,
                    ring: seq<Node>, freed: seq<Node>, made: set<Node>, k: nat)
    requires Accounts(head, poison1, poison2, ring, freed, made) && k < |ring|
    ensures Accounts(head, poison1, poison2, Without(ring, k), freed + [ring[k]], made)
    ensures ring[k] !in Without(ring, k) && ring[k] !in freed
  {
    var p, rest := ring[k], Without(ring, k);
    assert p in Elements(ring);
    assert Elements(ring) == Elements(rest) + {p} by {
      forall n | n in ring ensures n in Elements(rest) + {p} {
        var i :| 0 <= i < |ring| && ring[i] == n;
        if i < k { assert rest[i] == n; } else if i > k { assert rest[i - 1] == n; }
      }
    }
    assert Elements(freed + [p]) == Elements(freed) + {p};
  }

  // ----- the list -----------------------------------------------------------

  class MyList {
    const head: Node
    const poison1: Node
    const poison2: Node
    /** How many more allocations succeed. */
    var supply: nat
    /** The nodes on the list, in order. */
    ghost var ring: seq<Node>
    /** The nodes given back, in order. */
    ghost var freed: seq<Node>
    /** Every node ever allocated. */
    ghost var made: set<Node>

    constructor (supply: nat)
      ensures Valid() && ring == [] && freed == [] && made == {} && this.supply == supply
      ensures fresh(head)
    {
      head := new Node(0);
      poison1 := new Node(0);
      poison2 := new Node(0);
      this.supply := supply;
      ring, freed, made := [], [], {};
    }

    /** Position `i` around the ring: the head at both ends, the nodes between. */
    ghost function At(i: nat): Node
      requires i <= |ring| + 1
      reads this`ring
    {
      if 0 < i <= |ring| then ring[i - 1] else head
    }

    /** `next` and `prev` are mutually inverse all around the ring. */
    ghost predicate Linked()
      reads this`ring, head, ring
    {
      && (forall i {:trigger At(i).next} :: 0 <= i <= |ring| ==> At(i).next == At(i + 1))
      && (forall i {:trigger At(i).prev} :: 0 < i <= |ring| + 1 ==> At(i).prev == At(i - 1))
    }

    ghost predicate Accounted()
      reads this`ring, this`freed, this`made
    {
      Accounts(head, poison1, poison2, ring, freed, made)
    }

    ghost predicate Valid()
      reads this`ring, this`freed, this`made, head, ring, freed
    {
      Linked() && Accounted() && forall i :: 0 <= i < |freed| ==> freed[i].next == poison1 && freed[i].prev == poison2
    }

    /** Two positions short of the closing one hold different nodes. */
    lemma AtDistinct(i: nat, j: nat)
      requires Accounted() && i < j <= |ring|
      ensures At(i) != At(j)
    {
    }

    /** `list_add_tail` on a node that was just allocated. */
    method AddTail(node: Node)
      requires Valid() && node !in made && node != head && node != poison1 && node != poison2
      modifies this`ring, this`made, head, made, node
      ensures Valid()
      ensures ring == old(ring) + [node] && made == old(made) + {node}
    {
      ghost var last := |ring|;
      assert node !in Elements(ring) && node !in Elements(freed) && Elements(ring) <= made;
      assert At(last).next == At(last + 1) && At(last + 1).prev == At(last);
      var prev := head.prev;
      head.prev := node;
      node.next := head;
      node.prev := prev;
      prev.next := node;
      ring := ring + [node];
      made := made + {node};
      assert Elements(ring) == Elements(old(ring)) + {node};
      forall i: nat | i <= |ring| ensures At(i).next == At(i + 1) && At(i + 1).prev == At(i) {
        if i < last {
          assert old(At(i)) == At(i) && old(At(i + 1)) == At(i + 1);
          AtDistinct(i, last);
          assert old(At(i).next == At(i + 1) && At(i + 1).prev == At(i));
        } else if i == last {
          assert At(i) == prev && At(i + 1) == node;
        } else {
          assert At(i) == node && At(i + 1) == head;
        }
      }
    }

    /** `list_del`: the neighbours close the gap, the node keeps poisoned links. */
    method ListDel(p: Node, ghost k: nat)
      requires Linked() && Accounted() && k < |ring| && p == ring[k]
      modifies this`ring, head, ring
      ensures Linked() && ring == Without(old(ring), k) && made == old(made)
      ensures p.next == poison1 && p.prev == poison2
    {
      assert At(k).next == At(k + 1) && At(k + 1).prev == At(k);
      assert At(k + 1).next == At(k + 2) && At(k + 2).prev == At(k + 1);
      AccountMove(head, poison1, poison2, ring, freed, made, k);
      p.next.prev := p.prev;
      p.prev.next := p.next;
      p.next := poison1;
      p.prev := poison2;
      ring := Without(ring, k);
      forall i: nat | i <= |ring| ensures At(i).next == At(i + 1) && At(i + 1).prev == At(i) {
        var j, l := if i <= k then i else i + 1, if i < k then i + 1 else i + 2;
        assert At(i) == old(At(j)) && At(i + 1) == old(At(l));
        assert old(At(j).next == At(j + 1));
        assert old(At(l).prev == At(l - 1));
      }
    }

    /** `list_del` and `kfree` of one node. */
    method Unlink(p: Node, ghost k: nat)
      requires Valid() && k < |ring| && p == ring[k]
      modifies this`ring, this`freed, head, made
      ensures Valid()
      ensures ring == Without(old(ring), k) && freed == old(freed) + [p] && made == old(made)
    {
      AccountMove(head, poison1, poison2, ring, freed, made, k);
      assert Elements(ring) <= made;
      assert forall i :: 0 <= i < |freed| ==> freed[i] != head && freed[i] !in ring && freed[i] in freed;
      ListDel(p, k);
      assert forall i :: 0 <= i < |freed| ==>
        freed[i].next == old(freed[i].next) && freed[i].prev == old(freed[i].prev);
      freed := freed + [p];
    }

    /** `pos->next`, read only from the head or from a node that is still on the list. */
    method Next(p: Node, ghost k: nat) returns (n: Node)
      requires Valid() && k <= |ring| + 1 && p == At(k)
      ensures n == if k <= |ring| then At(k + 1) else At(1)
    {
      assert k <= |ring| ==> At(k).next == At(k + 1);
      assert At(0).next == At(1);
      n := p.next;
    }

    /** `mylistopt_print`: the ids in list order. */
    method Print() returns (out: seq<int>)
      requires Valid()
      ensures out == Ids(ring)
    {
      out := [];
      ghost var k := 1;
      var pos := Next(head, 0);
      while pos != head
        invariant 1 <= k <= |ring| + 1 && pos == At(k)
        invariant out == Ids(ring[..k - 1])
        decreases |ring| + 1 - k
      {
        assert k <= |ring| && ring[..k][..k - 1] == ring[..k - 1];
        out := out + [pos.id];
        pos := Next(pos, k);
        k := k + 1;
      }
      NotHead(k);
      assert ring[..k - 1] == ring;
    }

    lemma NotHead(k: nat)
      requires Accounted() && 1 <= k <= |ring| + 1 && At(k) == head
      ensures k == |ring| + 1
    {
    }

    /** A traversal at position `k`, with the position after it saved. */
    ghost predicate Saved(p: Node, n: Node, k: nat)
      requires k <= |ring|
      reads this`ring
    {
      p == At(k + 1) && n == if k < |ring| then At(k + 2) else At(1)
    }

    method Begin() returns (p: Node, n: Node)
      requires Valid()
      ensures Saved(p, n, 0)
    {
      p := Next(head, 0);
      n := Next(p, 1);
    }

    /** The loop body: `p` goes if it matches; the traversal goes on from the saved `n`. */
    method Visit(p: Node, n: Node, id: int, all: bool, ghost k: nat) returns (p': Node, n': Node)
      requires Valid() && k < |ring| && Saved(p, n, k)
      modifies this`ring, this`freed, head, made
      ensures Valid() && made == old(made)
      ensures Matches(p, id, all) ==> ring == Without(old(ring), k) && freed == old(freed) + [p] && Saved(p', n', k)
      ensures !Matches(p, id, all) ==> ring == old(ring) && freed == old(freed) && Saved(p', n', k + 1)
    {
      if id == p.id || all {
        Unlink(p, k);
        p' := n;
        n' := Next(p', k + 1);
      } else {
        p' := n;
        n' := Next(p', k + 2);
      }
    }

    /** One turn of the traversal, in the terms of what it has visited so far. */
    method Turn(p: Node, n: Node, id: int, all: bool,
                ghost nodes: seq<Node>, ghost i: nat, ghost kept: seq<Node>, ghost before: seq<Node>)
      returns (p': Node, n': Node, ghost kept': seq<Node>)
      requires Valid() && Visited(nodes, i, id, all, kept, ring, before, freed)
      requires i < |nodes| && Saved(p, n, |kept|)
      modifies this`ring, this`freed, head, made
      ensures Valid() && Visited(nodes, i + 1, id, all, kept', ring, before, freed) && made == old(made)
      ensures |kept'| <= |ring| && Saved(p', n', |kept'|)
    {
      VisitOne(nodes, i, id, all, kept, ring, before, freed);
      kept' := if Matches(p, id, all) then kept else kept + [nodes[i]];
      p', n' := Visit(p, n, id, all, |kept|);
    }

    /** `mylistopt_del`: the safe traversal, which takes out every match. */
    method Del(id: int, all: bool)
      requires Valid()
      modifies this`ring, this`freed, head, made
      ensures Valid() && made == old(made)
      ensures ring == Survivors(old(ring), |old(ring)|, id, all)
      ensures freed == old(freed) + Victims(old(ring), |old(ring)|, id, all)
    {
      ghost var nodes, before, i, kept := ring, freed, 0, [];
      var p, n := Begin();
      while p != head
        invariant Valid() && made == old(made)
        invariant Visited(nodes, i, id, all, kept, ring, before, freed)
        invariant Saved(p, n, |kept|)
        decreases |nodes| - i
      {
        p, n, kept := Turn(p, n, id, all, nodes, i, kept, before);
        i := i + 1;
      }
      NotHead(|kept| + 1);
      VisitedAll(nodes, i, id, all, kept, ring, before, freed);
    }

    /** One successful `kzalloc`, and the node with this id at the tail. */
    method AddOne(id: nat)
      requires Valid() && supply > 0
      modifies this`supply, this`ring, this`made, head, made
      ensures Valid() && fresh(made - old(made)) && supply == old(supply) - 1
      ensures Ids(ring) == Ids(old(ring)) + [id]
    {
      supply := supply - 1;
      var p := new Node(id);
      IdsSnoc(ring, p);
      AddTail(p);
    }

    /** `mylistopt_add_all`: nodes 0, 1, ... at the tail, until `n` are there or an allocation fails. */
    method AddAll(n: nat) returns (ret: int)
      requires Valid()
      modifies this`supply, this`ring, this`made, head, made
      ensures Valid() && fresh(made - old(made))
      ensures Ids(ring) == Ids(old(ring)) + Upto(Min(n, old(supply)))
      ensures ret == if n <= old(supply) then 0 else -1
    {
      ghost var before := Ids(ring);
      var i := 0;
      while i < n
        invariant i <= n && Valid() && fresh(made - old(made))
        invariant i + supply == old(supply)
        invariant Ids(ring) == before + Upto(i)
      {
        if supply == 0 { return -1; }
        Regroup(before, Upto(i), [i]);
        AddOne(i);
        i := i + 1;
      }
      return 0;
    }
  }

  // ----- the life of the module, on ids --------------------------------------

  /** 0, 1, ..., n - 1 */
  function Upto(n: nat): seq<int> { if n == 0 then [] else Upto(n - 1) + [n - 1] }

  /** 0, 2, 4, ... below k */
  function Evens(k: nat): seq<int> { seq((k + 1) / 2, i => 2 * i) }

  /** Of 0, ..., k - 1, what is left when the odd ones below `i` are gone. */
  function OddsGone(k: nat, i: nat): seq<int> {
    if k == 0 then [] else OddsGone(k - 1, i) + if (k - 1) % 2 == 0 || k - 1 >= i then [k - 1] else []
  }

  /** Of the first `n` ids, those other than `id`. */
  function Drop(ids: seq<int>, n: nat, id: int): seq<int>
    requires n <= |ids|
  {
    if n == 0 then [] else Drop(ids, n - 1, id) + if ids[n - 1] == id then [] else [ids[n - 1]]
  }

  lemma {:induction false} IdsOfSurvivors(s: seq<Node>, n: nat, id: int)
    requires n <= |s|
    ensures Ids(Survivors(s, n, id, false)) == Drop(Ids(s), n, id)
  {
    if n > 0 {
      IdsOfSurvivors(s, n - 1, id);
      if s[n - 1].id != id { IdsSnoc(Survivors(s, n - 1, id, false), s[n - 1]); }
    }
  }

  lemma {:induction false} DropPrefix(a: seq<int>, b: seq<int>, n: nat, id: int)
    requires n <= |a|
    ensures Drop(a + b, n, id) == Drop(a, n, id)
  {
    if n > 0 { DropPrefix(a, b, n - 1, id); }
  }

  /** Deleting the next odd id. */
  lemma {:induction false} DropOdd(k: nat, i: nat)
    requires i % 2 == 1
    ensures Drop(OddsGone(k, i), |OddsGone(k, i)|, i) == OddsGone(k, i + 1)
  {
    if k > 0 {
      var a, b := OddsGone(k - 1, i), if (k - 1) % 2 == 0 || k - 1 >= i then [k - 1] else [];
      DropOdd(k - 1, i);
      DropPrefix(a, b, |a|, i);
    }
  }

  lemma {:induction false} NothingGone(k: nat)
    ensures OddsGone(k, 0) == Upto(k)
  {
    if k > 0 { NothingGone(k - 1); }
  }

  lemma {:induction false} SkipEven(k: nat, i: nat)
    requires i % 2 == 0
    ensures OddsGone(k, i + 1) == OddsGone(k, i)
  {
    if k > 0 { SkipEven(k - 1, i); }
  }

  lemma {:induction false} OnlyEvensLeft(k: nat, i: nat)
    requires i >= k
    ensures OddsGone(k, i) == Evens(k)
  {
    if k > 0 {
      OnlyEvensLeft(k - 1, i);
      if k % 2 == 1 {
        assert Evens(k) == Evens(k - 1) + [k - 1];
      } else {
        assert Evens(k) == Evens(k - 1);
      }
    }
  }

  lemma {:induction false} AllGone(s: seq<Node>, n: nat, id: int)
    requires n <= |s|
    ensures Survivors(s, n, id, true) == [] && Victims(s, n, id, true) == s[..n]
  {
    if n > 0 {
      AllGone(s, n - 1, id);
      TakeOneMore(s, n);
    }
  }

  lemma TakeOneMore<T>(s: seq<T>, n: nat)
    requires 0 < n <= |s|
    ensures s[..n] == s[..n - 1] + [s[n - 1]]
  {
  }

  // ----- init and exit ------------------------------------------------------

  class Module {
    const list: MyList
    /** The kernel thread exists. */
    var thread: bool

    /** A freshly loaded module: an empty list, and `supply` allocations that will succeed. */
    constructor (supply: nat)
      ensures list.Valid() && list.ring == [] && list.made == {} && list.supply == supply && !thread
      ensures fresh(list) && fresh(list.head)
    {
      list := new MyList(supply);
      thread := false;
    }

    /** One turn of the loop of `mylistopt_init` over the odd ids. */
    method DeleteIfOdd(i: nat, ghost k: nat)
      requires list.Valid() && Ids(list.ring) == OddsGone(k, i)
      modifies list`ring, list`freed, list.head, list.made
      ensures list.Valid() && Ids(list.ring) == OddsGone(k, i + 1) && list.made == old(list.made)
    {
      if i % 2 == 1 {
        IdsOfSurvivors(list.ring, |list.ring|, i);
        DropOdd(k, i);
        list.Del(i, false);
      } else {
        SkipEven(k, i);
      }
    }

    method DeleteOdd(n: nat, ghost k: nat)
      requires list.Valid() && Ids(list.ring) == Upto(k) && k <= n
      modifies list`ring, list`freed, list.head, list.made
      ensures list.Valid() && Ids(list.ring) == Evens(k)
    {
      NothingGone(k);
      var i := 0;
      while i < n
        invariant i <= n && list.Valid() && list.made == old(list.made)
        invariant Ids(list.ring) == OddsGone(k, i)
      {
        DeleteIfOdd(i, k);
        i := i + 1;
      }
      OnlyEvensLeft(k, i);
    }

    /** Adding, printing, and deleting the odd ids. */
    method Populate(n: nat) returns (first: seq<int>)
      requires list.Valid() && list.ring == [] && list.made == {}
      modifies list`supply, list`ring, list`freed, list`made, list.head
      ensures list.Valid() && fresh(list.made)
      ensures first == Upto(Min(n, old(list.supply))) && Ids(list.ring) == Evens(Min(n, old(list.supply)))
    {
      ghost var k := Min(n, list.supply);
      var added := list.AddAll(n);
      assert [] + Upto(k) == Upto(k);
      first := list.Print();
      DeleteOdd(n, k);
    }

    /** `mylistopt_init` for `n` nodes; `threadError` is 0 or what `kthread_create` fails with. */
    method Init(n: nat, threadError: int) returns (ret: int, first: seq<int>, second: seq<int>)
      requires list.Valid() && list.ring == [] && list.made == {} && !thread
      modifies this`thread, list`supply, list`ring, list`freed, list`made, list.head
      ensures list.Valid() && fresh(list.made)
      ensures first == Upto(Min(n, old(list.supply)))
      ensures second == Ids(list.ring) == Evens(Min(n, old(list.supply)))
      ensures ret == threadError && (thread <==> threadError == 0)
    {
      first := Populate(n);
      second := list.Print();
      if threadError != 0 { return threadError, first, second; }
      thread := true;
      return 0, first, second;
    }

    /** `mylistopt_exit` */
    method Exit() returns (left: seq<int>)
      requires list.Valid()
      modifies this`thread, list`ring, list`freed, list.head, list.made
      ensures list.Valid() && list.ring == [] && left == [] && !thread
      ensures list.freed == old(list.freed + list.ring)
    {
      AllGone(list.ring, |list.ring|, 0);
      list.Del(0, true);
      left := list.Print();
      thread := false;
    }
  }

  /** Load, and unload if loading succeeded: what was allocated is freed, each node once, unless the
      kernel thread could not be created; then the nodes with even ids are never freed. */
  method Lifecycle(n: nat, supply: nat, threadError: int) returns (ghost leaked: set<Node>, m: Module)
    ensures m.list.Valid() && Distinct(m.list.freed)
    ensures leaked == m.list.made - Elements(m.list.freed)
    ensures leaked == {} <==> threadError == 0 || Min(n, supply) == 0
    ensures leaked == {} ==> m.list.ring == []
    ensures leaked != {} ==> Ids(m.list.ring) == Evens(Min(n, supply))
  {
    m := new Module(supply);
    var ret, first, second := m.Init(n, threadError);
    if ret == 0 {
      var left := m.Exit();
    }
    leaked := m.list.made - Elements(m.list.freed);
    assert leaked == Elements(m.list.ring);
    if m.list.ring != [] { assert m.list.ring[0] in leaked; }
  }
}
