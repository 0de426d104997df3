/** The registry of contexts: a doubly linked list that is looked up, extended and cut under a lock. */
module Registry {

  /** The key of a context: the address of a libjpeg object. */
  type Cinfo = nat

  /** A context's place in the list. */
  class Node {
    const cinfo: Cinfo
    var next: Node?
    var prev: Node?

    constructor (cinfo: Cinfo)
      ensures this.cinfo == cinfo && next == null && prev == null
    {
      this.cinfo, next, prev := cinfo, null, null;
    }
  }

  /** The neighbours that the i-th node of a list should have. */
  function NextOf(list: seq<Node>, i: nat): Node?
    requires i < |list|
  {
    if i + 1 < |list| then list[i + 1] else null
  }

  function PrevOf(list: seq<Node>, i: nat): Node?
    requires i < |list|
  {
    if 0 < i then list[i - 1] else null
  }

  function Keys(list: seq<Node>): (k: seq<Cinfo>)
    ensures |k| == |list| && forall i :: 0 <= i < |list| ==> k[i] == list[i].cinfo
  {
    seq(|list|, i requires 0 <= i < |list| => list[i].cinfo)
  }

  /** The first node with a given key. */
  ghost predicate FirstWith(list: seq<Node>, cinfo: Cinfo, node: Node?) {
    if node == null then cinfo !in Keys(list)
    else exists i: nat :: i < |list| && list[i] == node && node.cinfo == cinfo && cinfo !in Keys(list[..i])
  }

  /** Where the nodes of a list are after the i-th has been taken out. */
  lemma Cut(was: seq<Node>, i: nat, k: nat)
    requires i < |was| && k < |was| - 1
    ensures (was[..i] + was[i + 1..])[k] == if k < i then was[k] else was[k + 1]
  {
  }

  /** A new node in front puts its key in front; a node taken out takes its key out. */
  lemma KeysFollow(list: seq<Node>, ctx: Node, i: nat)
    ensures Keys([ctx] + list) == [ctx.cinfo] + Keys(list)
    ensures i < |list| ==> Keys(list[..i] + list[i + 1..]) == Keys(list)[..i] + Keys(list)[i + 1..]
  {
    if i < |list| {
      var (after, cut) := (Keys(list[..i] + list[i + 1..]), Keys(list)[..i] + Keys(list)[i + 1..]);
      forall k: nat | k < |list| - 1
        ensures after[k] == cut[k]
      {
        Cut(list, i, k);
      }
    }
  }

  class Contexts {
    var head: Node?
    ghost var list: seq<Node>

    /** The links are those of an acyclic list with no node twice. */
    ghost predicate Valid()
      reads this, list
    {
      && head == (if list == [] then null else list[0])
      && (forall i: nat :: i < |list| ==> list[i].next == NextOf(list, i))
      && (forall i: nat :: i < |list| ==> list[i].prev == PrevOf(list, i))
      && (forall i: nat, j: nat :: i < j < |list| ==> list[i] != list[j])
    }

    constructor ()
      ensures Valid() && list == []
    {
      head, list := null, [];
    }

    /** get_cinfo_context. */
    method Get(cinfo: Cinfo) returns (ctx: Node?)
      requires Valid()
      ensures FirstWith(list, cinfo, ctx)
    {
      ctx := head;
      ghost var i: nat := 0;
      while ctx != null
        invariant i <= |list| && ctx == (if i < |list| then list[i] else null)
        invariant cinfo !in Keys(list[..i])
        decreases |list| - i
      {
        if ctx.cinfo == cinfo {
          return;
        }
        assert Keys(list[..i + 1]) == Keys(list[..i]) + [list[i].cinfo];
        ctx := ctx.next;
        i := i + 1;
      }
      assert list[..i] == list;
    }

    /** The locked part of create_cinfo_context: put a new node at the head. */
    method Insert(ctx: Node)
      requires Valid() && ctx !in list && ctx.prev == null
      modifies this, list, ctx
      ensures Valid() && list == [ctx] + old(list)
    {
      ctx.next := head;
      if ctx.next != null {
        ctx.next.prev := ctx;
      }
      head := ctx;
      list := [ctx] + list;
    }

    /** create_cinfo_context, as it runs when no other thread uses the same key. */
    method Create(cinfo: Cinfo) returns (ctx: Node)
      requires Valid()
      modifies this, list
      ensures Valid() && ctx.cinfo == cinfo && ctx in list
      ensures cinfo in Keys(old(list)) ==> list == old(list)
      ensures cinfo !in Keys(old(list)) ==> fresh(ctx) && list == [ctx] + old(list)
    {
      var found := Get(cinfo);
      if found != null {
        return found;
      }
      ctx := new Node(cinfo);
      Insert(ctx);
    }

    /** Lead the way from the front past a node. */
    method PassForward(ctx: Node, ghost i: nat)
      requires Valid() && i < |list| && list[i] == ctx
      modifies this`head, list
      ensures head == (if i == 0 then NextOf(list, i) else list[0])
      ensures forall k: nat :: k < |list| ==> list[k].next == if k + 1 == i then NextOf(list, i) else NextOf(list, k)
      ensures forall k: nat :: k < |list| ==> list[k].prev == PrevOf(list, k)
    {
      if ctx.prev != null {
        ctx.prev.next := ctx.next;
      } else {
        head := ctx.next;
      }
    }

    /** Lead the way from the back past a node. */
    method PassBackward(ctx: Node, ghost i: nat)
      requires i < |list| && list[i] == ctx && ctx.next == NextOf(list, i)
      requires forall k: nat :: k < |list| ==> list[k].prev == PrevOf(list, k)
      requires forall j: nat, k: nat :: j < k < |list| ==> list[j] != list[k]
      modifies list
      ensures forall k: nat :: k < |list| ==> list[k].prev == if k == i + 1 then PrevOf(list, i) else PrevOf(list, k)
      ensures forall k: nat :: k < |list| ==> list[k].next == old(list[k].next)
    {
      if ctx.next != null {
        ctx.next.prev := ctx.prev;
      }
    }

    /** free_cinfo_context: take a node out of the list. */
    method Free(ctx: Node, ghost i: nat)
      requires Valid() && i < |list| && list[i] == ctx
      modifies this, list
      ensures Valid() && list == old(list)[..i] + old(list)[i + 1..]
    {
      ghost var was := list;
      PassForward(ctx, i);
      PassBackward(ctx, i);
      list := list[..i] + list[i + 1..];
      Unlinked(was, i, NextOf(was, i), PrevOf(was, i));
    }

    /** With its neighbours linked to each other, the i-th node is out of the list. */
    lemma Unlinked(was: seq<Node>, i: nat, next: Node?, prev: Node?)
      requires i < |was| && list == was[..i] + was[i + 1..] && next == NextOf(was, i) && prev == PrevOf(was, i)
      requires forall j: nat, k: nat :: j < k < |was| ==> was[j] != was[k]
      requires head == (if i == 0 then next else was[0])
      requires forall k: nat :: k < |was| && k != i ==> was[k].next == if k + 1 == i then next else NextOf(was, k)
      requires forall k: nat :: k < |was| && k != i ==> was[k].prev == if k == i + 1 then prev else PrevOf(was, k)
      ensures Valid()
    {
      forall k: nat | k < |list|
        ensures list[k].next == NextOf(list, k) && list[k].prev == PrevOf(list, k)
      {
        Cut(was, i, k);
      }
      forall j: nat, k: nat | j < k < |list|
        ensures list[j] != list[k]
      {
        Cut(was, i, j);
        Cut(was, i, k);
      }
    }
  }

  // ------------------------------------------------- threads

  predicate NoneTwice(keys: seq<Cinfo>) {
    forall i, j :: 0 <= i < j < |keys| ==> keys[i] != keys[j]
  }

  /** While no key occurs twice, looking a key up finds the only node with it. */
  lemma LookupIsUnique(list: seq<Node>, cinfo: Cinfo, found: Node?, i: nat)
    requires NoneTwice(Keys(list)) && FirstWith(list, cinfo, found) && i < |list|
    ensures list[i].cinfo == cinfo <==> list[i] == found && found.cinfo == cinfo
  {
    if found == null {
      assert Keys(list)[i] != cinfo;
    } else {
      var k: nat :| k < |list| && list[k] == found && found.cinfo == cinfo;
      if list[i].cinfo == cinfo {
        assert Keys(list)[i] == Keys(list)[k];
      }
    }
  }

  /** What a thread is about to do: nothing, or insert a context for a key it did not find. */
  datatype Pc = Idle | Missed(cinfo: Cinfo)

  /** The keys in the list, and where each thread is. */
  datatype System = System(keys: seq<Cinfo>, pcs: seq<Pc>)

  /** What one thread does while it holds the lock. */
  datatype Action = Lookup(t: nat, cinfo: Cinfo) | Add(t: nat) | Drop(t: nat, i: nat)

  /** The action is one that a thread can take now, on keys that it uses. */
  predicate Allowed(s: System, a: Action, uses: (nat, Cinfo) -> bool) {
    && a.t < |s.pcs|
    && match a
       case Lookup(t, c) => s.pcs[t].Idle? && uses(t, c)
       case Add(t) => s.pcs[t].Missed?
       case Drop(t, i) => s.pcs[t].Idle? && i < |s.keys| && uses(t, s.keys[i])
  }

  function Do(s: System, a: Action): System
    requires a.t < |s.pcs| && (a.Add? ==> s.pcs[a.t].Missed?) && (a.Drop? ==> a.i < |s.keys|)
  {
    match a
    case Lookup(t, c) => if c in s.keys then s else s.(pcs := s.pcs[t := Missed(c)])
    case Add(t) => System([s.pcs[t].cinfo] + s.keys, s.pcs[t := Idle])
    case Drop(t, i) => s.(keys := s.keys[..i] + s.keys[i + 1..])
  }

  /** Every action of a run is allowed when it is taken. */
  predicate Possible(s: System, run: seq<Action>, uses: (nat, Cinfo) -> bool)
    decreases |run|
  {
    run == [] || (Allowed(s, run[0], uses) && Possible(Do(s, run[0]), run[1..], uses))
  }

  function AfterAll(s: System, run: seq<Action>, uses: (nat, Cinfo) -> bool): System
    requires Possible(s, run, uses)
    decreases |run|
  {
    if run == [] then s else AfterAll(Do(s, run[0]), run[1..], uses)
  }

  /** Every key is used by one thread only. */
  ghost predicate Exclusive(uses: (nat, Cinfo) -> bool, threads: nat) {
    forall t: nat, u: nat, c: Cinfo {:trigger uses(t, c), uses(u, c)} ::
      t < threads && u < threads && uses(t, c) && uses(u, c) ==> t == u
  }

  /** No key is in the list twice, and what a thread has missed is its own and still missing. */
  ghost predicate Sound(s: System, uses: (nat, Cinfo) -> bool) {
    && NoneTwice(s.keys)
    && forall t: nat :: t < |s.pcs| && s.pcs[t].Missed? ==> uses(t, s.pcs[t].cinfo) && s.pcs[t].cinfo !in s.keys
  }

  /** Taking a key out leaves no key twice and adds none. */
  lemma CutKeys(keys: seq<Cinfo>, i: nat, c: Cinfo)
    requires NoneTwice(keys) && i < |keys|
    ensures NoneTwice(keys[..i] + keys[i + 1..]) && (c in keys[..i] + keys[i + 1..] ==> c in keys)
  {
    var cut := keys[..i] + keys[i + 1..];
    forall j, k | 0 <= j < k < |cut|
      ensures cut[j] != cut[k]
    {
      assert cut[j] == keys[if j < i then j else j + 1];
      assert cut[k] == keys[if k < i then k else k + 1];
    }
  }

  lemma AddKeepsSound(s: System, t: nat, uses: (nat, Cinfo) -> bool)
    requires Exclusive(uses, |s.pcs|) && Sound(s, uses) && t < |s.pcs| && s.pcs[t].Missed?
    ensures Sound(Do(s, Add(t)), uses)
  {
    var (c, s') := (s.pcs[t].cinfo, Do(s, Add(t)));
    forall u: nat | u < |s.pcs| && s'.pcs[u].Missed?
      ensures uses(u, s'.pcs[u].cinfo) && s'.pcs[u].cinfo !in s'.keys
    {
      assert u != t && s'.pcs[u] == s.pcs[u];
      assert uses(t, c) && uses(u, s.pcs[u].cinfo);
    }
  }

  lemma DropKeepsSound(s: System, t: nat, i: nat, uses: (nat, Cinfo) -> bool)
    requires Sound(s, uses) && t < |s.pcs| && i < |s.keys|
    ensures Sound(Do(s, Drop(t, i)), uses)
  {
    CutKeys(s.keys, i, 0);
    forall u: nat | u < |s.pcs| && s.pcs[u].Missed?
      ensures s.pcs[u].cinfo !in Do(s, Drop(t, i)).keys
    {
      CutKeys(s.keys, i, s.pcs[u].cinfo);
    }
  }

  lemma DoKeepsSound(s: System, a: Action, uses: (nat, Cinfo) -> bool)
    requires Exclusive(uses, |s.pcs|) && Sound(s, uses) && Allowed(s, a, uses)
    ensures Sound(Do(s, a), uses) && |Do(s, a).pcs| == |s.pcs|
  {
    match a
    case Lookup(t, c) =>
    case Add(t) => AddKeepsSound(s, t, uses);
    case Drop(t, i) => DropKeepsSound(s, t, i, uses);
  }

  function KeySet(keys: seq<Cinfo>): set<Cinfo> {
    set c | c in keys
  }

  /** What is left when a key is taken out that occurs once. */
  lemma CutSet(keys: seq<Cinfo>, i: nat)
    requires NoneTwice(keys) && i < |keys|
    ensures KeySet(keys[..i] + keys[i + 1..]) == KeySet(keys) - {keys[i]}
  {
    var cut := keys[..i] + keys[i + 1..];
    forall c
      ensures c in cut <==> c in keys && c != keys[i]
    {
      if c in keys && c != keys[i] {
        var k :| 0 <= k < |keys| && keys[k] == c;
        assert cut[if k < i then k else k - 1] == c;
      }
      if c in cut {
        var k :| 0 <= k < |cut| && cut[k] == c;
        assert keys[if k < i then k else k + 1] == c;
      }
    }
  }

  /** A lookup leaves the keys alone, an insertion adds the key that was missed, a removal takes just its own out. */
  lemma DoKeys(s: System, a: Action, uses: (nat, Cinfo) -> bool)
    requires NoneTwice(s.keys) && Allowed(s, a, uses)
    ensures a.Lookup? ==> KeySet(Do(s, a).keys) == KeySet(s.keys)
    ensures a.Add? ==> KeySet(Do(s, a).keys) == KeySet(s.keys) + {s.pcs[a.t].cinfo}
    ensures a.Drop? ==> KeySet(Do(s, a).keys) == KeySet(s.keys) - {s.keys[a.i]}
  {
    match a
    case Lookup(t, c) =>
    case Add(t) =>
    case Drop(t, i) => CutSet(s.keys, i);
  }

  /** Whether a key is in the list is changed by no thread but its own. */
  lemma OthersKept(s: System, a: Action, uses: (nat, Cinfo) -> bool, u: nat, c: Cinfo)
    requires Exclusive(uses, |s.pcs|) && Sound(s, uses) && Allowed(s, a, uses)
    requires u < |s.pcs| && u != a.t && uses(u, c)
    ensures c in s.keys <==> c in Do(s, a).keys
  {
    DoKeys(s, a, uses);
    assert c in KeySet(s.keys) <==> c in s.keys;
    assert c in KeySet(Do(s, a).keys) <==> c in Do(s, a).keys;
    match a
    case Lookup(t, k) =>
    case Add(t) => assert uses(t, s.pcs[t].cinfo);
    case Drop(t, i) => assert uses(t, s.keys[i]);
  }

  /** The keys held when those in `held` were before: every key that is added, until it is dropped. */
  function Tracked(s: System, run: seq<Action>, uses: (nat, Cinfo) -> bool, held: set<Cinfo>): set<Cinfo>
    requires Possible(s, run, uses)
    decreases |run|
  {
    if run == [] then held
    else
      Tracked(Do(s, run[0]), run[1..], uses,
              match run[0]
              case Lookup(_, _) => held
              case Add(t) => held + {s.pcs[t].cinfo}
              case Drop(_, i) => held - {s.keys[i]})
  }

  /** Over any interleaving the list holds just the keys that have been added and not dropped since. */
  lemma {:induction false} RunKeys(s: System, run: seq<Action>, uses: (nat, Cinfo) -> bool)
    requires Exclusive(uses, |s.pcs|) && Sound(s, uses) && Possible(s, run, uses)
    ensures KeySet(AfterAll(s, run, uses).keys) == Tracked(s, run, uses, KeySet(s.keys))
    decreases |run|
  {
    if run != [] {
      DoKeepsSound(s, run[0], uses);
      DoKeys(s, run[0], uses);
      RunKeys(Do(s, run[0]), run[1..], uses);
    }
  }

  /** A key in the list stays there, and one that is not stays away, while its thread does nothing. */
  lemma {:induction false} RunKeepsOthers(s: System, run: seq<Action>, uses: (nat, Cinfo) -> bool, u: nat, c: Cinfo)
    requires Exclusive(uses, |s.pcs|) && Sound(s, uses) && Possible(s, run, uses)
    requires u < |s.pcs| && uses(u, c) && forall i :: 0 <= i < |run| ==> run[i].t != u
    ensures c in s.keys <==> c in AfterAll(s, run, uses).keys
    decreases |run|
  {
    if run != [] {
      DoKeepsSound(s, run[0], uses);
      OthersKept(s, run[0], uses, u, c);
      RunKeepsOthers(Do(s, run[0]), run[1..], uses, u, c);
    }
  }

  lemma {:induction false} RunKeepsSound(s: System, run: seq<Action>, uses: (nat, Cinfo) -> bool)
    requires Exclusive(uses, |s.pcs|) && Sound(s, uses) && Possible(s, run, uses)
    ensures Sound(AfterAll(s, run, uses), uses)
    decreases |run|
  {
    if run != [] {
      DoKeepsSound(s, run[0], uses);
      RunKeepsSound(Do(s, run[0]), run[1..], uses);
    }
  }

  function Start(threads: nat): System {
    System([], seq(threads, _ => Idle))
  }

  /**
   * Exactly when the list holds at most one node for every key whatever the threads do:
   * when every key is used by one thread only. Looking up and inserting are two locked
   * sections, so that two threads can both miss a key and then both insert it.
   */
  lemma OneNodePerKey(threads: nat, uses: (nat, Cinfo) -> bool)
    ensures
      (forall run: seq<Action> :: Possible(Start(threads), run, uses) ==>
         NoneTwice(AfterAll(Start(threads), run, uses).keys))
      <==> Exclusive(uses, threads)
  {
    if Exclusive(uses, threads) {
      forall run: seq<Action> | Possible(Start(threads), run, uses)
        ensures NoneTwice(AfterAll(Start(threads), run, uses).keys)
      {
        RunKeepsSound(Start(threads), run, uses);
      }
    } else {
      var t: nat, u: nat, c: Cinfo :| t < threads && u < threads && uses(t, c) && uses(u, c) && t != u;
      Race(threads, uses, t, u, c);
    }
  }

  lemma Race(threads: nat, uses: (nat, Cinfo) -> bool, t: nat, u: nat, c: Cinfo)
    requires t < threads && u < threads && uses(t, c) && uses(u, c) && t != u
    ensures exists run: seq<Action> ::
      Possible(Start(threads), run, uses) && !NoneTwice(AfterAll(Start(threads), run, uses).keys)
  {
    var s0 := Start(threads);
    var s1 := Do(s0, Lookup(t, c));
    var s2 := Do(s1, Lookup(u, c));
    var s3 := Do(s2, Add(t));
    var s4 := Do(s3, Add(u));
    assert s4.keys == [c, c] && s4.keys[0] == s4.keys[1];
    var run3 := [Add(u)];
    var run2 := [Add(t)] + run3;
    var run1 := [Lookup(u, c)] + run2;
    var run := [Lookup(t, c)] + run1;
    assert run3[1..] == [] && run2[1..] == run3 && run1[1..] == run2 && run[1..] == run1;
    assert Possible(s4, [], uses) && AfterAll(s4, [], uses) == s4;
    assert Possible(s3, run3, uses) && AfterAll(s3, run3, uses) == s4;
    assert Possible(s2, run2, uses) && AfterAll(s2, run2, uses) == s4;
    assert Possible(s1, run1, uses) && AfterAll(s1, run1, uses) == s4;
    assert Possible(s0, run, uses) && AfterAll(s0, run, uses) == s4;
  }

  // ------------------------------------------------- the threads at work on the list

  /**
   * One locked section on the linked list. `nodes` are the pointers that the threads hold,
   * in list order; a Drop frees one of them.
   */
  method Take(ctxs: Contexts, nodes: seq<Node>, pcs: seq<Pc>, a: Action, ghost uses: (nat, Cinfo) -> bool)
    returns (nodes': seq<Node>, pcs': seq<Pc>)
    requires ctxs.Valid() && nodes == ctxs.list && Allowed(System(Keys(nodes), pcs), a, uses)
    modifies ctxs, nodes
    ensures ctxs.Valid() && nodes' == ctxs.list && fresh((set n | n in nodes') - set n | n in nodes)
    ensures System(Keys(nodes'), pcs') == Do(System(Keys(nodes), pcs), a)
    ensures a.Lookup? ==> nodes' == nodes
    ensures a.Add? ==> |nodes'| == |nodes| + 1 && nodes'[1..] == nodes && nodes'[0].cinfo == pcs[a.t].cinfo
    ensures a.Drop? ==> nodes' == nodes[..a.i] + nodes[a.i + 1..]
  {
    nodes', pcs' := nodes, pcs;
    match a
    case Lookup(t, c) =>
      var ctx := ctxs.Get(c);
      LookupDecides(nodes, c, ctx);
      if ctx == null {
        pcs' := pcs[t := Missed(c)];
      }
    case Add(t) =>
      var ctx := new Node(pcs[t].cinfo);
      KeysFollow(nodes, ctx, |nodes|);
      ctxs.Insert(ctx);
      nodes', pcs' := [ctx] + nodes, pcs[t := Idle];
    case Drop(t, i) =>
      KeysFollow(nodes, nodes[i], i);
      ctxs.Free(nodes[i], i);
      nodes' := nodes[..i] + nodes[i + 1..];
  }

  lemma LookupDecides(list: seq<Node>, cinfo: Cinfo, found: Node?)
    requires FirstWith(list, cinfo, found)
    ensures found == null <==> cinfo !in Keys(list)
  {
    if found != null {
      var i: nat :| i < |list| && list[i] == found && found.cinfo == cinfo;
      assert Keys(list)[i] == cinfo;
    }
  }

  /** One locked section after the other. */
  method TakeAll(ctxs: Contexts, nodes: seq<Node>, pcs: seq<Pc>, run: seq<Action>, ghost uses: (nat, Cinfo) -> bool,
                 ghost s: System)
    returns (nodes': seq<Node>, pcs': seq<Pc>)
    requires ctxs.Valid() && nodes == ctxs.list && s == System(Keys(nodes), pcs) && Possible(s, run, uses)
    modifies ctxs, set n | n in nodes
    ensures ctxs.Valid() && nodes' == ctxs.list
    ensures System(Keys(nodes'), pcs') == AfterAll(s, run, uses)
    decreases |run|
  {
    nodes', pcs' := nodes, pcs;
    if run != [] {
      var next, state := Take(ctxs, nodes, pcs, run[0], uses);
      nodes', pcs' := TakeAll(ctxs, next, state, run[1..], uses, Do(s, run[0]));
    }
  }

  /**
   * Any interleaving of the threads' locked sections, carried out on the list: the list
   * goes where the thread model goes, and no object has two nodes as long as every object
   * is used by one thread only.
   */
  method RunThreads(ctxs: Contexts, threads: nat, run: seq<Action>, ghost uses: (nat, Cinfo) -> bool)
    returns (nodes: seq<Node>, pcs: seq<Pc>)
    requires ctxs.Valid() && ctxs.list == [] && Possible(Start(threads), run, uses)
    modifies ctxs
    ensures ctxs.Valid() && nodes == ctxs.list
    ensures System(Keys(nodes), pcs) == AfterAll(Start(threads), run, uses)
    ensures Exclusive(uses, threads) ==>
      NoneTwice(Keys(nodes)) && KeySet(Keys(nodes)) == Tracked(Start(threads), run, uses, {})
  {
    nodes, pcs := TakeAll(ctxs, [], Start(threads).pcs, run, uses, Start(threads));
    if Exclusive(uses, threads) {
      RunKeepsSound(Start(threads), run, uses);
      RunKeys(Start(threads), run, uses);
      assert KeySet(Start(threads).keys) == {};
    }
  }
}
