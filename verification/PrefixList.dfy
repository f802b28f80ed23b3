/** The doubly linked list of stream prefixes of a connection, and the datagram
    round robin over it. */
module PrefixList {
  import opened Bytes
  import opened PrefixTable
  import opened Datagram
  import Varint

  /** h3zero_stream_prefix_t */
  class Node {
    const prefix: nat
    const callback: Option<nat>
    var next: Node?
    var previous: Node?
    var ready: bool

    constructor (prefix: nat, callback: Option<nat>)
      ensures this.prefix == prefix && this.callback == callback
      ensures next == null && previous == null && !ready
    {
      this.prefix, this.callback := prefix, callback;
      next, previous, ready := null, null, false;
    }

    function Value(): Entry
      reads this
    {
      Entry(prefix, callback, ready)
    }
  }

  /** Node i, or NULL beyond either end. */
  ghost function Nth(nodes: seq<Node>, i: int): Node? {
    if 0 <= i < |nodes| then nodes[i] else null
  }

  ghost predicate Forward(nodes: seq<Node>)
    reads nodes
  {
    forall i {:trigger nodes[i].next} | 0 <= i < |nodes| :: nodes[i].next == Nth(nodes, i + 1)
  }

  ghost predicate Backward(nodes: seq<Node>)
    reads nodes
  {
    forall i {:trigger nodes[i].previous} | 0 <= i < |nodes| :: nodes[i].previous == Nth(nodes, i - 1)
  }

  /** The links of the other nodes once node k is bypassed. */
  ghost predicate ForwardPast(nodes: seq<Node>, k: nat)
    reads nodes
  {
    forall i {:trigger nodes[i].next} | 0 <= i < |nodes| && i != k ::
      nodes[i].next == Nth(nodes, if i == k - 1 then k + 1 else i + 1)
  }

  ghost predicate BackwardPast(nodes: seq<Node>, k: nat)
    reads nodes
  {
    forall i {:trigger nodes[i].previous} | 0 <= i < |nodes| && i != k ::
      nodes[i].previous == Nth(nodes, if i == k + 1 then k - 1 else i - 1)
  }

  lemma ForwardWithout(fewer: seq<Node>, nodes: seq<Node>, k: nat)
    requires k < |nodes| && IsWithout(fewer, nodes, k) && ForwardPast(nodes, k)
    ensures Forward(fewer)
  {
    NthWithout(fewer, nodes, k);
    hide IsWithout, Nth;
    forall i | 0 <= i < |fewer| ensures fewer[i].next == Nth(fewer, i + 1) {
      var j := if i < k then i else i + 1;
      assert nodes[j].next == Nth(nodes, if j == k - 1 then k + 1 else j + 1);
    }
  }

  lemma BackwardWithout(fewer: seq<Node>, nodes: seq<Node>, k: nat)
    requires k < |nodes| && IsWithout(fewer, nodes, k) && BackwardPast(nodes, k)
    ensures Backward(fewer)
  {
    NthWithout(fewer, nodes, k);
    hide IsWithout, Nth;
    forall i | 0 <= i < |fewer| ensures fewer[i].previous == Nth(fewer, i - 1) {
      var j := if i < k then i else i + 1;
      assert nodes[j].previous == Nth(nodes, if j == k + 1 then k - 1 else j - 1);
    }
  }

  ghost predicate IsWithout(fewer: seq<Node>, nodes: seq<Node>, k: nat)
    requires k < |nodes|
  {
    fewer == nodes[..k] + nodes[k + 1..]
  }

  lemma OnlyAt(nodes: seq<Node>, k: nat)
    requires k < |nodes| && DistinctPrefixes(nodes)
    ensures forall i | 0 <= i < |nodes| && i != k :: nodes[i] != nodes[k]
  {
  }

  lemma NthWithout(fewer: seq<Node>, nodes: seq<Node>, k: nat)
    requires k < |nodes| && IsWithout(fewer, nodes, k)
    ensures |fewer| == |nodes| - 1
    ensures forall i {:trigger fewer[i]} | 0 <= i < |fewer| :: fewer[i] == nodes[if i < k then i else i + 1]
    ensures forall i {:trigger Nth(fewer, i)} :: Nth(fewer, i) == Nth(nodes, if i < k then i else i + 1)
  {
  }

  lemma DistinctWithout(fewer: seq<Node>, nodes: seq<Node>, k: nat)
    requires k < |nodes| && DistinctPrefixes(nodes) && IsWithout(fewer, nodes, k)
    ensures DistinctPrefixes(fewer)
  {
    assert forall i | 0 <= i < |fewer| :: fewer[i] == nodes[if i < k then i else i + 1];
  }

  ghost predicate DistinctPrefixes(nodes: seq<Node>) {
    forall i, j | 0 <= i < j < |nodes| :: nodes[i].prefix != nodes[j].prefix
  }

  lemma DeregisteredFirst(es: seq<Entry>, streams: set<nat>, before: seq<nat>)
    requires es != []
    ensures before + Deregistered(es, streams)
         == before + Deregistered([es[0]], streams) + Deregistered(es[1..], streams)
  {
    DeregisteredOne(es[0], streams);
    var first, rest := Deregistered([es[0]], streams), Deregistered(es[1..], streams);
    assert Deregistered(es, streams) == first + rest;
    hide Deregistered;
    assert before + (first + rest) == before + first + rest;
  }

  lemma DeregisteredOne(e: Entry, streams: set<nat>)
    ensures Deregistered([e], streams)
         == if e.callback.Some? && e.prefix in streams then [e.callback.value] else []
  {
    var none: seq<Entry> := [];
    assert [e][1..] == none && Deregistered(none, streams) == [];
  }

  lemma NoneDeregistered(streams: set<nat>)
    ensures Deregistered([], streams) == []
  {
  }

  /** The members of h3zero_callback_ctx_t that this list needs. */
  class Context {
    var first: Node?
    var last: Node?
    var lastDatagramPrefix: nat
    ghost var Nodes: seq<Node>

    /** Every link in both directions follows Nodes; no prefix appears twice. */
    ghost predicate Valid()
      reads this, Nodes
    {
      && first == Nth(Nodes, 0) && last == Nth(Nodes, |Nodes| - 1)
      && Forward(Nodes) && Backward(Nodes) && DistinctPrefixes(Nodes)
    }

    ghost function Entries(): (es: seq<Entry>)
      reads this, Nodes
      ensures |es| == |Nodes| && forall i | 0 <= i < |es| :: es[i] == Nodes[i].Value()
    {
      seq(|Nodes|, i requires 0 <= i < |Nodes| reads this, Nodes => Nodes[i].Value())
    }

    constructor ()
      ensures Valid() && Entries() == [] && lastDatagramPrefix == 0
    {
      first, last, lastDatagramPrefix, Nodes := null, null, 0, [];
    }

    /** h3zero_find_stream_prefix */
    method FindStreamPrefix(prefix: nat) returns (node: Node?)
      requires Valid()
      ensures node == null <==> !Has(Entries(), prefix)
      ensures node != null ==> node == Nodes[IndexOf(Entries(), prefix)]
    {
      ghost var i := 0;
      node := first;
      while node != null
        invariant 0 <= i <= |Nodes| && node == Nth(Nodes, i)
        invariant forall j | 0 <= j < i :: Nodes[j].prefix != prefix
        decreases |Nodes| - i
      {
        if node.prefix == prefix {
          assert Entries()[i].prefix == prefix;
          break;
        }
        node := node.next;
        i := i + 1;
      }
    }

    /** Link a node behind the last one. */
    method Append(node: Node)
      requires Valid() && node.next == null && forall i | 0 <= i < |Nodes| :: Nodes[i].prefix != node.prefix
      modifies `first, `last, `Nodes, (if last == null then {} else {last})`next, node`previous
      ensures Valid() && Nodes == old(Nodes) + [node]
    {
      ghost var n := |Nodes|;
      if last == null {
        first := node;
      } else {
        last.next := node;
      }
      node.previous := last;
      last := node;
      Nodes := Nodes + [node];
      assert Nodes[n] == node;
    }

    /** The links after node k was taken out of them. */
    ghost predicate Bypassed(nodes: seq<Node>, k: nat)
      requires k < |nodes|
      reads this, nodes
    {
      && first == Nth(nodes, if k == 0 then 1 else 0)
      && last == Nth(nodes, if k == |nodes| - 1 then k - 1 else |nodes| - 1)
      && ForwardPast(nodes, k) && BackwardPast(nodes, k)
    }

    lemma BypassedIsValid(nodes: seq<Node>, k: nat)
      requires k < |nodes| && DistinctPrefixes(nodes) && Bypassed(nodes, k) && IsWithout(Nodes, nodes, k)
      ensures Valid()
    {
      DistinctWithout(Nodes, nodes, k);
      ForwardWithout(Nodes, nodes, k);
      BackwardWithout(Nodes, nodes, k);
      NthWithout(Nodes, nodes, k);
      hide DistinctPrefixes, Forward, Backward, ForwardPast, BackwardPast, IsWithout, Nth;
    }

    /** The list goes past node k from front to back. */
    method BypassForward(node: Node, ghost k: nat)
      requires Valid() && k < |Nodes| && node == Nodes[k]
      modifies `first
      modifies (if node.previous == null then {} else {node.previous})`next
      ensures first == Nth(Nodes, if k == 0 then 1 else 0) && last == Nth(Nodes, |Nodes| - 1)
      ensures ForwardPast(Nodes, k) && Backward(Nodes) && node.next == Nth(Nodes, k + 1)
      ensures node.previous == Nth(Nodes, k - 1)
      ensures node.next == old(node.next) && node.previous == old(node.previous)
    {
      assert node.next == Nth(Nodes, k + 1) && node.previous == Nth(Nodes, k - 1);
      if node.previous == null {
        first := node.next;
      } else {
        OnlyAt(Nodes, k - 1);
        hide DistinctPrefixes;
        node.previous.next := node.next;
      }
    }

    /** The list goes past node k from back to front. */
    method BypassBackward(node: Node, ghost k: nat)
      requires k < |Nodes| && node == Nodes[k] && DistinctPrefixes(Nodes)
      requires ForwardPast(Nodes, k) && Backward(Nodes) && node.next == Nth(Nodes, k + 1)
      requires node.previous == Nth(Nodes, k - 1)
      requires first == Nth(Nodes, if k == 0 then 1 else 0) && last == Nth(Nodes, |Nodes| - 1)
      modifies `last
      modifies (if node.next == null then {} else {node.next})`previous
      ensures Bypassed(Nodes, k)
    {
      if node.next == null {
        last := node.previous;
      } else {
        OnlyAt(Nodes, k + 1);
        hide DistinctPrefixes;
        node.next.previous := node.previous;
      }
    }

    /** Unlink node k. */
    method Unlink(node: Node, ghost k: nat)
      requires Valid() && k < |Nodes| && node == Nodes[k]
      modifies `first, `last, `Nodes
      modifies (if node.previous == null then {} else {node.previous})`next
      modifies (if node.next == null then {} else {node.next})`previous
      ensures Valid() && Nodes == old(Nodes)[..k] + old(Nodes)[k + 1..]
    {
      hide Forward, Backward, ForwardPast, BackwardPast, DistinctPrefixes, Nth;
      ghost var nodes := Nodes;
      BypassForward(node, k);
      BypassBackward(node, k);
      Nodes := nodes[..k] + nodes[k + 1..];
      BypassedIsValid(nodes, k);
    }

    /** h3zero_declare_stream_prefix: -1 when the prefix is there already. */
    method DeclareStreamPrefix(prefix: nat, callback: Option<nat>) returns (ret: int)
      requires Valid()
      modifies this, Nodes
      ensures Valid() && Entries() == Declared(old(Entries()), prefix, callback)
      ensures ret == if Has(old(Entries()), prefix) then -1 else 0
      ensures forall n | n in Nodes :: n in old(Nodes) || fresh(n)
      ensures lastDatagramPrefix == old(lastDatagramPrefix)
    {
      hide Forward, Backward, DistinctPrefixes;
      var node := FindStreamPrefix(prefix);
      ret := 0;
      if node == null {
        ghost var before := Entries();
        assert forall i | 0 <= i < |before| :: before[i].prefix != prefix;
        node := new Node(prefix, callback);
        Append(node);
        hide Valid;
        assert Entries() == before + [Entry(prefix, callback, false)];
      } else {
        ret := -1;
      }
    }

    /** h3zero_delete_stream_prefix. `streams` are the streams that h3zero_find_stream knows;
        the callback of the entry, if it is called, is returned. */
    method DeleteStreamPrefix(prefix: nat, streams: set<nat>) returns (called: seq<nat>)
      requires Valid()
      modifies this, Nodes
      ensures called == if Has(old(Entries()), prefix)
                        then Deregistered([old(Entries())[IndexOf(old(Entries()), prefix)]], streams) else []
      ensures Valid() && Entries() == Deleted(old(Entries()), prefix)
      ensures Nodes == Without(old(Nodes), old(Entries()), prefix)
      ensures lastDatagramPrefix == old(lastDatagramPrefix)
    {
      hide Valid, Has, IndexOf, Deleted, Without, Entries, DistinctPrefixes;
      var node := FindStreamPrefix(prefix);
      ghost var before, nodes := Entries(), Nodes;
      WhatIsDeleted(nodes, before, prefix);
      called := [];
      if node != null {
        ghost var k := IndexOf(before, prefix);
        Neighbours(k);
        Unlink(node, k);
        SameEntries(before, nodes, k);
        if node.callback.Some? && node.prefix in streams {
          called := [node.callback.value];
        }
      }
    }

    /** The entries behind the nodes, when the values are as before. */
    lemma SameEntries(before: seq<Entry>, nodes: seq<Node>, k: nat)
      requires |nodes| == |before| && k < |nodes| && Nodes == nodes[..k] + nodes[k + 1..]
      requires forall i | 0 <= i < |before| :: before[i] == nodes[i].Value()
      ensures Entries() == before[..k] + before[k + 1..]
    {
      assert forall i | 0 <= i < |Nodes| :: Nodes[i] == nodes[if i < k then i else i + 1];
    }

    lemma WhatIsDeleted(nodes: seq<Node>, es: seq<Entry>, prefix: nat)
      requires |nodes| == |es|
      ensures Has(es, prefix) ==> var k := IndexOf(es, prefix);
                && Deleted(es, prefix) == es[..k] + es[k + 1..]
                && Without(nodes, es, prefix) == nodes[..k] + nodes[k + 1..]
      ensures !Has(es, prefix) ==> Deleted(es, prefix) == es && Without(nodes, es, prefix) == nodes
    {
    }

    ghost function Without(nodes: seq<Node>, es: seq<Entry>, prefix: nat): seq<Node>
      requires |nodes| == |es|
    {
      if Has(es, prefix) then var k := IndexOf(es, prefix); nodes[..k] + nodes[k + 1..] else nodes
    }

    lemma Neighbours(k: nat)
      requires Valid() && k < |Nodes|
      ensures Nodes[k].previous != null ==> Nodes[k].previous in Nodes
      ensures Nodes[k].next != null ==> Nodes[k].next in Nodes
    {
    }

    /** The first node is the entry that its prefix finds. */
    lemma FirstIsFound()
      requires Valid() && first != null
      ensures Nodes != [] && Without(Nodes, Entries(), first.prefix) == Nodes[1..]
      ensures Deleted(Entries(), first.prefix) == Entries()[1..]
      ensures Has(Entries(), first.prefix) && IndexOf(Entries(), first.prefix) == 0
    {
      assert Entries()[0].prefix == first.prefix;
      assert IndexOf(Entries(), first.prefix) == 0;
    }

    /** h3zero_delete_all_stream_prefixes: the callbacks are called in the order of the list. */
    method DeleteAllStreamPrefixes(streams: set<nat>) returns (called: seq<nat>)
      requires Valid()
      modifies this, Nodes
      ensures Valid() && Entries() == [] && first == null && last == null
      ensures called == Deregistered(old(Entries()), streams)
    {
      hide Without, Deleted, Has, IndexOf, DistinctPrefixes, Deregistered;
      called := [];
      ghost var all := Deregistered(Entries(), streams);
      ghost var done := 0;
      var next := first;
      while next != null
        invariant Valid() && next == first && done <= |old(Nodes)| && Nodes == old(Nodes)[done..]
        invariant all == called + Deregistered(Entries(), streams)
        decreases |Nodes|
      {
        if first == next {
          FirstIsFound();
          assert old(Nodes)[done..][1..] == old(Nodes)[done + 1..];
          DeregisteredFirst(Entries(), streams, called);
          var some := DeleteStreamPrefix(next.prefix, streams);
          called := called + some;
          done := done + 1;
        }
        next := first;
      }
      NoneDeregistered(streams);
    }

    /** h3zero_callback_prepare_datagram_in_context: poll one prefix. */
    method PollInContext(node: Node, ghost i: nat, apps: Apps, space: nat)
      returns (dataSent: bool, ghost asked: seq<nat>)
      requires Valid() && i < |Nodes| && node == Nodes[i]
      modifies node`ready, `lastDatagramPrefix
      ensures Valid()
      ensures var p := Poll(old(Entries())[i], apps, space);
              && Entries() == old(Entries())[i := p.entry]
              && dataSent == p.sent && asked == (if p.asked then [node.prefix] else [])
              && lastDatagramPrefix == if p.sent then node.prefix else old(lastDatagramPrefix)
    {
      hide Varint.Encode, Nth;
      dataSent, asked := false, [];
      if node.ready && node.callback.Some? {
        node.ready := false;
        var overhead := |Varint.Encode(node.prefix / 4)|;
        if space > overhead {
          var answer := apps(node.prefix, space - overhead);
          asked := [node.prefix];
          node.ready := answer.ready || answer.marked;
          if answer.length > 0 {
            lastDatagramPrefix := node.prefix;
            dataSent := true;
          }
        }
      }
    }

    /** A flag is set in the nodes i to j - 1. */
    ghost predicate SomeReady(i: nat, j: nat)
      requires j <= |Nodes|
      reads this, Nodes
    {
      exists k | i <= k < j :: Nodes[k].ready
    }

    /** Poll node k of a scan up to node j - 1; `active` collects the flags from node `start` on. */
    method PollNext(node: Node, active: bool, apps: Apps, space: nat,
                    ghost start: nat, ghost k: nat, ghost j: nat, ghost r: Scanned, ghost asked: seq<nat>)
      returns (dataSent: bool, stillActive: bool, ghost askedNow: seq<nat>)
      requires Valid() && start <= k < j <= |Nodes| && node == Nodes[k]
      requires Going(r, asked, Entries(), k, j, apps, space) && active == SomeReady(start, k)
      modifies node`ready, `lastDatagramPrefix
      ensures Valid() && stillActive == SomeReady(start, k + 1)
      ensures dataSent ==> r == Scanned(Entries(), askedNow, Some(k))
      ensures !dataSent ==> Going(r, askedNow, Entries(), k + 1, j, apps, space)
      ensures lastDatagramPrefix == if dataSent then node.prefix else old(lastDatagramPrefix)
      ensures forall i | 0 <= i < |Nodes| && i != k :: Nodes[i].ready == old(Nodes[i].ready)
    {
      hide Scan, Poll, Has, IndexOf, Nth, Going;
      GoingStep(r, asked, Entries(), k, j, apps, space);
      ghost var before := Entries();
      ghost var a;
      dataSent, a := PollInContext(node, k, apps, space);
      askedNow := asked + a;
      stillActive := active || node.ready;
      hide Valid;
      assert forall i | 0 <= i < |Nodes| && i != k :: Nodes[i].Value() == before[i];
    }

    /** The prefixes behind the last sender, up to the end of the list. */
    method PollBehind(from: Node?, ghost start: nat, apps: Apps, space: nat)
      returns (dataSent: bool, stillActive: bool, ghost r: Scanned)
      requires Valid() && start <= |Nodes| && from == Nth(Nodes, start)
      modifies this, Nodes
      ensures Valid() && Nodes == old(Nodes)
      ensures r == Scan(old(Entries()), start, |Nodes|, apps, space) && Entries() == r.entries
      ensures dataSent == r.sent.Some? && lastDatagramPrefix == Last(Entries(), old(lastDatagramPrefix), r)
      ensures stillActive == SomeReady(start, if r.sent.Some? then r.sent.value + 1 else |Nodes|)
    {
      hide Scan, Poll, Has, IndexOf, Forward, Backward, DistinctPrefixes, Going, SomeReady, Nth;
      r := Scan(Entries(), start, |Nodes|, apps, space);
      GoingStarts(r, Entries(), start, |Nodes|, apps, space);
      NoneReady(start);
      ghost var k, asked := start, [];
      dataSent, stillActive := false, false;
      var prefixCtx := from;
      while prefixCtx != null
        invariant Valid() && Nodes == old(Nodes) && start <= k <= |Nodes| && prefixCtx == Nth(Nodes, k) && !dataSent
        invariant Going(r, asked, Entries(), k, |Nodes|, apps, space)
        invariant lastDatagramPrefix == old(lastDatagramPrefix)
        invariant stillActive == SomeReady(start, k)
        decreases |Nodes| - k
      {
        NodeIs(prefixCtx, k);
        dataSent, stillActive, asked :=
          PollNext(prefixCtx, stillActive, apps, space, start, k, |Nodes|, r, asked);
        if dataSent {
          return;
        }
        NextNode(k);
        prefixCtx := prefixCtx.next;
        k := k + 1;
      }
      NodeIs(prefixCtx, k);
      GoingEnds(r, asked, Entries(), |Nodes|, apps, space);
    }

    /** The prefixes from the front up to the last sender, or all of them. */
    method PollUpTo(previous: Node?, ghost stop: nat, apps: Apps, space: nat)
      returns (dataSent: bool, stillActive: bool, allChecked: bool, ghost r: Scanned)
      requires Valid() && stop <= |Nodes|
      requires if previous == null then stop == |Nodes| else stop > 0 && previous == Nodes[stop - 1]
      modifies this, Nodes
      ensures Valid() && Nodes == old(Nodes)
      ensures r == Scan(old(Entries()), 0, stop, apps, space) && Entries() == r.entries
      ensures dataSent == r.sent.Some? && lastDatagramPrefix == Last(Entries(), old(lastDatagramPrefix), r)
      ensures stillActive == SomeReady(0, if r.sent.Some? then r.sent.value + 1 else stop)
      ensures allChecked ==> !dataSent
      ensures forall i | stop <= i < |Nodes| :: Nodes[i].ready == old(Nodes[i].ready)
    {
      hide Scan, Poll, Has, IndexOf, Forward, Backward, DistinctPrefixes, Going, SomeReady, Nth;
      r := Scan(Entries(), 0, stop, apps, space);
      GoingStarts(r, Entries(), 0, stop, apps, space);
      NoneReady(0);
      ghost var k, asked := 0, [];
      dataSent, stillActive, allChecked := false, false, false;
      var prefixCtx := first;
      while prefixCtx != null
        invariant Valid() && Nodes == old(Nodes) && k <= stop && prefixCtx == Nth(Nodes, k)
        invariant previous != null ==> k < stop
        invariant forall i | stop <= i < |Nodes| :: Nodes[i].ready == old(Nodes[i].ready)
        invariant !dataSent && Going(r, asked, Entries(), k, stop, apps, space)
        invariant lastDatagramPrefix == old(lastDatagramPrefix)
        invariant stillActive == SomeReady(0, k) && !allChecked
        decreases |Nodes| - k
      {
        NodeIs(prefixCtx, k);
        dataSent, stillActive, asked := PollNext(prefixCtx, stillActive, apps, space, 0, k, stop, r, asked);
        if dataSent {
          return;
        } else if prefixCtx == previous {
          SameNode(k, stop - 1);
          allChecked := true;
          GoingEnds(r, asked, Entries(), stop, apps, space);
          return;
        } else {
          NextNode(k);
          prefixCtx := prefixCtx.next;
          k := k + 1;
        }
      }
      NodeIs(prefixCtx, k);
      GoingEnds(r, asked, Entries(), stop, apps, space);
    }

    lemma NodeIs(node: Node?, k: nat)
      requires k <= |Nodes| && node == Nth(Nodes, k)
      ensures node == null <==> k == |Nodes|
      ensures k < |Nodes| ==> node == Nodes[k]
    {
    }

    lemma NextNode(k: nat)
      requires Valid() && k < |Nodes|
      ensures Nodes[k].next == Nth(Nodes, k + 1)
    {
    }

    lemma NoneReady(k: nat)
      requires k <= |Nodes|
      ensures !SomeReady(k, k)
    {
    }

    lemma SameNode(i: nat, j: nat)
      requires Valid() && i < |Nodes| && j < |Nodes| && Nodes[i] == Nodes[j]
      ensures i == j
    {
    }

    /** The last pass: look for any flag that is still set. */
    method Recheck() returns (stillActive: bool)
      requires Valid()
      ensures stillActive == SomeReady(0, |Nodes|)
    {
      ghost var k := 0;
      stillActive := false;
      var prefixCtx := first;
      while prefixCtx != null && !stillActive
        invariant k <= |Nodes| && (prefixCtx == Nth(Nodes, k) || stillActive)
        invariant stillActive == SomeReady(0, k)
        decreases |Nodes| - k
      {
        stillActive := prefixCtx.ready;
        prefixCtx := prefixCtx.next;
        k := k + 1;
      }
    }

    /** Both passes of a call. When all prefixes were checked the flags seen are all there are. */
    method PollAll(apps: Apps, space: nat) returns (stillActive: bool, allChecked: bool, ghost r: Scanned)
      requires Valid()
      modifies this, Nodes
      ensures Valid() && Nodes == old(Nodes)
      ensures r == Call(old(Entries()), old(lastDatagramPrefix), apps, space) && Entries() == r.entries
      ensures lastDatagramPrefix == Last(r.entries, old(lastDatagramPrefix), r)
      ensures stillActive ==> SomeReady(0, |Nodes|)
      ensures allChecked && SomeReady(0, |Nodes|) ==> stillActive
    {
      hide Scan, Poll, Has, IndexOf, Nth, Forward, Backward, DistinctPrefixes;
      r := Call(Entries(), lastDatagramPrefix, apps, space);
      ghost var start := Start(Entries(), lastDatagramPrefix);
      var previous := FindStreamPrefix(lastDatagramPrefix);
      StartNode(previous, lastDatagramPrefix);
      var prefixCtx := if previous == null then null else previous.next;
      var dataSent;
      ghost var pass;
      dataSent, stillActive, pass := PollBehind(prefixCtx, start, apps, space);
      allChecked := false;
      if !dataSent {
        var active;
        dataSent, active, allChecked, pass := PollUpTo(previous, start, apps, space);
        stillActive := stillActive || active;
      }
    }

    /** h3zero_callback_prepare_datagram: one call of the round robin. The value returned
        is the one given to picoquic_mark_datagram_ready. */
    method PrepareDatagram(apps: Apps, space: nat) returns (stillActive: bool)
      requires Valid()
      modifies this, Nodes
      ensures Valid() && Nodes == old(Nodes)
      ensures var r := Call(old(Entries()), old(lastDatagramPrefix), apps, space);
              && Entries() == r.entries
              && lastDatagramPrefix == Last(r.entries, old(lastDatagramPrefix), r)
              && stillActive == AnyReady(r.entries)
    {
      hide Call, Valid, Scan, Poll, SomeReady;
      var allChecked;
      ghost var r;
      stillActive, allChecked, r := PollAll(apps, space);
      if !allChecked && !stillActive {
        stillActive := Recheck();
      }
      SomeIsAny();
    }

    lemma SomeIsAny()
      ensures SomeReady(0, |Nodes|) <==> AnyReady(Entries())
    {
      if SomeReady(0, |Nodes|) {
        var k :| 0 <= k < |Nodes| && Nodes[k].ready;
        assert Entries()[k].ready;
      }
    }

    /** Where the scan starts, as a node. */
    lemma StartNode(previous: Node?, prefix: nat)
      requires Valid() && (previous == null <==> !Has(Entries(), prefix))
      requires previous != null ==> previous == Nodes[IndexOf(Entries(), prefix)]
      ensures var start := Start(Entries(), prefix);
              && Nth(Nodes, start) == (if previous == null then null else previous.next)
              && if previous == null then start == |Nodes| else start > 0 && previous == Nodes[start - 1]
    {
      if previous != null {
        var k := IndexOf(Entries(), prefix);
        assert Nodes[k].next == Nth(Nodes, k + 1);
      }
    }
  }
}
