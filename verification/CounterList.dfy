/**
 The per-cpu counter lists of turbostat: nodes linked through `next`, kept in ascending order of
 package, core and cpu by an insertion that walks package, core and cpu in three stages.
 */
module CounterList {

  datatype Key = Key(pkg: int, core: int, cpu: int)

  const WORD := 0x1_0000_0000_0000_0000

  type word = w: int | 0 <= w < WORD

  /** One reading, or one difference, of a cpu's counters. */
  datatype Sample = Sample(tsc: word, aperf: word, mperf: word, c1: word, c3: word, c6: word, c7: word,
                           pc2: word, pc3: word, pc6: word, pc7: word, extra: word)

  const ZERO := Sample(0, 0, 0, 0, 0, 0, 0, 0, 0, 0, 0, 0)

  // ----- order

  predicate Less(a: Key, b: Key) {
    a.pkg < b.pkg || (a.pkg == b.pkg && (a.core < b.core || (a.core == b.core && a.cpu < b.cpu)))
  }

  ghost predicate Sorted(ks: seq<Key>) {
    forall i, j :: 0 <= i < j < |ks| ==> !Less(ks[j], ks[i])
  }

  function InsertBefore(ks: seq<Key>, k: Key): (r: seq<Key>) {
    if ks == [] || !Less(ks[0], k) then [k] + ks else [ks[0]] + InsertBefore(ks[1..], k)
  }

  /** Where a new key goes: in front of the first key above it, or after the head before the first
      key that is not below it. */
  function Insert(ks: seq<Key>, k: Key): (r: seq<Key>) {
    if ks == [] || Less(k, ks[0]) then [k] + ks else [ks[0]] + InsertBefore(ks[1..], k)
  }

  function InsertAll(ks: seq<Key>, cpus: seq<Key>): (r: seq<Key>)
    decreases |cpus|
  {
    if cpus == [] then ks else InsertAll(Insert(ks, cpus[0]), cpus[1..])
  }

  lemma {:induction false} InsertBeforeAt(ks: seq<Key>, k: Key, j: nat)
    requires j <= |ks| && (forall i :: 0 <= i < j ==> Less(ks[i], k)) && (j == |ks| || !Less(ks[j], k))
    ensures InsertBefore(ks, k) == ks[..j] + [k] + ks[j..]
  {
    if j > 0 {
      InsertBeforeAt(ks[1..], k, j - 1);
      assert [ks[0]] + (ks[1..][..j - 1] + [k] + ks[1..][j - 1..]) == ks[..j] + [k] + ks[j..];
    }
  }

  lemma InsertAt(ks: seq<Key>, k: Key, j: nat)
    requires 1 <= j <= |ks| && !Less(k, ks[0])
    requires (forall i :: 1 <= i < j ==> Less(ks[i], k)) && (j == |ks| || !Less(ks[j], k))
    ensures Insert(ks, k) == ks[..j] + [k] + ks[j..]
  {
    var tail := ks[1..];
    InsertBeforeAt(tail, k, j - 1);
    assert [ks[0]] + tail[..j - 1] == ks[..j] && tail[j - 1..] == ks[j..];
  }

  lemma {:induction false} InsertBeforeSplits(ks: seq<Key>, k: Key) returns (j: nat)
    ensures j <= |ks| && (forall i :: 0 <= i < j ==> Less(ks[i], k)) && (j == |ks| || !Less(ks[j], k))
    ensures InsertBefore(ks, k) == ks[..j] + [k] + ks[j..]
  {
    j := 0;
    while j < |ks| && Less(ks[j], k)
      invariant j <= |ks| && forall i :: 0 <= i < j ==> Less(ks[i], k)
    {
      j := j + 1;
    }
    InsertBeforeAt(ks, k, j);
  }

  lemma SortedBetween(a: seq<Key>, k: Key, b: seq<Key>)
    requires Sorted(a + b)
    requires forall i :: 0 <= i < |a| ==> !Less(k, a[i])
    requires forall i :: 0 <= i < |b| ==> !Less(b[i], k)
    ensures Sorted(a + [k] + b)
  {
    var r := a + [k] + b;
    forall i, j | 0 <= i < j < |r| ensures !Less(r[j], r[i]) {
      if i != |a| && j != |a| {
        var i', j' := if i < |a| then i else i - 1, if j < |a| then j else j - 1;
        assert r[i] == (a + b)[i'] && r[j] == (a + b)[j'];
      }
    }
  }

  lemma NotLessTransitive(a: Key, b: Key, c: Key)
    requires !Less(b, a) && !Less(c, b)
    ensures !Less(c, a)
  {
  }

  lemma InsertSplits(ks: seq<Key>, k: Key) returns (j: nat)
    requires Sorted(ks)
    ensures j <= |ks| && Insert(ks, k) == ks[..j] + [k] + ks[j..]
    ensures forall i :: 0 <= i < j ==> !Less(k, ks[i])
    ensures forall i :: j <= i < |ks| ==> !Less(ks[i], k)
  {
    hide InsertBefore;
    j := 0;
    if ks != [] && !Less(k, ks[0]) {
      var m := InsertBeforeSplits(ks[1..], k);
      j := m + 1;
      assert forall i :: 0 < i < j ==> ks[i] == ks[1..][i - 1];
    }
    forall i | j <= i < |ks| ensures !Less(ks[i], k) {
      assert j < i ==> !Less(ks[i], ks[j]);
      NotLessTransitive(k, ks[j], ks[i]);
    }
  }

  /** Insertion keeps the order and adds the key once, duplicates included. */
  lemma InsertSorted(ks: seq<Key>, k: Key)
    requires Sorted(ks)
    ensures Sorted(Insert(ks, k)) && multiset(Insert(ks, k)) == multiset(ks) + multiset{k}
  {
    var j := InsertSplits(ks, k);
    assert ks == ks[..j] + ks[j..];
    SortedBetween(ks[..j], k, ks[j..]);
  }

  lemma {:induction false} InsertAllSorted(ks: seq<Key>, cpus: seq<Key>)
    requires Sorted(ks)
    ensures Sorted(InsertAll(ks, cpus)) && multiset(InsertAll(ks, cpus)) == multiset(ks) + multiset(cpus)
    ensures |InsertAll(ks, cpus)| == |ks| + |cpus|
    decreases |cpus|
  {
    if cpus != [] {
      InsertSorted(ks, cpus[0]);
      InsertAllSorted(Insert(ks, cpus[0]), cpus[1..]);
      assert cpus == [cpus[0]] + cpus[1..];
      assert |multiset(Insert(ks, cpus[0]))| == |ks| + 1;
    }
  }

  // ----- the linked list

  /** A node: its place in the topology and the link.  The counters it carries are kept by the
      list, in the order of the nodes. */
  class Counters {
    const key: Key
    var next: Counters?

    constructor (key: Key)
      ensures this.key == key && next == null
    {
      this.key, next := key, null;
    }
  }

  ghost function Keys(nodes: seq<Counters>): (ks: seq<Key>)
    ensures |ks| == |nodes|
    ensures forall i :: 0 <= i < |nodes| ==> ks[i] == nodes[i].key
  {
    seq(|nodes|, i requires 0 <= i < |nodes| => nodes[i].key)
  }

  lemma MembersBetween(nodes: seq<Counters>, node: Counters, j: nat)
    requires j <= |nodes|
    ensures forall n :: n in nodes[..j] + [node] + nodes[j..] <==> n in nodes || n == node
  {
    assert nodes == nodes[..j] + nodes[j..];
  }

  lemma KeysBetween(nodes: seq<Counters>, node: Counters, j: nat)
    requires j <= |nodes|
    ensures Keys(nodes[..j] + [node] + nodes[j..]) == Keys(nodes)[..j] + [node.key] + Keys(nodes)[j..]
  {
  }

  ghost predicate Distinct(nodes: seq<Counters>) {
    forall i, j :: 0 <= i < j < |nodes| ==> nodes[i] != nodes[j]
  }

  lemma DistinctBetween(a: seq<Counters>, node: Counters, b: seq<Counters>)
    requires Distinct(a + b) && node !in a + b
    ensures Distinct(a + [node] + b)
  {
    var r := a + [node] + b;
    forall i, j | 0 <= i < j < |r| ensures r[i] != r[j] {
      var i', j' := if i < |a| then i else i - 1, if j < |a| then j else j - 1;
      assert i != |a| ==> r[i] == (a + b)[i'];
      assert j != |a| ==> r[j] == (a + b)[j'];
    }
  }

  class List {
    var head: Counters?
    var vals: seq<Sample>
    ghost var nodes: seq<Counters>

    /** `nodes` is what a walk from `head` visits: acyclic, since no node occurs twice. */
    ghost predicate Valid()
      reads this`head, this`nodes, nodes`next
    {
      Distinct(nodes) && Linked()
    }

    ghost predicate Linked()
      reads this`head, this`nodes, nodes`next
    {
      && head == (if nodes == [] then null else nodes[0])
      && (forall i :: 0 <= i < |nodes| - 1 ==> nodes[i].next == nodes[i + 1])
      && (nodes != [] ==> nodes[|nodes| - 1].next == null)
    }

    /** Every node has its counters. */
    ghost predicate Filled()
      reads this`vals, this`nodes
    {
      |vals| == |nodes|
    }

    constructor ()
      ensures Valid() && Filled() && nodes == []
    {
      head, nodes, vals := null, [], [];
    }

    /** free_counter_list, and the head reset: the nodes are freed in their order, each once, and none
        is looked at afterwards. */
    method Free() returns (freed: seq<Counters>)
      requires Valid()
      modifies this
      ensures freed == old(nodes) && Distinct(freed)
      ensures Valid() && Filled() && nodes == []
    {
      freed := [];
      var p := head;
      while p != null
        invariant freed <= nodes
        invariant p == if |freed| < |nodes| then nodes[|freed|] else null
        decreases |nodes| - |freed|
      {
        var freeMe := p;
        p := p.next;
        freed := freed + [freeMe];
      }
      assert freed == nodes;
      head, nodes, vals := null, [], [];
    }

    /** insert_counters of a zeroed node. */
    method InsertCounters(node: Counters)
      requires Valid() && Filled() && Sorted(Keys(nodes)) && node !in nodes
      modifies this, nodes`next, node`next
      ensures Valid() && Filled() && Keys(nodes) == Insert(old(Keys(nodes)), node.key)
      ensures forall n :: n in nodes <==> n in old(nodes) || n == node
    {
      ghost var ks := Keys(nodes);
      if head == null || Less(node.key, head.key) {
        LinkFront(node);
        KeysBetween(old(nodes), node, 0);
        MembersBetween(old(nodes), node, 0);
        assert nodes == old(nodes)[..0] + [node] + old(nodes)[0..];
      } else {
        var prev, j := Walk(node.key);
        LinkAfter(prev, node, j);
        InsertAt(ks, node.key, j);
        KeysBetween(old(nodes), node, j);
        MembersBetween(old(nodes), node, j);
      }
    }

    method LinkFront(node: Counters)
      requires Valid() && Filled() && node !in nodes
      modifies this, node`next
      ensures Valid() && Filled() && nodes == [node] + old(nodes)
    {
      ghost var was := nodes;
      node.next := head;
      head := node;
      vals := [ZERO] + vals;
      nodes := [node] + was;
      forall i, j | 0 <= i < j < |nodes| ensures nodes[i] != nodes[j] {
        assert nodes[j] == was[j - 1] && nodes[j] in was;
        assert i > 0 ==> nodes[i] == was[i - 1];
      }
      forall i | 0 <= i < |nodes| - 1 ensures nodes[i].next == nodes[i + 1] {
        assert nodes[i + 1] == was[i];
        assert i > 0 ==> nodes[i] == was[i - 1] && nodes[i] in was;
      }
    }

    /** The three walks: past lower packages, then lower cores of the package, then lower cpus. */
    method Walk(key: Key) returns (prev: Counters, j: nat)
      requires Valid() && Sorted(Keys(nodes)) && nodes != []
      ensures 1 <= j <= |nodes| && prev == nodes[j - 1]
      ensures forall i :: 1 <= i < j ==> Less(nodes[i].key, key)
      ensures j < |nodes| ==> !Less(nodes[j].key, key)
    {
      ghost var ks := Keys(nodes);
      prev, j := head, 1;
      while prev.next != null && prev.next.key.pkg < key.pkg
        invariant 1 <= j <= |nodes| && prev == nodes[j - 1]
        invariant forall i :: 1 <= i < j ==> Less(ks[i], key)
        decreases |nodes| - j
      {
        prev, j := prev.next, j + 1;
      }
      while prev.next != null && prev.next.key.pkg == key.pkg && prev.next.key.core < key.core
        invariant 1 <= j <= |nodes| && prev == nodes[j - 1]
        invariant forall i :: 1 <= i < j ==> Less(ks[i], key)
        invariant j < |nodes| ==> ks[j].pkg >= key.pkg
        decreases |nodes| - j
      {
        prev, j := prev.next, j + 1;
        assert j < |nodes| ==> !Less(ks[j], ks[j - 1]);
      }
      while
        && prev.next != null && prev.next.key.pkg == key.pkg
        && prev.next.key.core == key.core && prev.next.key.cpu < key.cpu
        invariant 1 <= j <= |nodes| && prev == nodes[j - 1]
        invariant forall i :: 1 <= i < j ==> Less(ks[i], key)
        invariant j < |nodes| ==> ks[j].pkg > key.pkg || (ks[j].pkg == key.pkg && ks[j].core >= key.core)
        decreases |nodes| - j
      {
        prev, j := prev.next, j + 1;
        assert j < |nodes| ==> !Less(ks[j], ks[j - 1]);
      }
    }

    /** The two assignments that put `node` behind `prev`. */
    method LinkAfter(prev: Counters, node: Counters, j: nat)
      requires Valid() && Filled() && node !in nodes && 1 <= j <= |nodes| && prev == nodes[j - 1]
      modifies this`nodes, this`vals, prev`next, node`next
      ensures Valid() && Filled() && nodes == old(nodes)[..j] + [node] + old(nodes)[j..]
    {
      ghost var was := nodes;
      node.next := prev.next;
      prev.next := node;
      vals := vals[..j] + [ZERO] + vals[j..];
      nodes := was[..j] + [node] + was[j..];
      assert was == was[..j] + was[j..];
      DistinctBetween(was[..j], node, was[j..]);
      forall i | 0 <= i < |nodes| - 1
        ensures nodes[i].next == nodes[i + 1]
      {
        if i < j - 1 {
          assert nodes[i] == was[i] && nodes[i + 1] == was[i + 1] && was[i] != was[j - 1];
        } else if i == j - 1 {
          assert nodes[i] == prev && nodes[i + 1] == node;
        } else if i == j {
          assert nodes[i] == node && node.next == old(was[j - 1].next);
          assert j < |was| ==> nodes[j + 1] == was[j];
        } else {
          assert nodes[i] == was[i - 1] && was[i - 1] != was[j - 1];
          assert nodes[i].next == old(was[i - 1].next);
          assert i < |was| ==> nodes[i + 1] == was[i];
        }
      }
    }
  }
}
