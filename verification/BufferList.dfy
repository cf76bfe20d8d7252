/** The chunks a readable stream has buffered: a linked list, read in part or whole. */
module BufferLists {
  import opened Options
  import opened Sequences

  class Node<T> {
    var data: seq<T>
    var next: Node?<T>

    constructor (data: seq<T>, next: Node?<T>)
      ensures this.data == data && this.next == next
    {
      this.data, this.next := data, next;
    }
  }

  function Chunks<T>(nodes: seq<Node<T>>): (cs: seq<seq<T>>)
    reads nodes
    ensures |cs| == |nodes| && forall i :: 0 <= i < |nodes| ==> cs[i] == nodes[i].data
  {
    seq(|nodes|, i requires 0 <= i < |nodes| reads nodes => nodes[i].data)
  }

  ghost predicate Linked<T>(nodes: seq<Node<T>>)
    reads nodes
  {
    && (forall i, j :: 0 <= i < j < |nodes| ==> nodes[i] != nodes[j])
    && (forall i, j :: 0 <= i < j < |nodes| && j == i + 1 ==> nodes[i].next == nodes[j])
    && (nodes != [] ==> nodes[|nodes| - 1].next == null)
  }

  lemma LinkedCons<T>(entry: Node<T>, nodes: seq<Node<T>>)
    requires Linked(nodes) && entry !in nodes && entry.next == if nodes == [] then null else nodes[0]
    ensures Linked([entry] + nodes) && Chunks([entry] + nodes) == [entry.data] + Chunks(nodes)
  {
    var all := [entry] + nodes;
    assert forall i :: 0 < i < |all| ==> all[i] == nodes[i - 1];
  }

  lemma LinkedFrom<T>(nodes: seq<Node<T>>, k: nat)
    requires Linked(nodes) && k <= |nodes|
    ensures Linked(nodes[k..]) && Chunks(nodes[k..]) == Chunks(nodes)[k..]
    ensures k < |nodes| ==> nodes[k..] != [] && nodes[k..][0] == nodes[k] && nodes[k..][|nodes| - k - 1] == nodes[|nodes| - 1]
    ensures k == |nodes| ==> nodes[k..] == []
  {
    var rest := nodes[k..];
    assert forall i :: 0 <= i < |rest| ==> rest[i] == nodes[k + i];
  }

  class BufferList<T(0)> {
    var head: Node?<T>
    var tail: Node?<T>
    var length: nat
    ghost var nodes: seq<Node<T>>

    ghost predicate Valid()
      reads this, nodes
    {
      && length == |nodes| && Linked(nodes)
      && head == (if nodes == [] then null else nodes[0])
      && tail == (if nodes == [] then null else nodes[|nodes| - 1])
    }

    ghost function Contents(): seq<seq<T>>
      reads this, nodes
    {
      Chunks(nodes)
    }

    constructor ()
      ensures Valid() && nodes == []
    {
      head, tail, length, nodes := null, null, 0, [];
    }

    method Push(chunk: seq<T>)
      requires Valid()
      modifies this, nodes
      ensures Valid() && fresh(set n | n in nodes && n !in old(nodes))
      ensures Contents() == old(Contents()) + [chunk]
    {
      var entry := new Node(chunk, null);
      if length > 0 {
        tail.next := entry;
      } else {
        head := entry;
      }
      tail := entry;
      length := length + 1;
      nodes := nodes + [entry];
    }

    method Unshift(chunk: seq<T>)
      requires Valid()
      modifies this
      ensures Valid() && fresh(set n | n in nodes && n !in old(nodes))
      ensures Contents() == [chunk] + old(Contents())
    {
      hide Linked, Chunks;
      var entry := new Node(chunk, head);
      assert entry !in nodes;
      LinkedCons(entry, nodes);
      if length == 0 {
        tail := entry;
      }
      head := entry;
      length := length + 1;
      nodes := [entry] + nodes;
    }

    method Shift() returns (chunk: Option<seq<T>>)
      requires Valid()
      modifies this
      ensures Valid()
      ensures old(nodes) == [] ==> chunk.None? && nodes == []
      ensures old(nodes) != [] ==> nodes == old(nodes)[1..] && chunk == Some(old(Contents())[0])
      ensures old(nodes) != [] ==> Contents() == old(Contents())[1..]
    {
      if length == 0 {
        return None;
      }
      hide Linked, Chunks;
      AfterFirst();
      chunk := Some(head.data);
      if length == 1 {
        head, tail := null, null;
      } else {
        head := head.next;
      }
      length := length - 1;
      nodes := nodes[1..];
    }

    lemma AfterFirst()
      requires Valid() && nodes != []
      ensures head != null && head.data == Contents()[0] && tail != null
      ensures var rest := nodes[1..];
              && |rest| == length - 1 && Linked(rest) && Chunks(rest) == Contents()[1..]
              && (rest != [] ==> head.next == rest[0] && tail == rest[|rest| - 1])
    {
      hide Linked, Chunks;
      NextOf(0);
      LinkedFrom(nodes, 1);
    }

    method Clear()
      modifies this
      ensures Valid() && nodes == []
    {
      head, tail, length, nodes := null, null, 0, [];
    }

    lemma NextOf(k: nat)
      requires Valid() && k < |nodes|
      ensures nodes[k].next == if k + 1 < |nodes| then nodes[k + 1] else null
    {
    }

    /** All chunks with a separator between them. */
    method Join(separator: seq<T>) returns (text: seq<T>)
      requires Valid()
      ensures text == Joined(Contents(), separator) == Flatten(Separated(Contents(), separator))
    {
      hide Separated, Flatten;
      JoinedIsSeparated(Contents(), separator);
      if length == 0 {
        return [];
      }
      var p := head;
      text := p.data;
      ghost var k := 0;
      FlattenOneJoined(nodes[0].data, separator);
      assert Contents()[..1] == [nodes[0].data];
      NextOf(0);
      while p.next != null
        invariant 0 <= k < |nodes| && p == nodes[k]
        invariant p.next == if k + 1 < |nodes| then nodes[k + 1] else null
        invariant text == Joined(Contents()[..k + 1], separator)
        decreases |nodes| - k
      {
        p := p.next;
        k := k + 1;
        NextOf(k);
        text := text + separator + p.data;
        assert Contents()[..k + 1][..k] == Contents()[..k];
      }
      assert Contents()[..k + 1] == Contents();
    }

    /** All chunks in one buffer of the total length. */
    method Concat(total: nat) returns (buffer: seq<T>)
      requires Valid() && total == |Flatten(Contents())|
      ensures buffer == Flatten(Contents())
    {
      hide Linked, Flatten, Chunks;
      if length == 0 {
        FlattenNone<T>();
        assert Contents() == [];
        return [];
      }
      if length == 1 {
        FlattenOne(head.data);
        assert Contents() == [head.data];
        return head.data;
      }
      var target := new T[total];
      var p, at := head, 0;
      ghost var cs := Contents();
      ghost var k := 0;
      FlattenNone<T>();
      while p != null
        invariant 0 <= k <= |nodes| && p == (if k < |nodes| then nodes[k] else null)
        invariant Valid() && Contents() == cs
        invariant 0 <= at <= total && target[..at] == Flatten(cs[..k])
        decreases |nodes| - k
      {
        FlattenNext(cs, k);
        NextOf(k);
        Copy(p.data, target, at);
        at := at + |p.data|;
        p := p.next;
        k := k + 1;
      }
      assert cs[..k] == cs;
      buffer := target[..];
    }
  }

  /** Copies all of `source` into `target` from `at` on. */
  method Copy<T>(source: seq<T>, target: array<T>, at: nat)
    requires at + |source| <= target.Length
    modifies target
    ensures target[..at + |source|] == old(target[..at]) + source
    ensures target[at + |source|..] == old(target[at + |source|..])
  {
    for i := 0 to |source|
      invariant target[..at] == old(target[..at]) && target[at..at + i] == source[..i]
      invariant target[at + |source|..] == old(target[at + |source|..])
    {
      target[at + i] := source[i];
      assert target[at..at + i + 1] == target[at..at + i] + [source[i]];
    }
  }

  function Joined<T>(chunks: seq<seq<T>>, separator: seq<T>): seq<T> {
    if chunks == [] then []
    else if |chunks| == 1 then chunks[0]
    else Joined(chunks[..|chunks| - 1], separator) + separator + chunks[|chunks| - 1]
  }

  lemma FlattenOneJoined<T>(x: seq<T>, separator: seq<T>)
    ensures Joined([x], separator) == x
  {
  }

  /** Every chunk but the first, after a separator. */
  function Separated<T>(chunks: seq<seq<T>>, separator: seq<T>): seq<seq<T>> {
    seq(|chunks|, i requires 0 <= i < |chunks| => if i == 0 then chunks[0] else separator + chunks[i])
  }

  /** A separator stands between any two chunks that are neighbours, and nowhere else. */
  lemma {:induction false} JoinedIsSeparated<T>(chunks: seq<seq<T>>, separator: seq<T>)
    ensures Joined(chunks, separator) == Flatten(Separated(chunks, separator))
  {
    hide Flatten;
    var parts := Separated(chunks, separator);
    if |chunks| == 0 {
      FlattenNone<T>();
    } else {
      var n := |chunks| - 1;
      var last := parts[n];
      JoinedIsSeparated(chunks[..n], separator);
      assert parts == Separated(chunks[..n], separator) + [last];
      FlattenPush(Separated(chunks[..n], separator), last);
      if n == 0 {
        FlattenNone<T>();
        assert [] + last == last;
      }
    }
  }

  lemma {:induction false} JoinedWithNothing<T>(chunks: seq<seq<T>>)
    ensures Joined(chunks, []) == Flatten(chunks)
  {
    if |chunks| == 1 {
      FlattenOne(chunks[0]);
      assert chunks == [chunks[0]];
    } else if |chunks| > 1 {
      JoinedWithNothing(chunks[..|chunks| - 1]);
    }
  }
}
