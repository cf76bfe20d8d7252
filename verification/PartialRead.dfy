/** Taking a number of units from the chunks a stream has buffered. */
module PartialReads {
  import opened Options
  import opened Sequences
  import opened BufferLists

  lemma FlattenCons<T>(x: seq<T>, rest: seq<seq<T>>)
    ensures Flatten([x] + rest) == x + Flatten(rest)
  {
    hide Flatten;
    FlattenMore([x], rest);
    FlattenOne(x);
  }

  /** A cut inside chunk `k`. */
  lemma FlattenCut<T>(cs: seq<seq<T>>, k: nat, u: nat)
    requires k < |cs| && u <= |cs[k]|
    ensures Flatten(cs) == Flatten(cs[..k]) + cs[k][..u] + Flatten([cs[k][u..]] + cs[k + 1..])
  {
    hide Flatten;
    FlattenSplit(cs, k);
    assert cs[k..] == [cs[k]] + cs[k + 1..];
    FlattenCons(cs[k], cs[k + 1..]);
    FlattenCons(cs[k][u..], cs[k + 1..]);
    assert cs[k] == cs[k][..u] + cs[k][u..];
  }

  lemma FlattenTo<T>(cs: seq<seq<T>>, k: nat)
    requires k < |cs|
    ensures Flatten(cs[..k + 1]) == Flatten(cs[..k]) + cs[k]
    ensures k + 1 == |cs| ==> Flatten(cs[..k + 1]) == Flatten(cs)
  {
    hide Flatten;
    FlattenNext(cs, k);
    if k + 1 == |cs| { assert cs[..k + 1] == cs; }
  }

  /** No node was added. */
  ghost predicate Within<T>(nodes: seq<Node<T>>, before: seq<Node<T>>) { forall n :: n in nodes ==> n in before }

  /** Drops the first `u` units of the first chunk. */
  method Trim<T(0)>(list: BufferList<T>, p: Node<T>, u: nat)
    requires list.Valid() && list.nodes != [] && p == list.nodes[0] && u <= |p.data|
    modifies p`data
    ensures list.Valid() && list.nodes == old(list.nodes)
    ensures list.Contents() == old([p.data[u..]] + list.Contents()[1..])
  {
    p.data := p.data[u..];
  }

  /** Leaves the chunks from `p` on, which `count` chunks come before. */
  method LeaveFrom<T(0)>(list: BufferList<T>, p: Node<T>, count: nat)
    requires list.Valid() && count < |list.nodes| && p == list.nodes[count]
    modifies list
    ensures list.Valid() && list.nodes == old(list.nodes[count..])
    ensures list.Contents() == old(list.Contents()[count..])
  {
    hide Linked, Chunks;
    LinkedFrom(list.nodes, count);
    list.nodes := list.nodes[count..];
    list.head := p;
    list.length := list.length - count;
  }

  /** Leaves the chunks after `p`. */
  method LeaveAfter<T(0)>(list: BufferList<T>, p: Node<T>, count: nat)
    requires list.Valid() && count < |list.nodes| && p == list.nodes[count]
    modifies list
    ensures list.Valid() && list.nodes == old(list.nodes[count + 1..])
    ensures list.Contents() == old(list.Contents()[count + 1..])
  {
    hide Linked, Chunks;
    list.NextOf(count);
    LinkedFrom(list.nodes, count + 1);
    list.nodes := list.nodes[count + 1..];
    if p.next != null {
      list.head := p.next;
    } else {
      list.head, list.tail := null, null;
    }
    list.length := list.length - (count + 1);
  }

  /** What a read leaves: the chunks after `p`, and before them the rest of `p` if only `u` units of it were taken. */
  method Leave<T(0)>(list: BufferList<T>, p: Node<T>, count: nat, u: nat)
    requires list.Valid() && count < |list.nodes| && p == list.nodes[count] && u <= |p.data|
    modifies list, p
    ensures list.Valid() && Within(list.nodes, old(list.nodes))
    ensures list.Contents() == Rest(old(list.Contents()), count, u)
  {
    hide Linked, Chunks;
    ghost var cs := list.Contents();
    if u == |p.data| {
      LeaveAfter(list, p, count);
    } else {
      LeaveFrom(list, p, count);
      Trim(list, p, u);
      assert cs[count..][1..] == cs[count + 1..];
    }
  }

  /** The chunks left when `k` chunks and `u` units of the next one are taken. */
  function Rest<T>(cs: seq<seq<T>>, k: nat, u: nat): seq<seq<T>>
    requires k < |cs| && u <= |cs[k]|
  {
    (if u == |cs[k]| then [] else [cs[k][u..]]) + cs[k + 1..]
  }

  lemma FlattenRest<T>(cs: seq<seq<T>>, k: nat, u: nat)
    requires k < |cs| && u <= |cs[k]|
    ensures Flatten(cs[..k]) + cs[k][..u] + Flatten(Rest(cs, k, u)) == Flatten(cs)
    ensures k == 0 ==> cs[k][..u] + Flatten(Rest(cs, k, u)) == Flatten(cs)
  {
    hide Flatten;
    FlattenCut(cs, k, u);
    FlattenCons(cs[k][u..], cs[k + 1..]);
    if u == |cs[k]| {
      assert [] + cs[k + 1..] == cs[k + 1..];
      assert cs[k][u..] == [] && [] + Flatten(cs[k + 1..]) == Flatten(cs[k + 1..]);
    }
    if k == 0 {
      FlattenNone<T>();
      assert cs[..0] == [] && [] + cs[k][..u] == cs[k][..u];
    }
  }

  lemma FlattenFirstCut<T>(cs: seq<seq<T>>, u: nat)
    requires cs != [] && u <= |cs[0]|
    ensures cs[0][..u] + Flatten([cs[0][u..]] + cs[1..]) == Flatten(cs)
    ensures u == |cs[0]| ==> cs[0] + Flatten(cs[1..]) == Flatten(cs)
  {
    hide Flatten;
    FlattenRest(cs, 0, u);
    if u == |cs[0]| {
      assert [] + cs[1..] == cs[1..] && cs[0][..u] == cs[0] && cs[0][u..] == [];
      FlattenCons([], cs[1..]);
      assert [] + Flatten(cs[1..]) == Flatten(cs[1..]);
    }
  }

  /** The chunks after the first `n` units. */
  function Drop<T>(cs: seq<seq<T>>, n: nat): seq<seq<T>> {
    if n == 0 || cs == [] then cs
    else if n < |cs[0]| then [cs[0][n..]] + cs[1..]
    else Drop(cs[1..], n - |cs[0]|)
  }

  /** A cut inside or at the end of chunk `k` drops all units before it. */
  lemma {:induction false} RestIsDrop<T>(cs: seq<seq<T>>, k: nat, u: nat)
    requires k < |cs| && 0 < u <= |cs[k]|
    ensures Rest(cs, k, u) == Drop(cs, |Flatten(cs[..k])| + u)
  {
    hide Flatten;
    if k == 0 {
      FlattenNone<T>();
      assert cs[..0] == [];
    } else {
      assert cs[..k][1..] == cs[1..][..k - 1] && cs[..k][0] == cs[0];
      FlattenFirst(cs[..k]);
      RestIsDrop(cs[1..], k - 1, u);
      assert cs[1..][k..] == cs[k + 1..];
    }
  }

  ghost predicate NoneEmpty<T>(cs: seq<seq<T>>) { forall i :: 0 <= i < |cs| ==> |cs[i]| > 0 }

  lemma {:induction false} DropNoneEmpty<T>(cs: seq<seq<T>>, n: nat)
    requires NoneEmpty(cs)
    ensures NoneEmpty(Drop(cs, n))
  {
    if n > 0 && cs != [] && n >= |cs[0]| { DropNoneEmpty(cs[1..], n - |cs[0]|); }
  }

  /** Dropping all units leaves no chunk. */
  lemma {:induction false} DropAll<T>(cs: seq<seq<T>>)
    requires NoneEmpty(cs)
    ensures Drop(cs, |Flatten(cs)|) == []
  {
    hide Flatten;
    if cs == [] {
      FlattenNone<T>();
    } else {
      FlattenFirst(cs);
      DropAll(cs[1..]);
    }
  }

  /** The string form: takes more than the first chunk and less than everything. */
  method CopyFromBufferString<T(0)>(list: BufferList<T>, n: nat) returns (text: seq<T>)
    requires list.Valid() && list.nodes != []
    requires |list.Contents()[0]| < n < |Flatten(list.Contents())|
    modifies list, list.nodes
    ensures list.Valid() && Within(list.nodes, old(list.nodes))
    ensures |text| == n && text + Flatten(list.Contents()) == old(Flatten(list.Contents()))
    ensures list.Contents() == Drop(old(list.Contents()), n)
  {
    hide Flatten, Linked, Chunks, Drop;
    var p := list.head;
    var count := 1;
    text := p.data;
    var t := n - |p.data|;
    ghost var cs := list.Contents();
    FlattenTo(cs, 0);
    FlattenNone<T>();
    list.NextOf(0);
    while p.next != null
      invariant 0 < count < |list.nodes| && p == list.nodes[count - 1] && p.next == list.nodes[count] && t > 0
      invariant list.Valid() && list.nodes == old(list.nodes) && list.Contents() == cs
      invariant text == Flatten(cs[..count]) && |text| + t == n
      decreases |list.nodes| - count
    {
      p := p.next;
      var o := p.data;
      var u := if t > |o| then |o| else t;
      FlattenTo(cs, count);
      if u == |o| {
        text := text + o;
      } else {
        text := text + o[..t];
      }
      t := t - u;
      if t == 0 {
        FlattenRest(cs, count, u);
        RestIsDrop(cs, count, u);
        Leave(list, p, count, u);
        break;
      }
      list.NextOf(count);
      count := count + 1;
    }
  }

  /** Fills `target` chunk by chunk; `u` units of `p`, before which `count` chunks come, are the last ones. */
  method Fill<T(0)>(list: BufferList<T>, target: array<T>) returns (p: Node<T>, count: nat, u: nat)
    requires list.Valid() && list.nodes != []
    requires |list.Contents()[0]| < target.Length < |Flatten(list.Contents())|
    modifies target
    ensures 0 < count < |list.nodes| && p == list.nodes[count] && 0 < u <= |p.data|
    ensures target[..] == Flatten(list.Contents()[..count]) + list.Contents()[count][..u]
  {
    hide Flatten, Linked, Chunks;
    var n := target.Length;
    p, count := list.head, 1;
    Copy(p.data, target, 0);
    var t := n - |p.data|;
    ghost var cs := list.Contents();
    FlattenTo(cs, 0);
    FlattenNone<T>();
    list.NextOf(0);
    u := 0;
    while p.next != null
      invariant 0 < count < |list.nodes| && p == list.nodes[count - 1] && p.next == list.nodes[count] && 0 < t <= n
      invariant target[..n - t] == Flatten(cs[..count])
      decreases |list.nodes| - count
    {
      p := p.next;
      var o := p.data;
      u := if t > |o| then |o| else t;
      FlattenTo(cs, count);
      Copy(o[..u], target, n - t);
      t := t - u;
      if t == 0 {
        break;
      }
      list.NextOf(count);
      count := count + 1;
    }
  }

  /** The buffer form: the same, into a new buffer of `n` units. */
  method CopyFromBuffer<T(0)>(list: BufferList<T>, n: nat) returns (target: array<T>)
    requires list.Valid() && list.nodes != []
    requires |list.Contents()[0]| < n < |Flatten(list.Contents())|
    modifies list, list.nodes
    ensures list.Valid() && Within(list.nodes, old(list.nodes)) && fresh(target)
    ensures target.Length == n && target[..] + Flatten(list.Contents()) == old(Flatten(list.Contents()))
    ensures list.Contents() == Drop(old(list.Contents()), n)
  {
    hide Flatten, Linked, Chunks, Rest, Drop;
    target := new T[n];
    var p, count, u := Fill(list, target);
    FlattenRest(list.Contents(), count, u);
    RestIsDrop(list.Contents(), count, u);
    Leave(list, p, count, u);
  }

  /** Takes `n` of more units than that: from the first chunk if it has enough, else over several chunks. */
  method TakePart<T(0)>(list: BufferList<T>, n: nat, hasStrings: bool) returns (r: seq<T>)
    requires list.Valid() && 0 < n < |Flatten(list.Contents())|
    modifies list, list.nodes
    ensures list.Valid() && Within(list.nodes, old(list.nodes))
    ensures |r| == n && r + Flatten(list.Contents()) == old(Flatten(list.Contents()))
    ensures list.Contents() == Drop(old(list.Contents()), n)
  {
    hide Flatten, Linked, Chunks;
    FlattenNone<T>();
    ghost var cs := list.Contents();
    assert cs != [];
    if n < |list.head.data| {
      FlattenFirstCut(cs, n);
      r := list.head.data[..n];
      Trim(list, list.head, n);
    } else if n == |list.head.data| {
      FlattenFirstCut(cs, n);
      var chunk := list.Shift();
      r := chunk.value;
    } else if hasStrings {
      r := CopyFromBufferString(list, n);
    } else {
      var target := CopyFromBuffer(list, n);
      r := target[..];
    }
  }

  /** How many of `held` units a request for `n` gives, where 0 asks for all. */
  function Given(n: nat, held: nat): (k: nat)
    ensures k <= held
  {
    if n == 0 || n >= held then held else n
  }

  datatype Event<T> = Pushed(chunk: seq<T>) | ReadOut(n: Option<nat>, flowing: bool) | Flows | Ended

  /** What a stream holds, and whether its source has ended. */
  datatype Stream<T> = Stream(held: seq<seq<T>>, ended: bool)

  /** How much a read takes: at most one object, all units or the first chunk for no number, and else the number, or
      all units if it is too large and no more will come. */
  function Amount<T>(objectMode: bool, st: Stream<T>, n: Option<nat>, flowing: bool): nat {
    var units := |Flatten(st.held)|;
    if st.held == [] || n == Some(0) then 0
    else if objectMode then 1
    else if n.None? then if flowing then |st.held[0]| else units
    else if n.value <= units then n.value
    else if st.ended then units
    else 0
  }

  /** What is given out for an event, and what the stream is then. */
  function Answer<T>(objectMode: bool, st: Stream<T>, e: Event<T>): (seq<seq<T>>, Stream<T>) {
    match e
    case Pushed(chunk) =>
      ([], if objectMode || |chunk| > 0 then st.(held := st.held + [chunk]) else st)
    case ReadOut(n, flowing) =>
      var k, units := Amount(objectMode, st, n, flowing), Flatten(st.held);
      if k == 0 then ([], st)
      else if objectMode then if st.held == [] then ([], st) else ([st.held[0]], st.(held := st.held[1..]))
      else if k > |units| then ([], st)
      else ([units[..k]], st.(held := Drop(st.held, k)))
    case Flows => (st.held, st.(held := []))
    case Ended => ([], st.(ended := true))
  }

  /** What is given out over a run. */
  function Answers<T>(objectMode: bool, st: Stream<T>, run: seq<Event<T>>): (seq<seq<T>>, Stream<T>) {
    if run == [] then ([], st)
    else
      var (out, before) := Answers(objectMode, st, run[..|run| - 1]);
      var (more, after) := Answer(objectMode, before, run[|run| - 1]);
      (out + more, after)
  }

  lemma NoAnswers<T>(objectMode: bool, st: Stream<T>)
    ensures Answers(objectMode, st, []) == ([], st)
  {
  }

  lemma AnswersMore<T>(objectMode: bool, st: Stream<T>, run: seq<Event<T>>, i: nat)
    requires i < |run|
    ensures var (out, before) := Answers(objectMode, st, run[..i]);
            var (more, after) := Answer(objectMode, before, run[i]);
            Answers(objectMode, st, run[..i + 1]) == (out + more, after)
  {
    hide Answer;
    assert run[..i + 1][..i] == run[..i];
  }

  /** The read side of a stream: its chunks and their total length. */
  class ReadState<T(0)> {
    const buffer: BufferList<T>
    const objectMode: bool
    const decodes: bool
    var length: nat
    var ended: bool

    ghost predicate Valid()
      reads this, buffer, buffer.nodes
    {
      && buffer.Valid()
      && (if objectMode then length == |buffer.nodes| else length == |Held()| && NoneEmpty(buffer.Contents()))
    }

    /** All units that are held, in order. */
    ghost function Held(): seq<T>
      reads this, buffer, buffer.nodes
    {
      Flatten(buffer.Contents())
    }

    ghost function Now(): Stream<T>
      reads this, buffer, buffer.nodes
    {
      Stream(buffer.Contents(), ended)
    }

    constructor (objectMode: bool, decodes: bool)
      ensures Valid() && length == 0 && this.objectMode == objectMode && this.decodes == decodes && !ended
      ensures fresh(buffer) && buffer.nodes == []
    {
      this.objectMode, this.decodes, length, ended := objectMode, decodes, 0, false;
      buffer := new BufferList();
      new;
      assert buffer.Contents() == [];
    }

    /** Adds a chunk at the end; an empty one is kept in object mode only. */
    method Add(chunk: seq<T>)
      requires Valid()
      modifies this, buffer, buffer.nodes
      ensures Valid() && ended == old(ended) && fresh(set n | n in buffer.nodes && n !in old(buffer.nodes))
      ensures buffer.Contents() == old(buffer.Contents()) + if objectMode || |chunk| > 0 then [chunk] else []
      ensures Held() == old(Held()) + chunk
    {
      hide Flatten, Linked, Chunks;
      if !objectMode && |chunk| == 0 {
        return;
      }
      length := length + if objectMode then 1 else |chunk|;
      FlattenPush(buffer.Contents(), chunk);
      buffer.Push(chunk);
    }

    /** The units taken for a request: those asked for, or all for no number; nothing if there are too few yet. */
    method HowMuchToRead(n: Option<nat>, flowing: bool) returns (t: nat)
      requires Valid()
      ensures !objectMode ==> t <= length
      ensures objectMode ==> t == if n == Some(0) || (length == 0 && ended) then 0 else 1
      ensures length > 0 ==> t == Amount(objectMode, Now(), n, flowing)
      ensures !objectMode && n.Some? ==> t == if n.value <= length then n.value else if ended then length else 0
      ensures !objectMode && n.None? && (length == 0 || !flowing) ==> t == length
      ensures !objectMode && n.None? && length > 0 && flowing ==> buffer.head != null && t == |buffer.head.data|
    {
      hide Flatten, Linked, Chunks;
      SizeOfHeld();
      if n == Some(0) || (length == 0 && ended) {
        return 0;
      }
      if objectMode {
        return 1;
      }
      if n.None? {
        if flowing && length > 0 {
          FirstWithin();
          return |buffer.head.data|;
        }
        return length;
      }
      t := if n.value <= length then n.value else if ended then length else 0;
    }

    lemma FirstWithin()
      requires Valid() && !objectMode && length > 0
      ensures buffer.head != null && 0 < |buffer.head.data| <= length
    {
      hide Flatten, Linked, Chunks;
      FlattenNone<T>();
      assert buffer.Contents() != [];
      FlattenTo(buffer.Contents(), 0);
      FlattenNext(buffer.Contents(), 0);
    }

    /** Gives `n` units, where 0 asks for all, and none if nothing is buffered; the length is still to be corrected. An
        object stream gives one object. */
    method FromList(n: nat) returns (r: Option<seq<T>>)
      requires Valid()
      modifies buffer, buffer.nodes
      ensures buffer.Valid() && Within(buffer.nodes, old(buffer.nodes))
      ensures r.None? <==> length == 0
      ensures r.None? ==> buffer.Contents() == old(buffer.Contents())
      ensures r.Some? && objectMode ==> [r.value] + buffer.Contents() == old(buffer.Contents())
      ensures r.Some? && !objectMode ==> r.value + Held() == old(Held()) && |r.value| == Given(n, length)
      ensures r.Some? && !objectMode ==> buffer.Contents() == Drop(old(buffer.Contents()), |r.value|)
    {
      hide Flatten, Linked, Chunks;
      if length == 0 {
        return None;
      }
      if objectMode {
        r := buffer.Shift();
      } else if n == 0 || n >= length {
        FlattenNone<T>();
        DropAll(buffer.Contents());
        var all;
        if decodes {
          all := buffer.Join([]);
          JoinedWithNothing(buffer.Contents());
        } else if buffer.length == 1 {
          all := buffer.head.data;
          FlattenOne(all);
          assert buffer.Contents() == [all];
        } else {
          all := buffer.Concat(length);
        }
        buffer.Clear();
        assert buffer.Contents() == [];
        r := Some(all);
      } else {
        var part := TakePart(buffer, n, decodes);
        r := Some(part);
      }
    }

    /** Gives `t` units, or one object, and corrects the length. */
    method Take(t: nat) returns (r: Option<seq<T>>)
      requires Valid() && 0 < t && (if objectMode then t == 1 else t <= length)
      modifies this, buffer, buffer.nodes
      ensures Valid() && ended == old(ended) && Within(buffer.nodes, old(buffer.nodes))
      ensures r.None? <==> old(length) == 0
      ensures r.None? ==> buffer.Contents() == old(buffer.Contents())
      ensures r.Some? && objectMode ==> [r.value] + buffer.Contents() == old(buffer.Contents())
      ensures r.Some? && !objectMode ==> r.value + Held() == old(Held()) && |r.value| == t
      ensures r.Some? && !objectMode ==> buffer.Contents() == Drop(old(buffer.Contents()), t)
    {
      hide Flatten, Linked, Chunks, Drop, NoneEmpty;
      if !objectMode { DropNoneEmpty(buffer.Contents(), t); }
      r := FromList(t);
      if r.Some? {
        length := length - t;
      }
    }

    /** Reads and corrects the length: what is given and what is left are what was held. */
    method Read(n: Option<nat>, flowing: bool) returns (r: Option<seq<T>>)
      requires Valid()
      modifies this, buffer, buffer.nodes
      ensures Valid() && ended == old(ended) && Within(buffer.nodes, old(buffer.nodes))
      ensures ((if r.Some? then [r.value] else []), Now()) == Answer(objectMode, old(Now()), ReadOut(n, flowing))
      ensures r.None? ==> buffer.Contents() == old(buffer.Contents())
      ensures r.Some? && objectMode ==> [r.value] + buffer.Contents() == old(buffer.Contents())
      ensures r.Some? && !objectMode ==> r.value + Held() == old(Held()) && r.value != []
      ensures r.Some? && !objectMode ==> buffer.Contents() == Drop(old(buffer.Contents()), |r.value|)
      ensures !objectMode && n.Some? ==>
                (r.Some? <==> 0 < n.value && 0 < old(length) && (n.value <= old(length) || ended))
      ensures !objectMode && n.Some? && r.Some? ==> |r.value| == Given(n.value, old(length))
      ensures !objectMode && n.None? ==> (r.Some? <==> old(length) > 0)
      ensures !objectMode && n.None? && !flowing && r.Some? ==> |r.value| == old(length)
      ensures !objectMode && n.None? && flowing && r.Some? ==> [r.value] + buffer.Contents() == old(buffer.Contents())
      ensures objectMode ==> (r.Some? <==> n != Some(0) && old(length) > 0)
    {
      hide Flatten, Linked, Chunks, Drop, NoneEmpty, Amount, Answer;
      ghost var st := Now();
      SizeOfHeld();
      NothingToRead(objectMode, st, n, flowing);
      var t := HowMuchToRead(n, flowing);
      if !objectMode && length > 0 { FirstWithin(); }
      if t == 0 {
        return None;
      }
      r := Take(t);
      if r.Some? {
        if !objectMode && n.None? && flowing { FirstChunkRead(st.held, r.value, Held()); }
        ReadAnswers(objectMode, st, n, flowing, r.value, Now());
      }
    }

    /** A read of a flowing stream gives the first chunk that is held, or the first object. */
    method ReadFlowing() returns (r: Option<seq<T>>)
      requires Valid()
      modifies this, buffer, buffer.nodes
      ensures Valid() && ended == old(ended) && fresh(set n | n in buffer.nodes && n !in old(buffer.nodes))
      ensures old(buffer.Contents()) == With(r, buffer.Contents())
      ensures r.None? ==> buffer.Contents() == []
    {
      hide Flatten, Linked, Chunks, Drop;
      r := Read(None, true);
      if r.None? { NothingHeld(); }
    }

    /** Reads while the stream flows, until nothing is given: every chunk that is held is handed out as it is. */
    method Flow() returns (out: seq<seq<T>>)
      requires Valid()
      modifies this, buffer, buffer.nodes
      ensures Valid() && ended == old(ended) && fresh(set n | n in buffer.nodes && n !in old(buffer.nodes))
      ensures out == old(buffer.Contents()) && buffer.Contents() == []
    {
      hide Flatten, Linked, Chunks, Valid, With;
      out := [];
      ghost var all := buffer.Contents();
      var r := ReadFlowing();
      assert all == [] + With(r, buffer.Contents());
      while r.Some?
        invariant Valid() && ended == old(ended) && fresh(set n | n in buffer.nodes && n !in old(buffer.nodes))
        invariant all == out + With(r, buffer.Contents())
        invariant r.None? ==> buffer.Contents() == []
        decreases |all| - |out|
      {
        ghost var rest := buffer.Contents();
        WithMore(out, r.value, rest);
        out := out + [r.value];
        r := ReadFlowing();
      }
      WithNone<T>();
      assert out + [] == out;
    }

    lemma SizeOfHeld()
      requires Valid()
      ensures length == 0 <==> buffer.Contents() == []
      ensures buffer.Contents() != [] ==> (objectMode || |buffer.Contents()[0]| > 0)
      ensures !objectMode ==> length == |Flatten(buffer.Contents())|
    {
      hide Flatten, Linked, Chunks;
      FlattenNone<T>();
      if length == 0 { NothingHeld(); }
    }

    lemma NothingHeld()
      requires Valid() && length == 0
      ensures buffer.Contents() == []
    {
      hide Flatten, Linked, Chunks;
      if !objectMode && buffer.Contents() != [] { FlattenNext(buffer.Contents(), 0); }
    }

    method End()
      requires Valid()
      modifies this`ended
      ensures Valid() && ended && length == old(length) && buffer.Contents() == old(buffer.Contents())
    {
      ended := true;
    }

    /** One event; `out` is what is given out. */
    method ServeOne(e: Event<T>) returns (out: seq<seq<T>>)
      requires Valid()
      modifies this, buffer, buffer.nodes
      ensures Valid() && fresh(set n | n in buffer.nodes && n !in old(buffer.nodes))
      ensures (out, Now()) == Answer(objectMode, old(Now()), e)
    {
      hide Flatten, Linked, Chunks, Amount, NoneEmpty, Drop;
      out := [];
      match e
      case Pushed(chunk) =>
        assert old(buffer.Contents()) + [] == old(buffer.Contents());
        Add(chunk);
      case ReadOut(n, flowing) =>
        var r := Read(n, flowing);
        if r.Some? {
          out := [r.value];
        }
      case Flows =>
        out := Flow();
      case Ended =>
        End();
    }

    /** Over any run of pushes and reads, what is given out followed by what is left is what was held and pushed. */
    method Serve(run: seq<Event<T>>) returns (out: seq<seq<T>>)
      requires Valid()
      modifies this, buffer, buffer.nodes
      ensures Valid() && (out, Now()) == Answers(objectMode, old(Now()), run)
      ensures objectMode ==> out + buffer.Contents() == old(buffer.Contents()) + AllPushed(run)
      ensures !objectMode ==> Flatten(out) + Held() == old(Held()) + Flatten(AllPushed(run))
    {
      hide Flatten, Linked, Chunks, Answer, Answers, Valid;
      out := [];
      NoAnswers(objectMode, Now());
      assert run[..0] == [];
      for i := 0 to |run|
        invariant Valid() && fresh(set n | n in buffer.nodes && n !in old(buffer.nodes))
        invariant (out, Now()) == Answers(objectMode, old(Now()), run[..i])
      {
        AnswersMore(objectMode, old(Now()), run, i);
        var more := ServeOne(run[i]);
        out := out + more;
      }
      assert run[..|run|] == run;
      AnswersConserve(objectMode, old(Now()), run);
    }
  }

  lemma NothingToRead<T>(objectMode: bool, st: Stream<T>, n: Option<nat>, flowing: bool)
    ensures st.held == [] || Amount(objectMode, st, n, flowing) == 0 ==>
              Answer(objectMode, st, ReadOut(n, flowing)) == ([], st)
  {
    hide Drop, Flatten;
  }

  /** What a read gives and leaves is what it is to give and leave. */
  lemma ReadAnswers<T>(objectMode: bool, st: Stream<T>, n: Option<nat>, flowing: bool, given: seq<T>, after: Stream<T>)
    requires after.ended == st.ended && st.held != [] && Amount(objectMode, st, n, flowing) > 0
    requires objectMode ==> [given] + after.held == st.held
    requires !objectMode ==>
               && after.held == Drop(st.held, |given|) && given + Flatten(after.held) == Flatten(st.held)
               && |given| == Amount(objectMode, st, n, flowing)
    ensures ([given], after) == Answer(objectMode, st, ReadOut(n, flowing))
  {
    hide Amount, Flatten, Drop;
    if !objectMode { assert given == (given + Flatten(after.held))[..|given|]; }
  }

  /** The chunks held, with the one just given out before them. */
  function With<T>(given: Option<seq<T>>, cs: seq<seq<T>>): seq<seq<T>> {
    (if given.Some? then [given.value] else []) + cs
  }

  lemma WithMore<T>(out: seq<seq<T>>, given: seq<T>, cs: seq<seq<T>>)
    ensures out + With(Some(given), cs) == (out + [given]) + cs
    ensures |out + With(Some(given), cs)| > |out|
  {
  }

  lemma WithNone<T>()
    ensures With<T>(None, []) == []
  {
  }

  /** A read of as many units as the first chunk has gives that chunk and leaves the others. */
  lemma FirstChunkRead<T>(cs: seq<seq<T>>, given: seq<T>, held: seq<T>)
    requires cs != [] && |cs[0]| > 0 && |given| == |cs[0]| && given + held == Flatten(cs)
    ensures [given] + Drop(cs, |given|) == cs
  {
    hide Flatten;
    FlattenFirst(cs);
    assert given == (given + held)[..|given|] && cs[0] == (cs[0] + Flatten(cs[1..]))[..|cs[0]|];
    assert [cs[0]] + cs[1..] == cs;
  }

  // ----- whole runs

  lemma Regroup<T>(a: seq<T>, b: seq<T>, c: seq<T>, d: seq<T>, e: seq<T>)
    requires b + c == d + e
    ensures (a + b) + c == (a + d) + e
  {
    assert (a + b) + c == a + (b + c) && (a + d) + e == a + (d + e);
  }

  function Pushes<T>(e: Event<T>): seq<seq<T>> { if e.Pushed? then [e.chunk] else [] }

  function AllPushed<T>(run: seq<Event<T>>): seq<seq<T>> {
    if run == [] then [] else AllPushed(run[..|run| - 1]) + Pushes(run[|run| - 1])
  }

  /** What is dropped and what is left are all units. */
  lemma {:induction false} DropUnits<T>(cs: seq<seq<T>>, k: nat)
    requires k <= |Flatten(cs)|
    ensures Flatten(cs)[..k] + Flatten(Drop(cs, k)) == Flatten(cs)
  {
    hide Flatten;
    FlattenNone<T>();
    if k > 0 {
      var u := |cs[0]|;
      FlattenFirst(cs);
      if k < u {
        FlattenCons(cs[0][k..], cs[1..]);
        assert Flatten(cs)[..k] == cs[0][..k] && cs[0][..k] + cs[0][k..] == cs[0];
      } else {
        DropUnits(cs[1..], k - u);
        assert Flatten(cs)[..k] == cs[0] + Flatten(cs[1..])[..k - u];
      }
    } else {
      assert Flatten(cs)[..0] + Flatten(cs) == Flatten(cs);
    }
  }

  lemma AnswerConserves<T>(objectMode: bool, st: Stream<T>, e: Event<T>)
    ensures var (out, after) := Answer(objectMode, st, e);
            && (objectMode ==> out + after.held == st.held + Pushes(e))
            && (!objectMode ==> Flatten(out) + Flatten(after.held) == Flatten(st.held) + Flatten(Pushes(e)))
  {
    hide Flatten, Amount, Drop;
    FlattenNone<T>();
    match e
    case Pushed(chunk) =>
      FlattenPush(st.held, chunk);
      FlattenOne(chunk);
    case ReadOut(n, flowing) =>
      var k := Amount(objectMode, st, n, flowing);
      if !objectMode && 0 < k <= |Flatten(st.held)| {
        DropUnits(st.held, k);
        FlattenOne(Flatten(st.held)[..k]);
      }
    case Flows =>
    case Ended =>
  }

  /** Over any run, what is given out followed by what is left is what was held and pushed: as objects in object mode,
      else as units. */
  lemma {:induction false} AnswersConserve<T>(objectMode: bool, st: Stream<T>, run: seq<Event<T>>)
    ensures var (out, after) := Answers(objectMode, st, run);
            && (objectMode ==> out + after.held == st.held + AllPushed(run))
            && (!objectMode ==> Flatten(out) + Flatten(after.held) == Flatten(st.held) + Flatten(AllPushed(run)))
  {
    hide Flatten, Answer, Pushes;
    FlattenNone<T>();
    if run != [] {
      var before, e := run[..|run| - 1], run[|run| - 1];
      AnswersConserve(objectMode, st, before);
      var (out, mid) := Answers(objectMode, st, before);
      AnswerConserves(objectMode, mid, e);
      var (more, after) := Answer(objectMode, mid, e);
      if objectMode {
        Regroup(out, more, after.held, mid.held, Pushes(e));
      } else {
        FlattenMore(out, more);
        FlattenMore(AllPushed(before), Pushes(e));
        Regroup(Flatten(out), Flatten(more), Flatten(after.held), Flatten(mid.held), Flatten(Pushes(e)));
      }
    }
  }
}
