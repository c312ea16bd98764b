/** lib/msgtext.c: the lines of a message as a doubly linked list with a cursor. */
module MsgText {
  import opened Bytes

  /** What the list stands for: the lines and which one the cursor is at. */
  datatype Text = Text(lines: seq<string>, at: nat)
  {
    predicate Placed() { lines == [] || at < |lines| }
  }

  function InsertAt<T>(s: seq<T>, k: nat, x: T): (r: seq<T>)
    requires k <= |s|
    ensures |r| == |s| + 1 && r[k] == x
  {
    s[..k] + [x] + s[k..]
  }

  function RemoveAt<T>(s: seq<T>, k: nat): (r: seq<T>)
    requires k < |s|
    ensures |r| == |s| - 1
  {
    s[..k] + s[k + 1..]
  }

  /** What an unsigned short holds after counting to n. */
  function Low16(n: nat): (r: nat)
    ensures r < 0x1_0000 && r <= n
  {
    if n < 0x1_0000 then n else Low16(n - 0x1_0000)
  }

  lemma {:induction false} Low16Next(n: nat)
    ensures Low16(n + 1) == if Low16(n) == 0xffff then 0 else Low16(n) + 1
  {
    if n >= 0x1_0000 { Low16Next(n - 0x1_0000); }
  }

  lemma {:induction false} Low16Is(n: nat)
    ensures Low16(n) == n % 0x1_0000
  {
    if n >= 0x1_0000 { Low16Is(n - 0x1_0000); }
  }

  /** What a node keeps of a line: its characters and a NUL are counted in an unsigned short. */
  function Kept(line: string): (r: string)
    ensures |line| < 0xffff ==> r == line
    ensures r <= line && (|line| >= 0xffff ==> |r| == Low16(|line| + 1))
  {
    var size := Low16(|line| + 1);
    if size <= |line| then line[..size] else line
  }

  function Added(t: Text, line: string): Text { Text(t.lines + [line], |t.lines|) }

  function Inserted(t: Text, line: string): Text
    requires t.Placed()
  {
    if t.lines == [] then Text([line], 0)
    else Text(InsertAt(t.lines, t.at + 1, line), t.at + 1)
  }

  function Replaced(t: Text, line: string): Text
    requires t.Placed()
  {
    if t.lines == [] then t else t.(lines := t.lines[t.at := line])
  }

  /** The line at the cursor goes; the cursor moves to the next line or, at the end, the one before. */
  function Removed(t: Text): (r: Text)
    requires t.Placed()
    ensures r.Placed()
  {
    if t.lines == [] then t
    else Text(RemoveAt(t.lines, t.at), PlaceAfter(t.at, |t.lines|))
  }

  function Current(t: Text): Option<string>
    requires t.Placed()
  {
    if t.lines == [] then None else Some(t.lines[t.at])
  }

  /** Removing a line just inserted gives back the lines; the cursor has moved on to the line
      after, unless there is none. */
  lemma RemoveUndoesInsert(t: Text, line: string)
    requires t.Placed()
    ensures var r := Removed(Inserted(t, line));
            r.lines == t.lines && (t.lines != [] ==> r.at == if t.at + 1 < |t.lines| then t.at + 1 else t.at)
  {
    if t.lines != [] {
      assert t.lines == t.lines[..t.at + 1] + t.lines[t.at + 1..];
      var u := Inserted(t, line);
      assert u.lines[..u.at] == t.lines[..t.at + 1] && u.lines[u.at + 1..] == t.lines[t.at + 1..];
    }
  }

  /** Inserting puts the line after the cursor's and nowhere else; removing takes out the cursor's
      line and no other. */
  lemma OthersStay(t: Text, line: string)
    requires t.Placed() && t.lines != []
    ensures var r := Inserted(t, line);
            r.at == t.at + 1 && r.lines[..t.at + 1] == t.lines[..t.at + 1] && r.lines[r.at..] == [line] + t.lines[t.at + 1..]
    ensures var r := Removed(t); r.lines[..t.at] == t.lines[..t.at] && r.lines[t.at..] == t.lines[t.at + 1..]
  {
    assert (t.lines[..t.at + 1] + [line] + t.lines[t.at + 1..])[t.at + 1..] == [line] + t.lines[t.at + 1..];
  }

  /** Adding a line is inserting it after the last one. */
  lemma AddInsertsLast(t: Text, line: string)
    requires t.lines != []
    ensures Added(t, line) == Inserted(t.(at := |t.lines| - 1), line)
  {
    assert t.lines[..|t.lines|] == t.lines;
  }

  /** Replacing a line is inserting another after it and removing the old one, up to the cursor. */
  lemma ReplaceIsInsertRemove(t: Text, line: string)
    requires t.Placed() && t.lines != []
    ensures Replaced(t, line).lines == Removed(Inserted(t, line).(at := t.at)).lines
    ensures Replaced(t, line).at == Removed(Inserted(t, line).(at := t.at)).at
  {
    var u := Inserted(t, line);
    assert u.lines[..t.at] == t.lines[..t.at] && u.lines[t.at + 1..] == [line] + t.lines[t.at + 1..];
  }

  function RemovedTimes(t: Text, n: nat): (r: Text)
    requires t.Placed()
    ensures r.Placed()
    decreases n
  {
    if n == 0 then t else RemovedTimes(Removed(t), n - 1)
  }

  /** As many removals as there are lines empty the list, from any cursor. */
  lemma {:induction false} RemovalsEmpty(t: Text)
    requires t.Placed()
    ensures RemovedTimes(t, |t.lines|).lines == []
    decreases |t.lines|
  {
    if t.lines != [] {
      RemovalsEmpty(Removed(t));
    }
  }

  /** LDATA */
  class Node {
    const value: string
    var previous: Node?
    var next: Node?

    constructor (value: string)
      ensures this.value == value && previous == null && next == null
    {
      this.value, previous, next := value, null, null;
    }
  }

  ghost predicate Distinct(nodes: seq<Node>) { forall i, j :: 0 <= i < j < |nodes| ==> nodes[i] != nodes[j] }

  ghost predicate Joined(a: Node, b: Node)
    reads a, b
  {
    a.next == b && b.previous == a
  }

  /** No node occurs twice, each one's links are its neighbours, and the ends have none. */
  ghost predicate Linked(nodes: seq<Node>)
    reads nodes
  {
    && Distinct(nodes)
    && (forall i, j {:trigger nodes[i], nodes[j]} :: 0 <= i && j == i + 1 && j < |nodes| ==> Joined(nodes[i], nodes[j]))
    && (nodes != [] ==> nodes[0].previous == null && nodes[|nodes| - 1].next == null)
  }

  /** What the links of node k are. */
  lemma LinksAt(nodes: seq<Node>, k: nat)
    requires Linked(nodes) && k < |nodes|
    ensures nodes[k].previous == if k > 0 then nodes[k - 1] else null
    ensures nodes[k].next == if k < |nodes| - 1 then nodes[k + 1] else null
  {
    if k > 0 { assert Joined(nodes[k - 1], nodes[k]); }
    if k < |nodes| - 1 { assert Joined(nodes[k], nodes[k + 1]); }
  }

  lemma InsertLinked(nodes: seq<Node>, k: nat, node: Node)
    requires k <= |nodes| && Distinct(nodes) && node !in nodes
    requires forall i, j {:trigger nodes[i], nodes[j]} :: 0 <= i && j == i + 1 && j < |nodes| && j != k ==> Joined(nodes[i], nodes[j])
    requires if k == 0 then node.previous == null else Joined(nodes[k - 1], node) && nodes[0].previous == null
    requires if k == |nodes| then node.next == null else Joined(node, nodes[k]) && nodes[|nodes| - 1].next == null
    ensures Linked(InsertAt(nodes, k, node))
  {
    var all := InsertAt(nodes, k, node);
    forall i, j | 0 <= i && j == i + 1 && j < |all|
      ensures Joined(all[i], all[j])
    {
      if j < k { assert Joined(nodes[i], nodes[j]); }
      if i > k { assert Joined(nodes[i - 1], nodes[j - 1]); }
    }
  }

  lemma RemoveLinked(nodes: seq<Node>, k: nat)
    requires k < |nodes| && Distinct(nodes)
    requires forall i, j {:trigger nodes[i], nodes[j]} ::
               0 <= i && j == i + 1 && j < |nodes| && i != k && j != k ==> Joined(nodes[i], nodes[j])
    requires 0 < k < |nodes| - 1 ==> Joined(nodes[k - 1], nodes[k + 1])
    requires if k > 0 then nodes[0].previous == null else |nodes| > 1 ==> nodes[1].previous == null
    requires if k < |nodes| - 1 then nodes[|nodes| - 1].next == null else k > 0 ==> nodes[k - 1].next == null
    ensures Linked(RemoveAt(nodes, k))
  {
    var all := RemoveAt(nodes, k);
    forall i, j | 0 <= i && j == i + 1 && j < |all|
      ensures Joined(all[i], all[j])
    {
      if j < k { assert Joined(nodes[i], nodes[j]); }
      if i >= k { assert Joined(nodes[i + 1], nodes[j + 1]); }
    }
  }

  /** The lines that nodes hold. */
  ghost predicate Hold(nodes: seq<Node>, lines: seq<string>)
  {
    |nodes| == |lines| && forall i :: 0 <= i < |nodes| ==> nodes[i].value == lines[i]
  }

  lemma HoldInsert(nodes: seq<Node>, lines: seq<string>, k: nat, node: Node)
    requires k <= |nodes| && Hold(nodes, lines)
    ensures Hold(InsertAt(nodes, k, node), InsertAt(lines, k, node.value))
  {
  }

  lemma HoldRemove(nodes: seq<Node>, lines: seq<string>, k: nat)
    requires k < |nodes| && Hold(nodes, lines)
    ensures Hold(RemoveAt(nodes, k), RemoveAt(lines, k))
  {
  }

  ghost predicate Within(nodes: seq<Node>, all: set<Node>) { forall i :: 0 <= i < |nodes| ==> nodes[i] in all }

  /** Links a new node in after node k. */
  method Splice(here: Node, node: Node, ghost was: seq<Node>, ghost k: nat, ghost lines: seq<string>, ghost all: set<Node>)
    returns (ghost now: seq<Node>)
    requires Linked(was) && Hold(was, lines) && Within(was, all) && k < |was| && here == was[k] && node !in was
    modifies node`previous, node`next, was`previous, was`next
    ensures Linked(now) && Hold(now, InsertAt(lines, k + 1, node.value)) && now[k + 1] == node && Within(now, all + {node})
  {
    now := InsertAt(was, k + 1, node);
    LinksAt(was, k);
    node.previous := here;
    node.next := here.next;
    if node.next != null {
      node.next.previous := node;
    }
    here.next := node;
    InsertLinked(was, k + 1, node);
    HoldInsert(was, lines, k + 1, node);
  }

  /** Where the cursor goes when line k of n is removed. */
  function PlaceAfter(k: nat, n: nat): nat { if k + 1 < n || k == 0 then k else k - 1 }

  /** Unlinks node k; near is the next node or, at the end, the one before. */
  method Unsplice(here: Node, ghost was: seq<Node>, ghost k: nat, ghost lines: seq<string>, ghost all: set<Node>)
    returns (near: Node?, ghost now: seq<Node>)
    requires Linked(was) && Hold(was, lines) && Within(was, all) && k < |was| && here == was[k]
    modifies was`previous, was`next
    ensures Linked(now) && Hold(now, RemoveAt(lines, k)) && Within(now, all)
    ensures if |now| == 0 then near == null else PlaceAfter(k, |lines|) < |now| && near == now[PlaceAfter(k, |lines|)]
  {
    now := RemoveAt(was, k);
    LinksAt(was, k);
    if here.previous != null {
      here.previous.next := here.next;
    }
    if here.next != null {
      here.next.previous := here.previous;
    }
    near := if here.next != null then here.next else here.previous;
    RemoveLinked(was, k);
    HoldRemove(was, lines, k);
  }

  /** Links a new node in in place of node k. */
  method Substitute(here: Node, node: Node, ghost was: seq<Node>, ghost k: nat, ghost lines: seq<string>, ghost all: set<Node>)
    returns (ghost now: seq<Node>)
    requires Linked(was) && Hold(was, lines) && Within(was, all) && k < |was| && here == was[k] && node !in was
    modifies node`previous, node`next, was`previous, was`next
    ensures Linked(now) && Hold(now, lines[k := node.value]) && Within(now, all + {node}) && now[k] == node
  {
    LinksAt(was, k);
    node.next := here.next;
    node.previous := here.previous;
    if node.next != null {
      node.next.previous := node;
    }
    if node.previous != null {
      node.previous.next := node;
    }
    now := was[k := node];
  }

  class LineList {
    var list: Node?
    var elements: nat
    var size: int   // Msg.Size
    ghost var nodes: seq<Node>
    ghost var repr: set<Node>
    ghost var lines: seq<string>
    ghost var at: nat

    /** The nodes are linked in order, hold the lines, and the cursor is at one of them. */
    ghost predicate Shape()
      reads `list, `nodes, `lines, `at, `repr, repr
    {
      && Within(nodes, repr) && Linked(nodes) && Hold(nodes, lines)
      && (if lines == [] then list == null else at < |nodes| && list == nodes[at])
    }

    ghost predicate Valid()
      reads this, repr
    {
      Shape() && elements == Low16(|lines|)
    }

    ghost function Contents(): (t: Text)
      reads this, repr
      requires Valid()
      ensures t.Placed()
    {
      Text(lines, at)
    }

    constructor ()
      ensures Valid() && Contents().lines == [] && repr == {} && size == 0
    {
      list, elements, size, nodes, lines, at, repr := null, 0, 0, [], [], 0, {};
    }

    /** Moves the cursor to the last node. */
    method ToEnd()
      requires Valid() && list != null
      modifies `list, `at
      ensures Valid() && nodes == old(nodes) && at == |nodes| - 1 && Contents() == old(Contents()).(at := |nodes| - 1)
    {
      LinksAt(nodes, at);
      while list.next != null
        invariant Valid() && list != null && nodes == old(nodes) && nodes != []
        invariant list.next == null <==> at == |nodes| - 1
        decreases |nodes| - at
      {
        LinksAt(nodes, at);
        list := list.next;
        at := at + 1;
        LinksAt(nodes, at);
      }
    }

    /** Makes a new node the only one. */
    method LinkFirst(node: Node)
      requires Shape() && list == null && node.previous == null && node.next == null
      modifies `list, `nodes, `lines, `at, `repr
      ensures Shape() && Text(lines, at) == Inserted(old(Text(lines, at)), node.value) && repr == old(repr) + {node}
    {
      nodes, lines, at, repr := [node], [node.value], 0, repr + {node};
      list := node;
    }

    /** Links a new node in after the cursor's. */
    method LinkNext(node: Node)
      requires Shape() && list != null && node !in repr
      modifies `list, `nodes, `lines, `at, `repr, repr`previous, repr`next, node`previous, node`next
      ensures Shape() && Text(lines, at) == Inserted(old(Text(lines, at)), node.value) && repr == old(repr) + {node}
    {
      ghost var now := Splice(list, node, nodes, at, lines, repr);
      list, nodes, lines, at, repr := node, now, InsertAt(lines, at + 1, node.value), at + 1, repr + {node};
    }

    /** Links a new node in after the cursor and makes it the cursor. */
    method LinkAfter(line: string)
      requires Valid()
      modifies this, repr
      ensures Valid() && Contents() == Inserted(old(Contents()), Kept(line)) && size == old(size)
      ensures fresh(repr - old(repr))
    {
      var node := new Node(Kept(line));
      Low16Next(|lines|);
      if list == null {
        LinkFirst(node);
      } else {
        LinkNext(node);
      }
      elements := if elements == 0xffff then 0 else elements + 1;
    }

    /** MsgText_Add: a new last line, wherever the cursor is; its size is added to the message's. */
    method Add(line: string)
      requires Valid()
      modifies this, repr
      ensures Valid() && Contents() == Added(old(Contents()), Kept(line)) && size == old(size) + Low16(|line| + 1)
      ensures fresh(repr - old(repr))
    {
      if list != null {
        ToEnd();
      }
      LinkAfter(line);
      size := size + Low16(|line| + 1);
    }

    /** MsgText_Insert: a new line after the cursor. */
    method Insert(line: string)
      requires Valid()
      modifies this, repr
      ensures Valid() && Contents() == Inserted(old(Contents()), Kept(line)) && size == old(size)
      ensures fresh(repr - old(repr))
    {
      LinkAfter(line);
    }

    /** Links a new node in in place of the cursor's. */
    method LinkInPlace(node: Node)
      requires Shape() && list != null && node !in repr
      modifies `list, `nodes, `lines, `repr, repr, node
      ensures Shape() && Text(lines, at) == Replaced(old(Text(lines, at)), node.value) && repr == old(repr) + {node}
    {
      nodes := Substitute(list, node, nodes, at, lines, repr);
      repr := repr + {node};
      lines := lines[at := node.value];
      list := node;
    }

    /** MsgText_Replace: a new node in the place of the cursor's, between the same neighbours. */
    method Replace(line: string) returns (done: bool)
      requires Valid()
      modifies this, repr
      ensures Valid() && Contents() == Replaced(old(Contents()), Kept(line)) && size == old(size)
      ensures done <==> old(Contents()).lines != []
      ensures fresh(repr - old(repr))
    {
      done := list != null;
      if done {
        var node := new Node(Kept(line));
        LinkInPlace(node);
      }
    }

    /** Unlinks the cursor's node and moves the cursor. */
    method Unlink()
      requires Shape() && list != null
      modifies `list, `nodes, `lines, `at, repr
      ensures Shape() && Text(lines, at) == Removed(old(Text(lines, at)))
    {
      ghost var now;
      list, now := Unsplice(list, nodes, at, lines, repr);
      nodes, at, lines := now, PlaceAfter(at, |lines|), RemoveAt(lines, at);
    }

    /** MsgText_Remove */
    method Remove()
      requires Valid()
      modifies this, repr
      ensures Valid() && Contents() == Removed(old(Contents())) && repr == old(repr) && size == old(size)
    {
      if list != null {
        Low16Next(|lines| - 1);
        Unlink();
        elements := if elements == 0 then 0xffff else elements - 1;
      }
    }

    /** MsgText_Clear: from any cursor, leaves no line. */
    method Clear()
      requires Valid()
      modifies this, repr
      ensures Valid() && Contents().lines == [] && list == null && elements == 0 && size == old(size)
    {
      while list != null
        invariant Valid() && repr == old(repr) && size == old(size)
        decreases |lines|
      {
        Remove();
      }
      elements := 0;
    }

    /** MsgText_First */
    method First() returns (value: Option<string>)
      requires Valid()
      modifies `list, `at
      ensures Valid() && nodes == old(nodes)
      ensures nodes != [] ==> at == 0 && Contents() == old(Contents()).(at := 0)
      ensures nodes == [] ==> Contents() == old(Contents())
      ensures value == Current(Contents())
    {
      value := None;
      if list != null {
        LinksAt(nodes, at);
        while list.previous != null
          invariant Valid() && list != null && nodes == old(nodes) && nodes != []
          invariant list.previous == null <==> at == 0
          decreases at
        {
          LinksAt(nodes, at);
          list := list.previous;
          at := at - 1;
          LinksAt(nodes, at);
        }
        value := Some(list.value);
      }
    }

    /** MsgText_Last */
    method Last() returns (value: Option<string>)
      requires Valid()
      modifies `list, `at
      ensures Valid() && nodes == old(nodes)
      ensures nodes != [] ==> at == |nodes| - 1 && Contents() == old(Contents()).(at := |nodes| - 1)
      ensures nodes == [] ==> Contents() == old(Contents())
      ensures value == Current(Contents())
    {
      value := None;
      if list != null {
        ToEnd();
        value := Some(list.value);
      }
    }

    /** MsgText_Next: at the last line the cursor stays and there is no value. */
    method Next() returns (value: Option<string>)
      requires Valid()
      modifies `list, `at
      ensures Valid() && nodes == old(nodes)
      ensures var t := old(Contents());
              if t.at + 1 < |t.lines| then value == Some(t.lines[t.at + 1]) && Contents() == t.(at := t.at + 1)
              else value == None && Contents() == t
    {
      value := None;
      if list != null {
        LinksAt(nodes, at);
        if list.next != null {
          list := list.next;
          at := at + 1;
          value := Some(list.value);
        }
      }
    }

    /** MsgText_Previous: at the first line the cursor stays and there is no value. */
    method Previous() returns (value: Option<string>)
      requires Valid()
      modifies `list, `at
      ensures Valid() && nodes == old(nodes)
      ensures var t := old(Contents());
              if t.lines != [] && t.at > 0 then value == Some(t.lines[t.at - 1]) && Contents() == t.(at := t.at - 1)
              else value == None && Contents() == t
    {
      value := None;
      if list != null {
        LinksAt(nodes, at);
        if list.previous != null {
          list := list.previous;
          at := at - 1;
          value := Some(list.value);
        }
      }
    }

    /** MsgText_Value */
    method Value() returns (value: Option<string>)
      requires Valid()
      ensures value == Current(Contents())
    {
      value := if list == null then None else Some(list.value);
    }

    /** First and then Next until it gives nothing: every line, once and in order. */
    method ReadAll() returns (lines: seq<string>)
      requires Valid()
      modifies `list, `at
      ensures Valid() && nodes == old(nodes) && lines == old(Contents()).lines && Contents().lines == lines
    {
      lines := [];
      ghost var all := Contents().lines;
      var value := First();
      while value.Some?
        invariant Valid() && nodes == old(nodes) && Contents().lines == all
        invariant value.Some? ==> |lines| == at < |all| && value == Some(all[at]) && lines == all[..at]
        invariant value.None? ==> lines == all
        decreases |all| - |lines|
      {
        lines := lines + [value.value];
        assert lines == all[..at + 1];
        value := Next();
      }
    }
  }
}
