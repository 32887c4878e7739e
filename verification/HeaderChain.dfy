/** The chain of buffers that records the header lines of a request (http.c). */
module HeaderChain {
  import opened Bytes
  import opened Sums
  import opened QapEncode

  const NEWLINE: byte := 10

  /** "Request-Method: " */
  const METHOD_KEY: seq<byte> :=
    [0x52, 0x65, 0x71, 0x75, 0x65, 0x73, 0x74, 0x2d, 0x4d, 0x65, 0x74, 0x68, 0x6f, 0x64, 0x3a, 0x20]

  lemma MethodKeyText()
    ensures |METHOD_KEY| == 16 && forall i :: 0 <= i < 16 ==> METHOD_KEY[i] as char == "Request-Method: "[i]
  {
  }

  /** One buffer; its size is the length of data. */
  class Buffer {
    var prev: Buffer?
    var next: Buffer?
    var length: nat
    const data: array<byte>

    constructor (size: nat, parent: Buffer?)
      ensures prev == parent && next == null && length == 0 && fresh(data) && data.Length == size
    {
      prev, next, length := parent, null, 0;
      data := new byte[size](_ => 0);
    }
  }

  /** The buffer holds exactly this. */
  ghost predicate Holds(n: Buffer, part: seq<byte>)
    reads n`length, n.data
  {
    n.length == |part| && |part| <= n.data.Length && n.data[..|part|] == part
  }

  ghost predicate AllHold(nodes: seq<Buffer>, parts: seq<seq<byte>>)
    reads nodes`length, (set n | n in nodes :: n.data)
  {
    |parts| == |nodes| && forall i :: 0 <= i < |nodes| ==> Holds(nodes[i], parts[i])
  }

  ghost predicate AllDifferent(nodes: seq<Buffer>)
  {
    forall i, j :: 0 <= i < j < |nodes| ==> nodes[i] != nodes[j] && nodes[i].data != nodes[j].data
  }

  /** Node i points at its neighbours; last is what follows the chain. */
  ghost predicate LinkedAt(nodes: seq<Buffer>, i: nat, last: Buffer?)
    requires i < |nodes|
    reads nodes`prev, nodes`next
  {
    && nodes[i].prev == (if i == 0 then null else nodes[i - 1])
    && nodes[i].next == (if i + 1 == |nodes| then last else nodes[i + 1])
  }

  ghost predicate Linked(nodes: seq<Buffer>, last: Buffer?)
    reads nodes`prev, nodes`next
  {
    forall i :: 0 <= i < |nodes| ==> LinkedAt(nodes, i, last)
  }

  function Last(nodes: seq<Buffer>): Buffer?
  {
    if nodes == [] then null else nodes[|nodes| - 1]
  }

  /** A new buffer linked behind the last one continues the chain. */
  lemma LinkedMore(nodes: seq<Buffer>, b: Buffer)
    requires Linked(nodes, b) && b.prev == Last(nodes) && b.next == null
    ensures Linked(nodes + [b], null)
  {
    var all := nodes + [b];
    forall i | 0 <= i < |all|
      ensures LinkedAt(all, i, null)
    {
      if i < |nodes| {
        assert LinkedAt(nodes, i, b) && all[i] == nodes[i];
      }
    }
  }

  lemma HoldMore(nodes: seq<Buffer>, parts: seq<seq<byte>>, b: Buffer)
    requires AllHold(nodes, parts) && b.length == 0
    ensures AllHold(nodes + [b], parts + [[]])
  {
    assert Holds(b, []);
    hide Holds;
  }

  lemma DifferentMore(nodes: seq<Buffer>, b: Buffer)
    requires AllDifferent(nodes) && forall i :: 0 <= i < |nodes| ==> nodes[i] != b && nodes[i].data != b.data
    ensures AllDifferent(nodes + [b])
  {
  }

  /** alloc_buffer: a new buffer behind parent, the last node of a chain. */
  method AllocBuffer(size: nat, parent: Buffer?, ghost nodes: seq<Buffer>, ghost parts: seq<seq<byte>>)
    returns (b: Buffer)
    requires parent == Last(nodes) && AllDifferent(nodes) && Linked(nodes, null) && AllHold(nodes, parts)
    modifies nodes`next
    ensures fresh(b) && fresh(b.data) && b.prev == parent && b.next == null && b.length == 0 && b.data.Length == size
    ensures Linked(nodes, b) && AllHold(nodes, parts)
  {
    hide AllHold;
    ghost var k := |nodes|;
    assert forall i :: 0 <= i < k - 1 ==> nodes[i] != nodes[k - 1];
    hide AllDifferent;
    b := new Buffer(size, parent);
    if parent != null {
      parent.next := b;
    }
    forall i | 0 <= i < k
      ensures LinkedAt(nodes, i, b)
    {
      assert old(LinkedAt(nodes, i, null));
    }
  }

  class Connection {
    /** The last buffer. */
    var headers: Buffer?
    /** All buffers from the first, and what each of them holds. */
    ghost var nodes: seq<Buffer>
    ghost var parts: seq<seq<byte>>

    ghost predicate Valid()
      reads this, nodes, (set n | n in nodes :: n.data)
    {
      headers == Last(nodes) && AllDifferent(nodes) && Linked(nodes, null) && AllHold(nodes, parts)
    }

    /** Everything recorded so far. */
    ghost function Text(): seq<byte>
      reads this`parts
    {
      Concat(parts)
    }

    constructor ()
      ensures Valid() && nodes == [] && Text() == []
    {
      headers := null;
      nodes, parts := [], [];
    }

    /** Continues in another buffer. */
    method Grow(size: nat)
      requires Valid()
      modifies this, nodes`next
      ensures Valid() && Text() == old(Text())
      ensures headers != null && headers.length == 0 && headers.data.Length == size
      ensures fresh(headers) && fresh(headers.data) && nodes == old(nodes) + [headers]
    {
      hide Linked, AllHold, Concat, AllDifferent;
      var b := AllocBuffer(size, headers, nodes, parts);
      LinkedMore(nodes, b);
      HoldMore(nodes, parts, b);
      DifferentMore(nodes, b);
      ConcatOne(parts, []);
      headers := b;
      nodes, parts := nodes + [b], parts + [[]];
      assert Concat(parts) == old(Text()) + [] == old(Text());
    }

    /** Copies s behind what the last buffer holds. */
    method Append(s: seq<byte>)
      requires Valid() && headers != null && headers.length + |s| <= headers.data.Length
      modifies headers`length, headers.data, this`parts
      ensures Valid() && headers.length == old(headers.length) + |s|
      ensures Text() == old(Text()) + s
    {
      hide Concat, Linked;
      ghost var last := |nodes| - 1;
      Extend(headers, s, parts[last]);
      Replaced(parts, s);
      ghost var held := parts;
      parts := parts[last := parts[last] + s];
      forall i | 0 <= i < |nodes|
        ensures Holds(nodes[i], parts[i])
      {
        assert i < last ==> old(Holds(nodes[i], held[i]));
      }
    }

    /** How large the next buffer has to be: 2048, doubled until there is room. */
    method Needs(rest: nat) returns (needs: nat)
      ensures needs > rest && needs >= 2048
    {
      needs := 2048;
      while rest >= needs
        invariant needs >= 2048
        decreases rest - needs
      {
        needs := 2 * needs;
      }
    }

    /** Records one header line, starting in the last buffer and continuing in a new one if there
        is not enough space. The flags say which allocations succeed: without the first buffer
        nothing is recorded, without the second only what fits. */
    method Record(line: seq<byte>, first: bool, second: bool)
      requires Valid()
      modifies this, nodes, (set n | n in nodes :: n.data)
      ensures Valid() && forall n :: n in nodes ==> n in old(nodes) || (fresh(n) && fresh(n.data))
      ensures first && second ==> Text() == old(Text()) + if line == [] then [] else line + [10]
      ensures old(Text()) <= Text() <= old(Text()) + line + [10]
    {
      hide Linked, AllHold, Concat, AllDifferent;
      if headers == null && first {
        Grow(1024);
      }
      if headers != null && |line| > 0 {
        RecordLine(line, second);
      }
    }

    method RecordLine(line: seq<byte>, second: bool)
      requires Valid() && headers != null
      modifies this, nodes, (set n | n in nodes :: n.data)
      ensures Valid() && forall n :: n in nodes ==> n in old(nodes) || (fresh(n) && fresh(n.data))
      ensures second ==> Text() == old(Text()) + (line + [NEWLINE])
      ensures old(Text()) <= Text() <= old(Text()) + (line + [NEWLINE])
    {
      hide Linked, AllHold, Concat, AllDifferent;
      assert headers in nodes;
      var l := |line|;
      if headers.length + l + 1 > headers.data.Length {
        SplitLine(line, second);
      } else {
        Append(line);
        Append([NEWLINE]);
        assert Text() == old(Text()) + (line + [NEWLINE]);
      }
    }

    /** What does not fit goes into a new buffer. */
    method SplitLine(line: seq<byte>, second: bool)
      requires Valid() && headers != null && headers.length + |line| + 1 > headers.data.Length
      modifies this, nodes, (set n | n in nodes :: n.data)
      ensures Valid() && forall n :: n in nodes ==> n in old(nodes) || (fresh(n) && fresh(n.data))
      ensures second ==> Text() == old(Text()) + (line + [NEWLINE])
      ensures old(Text()) <= Text() <= old(Text()) + (line + [NEWLINE])
    {
      hide Linked, Concat, AllDifferent;
      assert headers in nodes && Holds(headers, parts[|nodes| - 1]);
      hide AllHold, Holds;
      var fits := headers.data.Length - headers.length;
      if fits > 0 {
        Append(line[..fits]);
      }
      ghost var half := Text();
      assert half == old(Text()) + line[..fits];
      assert line + [NEWLINE] == line[..fits] + (line[fits..] + [NEWLINE]);
      var needs := Needs(|line| + 1 - fits);
      if second {
        Continue(line[fits..], needs);
        Associates(old(Text()) + line[..fits], line[fits..], [NEWLINE]);
        Associates(old(Text()), line[..fits], line[fits..] + [NEWLINE]);
      }
    }

    /** The rest of the line and the newline, in a buffer of their own. */
    method Continue(rest: seq<byte>, needs: nat)
      requires Valid() && |rest| + 1 <= needs
      modifies this, nodes`next
      ensures Valid() && Text() == old(Text()) + rest + [NEWLINE]
      ensures nodes == old(nodes) + [headers] && headers != null && fresh(headers) && fresh(headers.data)
    {
      hide Linked, Concat, AllDifferent, AllHold;
      Grow(needs);
      Append(rest);
      Append([NEWLINE]);
    }

    /** The room in the last buffer, or in the one that would be allocated. */
    function MethodRoom(): int
      reads this, headers
    {
      if headers == null then 1024 else headers.data.Length - headers.length
    }

    /** Notes the request method in the first buffer, if there is room for a little more. The
        result of the allocation is not checked: without memory a null pointer is followed. */
    method RecordMethod(name: seq<byte>, first: bool) returns (crashed: bool)
      requires Valid()
      modifies this, nodes, (set n | n in nodes :: n.data)
      ensures Valid() && forall n :: n in nodes ==> n in old(nodes) || (fresh(n) && fresh(n.data))
      ensures crashed <==> old(headers) == null && !first
      ensures Text() == if !crashed && old(MethodRoom()) >= 18 + |name|
                        then old(Text()) + METHOD_KEY + name + [NEWLINE] else old(Text())
    {
      hide Linked, AllHold, Concat, AllDifferent;
      crashed := false;
      if headers == null {
        if !first {
          return true;
        }
        Grow(1024);
      }
      assert headers in nodes;
      HoldsAtMost();
      if headers.data.Length - headers.length >= 18 + |name| {
        Append(METHOD_KEY);
        Append(name);
        Append([NEWLINE]);
      }
    }

    lemma HoldsAtMost()
      requires Valid() && headers != null
      ensures headers.length <= headers.data.Length
    {
      hide Linked, AllDifferent;
      assert Holds(nodes[|nodes| - 1], parts[|nodes| - 1]);
    }

    /** collect_buffers: walks back to the first buffer, counting, and copies forward from there. */
    method Collect() returns (res: array<byte>)
      requires Valid()
      ensures fresh(res) && res[..] == Text()
    {
      hide Concat, AllDifferent, Linked, AllHold, LinkedAt, Holds;
      var len := 0;
      var root := headers;
      ghost var i := |nodes| - 1;
      if headers == null {
        res := new byte[0];
        NothingHeld();
        return;
      }
      assert parts[..|nodes|] == parts by { SameNumber(); }
      SameNumber();
      Step(i);
      while root.prev != null
        invariant 0 <= i < |nodes| && root == nodes[i] && (root.prev == null <==> i == 0)
        invariant len + |Concat(parts[..i + 1])| == |Concat(parts)|
        decreases i
      {
        Step(i);
        len := len + root.length;
        root := root.prev;
        i := i - 1;
        Step(i);
      }
      Step(0);
      res := new byte[len + root.length](_ => 0);
      CopyForward(root, res);
    }

    /** The forward pass. */
    method CopyForward(root: Buffer, res: array<byte>)
      requires Valid() && nodes != [] && root == nodes[0] && res.Length == |Text()|
      requires forall n :: n in nodes ==> n.data != res
      modifies res
      ensures res[..] == Text()
    {
      hide Concat, AllDifferent, Linked, AllHold, LinkedAt;
      SameNumber();
      assert parts[..|nodes|] == parts;
      ghost var text := Text();
      var buf: Buffer? := root;
      var dst := 0;
      ghost var i := 0;
      Step(0);
      while buf != null
        invariant 0 <= i <= |nodes| && buf == (if i == |nodes| then null else nodes[i])
        invariant Valid() && Text() == text
        invariant dst == |Concat(parts[..i])| <= res.Length && res[..dst] == Concat(parts[..i])
        decreases |nodes| - i
      {
        Step(i);
        Within(i + 1);
        assert buf in nodes;
        CopyBytes(res, dst, buf.data[..buf.length]);
        assert res[..dst + buf.length] == res[..dst] + res[dst..dst + buf.length];
        dst := dst + buf.length;
        buf := buf.next;
        i := i + 1;
      }
    }

    lemma {:induction false} Within(i: nat)
      requires i <= |parts|
      ensures |Concat(parts[..i])| <= |Concat(parts)|
      decreases |parts| - i
    {
      hide Concat;
      if i == |parts| {
        assert parts[..i] == parts;
      } else {
        Within(i + 1);
        assert parts[..i + 1] == parts[..i] + [parts[i]];
        ConcatOne(parts[..i], parts[i]);
      }
    }

    lemma NothingHeld()
      requires Valid() && headers == null
      ensures Text() == []
    {
    }

    lemma SameNumber()
      requires Valid()
      ensures |parts| == |nodes|
    {
      hide Linked, AllDifferent;
    }

    /** Node i: its neighbours and what it adds to the text. */
    lemma Step(i: nat)
      requires Valid() && i < |nodes|
      ensures |parts| == |nodes|
      ensures nodes[i].prev == (if i == 0 then null else nodes[i - 1])
      ensures nodes[i].next == (if i + 1 == |nodes| then null else nodes[i + 1])
      ensures Holds(nodes[i], parts[i]) && nodes[i].length == |parts[i]|
      ensures Concat(parts[..i + 1]) == Concat(parts[..i]) + parts[i]
      ensures Concat(parts[..0]) == []
    {
      hide AllDifferent;
      assert LinkedAt(nodes, i, null) && Holds(nodes[i], parts[i]);
      assert parts[..i + 1] == parts[..i] + [parts[i]];
      ConcatOne(parts[..i], parts[i]);
    }
  }

  /** The copy itself. */
  method Extend(n: Buffer, s: seq<byte>, ghost part: seq<byte>)
    requires Holds(n, part) && n.length + |s| <= n.data.Length
    modifies n`length, n.data
    ensures Holds(n, part + s)
  {
    var at, data := n.length, n.data;
    CopyBytes(data, at, s);
    n.length := at + |s|;
    assert data[..at] == part;
    assert data[..at + |s|] == data[..at] + data[at..at + |s|];
  }

  lemma Replaced(parts: seq<seq<byte>>, s: seq<byte>)
    requires parts != []
    ensures var k := |parts| - 1; Concat(parts[k := parts[k] + s]) == Concat(parts) + s
  {
    var k := |parts| - 1;
    assert parts[k := parts[k] + s][..k] == parts[..k];
  }

  /** Lines one behind the other, each followed by a newline. */
  function Lines(lines: seq<seq<byte>>): seq<byte>
  {
    if lines == [] then [] else Lines(lines[..|lines| - 1]) + lines[|lines| - 1] + [10]
  }

  /** Over a whole request: however the lines fall on the buffers, what is collected at the end is
      exactly the lines in order. */
  method RecordAndCollect(lines: seq<seq<byte>>) returns (res: array<byte>)
    requires forall i :: 0 <= i < |lines| ==> lines[i] != []
    ensures res[..] == Lines(lines)
  {
    var c := new Connection();
    for k := 0 to |lines|
      invariant c.Valid() && fresh(c) && forall n :: n in c.nodes ==> fresh(n) && fresh(n.data)
      invariant c.Text() == Lines(lines[..k])
    {
      assert lines[..k + 1][..k] == lines[..k];
      c.Record(lines[k], true, true);
      assert Lines(lines[..k + 1]) == Lines(lines[..k]) + (lines[k] + [NEWLINE]);
    }
    assert lines[..|lines|] == lines;
    res := c.Collect();
  }
}
