/** The bytes held by a managed directory, counted with a worklist instead of recursion.

    The tree does not change while it is walked. Sizes and sums are exact: where a sum of two doubles
    could round, it is already past the safe integers, and the walk stops there. */
module DirectoryBytes {
  import opened Numbers
  import opened Sequences
  import opened Wrappers

  datatype Node = File(size: nat) | Directory(size: nat, entries: seq<Node>)

  datatype SizeError = Unsafe

  /** The size of an entry with everything below it. */
  function Total(node: Node): nat {
    node.size + if node.File? then 0 else TotalOf(node.entries)
  }

  function TotalOf(nodes: seq<Node>): nat {
    if nodes == [] then 0 else Total(nodes[0]) + TotalOf(nodes[1..])
  }

  function Entries(nodes: seq<Node>): nat {
    if nodes == [] then 0
    else 1 + (if nodes[0].File? then 0 else Entries(nodes[0].entries)) + Entries(nodes[1..])
  }

  lemma {:induction false} TotalOfConcat(a: seq<Node>, b: seq<Node>)
    ensures TotalOf(a + b) == TotalOf(a) + TotalOf(b)
    ensures Entries(a + b) == Entries(a) + Entries(b)
  {
    if a == [] {
      assert a + b == b;
    } else {
      assert (a + b)[1..] == a[1..] + b;
      TotalOfConcat(a[1..], b);
    }
  }

  /** The same tree, but for the order in which its directories list their entries. */
  ghost predicate SameTree(a: Node, b: Node) {
    if a.File? then a == b
    else b.Directory? && a.size == b.size && SameEntries(a.entries, b.entries)
  }

  /** The entries can be matched one to one, each with the same tree. */
  ghost predicate SameEntries(a: seq<Node>, b: seq<Node>) {
    if a == [] then b == []
    else exists i :: 0 <= i < |b| && SameTree(a[0], b[i]) && SameEntries(a[1..], b[..i] + b[i + 1..])
  }

  lemma TotalOfOne(node: Node)
    ensures TotalOf([node]) == Total(node)
  {
  }

  lemma TotalOfWithout(nodes: seq<Node>, i: nat)
    requires i < |nodes|
    ensures TotalOf(nodes) == Total(nodes[i]) + TotalOf(nodes[..i] + nodes[i + 1..])
  {
    hide Total, TotalOf;
    assert nodes == nodes[..i] + ([nodes[i]] + nodes[i + 1..]);
    TotalOfOne(nodes[i]);
    TotalOfConcat([nodes[i]], nodes[i + 1..]);
    TotalOfConcat(nodes[..i], [nodes[i]] + nodes[i + 1..]);
    TotalOfConcat(nodes[..i], nodes[i + 1..]);
  }

  /** A file and an empty directory have their own size, and an entry adds its total to its directory's. */
  lemma TotalExactly(size: nat, before: seq<Node>, entry: Node, after: seq<Node>)
    ensures Total(File(size)) == size && Total(Directory(size, [])) == size
    ensures Total(Directory(size, before + [entry] + after)) == Total(Directory(size, before + after)) + Total(entry)
  {
    hide TotalOf;
    TotalOfOne(entry);
    TotalOfConcat(before + [entry], after);
    TotalOfConcat(before, [entry]);
    TotalOfConcat(before, after);
    TotalOfNone();
  }

  lemma TotalOfNone()
    ensures TotalOf([]) == 0
  {
  }

  /** The order in which directories list their entries makes no difference, at any depth. */
  lemma {:induction false} OrderIsIrrelevant(a: Node, b: Node)
    requires SameTree(a, b)
    ensures Total(a) == Total(b)
  {
    if a.Directory? {
      EntryOrderIsIrrelevant(a.entries, b.entries);
    }
  }

  lemma {:induction false} EntryOrderIsIrrelevant(a: seq<Node>, b: seq<Node>)
    requires SameEntries(a, b)
    ensures TotalOf(a) == TotalOf(b)
  {
    if a != [] {
      var i :| 0 <= i < |b| && SameTree(a[0], b[i]) && SameEntries(a[1..], b[..i] + b[i + 1..]);
      OrderIsIrrelevant(a[0], b[i]);
      EntryOrderIsIrrelevant(a[1..], b[..i] + b[i + 1..]);
      TotalOfWithout(b, i);
    }
  }

  lemma {:induction false} SameAsItself(nodes: seq<Node>)
    ensures SameEntries(nodes, nodes)
    decreases nodes, 1
  {
    if nodes != [] {
      SameTreeAsItself(nodes[0]);
      SameAsItself(nodes[1..]);
      assert nodes[..0] + nodes[1..] == nodes[1..];
    }
  }

  lemma {:induction false} SameTreeAsItself(node: Node)
    ensures SameTree(node, node)
    decreases node, 0
  {
    if node.Directory? {
      SameAsItself(node.entries);
    }
  }

  /** In particular any rearrangement of the entries of a directory is the same tree. */
  lemma {:induction false} RearrangedIsSame(a: seq<Node>, b: seq<Node>)
    requires multiset(a) == multiset(b)
    ensures SameEntries(a, b)
  {
    hide SameTree;
    if a == [] {
      assert |b| == |multiset(b)|;
    } else {
      assert a[0] in multiset(b);
      var i :| 0 <= i < |b| && b[i] == a[0];
      RestRearranged(a, b, i);
      SameTreeAsItself(a[0]);
      RearrangedIsSame(a[1..], b[..i] + b[i + 1..]);
    }
  }

  /** Gives the whole size, or fails, exactly when it is past the safe integers. */
  method CountBytes(root: Node) returns (result: Result<nat, SizeError>)
    ensures result == if Total(root) <= MAX_SAFE_INTEGER then Ok(Total(root)) else Err(Unsafe)
  {
    var pending := [root];
    var bytes := 0;
    while pending != []
      invariant bytes <= MAX_SAFE_INTEGER
      invariant bytes + TotalOf(pending) == Total(root)
      decreases Entries(pending)
    {
      var last := |pending| - 1;
      var current := pending[last];
      assert pending == pending[..last] + [current];
      TotalOfConcat(pending[..last], [current]);
      pending := pending[..last];
      bytes := bytes + current.size;
      if bytes > MAX_SAFE_INTEGER {
        return Err(Unsafe);
      }
      if current.Directory? {
        TotalOfConcat(pending, current.entries);
        pending := pending + current.entries;
      }
    }
    return Ok(bytes);
  }
}
