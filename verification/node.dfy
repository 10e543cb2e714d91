/**
 The generic tree vertex. A node owns one value slot, a creation index drawn
 from a counter shared by every insertion, and two owned child links,
 "greater" and "less". The value's own behaviour (build, load, save,
 destroy, compare, print) is supplied by the caller as function parameters,
 standing in for the table of function pointers every node carries.

 `Nil` plays the NULL node pointer; a `None` slot plays a NULL value pointer.
 */
module Node {
  import opened Wrappers
  import opened CText

  datatype Tree<V> = Nil | Node(value: Option<V>, index: int, greater: Tree<V>, less: Tree<V>)

  function Size<V>(t: Tree<V>): nat {
    match t
    case Nil => 0
    case Node(_, _, g, l) => 1 + Size(g) + Size(l)
  }

  /** Every node of `t` holds a value. */
  predicate Populated<V>(t: Tree<V>) {
    match t
    case Nil => true
    case Node(v, _, g, l) => v.Some? && Populated(g) && Populated(l)
  }

  /** The preorder layout of the value slots: a node, then its greater subtree, then its less subtree. */
  function Preorder<V>(t: Tree<V>): (p: seq<Option<V>>)
    ensures |p| == Size(t)
    ensures Populated(t) ==> forall i :: 0 <= i < |p| ==> p[i].Some?
  {
    match t
    case Nil => []
    case Node(v, _, g, l) => [v] + Preorder(g) + Preorder(l)
  }

  // ---------------------------------------------------------------------------
  // Creation
  // ---------------------------------------------------------------------------

  /**
   Where a new node's value comes from: the value the user typed in, or the
   records still unread in the backing stream (an empty sequence is a stream
   at end-of-file).
   */
  datatype Source<V, R> = FromUser(input: V) | FromStream(records: seq<R>)

  predicate AtEnd<V, R>(s: Source<V, R>) {
    s.FromStream? && s.records == []
  }

  /** What `newNode` leaves behind: the node (or `Nil`), the counter, and the source. */
  datatype Created<V, R> = Created(node: Tree<V>, counter: nat, source: Source<V, R>)

  /**
   Creates a node. At end-of-stream no node is made and the counter is left
   alone; otherwise the node takes the counter's value as its index, the
   counter moves on by one and both child links start empty. `load` is what
   the value type does with a record read back from the stream.
   */
  function NewNode<V, R>(counter: nat, source: Source<V, R>, load: R -> V): (r: Created<V, R>)
    ensures AtEnd(source) ==> r.node == Nil && r.counter == counter && r.source == source
    ensures !AtEnd(source) ==>
              && r.node.Node?
              && r.node.index == counter
              && r.counter == counter + 1
              && r.node.greater == Nil && r.node.less == Nil
    ensures source.FromUser? ==> r.node.value == Some(source.input) && r.source == source
    ensures source.FromStream? && !AtEnd(source) ==>
              && r.node.value == Some(load(source.records[0]))
              && r.source == FromStream(source.records[1..])
  {
    match source
    case FromUser(v) => Created(Node(Some(v), counter, Nil, Nil), counter + 1, source)
    case FromStream(rs) =>
      if rs == [] then Created(Nil, counter, source)
      else Created(Node(Some(load(rs[0])), counter, Nil, Nil), counter + 1, FromStream(rs[1..]))
  }

  /**
   `newNode` called on one stream until it yields no node, collecting the
   nodes it makes. The tree engine's reload loop (which also inserts each
   node) is not part of this model; this function only drives the lemmas
   about successive creations.
   */
  function Drain<V, R>(counter: nat, records: seq<R>, load: R -> V): (nodes: seq<Tree<V>>)
    decreases |records|
  {
    var c := NewNode(counter, FromStream(records), load);
    if c.node.Nil? then [] else [c.node] + Drain(c.counter, c.source.records, load)
  }

  /**
   Creating nodes from a stream of n records yields exactly n leaves, in
   stream order, with consecutive indices starting at the counter; the next
   attempt meets end-of-stream.
   */
  lemma {:induction false} DrainYieldsEveryRecord<V, R>(counter: nat, records: seq<R>, load: R -> V)
    ensures |Drain(counter, records, load)| == |records|
    ensures forall i :: 0 <= i < |records| ==>
              Drain(counter, records, load)[i] == Node(Some(load(records[i])), counter + i, Nil, Nil)
    decreases |records|
  {
    if records != [] {
      var c := NewNode(counter, FromStream(records), load);
      DrainYieldsEveryRecord(c.counter, records[1..], load);
    }
  }

  // ---------------------------------------------------------------------------
  // Destruction and persistence
  // ---------------------------------------------------------------------------

  /**
   The value slots `deleteNode` hands to the value's destroy operation, in
   call order. With `clear` it tears the subtree down in postorder (greater
   subtree, less subtree, then the node itself); without it only the node's
   own value is released and the children are not visited.
   */
  function Delete<V>(t: Tree<V>, clear: bool): (released: seq<Option<V>>)
    ensures t.Nil? ==> released == []
    ensures t.Node? && !clear ==> released == [t.value]
    ensures clear ==> |released| == Size(t)
    ensures t.Node? ==> released[|released| - 1] == t.value
    ensures t.Node? && clear ==>
              && released[..Size(t.greater)] == Delete(t.greater, true)
              && released[Size(t.greater)..Size(t) - 1] == Delete(t.less, true)
  {
    match t
    case Nil => []
    case Node(v, _, g, l) => (if clear then Delete(g, clear) + Delete(l, clear) else []) + [v]
  }

  /** A clearing delete releases every value slot of the subtree exactly once. */
  lemma {:induction false} DeleteReleasesEveryValue<V>(t: Tree<V>)
    ensures multiset(Delete(t, true)) == multiset(Preorder(t))
  {
    match t
    case Nil =>
    case Node(v, _, g, l) =>
      DeleteReleasesEveryValue(g);
      DeleteReleasesEveryValue(l);
      assert Delete(t, true) == Delete(g, true) + Delete(l, true) + [v];
      assert Preorder(t) == [v] + Preorder(g) + Preorder(l);
  }

  /**
   The records `saveNode` writes, in write order: the node's own value, then
   the greater subtree, then the less subtree. Every value is handed to
   `save`, so every node must hold one.
   */
  function Save<V, R>(t: Tree<V>, save: V -> R): (records: seq<R>)
    requires Populated(t)
    ensures |records| == Size(t)
    ensures forall i :: 0 <= i < |records| ==> records[i] == save(Preorder(t)[i].value)
  {
    match t
    case Nil => []
    case Node(v, _, g, l) =>
      var rg, rl := Save(g, save), Save(l, save);
      var p := Preorder(t);
      assert p == [v] + Preorder(g) + Preorder(l);
      assert forall i :: 0 <= i < |rg| ==> p[1 + i] == Preorder(g)[i];
      assert forall i :: 0 <= i < |rl| ==> p[1 + |rg| + i] == Preorder(l)[i];
      [save(v.value)] + rg + rl
  }

  /**
   Saving a tree and creating nodes from the records written gives, for
   every value in preorder, a fresh leaf holding what loading its saved
   record returns, numbered from the counter on. Indices are not written to
   the stream, so reloaded nodes are renumbered. When loading a saved value
   returns it unchanged, every value comes back as it was.
   */
  lemma SaveThenDrain<V, R>(t: Tree<V>, save: V -> R, load: R -> V, counter: nat)
    requires Populated(t)
    ensures |Drain(counter, Save(t, save), load)| == Size(t)
    ensures forall i :: 0 <= i < Size(t) ==>
              Drain(counter, Save(t, save), load)[i] == Node(Some(load(save(Preorder(t)[i].value))), counter + i, Nil, Nil)
    ensures (forall i :: 0 <= i < Size(t) ==> load(save(Preorder(t)[i].value)) == Preorder(t)[i].value) ==>
              forall i :: 0 <= i < Size(t) ==> Drain(counter, Save(t, save), load)[i].value == Preorder(t)[i]
  {
    DrainYieldsEveryRecord(counter, Save(t, save), load);
  }

  // ---------------------------------------------------------------------------
  // Field access
  // ---------------------------------------------------------------------------

  /** What `setValue` hands to the value's destroy operation: the node itself or a value. */
  datatype DestroyArg<V> = NodeHandle | ValueHandle(v: V)

  datatype Replaced<V> = Replaced(node: Tree<V>, destroyed: Option<DestroyArg<V>>)

  /**
   Installs a new value slot. An empty slot is simply filled. When a value is
   already present, the destroy operation is called, as written, with the
   node's own handle rather than with the old value, so the old value is
   never released.
   */
  function SetValue<V>(n: Tree<V>, v: Option<V>): (r: Replaced<V>)
    requires n.Node?
    ensures r.node == n.(value := v)
    ensures n.value.None? ==> r.destroyed == None
    ensures n.value.Some? ==> r.destroyed == Some(NodeHandle)
  {
    Replaced(n.(value := v), if n.value.Some? then Some(NodeHandle) else None)
  }

  /** Replaces the greater link; nothing else about the node changes. */
  function SetGreater<V>(n: Tree<V>, greater: Tree<V>): (r: Tree<V>)
    requires n.Node?
    ensures r.Node? && r.greater == greater
    ensures r.value == n.value && r.index == n.index && r.less == n.less
  {
    n.(greater := greater)
  }

  /** Replaces the less link; nothing else about the node changes. */
  function SetLess<V>(n: Tree<V>, less: Tree<V>): (r: Tree<V>)
    requires n.Node?
    ensures r.Node? && r.less == less
    ensures r.value == n.value && r.index == n.index && r.greater == n.greater
  {
    n.(less := less)
  }

  /** Replaces the index; nothing else about the node changes. */
  function SetIndex<V>(n: Tree<V>, index: int): (r: Tree<V>)
    requires n.Node?
    ensures r.Node? && r.index == index
    ensures r.value == n.value && r.greater == n.greater && r.less == n.less
  {
    n.(index := index)
  }

  // ---------------------------------------------------------------------------
  // Comparison and printing
  // ---------------------------------------------------------------------------

  /** The find criterion that matches on the node's own index rather than its value. */
  const ByIndex: int := 1

  /**
   Compares a node against a find target. Under `ByIndex` the target is read
   as an index and the answer is 0 on a match and 1 otherwise; every other
   criterion is answered by the value's own find comparison, unchanged.
   `asIndex` reads the target as an int.
   */
  function CompareFind<V, T>(n: Tree<V>, kind: int, target: T, asIndex: T -> int,
                             valueFind: (Option<V>, int, T) -> int): (r: int)
    requires n.Node?
    ensures kind == ByIndex ==> (r == 0 <==> n.index == asIndex(target))
    ensures kind == ByIndex ==> 0 <= r <= 1
    ensures kind != ByIndex ==> r == valueFind(n.value, kind, target)
  {
    if kind == ByIndex then (if n.index != asIndex(target) then 1 else 0)
    else valueFind(n.value, kind, target)
  }

  /**
   Orders `n` against `incoming`, the node being inserted. An absent node or
   value compares equal (0). Otherwise the value comparison decides, and
   when it reports a tie the index difference does, so present nodes with
   different indices are never equal.
   */
  function CompareSort<V>(n: Tree<V>, incoming: Tree<V>, valueSort: (V, V) -> int): (r: int)
    requires incoming.Node? && incoming.value.Some?
    ensures n.Nil? || n.value.None? ==> r == 0
    ensures n.Node? && n.value.Some? ==>
              var c := valueSort(n.value.value, incoming.value.value);
              && (c != 0 ==> r == c)
              && (c == 0 ==> (r < 0 <==> n.index < incoming.index))
              && (c == 0 ==> (r == 0 <==> n.index == incoming.index))
    ensures n.Node? && n.value.Some? && n.index != incoming.index ==> r != 0
  {
    if n.Nil? || n.value.None? then 0
    else
      var c := valueSort(n.value.value, incoming.value.value);
      if c != 0 then c else n.index - incoming.index
  }

  /** Columns the index takes in a printed node: `%5d`. */
  const IndexWidth: nat := 5

  /**
   The display line of a node: the index right-aligned in five columns, five
   spaces, then the value's short text.
   */
  function NodeToString<V>(n: Tree<V>, valueString: V -> string): (r: string)
    requires n.Node? && n.value.Some?
    ensures var s := valueString(n.value.value);
            && |r| >= IndexWidth + |Gap| + |s|
            && r[|r| - |s|..] == s
            && r[|r| - |s| - |Gap|..|r| - |s|] == Gap
    ensures 0 <= n.index < Pow10(IndexWidth) ==> |r| == IndexWidth + |Gap| + |valueString(n.value.value)|
  {
    var field := PadLeft(SignedDecimal(n.index), IndexWidth, ' ');
    assert 0 <= n.index < Pow10(IndexWidth) ==> |field| == IndexWidth by {
      if 0 <= n.index < Pow10(IndexWidth) {
        DecimalFits(n.index, IndexWidth);
      }
    }
    field + Gap + valueString(n.value.value)
  }

  /**
   The index printed by `NodeToString` can be read back from its first five
   columns whenever it fits in them.
   */
  lemma NodeToStringIndexRoundTrip<V>(n: Tree<V>, valueString: V -> string)
    requires n.Node? && n.value.Some?
    requires 0 <= n.index < Pow10(IndexWidth)
    ensures var field := TrimLeft(NodeToString(n, valueString)[..IndexWidth]);
            AllDigits(field) && DigitsValue(field) == n.index
  {
    RowStartsWithIndexField(n, valueString);
    var d := Decimal(n.index);
    DecimalFits(n.index, IndexWidth);
    TrimPaddedDigits(d, IndexWidth);
    DecimalRoundTrip(n.index);
  }

  /** The first five columns of a row are the padded index field. */
  lemma RowStartsWithIndexField<V>(n: Tree<V>, valueString: V -> string)
    requires n.Node? && n.value.Some?
    requires 0 <= n.index < Pow10(IndexWidth)
    ensures |NodeToString(n, valueString)| >= IndexWidth
    ensures NodeToString(n, valueString)[..IndexWidth] == PadLeft(Decimal(n.index), IndexWidth, ' ')
  {
    var field := PadLeft(SignedDecimal(n.index), IndexWidth, ' ');
    DecimalFits(n.index, IndexWidth);
    PrefixOfAppend(field, Gap + valueString(n.value.value));
    assert NodeToString(n, valueString) == field + (Gap + valueString(n.value.value));
  }

  /** Trimming the blanks off a left-padded run of digits gives the digits back. */
  lemma TrimPaddedDigits(d: string, width: nat)
    requires 1 <= |d| <= width && AllDigits(d)
    ensures TrimLeft(PadLeft(d, width, ' ')) == d
  {
    assert d[0] != ' ';
    if |d| == width {
      assert PadLeft(d, width, ' ') == d;
    } else {
      assert PadLeft(d, width, ' ') == Repeat(' ', width - |d|) + d;
      TrimLeftPadding(width - |d|, d);
    }
  }

  lemma PrefixOfAppend(a: string, b: string)
    ensures (a + b)[..|a|] == a
  {
  }
}
