/**
 Nodes that hold contacts: the node operations instantiated with the
 contact's own sort, find, print and persistence operations, as the program
 installs them in every node's table of function pointers.
 */
module ContactNode {
  import opened Wrappers
  import opened CText
  import Node
  import Contact

  type ContactTree = Node.Tree<Contact.Contact>

  /** A node that holds a contact, the only kind the sort comparison accepts as the incoming one. */
  predicate Holds(n: ContactTree) {
    n.Node? && n.value.Some?
  }

  /**
   The insertion order of contact nodes: by key, and among equal keys by
   index. Two contact nodes compare equal only when both agree.
   */
  function SortCompare(n: ContactTree, incoming: ContactTree): (r: int)
    requires Holds(incoming)
    ensures Holds(n) ==>
              (r == 0 <==> n.index == incoming.index && n.value.value.key == incoming.value.value.key)
    ensures Holds(n) && n.value.value.key != incoming.value.value.key ==>
              (r < 0 <==> StrCmp(n.value.value.key, incoming.value.value.key) < 0)
    ensures Holds(n) && n.value.value.key == incoming.value.value.key ==>
              (r < 0 <==> n.index < incoming.index)
  {
    Node.CompareSort(n, incoming, (a, b) => Contact.CompareSort(a, b))
  }

  function Sign(x: int): (s: int)
    ensures s == -1 || s == 0 || s == 1
    ensures s < 0 <==> x < 0
    ensures s == 0 <==> x == 0
  {
    if x < 0 then -1 else if x == 0 then 0 else 1
  }

  /** Swapping the two contact nodes flips the sign of the comparison. */
  lemma SortAntisymmetric(a: ContactTree, b: ContactTree)
    requires Holds(a) && Holds(b)
    ensures Sign(SortCompare(a, b)) == -Sign(SortCompare(b, a))
  {
    StrCmpAntisymmetric(a.value.value.key, b.value.value.key);
  }

  /** The insertion order is transitive, so with antisymmetry it is a strict total order on contact nodes. */
  lemma SortTransitive(a: ContactTree, b: ContactTree, c: ContactTree)
    requires Holds(a) && Holds(b) && Holds(c)
    requires SortCompare(a, b) < 0 && SortCompare(b, c) < 0
    ensures SortCompare(a, c) < 0
  {
    var ka, kb, kc := a.value.value.key, b.value.value.key, c.value.value.key;
    if ka != kb && kb != kc {
      StrCmpTransitive(ka, kb, kc);
    }
  }

  /** The find target the tree passes down: an index for `ByIndex`, a contact query otherwise. */
  datatype Target = Target(index: int, query: Contact.Query)

  /**
   The find comparison of a contact node as the program installs it: under
   `ByIndex` the node's index decides, under every other criterion the
   contact's field comparison as written, whose area-code rule misses a
   contact whose whole number equals the search buffer.
   */
  function FindCompareAsWritten(n: ContactTree, kind: int, t: Target): (r: int)
    requires n.Node?
    ensures kind == Node.ByIndex ==> (r == 0 <==> n.index == t.index)
    ensures kind == Contact.AreaCodeField && Holds(n) ==>
              (r == 0 <==> n.value.value.phone.area == t.query.number.area && n.value.value.phone != t.query.number)
  {
    Node.CompareFind(n, kind, t, (x: Target) => x.index,
                     (v: Option<Contact.Contact>, k: int, x: Target) => Contact.CompareFindAsWritten(v, k, x.query))
  }

  /**
   The find comparison of a contact node with the corrected area-code rule:
   under `ByIndex` the node's index decides, under every other criterion the
   contact's field comparison.
   */
  function FindCompare(n: ContactTree, kind: int, t: Target): (r: int)
    requires n.Node?
    ensures kind == Node.ByIndex ==> (r == 0 <==> n.index == t.index)
    ensures kind == Contact.LastNameField && Holds(n) ==> (r == 0 <==> n.value.value.last == t.query.name)
    ensures kind == Contact.FirstNameField && Holds(n) ==> (r == 0 <==> n.value.value.first == t.query.name)
    ensures kind == Contact.PhoneNumberField && Holds(n) ==> (r == 0 <==> n.value.value.phone == t.query.number)
    ensures kind == Contact.AreaCodeField && Holds(n) ==> (r == 0 <==> n.value.value.phone.area == t.query.number.area)
  {
    Node.CompareFind(n, kind, t, (x: Target) => x.index,
                     (v: Option<Contact.Contact>, k: int, x: Target) => Contact.CompareFind(v, k, x.query))
  }

  /** The installed and the corrected node comparisons differ only on an area-code search that meets the exact number. */
  lemma FindCompareCorrection(n: ContactTree, kind: int, t: Target)
    requires n.Node?
    ensures FindCompare(n, kind, t) != FindCompareAsWritten(n, kind, t) <==>
              kind == Contact.AreaCodeField && Holds(n) && n.value.value.phone == t.query.number
  {
    Contact.CompareFindCorrection(n.value, kind, t.query);
  }

  /** The text a contact node prints after its index: the contact's table row. */
  function ShortText(c: Contact.Contact): string {
    Contact.ContactToString(c, Contact.PrintShort)
  }

  /**
   The display row of a contact node: the index column, a gap, then the
   contact's table row. The row always ends with the contact's row after the
   gap; when the index fits its five columns the row is exactly that
   column, the gap and the contact's row, so the name and phone columns sit
   at fixed offsets.
   */
  function Row(n: ContactTree): (r: string)
    requires Holds(n)
    ensures var s := ShortText(n.value.value);
            && |r| >= 10 + |s|
            && r[|r| - |s|..] == s
            && r[|r| - |s| - 5..|r| - |s|] == Gap
    ensures 0 <= n.index < Pow10(Node.IndexWidth) ==>
              && |r| == 40 + |Contact.PhoneString(n.value.value.phone)|
              && r[..10] == PadLeft(Decimal(n.index), Node.IndexWidth, ' ') + Gap
              && r[10..] == ShortText(n.value.value)
  {
    var r := Node.NodeToString(n, ShortText);
    assert 0 <= n.index < Pow10(Node.IndexWidth) ==>
             |r| == 10 + |ShortText(n.value.value)| && r[..10] == PadLeft(Decimal(n.index), Node.IndexWidth, ' ') + Gap
    by {
      if 0 <= n.index < Pow10(Node.IndexWidth) {
        Node.RowStartsWithIndexField(n, ShortText);
        SplitAt(r, Node.IndexWidth, 10);
      }
    }
    r
  }

  /** A prefix of a string is its shorter prefix followed by the slice between them. */
  lemma SplitAt(s: string, i: nat, j: nat)
    requires i <= j <= |s|
    ensures s[..j] == s[..i] + s[i..j]
  {
  }

  /** Every contact in the tree carries the key generated from its own fields. */
  predicate AllKeysFresh(t: ContactTree)
    requires Node.Populated(t)
  {
    forall i :: 0 <= i < Node.Size(t) ==> Contact.KeyFresh(Node.Preorder(t)[i].value)
  }

  /**
   Saving any tree of contacts and reloading the file gives, in preorder,
   leaves numbered from the counter on whose contacts carry the saved
   contact's names and phone with a freshly generated key, and which save
   back to exactly the records the tree wrote.
   */
  lemma ReloadAnyContacts(t: ContactTree, counter: nat)
    requires Node.Populated(t)
    ensures var nodes := Node.Drain(counter, Node.Save(t, Contact.SaveContact), Contact.LoadContact);
            && |nodes| == Node.Size(t)
            && forall i :: 0 <= i < Node.Size(t) ==>
                 && nodes[i].Node? && nodes[i].value.Some? && nodes[i].index == counter + i
                 && nodes[i].value.value.first == Node.Preorder(t)[i].value.first
                 && nodes[i].value.value.last == Node.Preorder(t)[i].value.last
                 && nodes[i].value.value.phone == Node.Preorder(t)[i].value.phone
                 && Contact.KeyFresh(nodes[i].value.value)
                 && Contact.SaveContact(nodes[i].value.value) == Node.Save(t, Contact.SaveContact)[i]
  {
    Node.SaveThenDrain(t, Contact.SaveContact, Contact.LoadContact, counter);
  }

  /**
   Saving a tree of contacts and reloading the file gives back every contact
   unchanged, in preorder, as leaves numbered from the counter on, when every
   stored key is fresh.
   */
  lemma ReloadContacts(t: ContactTree, counter: nat)
    requires Node.Populated(t) && AllKeysFresh(t)
    ensures var nodes := Node.Drain(counter, Node.Save(t, Contact.SaveContact), Contact.LoadContact);
            && |nodes| == Node.Size(t)
            && forall i :: 0 <= i < Node.Size(t) ==>
                 nodes[i].Node? && nodes[i].value == Node.Preorder(t)[i] && nodes[i].index == counter + i
  {
    forall i | 0 <= i < Node.Size(t)
      ensures Contact.LoadContact(Contact.SaveContact(Node.Preorder(t)[i].value)) == Node.Preorder(t)[i].value
    {
      Contact.LoadSaveRoundTrip(Node.Preorder(t)[i].value);
    }
    Node.SaveThenDrain(t, Contact.SaveContact, Contact.LoadContact, counter);
  }
}
