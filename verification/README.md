# Contact book tree vertex and contact record, in Dafny

This project models two layers of a small C contact book that keeps its
contacts in a binary tree:

- **The generic tree vertex** (`unit03/Node.h`). A node owns one value
  slot, a creation index drawn from a shared counter, and two owned child
  links, "greater" and "less". It is created from user input or from the
  next record of a data file. It is saved in preorder, torn down in
  postorder, compared for find and for insertion, and printed as a table
  row. The value's own operations (the node's table of function pointers)
  become function parameters.
- **The contact record** (`unit03/Contact.h`, without its prompts). A
  contact has a first name, a last name, a three-part phone number and a
  sort key. The key is rebuilt from those fields by every setter. The
  model covers name truncation, the phone comparison, the find dispatcher,
  the key order, the `(AAA) PPP-LLLL` rendering, the table and long row
  formats, and the edit loop. The edit loop is a fold over the sequence of
  menu choices the user makes.

A last module instantiates the vertex with the contact operations that
`unit03/lab3.c:53-60` installs. It proves that the resulting insertion
order is a strict total order. It also proves that any saved tree of
contacts reloads with the same names and phones, fresh keys and the same
records on a second save, and that it reloads unchanged when every stored
key matches its contact's fields; the edit loop as written can break that
condition (see "## Findings"). The find comparison is given twice: as installed, with
the written area-code rule, and with the corrected rule.

Files:

- `wrappers.dfy`: the `Option` type, which stands in for a nullable pointer.
- `ctext.dfy`: the C library pieces the code relies on, stated over
  `seq<char>`:
  - the sign of `strcmp`;
  - `%d` and `%.Nhu` decimal conversions;
  - `%N.Ns` field widths.
- `node.dfy`: module `Node`.
- `contact.dfy`: module `Contact`.
- `contact_edit.dfy`: module `ContactEdit`, the edit loop.
- `contact_node.dfy`: module `ContactNode`, the contact instance of the vertex.

Modelling choices:

- C strings are sequences of characters without their terminating NUL.
  A `char` stands for one byte: lengths, `strncpy` limits and `%10.10s`
  cuts count bytes in C and characters here, which agree for single-byte
  text.
- A `NULL` node is `Nil`, and a `NULL` value is `None`.
- A C `short` is the subset type `Contact.Short`.
- The file is a sequence of records. A saved contact record carries the
  fields but no usable key, because the key pointer is overwritten on load.
- `strcmp` is modelled by its sign (-1, 0 or 1), which is all the C
  standard fixes and all the callers use.
- The stored key is a field of the contact. The invariant
  `Contact.KeyFresh` says it equals the key generated from the other fields.
- The find target is one buffer that the program reads either as a name or
  as three shorts. `Contact.Query` keeps both readings.
- `setValue` hands the node handle, not the old value, to the destroy
  operation. This is modelled as written.

## Model

| member | source | states |
|---|---|---|
| Node.Preorder | unit03/Node.h:235-247 | the preorder layout of value slots has one entry per node, and every entry is present in a populated tree |
| Node.NewNode | unit03/Node.h:135-166 | at end-of-stream there is no node and the counter is unchanged. Otherwise the node's index is the old counter, the counter grows by one, both links are empty, and the value is the user's input or the first record loaded, with the stream advanced by one |
| Node.DrainYieldsEveryRecord | unit03/Node.h:149-165 | creating nodes from a stream of n records yields n leaves, in stream order, holding the loaded records, with consecutive indices from the counter |
| Node.Delete | unit03/Node.h:209-223 | a NULL node releases nothing. Without `clear`, only the node's own value is released. With `clear`, the greater subtree's values come first, then the less subtree's, then the node's own, one per node |
| Node.DeleteReleasesEveryValue | unit03/Node.h:209-223 | a clearing delete releases exactly the multiset of value slots in the subtree |
| Node.Save | unit03/Node.h:235-247 | one record per node, and record i is the saved form of the i-th value in preorder (self, greater, less) |
| Node.SaveThenDrain | unit03/Node.h:135-166 | saving any tree and recreating nodes from its records gives one leaf per value, in preorder, holding what loading that value's record returns, renumbered from the counter. When loading inverts saving every value comes back unchanged |
| Node.SetValue | unit03/Node.h:323-331 | the slot holds the new value. With an empty old slot nothing is destroyed. With a full one the destroy operation receives the node handle and never the old value |
| Node.SetGreater | unit03/Node.h:360-364 | the greater link is replaced, and value, index and less link are unchanged |
| Node.SetLess | unit03/Node.h:393-397 | the less link is replaced, and value, index and greater link are unchanged |
| Node.SetIndex | unit03/Node.h:423-427 | the index is replaced, and value and both links are unchanged |
| Node.CompareFind | unit03/Node.h:456-466 | under criterion 1 the answer is 0 or 1, and it is 0 exactly when the index matches the target. Any other criterion returns the value's answer unchanged |
| Node.CompareSort | unit03/Node.h:479-486 | an absent node or value compares 0. A nonzero value comparison is returned as is. On a value tie the sign and zero follow the index order, so distinct indices never compare equal |
| Node.NodeToString | unit03/Node.h:498-505 | the row ends with the value's short text after a five-space gap. With an index below 100000 the row is exactly 10 columns longer than the text |
| Node.NodeToStringIndexRoundTrip | unit03/Node.h:502 | the index can be read back from the first five columns of the row |
| CText.StrCmp | unit03/Contact.h:866 | the comparison is -1, 0 or 1, and 0 exactly when the strings are equal |
| CText.StrCmpAntisymmetric | unit03/Contact.h:866 | swapping the arguments negates the comparison |
| CText.StrCmpTransitive | unit03/Contact.h:866 | "less than" is transitive |
| CText.DecimalRoundTrip | unit03/Contact.h:885 | the `%d` digits of a natural number read back to that number |
| CText.ZeroPadded | unit03/Contact.h:569 | `%.Nhu` output is all digits, reads back to the number, and is exactly N wide when the number fits |
| Contact.GenKey | unit03/Contact.h:879-887 | the key is the last name, then the first name, then the `%d` decimals of area, prefix and line with no padding or separators. For an in-range phone the tail is all digits |
| Contact.KeyTailReadsBack | unit03/Contact.h:885 | for an in-range phone each of the three number pieces reads back to its component and starts with '0' only when the component is 0 |
| Contact.KeyFitsBuffer | unit03/Node.h:114 | a fresh key of a contact with stored-length names fits, with its terminator, in the node's 100-byte key buffer |
| Contact.KeyCollides | unit03/Contact.h:885 | with no separators two contacts with non-empty names that differ in every field can share a key |
| Contact.StoredName | unit03/Contact.h:406-411 | a name of at most 20 characters is kept verbatim. A longer one becomes its first 19 characters and '+' |
| Contact.SetFirstName | unit03/Contact.h:404-414 | the first name is the stored form of the input, the other fields are unchanged, and the key is fresh |
| Contact.SetLastName | unit03/Contact.h:466-477 | the last name is the stored form of the input, the other fields are unchanged, and the key is fresh |
| Contact.SetPhoneNumber | unit03/Contact.h:526-534 | the phone is the input, the names are unchanged, and the key is fresh |
| Contact.NewContact | unit03/Contact.h:140-162 | the contact holds the stored forms of the names typed in and the phone typed in. Both names fit in 20 characters and the key is fresh |
| Contact.SaveContact | unit03/Contact.h:229-235 | the record carries the three fields |
| Contact.LoadContact | unit03/Contact.h:190-202 | the loaded contact has the record's fields and a fresh key |
| Contact.LoadSaveRoundTrip | unit03/Contact.h:190-235 | a contact saved and reloaded is unchanged exactly when its key was fresh |
| Contact.SaveLoadRoundTrip | unit03/Contact.h:190-235 | a loaded record saves back to the same record |
| Contact.FirstMismatch | unit03/Contact.h:831-849 | the result is 0 exactly when the sequences are equal, and otherwise it is one past the first position where they differ |
| Contact.CompareNumber | unit03/Contact.h:831-849 | the result is 1, 2 or 3 for the first differing component (area, prefix, line), and 0 exactly when the phones are equal |
| Contact.CompareFindAsWritten | unit03/Contact.h:687 | the area-code criterion matches exactly when the area codes agree and the whole number differs from the buffer |
| Contact.AreaCodeRuleMissesExactNumber | unit03/Contact.h:687 | a contact whose area code is the one searched for is not matched when the buffer holds its exact number |
| Contact.CompareFind | unit03/Contact.h:673-698 | an absent contact, choice 0 or an unknown criterion gives 0. The name criteria give `strcmp`, and 0 exactly when the names are equal. Phone number gives 0 exactly on equal phones, and area code gives 0 exactly on equal area codes |
| Contact.CompareFindCorrection | unit03/Contact.h:687 | the corrected rule differs from the written one only for a present contact, the area-code criterion and an exact number match |
| Contact.CompareSort | unit03/Contact.h:862-868 | the comparison is -1, 0 or 1, and 0 exactly when the keys are equal |
| Contact.CompareSortAntisymmetric | unit03/Contact.h:862-868 | swapping the contacts negates the comparison |
| Contact.AsUnsigned | unit03/Contact.h:569 | a short is read as the unsigned value below 65536 that agrees with it modulo 65536: itself when non-negative, otherwise itself plus 65536 |
| Contact.PhoneString | unit03/Contact.h:565-571 | an in-range phone renders in exactly 14 characters |
| Contact.PhoneStringRoundTrip | unit03/Contact.h:565-571 | the parentheses, the space and the dash sit at fixed columns, and area, prefix and line read back from columns 1-3, 6-8 and 10-13 |
| Contact.NameCell | unit03/Contact.h:925-934 | a cell is 10 wide. A short name is right-aligned after spaces. A long name shows its first 9 characters and '+' |
| Contact.ContactToString | unit03/Contact.h:916-950 | a short row is the last-name cell, five spaces, the first-name cell, five spaces and the phone. A long row is the full last name, five spaces, the full first name, five spaces and the phone |
| Contact.ShortLayout | unit03/Contact.h:919-936 | in a table row the name cells occupy columns 0-9 and 15-24, the gaps columns 10-14 and 25-29, and the phone starts at column 30 |
| Contact.LongLayout | unit03/Contact.h:939-947 | in a long line the full last name comes first, the full first name follows five spaces later, and the phone follows five more spaces |
| Contact.ShortRowMarksCutNames | unit03/Contact.h:927-934 | in a table row a last name over 10 characters shows '+' at column 9 after its first 9 characters. A first name over 10 characters shows '+' at column 24 after its first 9 characters |
| Contact.LongLineFitsMenuBuffer | unit03/Contact.h:625 | the long row of a stored, in-range contact fits with its terminator in the edit menu's 65-character buffers |
| Contact.TableHeader | unit03/Contact.h:961-966 | the header is 42 characters and ends in "Phone Number" at column 30 |
| Contact.HeaderAlignsWithRows | unit03/Contact.h:961-966 | the header's gaps and phone column coincide with those of every table row |
| ContactEdit.FirstExit | unit03/Contact.h:589 | the result is the position of the first exit choice, or the length when there is none |
| ContactEdit.Step | unit03/Contact.h:592-602 | a field choice changes only the scratch copy, by that field's setter. Save copies the scratch copy onto the live one. A fresh key stays fresh |
| ContactEdit.StepFollowsReference | unit03/Contact.h:592-602 | one pass moves both copies one choice along the reference definitions |
| ContactEdit.RunFollowsReference | unit03/Contact.h:584-607 | from any point of a run, the loop ends at the first exit with the copy last saved, leaving the later choices unread, or waits with both copies as the reference defines them |
| ContactEdit.EditContact | unit03/Contact.h:584-607 | the loop finishes exactly when an exit is chosen. It returns the scratch copy as it stood at the last save before the exit, or the original, and leaves the rest of the input unread |
| ContactEdit.CommittedWithoutSave | unit03/Contact.h:594 | without a save choice the live copy is never changed |
| ContactEdit.EditWithoutSaveChangesNothing | unit03/Contact.h:584-607 | exiting without a save returns the original contact |
| ContactEdit.EditSavedBeforeExitKeepsChanges | unit03/Contact.h:584-607 | saving right before the exit returns every field change made |
| ContactEdit.FirstExitAfter | unit03/Contact.h:589 | the first exit after a run with no exit is found after that run |
| ContactEdit.ScratchKeepsKeyFresh | unit03/Contact.h:596-600 | the scratch and saved copies of a contact with a fresh key keep fresh keys |
| ContactEdit.EditKeepsKeyFresh | unit03/Contact.h:584-607 | the corrected loop returns a contact whose key matches its fields |
| ContactEdit.StepAsWritten | unit03/Contact.h:586-600 | with a shared key buffer a field edit rewrites the buffer while the live copy keeps its old fields |
| ContactEdit.DiscardedEditLeavesStaleKey | unit03/Contact.h:586-600 | changing a last name and exiting without a save returns the old fields with a key built from the discarded name |
| ContactEdit.StepAsWrittenFollowsReference | unit03/Contact.h:592-602 | one pass of the written loop moves the live copy, the scratch copy and the shared key buffer one choice along the reference |
| ContactEdit.RunAsWrittenFollowsReference | unit03/Contact.h:584-607 | from any point of a run, the written loop ends at the first exit with the fields last saved and the scratch copy's key, or waits |
| ContactEdit.EditContactAsWritten | unit03/Contact.h:584-607 | the written loop finishes exactly when an exit is chosen and returns the fields last saved before the exit with the key of the scratch copy at the exit, leaving the rest of the input unread |
| ContactEdit.AsWrittenAgreesOnFields | unit03/Contact.h:584-607 | the loop as written and the corrected loop finish together, with the same fields and the same unread input |
| ContactNode.SortCompare | unit03/Node.h:479-486 | two contact nodes compare 0 exactly when index and key agree. Different keys order by `strcmp` of the keys, and equal keys order by index |
| ContactNode.SortAntisymmetric | unit03/Node.h:479-486 | swapping two contact nodes negates the sign of their comparison |
| ContactNode.SortTransitive | unit03/Node.h:479-486 | the insertion order on contact nodes is transitive |
| ContactNode.FindCompareAsWritten | unit03/Node.h:456-466 | with the comparison the program installs, index lookup matches on the index, and area-code lookup matches when the area code agrees and the whole number differs from the buffer |
| ContactNode.FindCompare | unit03/Node.h:456-466 | with the corrected area-code rule, index lookup matches on the index. Name, phone and area-code lookups match exactly on the named field |
| ContactNode.FindCompareCorrection | unit03/Contact.h:687 | the installed and the corrected node comparisons differ only for a contact node under the area-code criterion when the buffer holds its exact number |
| ContactNode.Row | unit03/Node.h:498-505 | for any index, a contact node's row ends with the contact's table row after a five-space gap. When the index fits five columns, the row is the index right-aligned in five columns, the gap and the contact's row, 40 columns plus the phone text |
| ContactNode.ReloadAnyContacts | unit03/Contact.h:190-198 | saving any tree of contacts and reloading it gives, in preorder and renumbered from the counter, contacts with the saved names and phone and a fresh key, which save back to the very records the tree wrote |
| ContactNode.ReloadContacts | unit03/Node.h:235-247 | saving a tree of contacts with fresh keys and reloading it gives every contact back unchanged, in preorder, renumbered from the counter |

## Left out

- Prompts, menus and their re-prompt loops (`prompt*`, `findMenu`, `printByMenu`, `editContactMenu`, `mainMenu`): what the user types arrives as arguments or as the choice sequence. The phone range the prompt enforces is the predicate `Contact.PhoneInRange`.
- The tree engine (`BinaryTree.h`: insertion, find, print, whole-tree save, delete and reload): BinaryTree.h is not part of this model. `Node.Drain` repeats node creation over a stream only to state the reload lemmas.
- `editNode` and the main loop in `unit03/lab3.c`: they only forward to the tree engine and to `editContact`.
- Raw `fwrite`/`fread` of the contact struct and end-of-file detection: a file is a sequence of records, and a record is the contact's fields.
- `malloc`, `free`, `exit` and allocation failure: nodes and values are present or absent values.
- `initNode`, `loadNode`, `initValue`, `deleteValue`, `getValue`, `getFunctions` and the getters: they fold into `Node.NewNode`, `Node.Delete` and the datatype's fields.
- The node's `height` field: no operation shown reads or writes it.
- Node.NewNode: the index counter is a `nat`; the C `int` counter's overflow is not modelled.
- Node.CompareSort: the index difference is taken on unbounded integers, so the C subtraction's overflow is not modelled.
- Contact.StoredName: a name of exactly 20 characters is modelled as stored verbatim; in C, `strncpy` then leaves the field without a terminator.
- Contact.CompareFind: the "invalid input" message and pause of the default branch are not modelled, only its 0 result.
- ContactEdit.Step: menu numbers outside 0-4 never reach the loop (the menu re-prompts), so the switch's fall-through for other values is not modelled.
- Multi-byte characters: a `char` models one byte, so a name holding multi-byte UTF-8 text would be cut at a byte position in C and at a character position here.
- Contact.NewContact: `newContact` runs `setPhoneNumber`, and so `genKey`, before it clears the names (`unit03/Contact.h:155-157`), so that first key is written from uninitialised name arrays into the 100-byte buffer. The model starts from cleared names; the overwritten intermediate key and any overflow it may cause are not modelled.
- Contact.LoadContact: `loadContact` runs `genKey` before testing for end-of-file (`unit03/Contact.h:195-196`), so at end-of-file the key is written from a struct `fread` did not fill. The model only loads complete records; at end-of-file no contact is made (`Node.NewNode`).
- `unit03/CommonHeader.h`: screen and buffer macros and global scratch buffers, with no logic of their own.

## Findings

| source | as written | input that shows it | evidently intended | confidence | as-written member | corrected member |
|---|---|---|---|---|---|---|
| unit03/Contact.h:687 | the area-code criterion returns `compareNumber(...) <= 1`, which is 1 (no match) both when the area codes differ and when the whole number is equal | contact Ann Lee, (555) 123-4567, searched by area code 555 while the buffer still holds 555 123 4567 from a phone search | `== 1`: match exactly when the area codes agree, as `compareNumber` documents 1 as "area codes do not match" | not executed | Contact.CompareFindAsWritten, Contact.AreaCodeRuleMissesExactNumber, ContactNode.FindCompareAsWritten | Contact.CompareFind, Contact.CompareFindCorrection, ContactNode.FindCompare, ContactNode.FindCompareCorrection |
| unit03/Contact.h:586 | the scratch copy is a struct copy, so it shares the key buffer with the live contact; every scratch setter rewrites the live contact's key | contact Ann Lee, (555) 123-4567; choices: edit last name to Kim, then exit | the live contact keeps the key of its own fields when an edit is discarded | not executed | ContactEdit.EditContactAsWritten, ContactEdit.DiscardedEditLeavesStaleKey | ContactEdit.EditContact, ContactEdit.EditKeepsKeyFresh |
