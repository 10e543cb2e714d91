/**
 The contact record: first and last name, a three-part phone number, and the
 sort key derived from them. Prompts are not modelled; what the user types
 arrives as arguments.
 */
module Contact {
  import opened Wrappers
  import opened CText

  /** Longest name a contact stores (`NAME_SIZE`). */
  const NameSize: nat := 20

  /** Size of the node-owned buffer the key is written into. */
  const KeyBufferSize: nat := 100

  /** A C `short`. */
  type Short = x: int | -32768 <= x <= 32767

  /** Area code, prefix and line number, in that order. */
  datatype Phone = Phone(area: Short, prefix: Short, line: Short)

  function Components(p: Phone): seq<int> {
    [p.area, p.prefix, p.line]
  }

  /** The ranges the phone prompt accepts: three, three and four digits. */
  predicate PhoneInRange(p: Phone) {
    && 0 <= p.area <= 999
    && 0 <= p.prefix <= 999
    && 0 <= p.line <= 9999
  }

  /**
   A contact. `key` is the stored sort key; every operation that changes a
   field writes it again from the fields (see `KeyFresh`).
   */
  datatype Contact = Contact(first: string, last: string, phone: Phone, key: string)

  // ---------------------------------------------------------------------------
  // Sort key
  // ---------------------------------------------------------------------------

  /**
   The sort key: last name, first name, then area code, prefix and line as
   `%d` decimals, with no padding and no separators.
   */
  function GenKey(first: string, last: string, phone: Phone): (k: string)
    ensures |k| >= |last| + |first| + 3
    ensures k[..|last|] == last
    ensures k[|last|..|last| + |first|] == first
    ensures k[|last| + |first|..] == SignedDecimal(phone.area) + SignedDecimal(phone.prefix) + SignedDecimal(phone.line)
    ensures PhoneInRange(phone) ==> AllDigits(k[|last| + |first|..])
  {
    var digits := SignedDecimal(phone.area) + SignedDecimal(phone.prefix) + SignedDecimal(phone.line);
    assert PhoneInRange(phone) ==> AllDigits(digits);
    var k := last + first + digits;
    assert k[|last| + |first|..] == digits;
    k
  }

  /**
   For an in-range phone the key's number tail is the three components as
   unpadded decimals: each piece reads back to its component and starts with
   a zero only when the component is zero.
   */
  lemma KeyTailReadsBack(first: string, last: string, phone: Phone)
    requires PhoneInRange(phone)
    ensures var a, p, l := Decimal(phone.area), Decimal(phone.prefix), Decimal(phone.line);
            && GenKey(first, last, phone)[|last| + |first|..] == a + p + l
            && DigitsValue(a) == phone.area && (a[0] == '0' <==> phone.area == 0)
            && DigitsValue(p) == phone.prefix && (p[0] == '0' <==> phone.prefix == 0)
            && DigitsValue(l) == phone.line && (l[0] == '0' <==> phone.line == 0)
  {
    DecimalRoundTrip(phone.area);
    DecimalRoundTrip(phone.prefix);
    DecimalRoundTrip(phone.line);
    DecimalNoLeadingZero(phone.area);
    DecimalNoLeadingZero(phone.prefix);
    DecimalNoLeadingZero(phone.line);
  }

  /** The stored key is the one the current fields generate. */
  predicate KeyFresh(c: Contact) {
    c.key == GenKey(c.first, c.last, c.phone)
  }

  /**
   A fresh key of a contact with stored-length names always fits, with its
   terminator, in the node's key buffer.
   */
  lemma KeyFitsBuffer(c: Contact)
    requires KeyFresh(c) && |c.first| <= NameSize && |c.last| <= NameSize
    ensures |c.key| < KeyBufferSize
  {
    ShortDecimalFits(c.phone.area);
    ShortDecimalFits(c.phone.prefix);
    ShortDecimalFits(c.phone.line);
  }

  /**
   Without separators the key does not identify a contact: two contacts
   that differ in every field can share a key, so sorting on the key alone
   cannot tell them apart.
   */
  lemma KeyCollides()
    ensures var a, b := Phone(1, 23, 4), Phone(12, 3, 4);
            GenKey("BC", "A", a) == GenKey("C", "AB", b)
  {
    assert Decimal(12) == "12" && Decimal(23) == "23";
  }

  // ---------------------------------------------------------------------------
  // Setters and construction
  // ---------------------------------------------------------------------------

  /**
   How a name is stored: a name of at most `NameSize` characters verbatim,
   a longer one cut to `NameSize` characters whose last is a '+' marker.
   */
  function StoredName(name: string): (r: string)
    ensures |r| <= NameSize
    ensures |name| <= NameSize ==> r == name
    ensures |name| > NameSize ==>
              && |r| == NameSize
              && r[..NameSize - 1] == name[..NameSize - 1]
              && r[NameSize - 1] == '+'
  {
    if |name| > NameSize then name[..NameSize - 1] + "+" else name
  }

  /** Sets the first name as stored and regenerates the key. */
  function SetFirstName(c: Contact, name: string): (r: Contact)
    ensures r.first == StoredName(name)
    ensures r.last == c.last && r.phone == c.phone
    ensures KeyFresh(r)
  {
    var stored := StoredName(name);
    c.(first := stored, key := GenKey(stored, c.last, c.phone))
  }

  /** Sets the last name as stored and regenerates the key. */
  function SetLastName(c: Contact, name: string): (r: Contact)
    ensures r.last == StoredName(name)
    ensures r.first == c.first && r.phone == c.phone
    ensures KeyFresh(r)
  {
    var stored := StoredName(name);
    c.(last := stored, key := GenKey(c.first, stored, c.phone))
  }

  /** Sets all three phone components and regenerates the key. */
  function SetPhoneNumber(c: Contact, number: Phone): (r: Contact)
    ensures r.phone == number
    ensures r.first == c.first && r.last == c.last
    ensures KeyFresh(r)
  {
    c.(phone := number, key := GenKey(c.first, c.last, number))
  }

  /** The freshly allocated contact before any setter runs; its key buffer is cleared. */
  const Unset: Contact := Contact("", "", Phone(0, 0, 0), "")

  /**
   `newContact`: clears the phone and both names, then sets the first name,
   last name and phone number the user typed in.
   */
  function NewContact(first: string, last: string, number: Phone): (c: Contact)
    ensures c.first == StoredName(first) && c.last == StoredName(last) && c.phone == number
    ensures |c.first| <= NameSize && |c.last| <= NameSize
    ensures KeyFresh(c)
  {
    var cleared := SetLastName(SetFirstName(SetPhoneNumber(Unset, Phone(0, 0, 0)), ""), "");
    SetPhoneNumber(SetLastName(SetFirstName(cleared, first), last), number)
  }

  // ---------------------------------------------------------------------------
  // Persistence
  // ---------------------------------------------------------------------------

  /**
   What a saved contact carries across a reload: its fields. The key pointer
   written with them is overwritten when the record is read back.
   */
  datatype Image = Image(first: string, last: string, phone: Phone)

  /** The record `saveContact` writes. */
  function SaveContact(c: Contact): (img: Image)
    ensures img.first == c.first && img.last == c.last && img.phone == c.phone
  {
    Image(c.first, c.last, c.phone)
  }

  /** `loadContact` on a complete record: the fields as read, with the key regenerated. */
  function LoadContact(img: Image): (c: Contact)
    ensures c.first == img.first && c.last == img.last && c.phone == img.phone
    ensures KeyFresh(c)
  {
    Contact(img.first, img.last, img.phone, GenKey(img.first, img.last, img.phone))
  }

  /** A saved contact reloads unchanged exactly when its key was fresh. */
  lemma LoadSaveRoundTrip(c: Contact)
    ensures LoadContact(SaveContact(c)) == c <==> KeyFresh(c)
  {
  }

  /** Every contact that comes out of a load saves back to the same record. */
  lemma SaveLoadRoundTrip(img: Image)
    ensures SaveContact(LoadContact(img)) == img
  {
  }

  // ---------------------------------------------------------------------------
  // Comparison
  // ---------------------------------------------------------------------------

  /**
   One plus the position of the first place two equal-length sequences
   differ, or 0 when they are equal.
   */
  function FirstMismatch(a: seq<int>, b: seq<int>): (k: nat)
    requires |a| == |b|
    ensures k <= |a|
    ensures k == 0 <==> a == b
    ensures k > 0 ==> a[..k - 1] == b[..k - 1] && a[k - 1] != b[k - 1]
  {
    if a == [] then 0
    else if a[0] != b[0] then 1
    else
      var k := FirstMismatch(a[1..], b[1..]);
      assert a == [a[0]] + a[1..] && b == [b[0]] + b[1..];
      if k == 0 then 0 else k + 1
  }

  /**
   Compares a contact's phone number with a target: 0 when all three parts
   agree, otherwise 1, 2 or 3 for the area code, prefix or line being the
   first part that differs.
   */
  function CompareNumber(c: Contact, number: Phone): (r: int)
    ensures r == FirstMismatch(Components(c.phone), Components(number))
    ensures r == 0 <==> c.phone == number
  {
    assert Components(c.phone) == Components(number) ==> c.phone == number;
    if c.phone.area != number.area then 1
    else if c.phone.prefix != number.prefix then 2
    else if c.phone.line != number.line then 3
    else 0
  }

  /** Edit choices and find criteria, numbered as the program's field enumeration. */
  const SaveContactField: int := 1
  const LastNameField: int := 2
  const FirstNameField: int := 3
  const PhoneNumberField: int := 4
  const AreaCodeField: int := 5

  /**
   The lookup target. The program fills one buffer with either a name or
   three shorts and the comparison reads it back as the criterion requires;
   the model keeps both readings. After an area-code prompt only the first
   short is new: `number.prefix` and `number.line` hold whatever the buffer
   held before.
   */
  datatype Query = Query(name: string, number: Phone)

  /**
   `contactCompareFind` exactly as written. Its area-code rule answers 0
   (a match) only when the area codes agree AND the rest of the number
   differs from the buffer's leftover prefix and line.
   */
  function CompareFindAsWritten(c: Option<Contact>, kind: int, q: Query): (r: int)
    ensures c.Some? && kind == AreaCodeField ==>
              (r == 0 <==> c.value.phone.area == q.number.area && c.value.phone != q.number)
  {
    if c.None? then 0
    else if kind == LastNameField then StrCmp(c.value.last, q.name)
    else if kind == FirstNameField then StrCmp(c.value.first, q.name)
    else if kind == PhoneNumberField then CompareNumber(c.value, q.number)
    else if kind == AreaCodeField then (if CompareNumber(c.value, q.number) <= 1 then 1 else 0)
    else 0
  }

  /**
   A contact whose whole number equals the search buffer is not found by
   area code, although its area code is the one searched for: a phone
   number search for 555 123 4567 followed by an area-code search for 555
   leaves exactly those three shorts in the buffer.
   */
  lemma AreaCodeRuleMissesExactNumber()
    ensures var c := NewContact("Ann", "Lee", Phone(555, 123, 4567));
            var q := Query("", Phone(555, 123, 4567));
            && c.phone.area == q.number.area
            && CompareFindAsWritten(Some(c), AreaCodeField, q) == 1
  {
  }

  /**
   `contactCompareFind` with the area-code rule corrected to what its
   comparison helper documents: 1 means the area codes differ. An absent
   contact, the exit choice 0 and any unknown criterion all answer 0.
   */
  function CompareFind(c: Option<Contact>, kind: int, q: Query): (r: int)
    ensures c.None? ==> r == 0
    ensures kind !in {LastNameField, FirstNameField, PhoneNumberField, AreaCodeField} ==> r == 0
    ensures c.Some? && kind == LastNameField ==> r == StrCmp(c.value.last, q.name)
    ensures c.Some? && kind == LastNameField ==> (r == 0 <==> c.value.last == q.name)
    ensures c.Some? && kind == FirstNameField ==> r == StrCmp(c.value.first, q.name)
    ensures c.Some? && kind == FirstNameField ==> (r == 0 <==> c.value.first == q.name)
    ensures c.Some? && kind == PhoneNumberField ==> (r == 0 <==> c.value.phone == q.number)
    ensures c.Some? && kind == AreaCodeField ==> (r == 0 <==> c.value.phone.area == q.number.area)
  {
    if c.None? then 0
    else if kind == LastNameField then StrCmp(c.value.last, q.name)
    else if kind == FirstNameField then StrCmp(c.value.first, q.name)
    else if kind == PhoneNumberField then CompareNumber(c.value, q.number)
    else if kind == AreaCodeField then (if CompareNumber(c.value, q.number) == 1 then 1 else 0)
    else 0
  }

  /** The corrected rule differs from the written one only on an exact number match. */
  lemma CompareFindCorrection(c: Option<Contact>, kind: int, q: Query)
    ensures CompareFind(c, kind, q) != CompareFindAsWritten(c, kind, q) <==>
              c.Some? && kind == AreaCodeField && c.value.phone == q.number
  {
  }

  /** `contactCompareSort`: `strcmp` of the two stored keys. */
  function CompareSort(a: Contact, b: Contact): (r: int)
    ensures -1 <= r <= 1
    ensures r == 0 <==> a.key == b.key
  {
    StrCmp(a.key, b.key)
  }

  /** Swapping two contacts flips the sign of their sort comparison. */
  lemma CompareSortAntisymmetric(a: Contact, b: Contact)
    ensures CompareSort(b, a) == -CompareSort(a, b)
  {
    StrCmpAntisymmetric(a.key, b.key);
  }

  // ---------------------------------------------------------------------------
  // Display
  // ---------------------------------------------------------------------------

  /** `%.3hu`-style printing reads a short as unsigned. */
  function AsUnsigned(x: Short): (u: nat)
    ensures x >= 0 ==> u == x
    ensures u < 65536
    ensures u % 65536 == x % 65536
  {
    if x < 0 then x + 65536 else x
  }

  /** The phone number as `(AAA) PPP-LLLL`, each part zero-padded to 3, 3 and 4 digits. */
  function PhoneString(p: Phone): (s: string)
    ensures PhoneInRange(p) ==> |s| == 14
  {
    "(" + ZeroPadded(AsUnsigned(p.area), 3) + ") "
        + ZeroPadded(AsUnsigned(p.prefix), 3) + "-"
        + ZeroPadded(AsUnsigned(p.line), 4)
  }

  /** Each part of an in-range number can be read back from its fixed columns. */
  lemma PhoneStringRoundTrip(p: Phone)
    requires PhoneInRange(p)
    ensures var s := PhoneString(p);
            && s[0] == '(' && s[4..6] == ") " && s[9] == '-'
            && AllDigits(s[1..4]) && DigitsValue(s[1..4]) == p.area
            && AllDigits(s[6..9]) && DigitsValue(s[6..9]) == p.prefix
            && AllDigits(s[10..14]) && DigitsValue(s[10..14]) == p.line
  {
    assert Pow10(3) == 1000 && Pow10(4) == 10000;
    var a := ZeroPadded(AsUnsigned(p.area), 3);
    var b := ZeroPadded(AsUnsigned(p.prefix), 3);
    var l := ZeroPadded(AsUnsigned(p.line), 4);
    assert |a| == 3 && |b| == 3 && |l| == 4;
    assert PhoneString(p) == "(" + a + ") " + b + "-" + l;
    PhoneLayout(a, b, l);
  }

  /** Where the three parts sit in an `(AAA) PPP-LLLL` string. */
  lemma PhoneLayout(a: string, b: string, l: string)
    requires |a| == 3 && |b| == 3 && |l| == 4
    ensures var s := "(" + a + ") " + b + "-" + l;
            && |s| == 14
            && s[0] == '(' && s[4..6] == ") " && s[9] == '-'
            && s[1..4] == a && s[6..9] == b && s[10..14] == l
  {
  }

  datatype PrintMode = PrintShort | PrintLong

  /** Width of a name column in a table row. */
  const NameColumns: nat := 10

  /**
   A name in its table column: right-aligned in ten columns and cut to ten
   characters, with the last column overwritten by '+' when it was cut.
   */
  function NameCell(name: string): (r: string)
    ensures |r| == NameColumns
    ensures |name| <= NameColumns ==>
              && r[NameColumns - |name|..] == name
              && forall i :: 0 <= i < NameColumns - |name| ==> r[i] == ' '
    ensures |name| > NameColumns ==>
              && (forall i :: 0 <= i < NameColumns - 1 ==> r[i] == name[i])
              && r[NameColumns - 1] == '+'
  {
    var cell := Cell(name, NameColumns);
    if |name| > NameColumns then cell[NameColumns - 1 := '+'] else cell
  }

  /**
   `contactToString`. Short mode is a table row: two name cells and the
   phone number, five spaces apart. Long mode writes the names in full.
   */
  function ContactToString(c: Contact, mode: PrintMode): (s: string)
    ensures mode == PrintShort ==>
              && |s| == 30 + |PhoneString(c.phone)|
              && s[..10] == NameCell(c.last)
              && s[10..15] == Gap
              && s[15..25] == NameCell(c.first)
              && s[25..30] == Gap
              && s[30..] == PhoneString(c.phone)
    ensures mode == PrintLong ==>
              && |s| == |c.last| + |c.first| + 10 + |PhoneString(c.phone)|
              && s[..|c.last|] == c.last
              && s[|c.last|..|c.last| + 5] == Gap
              && s[|c.last| + 5..|c.last| + 5 + |c.first|] == c.first
              && s[|c.last| + 5 + |c.first|..|c.last| + 10 + |c.first|] == Gap
              && s[|c.last| + 10 + |c.first|..] == PhoneString(c.phone)
  {
    match mode
    case PrintShort =>
      ShortLayout(c);
      NameCell(c.last) + Gap + NameCell(c.first) + Gap + PhoneString(c.phone)
    case PrintLong =>
      LongLayout(c);
      c.last + Gap + c.first + Gap + PhoneString(c.phone)
  }

  /** The columns of a table row: two ten-column name cells and the phone, five spaces apart. */
  lemma ShortLayout(c: Contact)
    ensures var s := NameCell(c.last) + Gap + NameCell(c.first) + Gap + PhoneString(c.phone);
            && |s| == 30 + |PhoneString(c.phone)|
            && s[..10] == NameCell(c.last)
            && s[10..15] == Gap
            && s[15..25] == NameCell(c.first)
            && s[25..30] == Gap
            && s[30..] == PhoneString(c.phone)
  {
    RowLayout(NameCell(c.last), NameCell(c.first), PhoneString(c.phone));
  }

  /** The columns of a long line: both names in full and the phone, five spaces apart. */
  lemma LongLayout(c: Contact)
    ensures var s := c.last + Gap + c.first + Gap + PhoneString(c.phone);
            && |s| == |c.last| + |c.first| + 10 + |PhoneString(c.phone)|
            && s[..|c.last|] == c.last
            && s[|c.last|..|c.last| + 5] == Gap
            && s[|c.last| + 5..|c.last| + 5 + |c.first|] == c.first
            && s[|c.last| + 5 + |c.first|..|c.last| + 10 + |c.first|] == Gap
            && s[|c.last| + 10 + |c.first|..] == PhoneString(c.phone)
  {
    RowLayout(c.last, c.first, PhoneString(c.phone));
  }

  /** Where the three parts sit in a line of three fields five spaces apart. */
  lemma RowLayout(a: string, b: string, rest: string)
    ensures var s := a + Gap + b + Gap + rest;
            && |s| == |a| + |b| + 10 + |rest|
            && s[..|a|] == a
            && s[|a|..|a| + 5] == Gap
            && s[|a| + 5..|a| + 5 + |b|] == b
            && s[|a| + 5 + |b|..|a| + 10 + |b|] == Gap
            && s[|a| + 10 + |b|..] == rest
  {
  }

  /** In a table row a name longer than ten characters shows '+' at column 9 (last) or 24 (first). */
  lemma ShortRowMarksCutNames(c: Contact)
    ensures var s := ContactToString(c, PrintShort);
            && |s| >= 30
            && (|c.last| > NameColumns ==>
                  s[9] == '+' && forall i :: 0 <= i < 9 ==> s[i] == c.last[i])
            && (|c.first| > NameColumns ==>
                  s[24] == '+' && forall i :: 0 <= i < 9 ==> s[15 + i] == c.first[i])
  {
    RowNameColumns(c);
  }

  lemma RowNameColumns(c: Contact)
    ensures var s := ContactToString(c, PrintShort);
            && |s| >= 30
            && (forall i :: 0 <= i < 10 ==> s[i] == NameCell(c.last)[i])
            && (forall i :: 0 <= i < 10 ==> s[15 + i] == NameCell(c.first)[i])
  {
    var s := ContactToString(c, PrintShort);
    var last, first := NameCell(c.last), NameCell(c.first);
    assert s[..10] == last;
    assert s[15..25] == first;
    SliceIndices(s, 15, 25);
  }

  /** A long line of a stored contact fits the edit menu's 65-character buffers. */
  lemma LongLineFitsMenuBuffer(c: Contact)
    requires |c.first| <= NameSize && |c.last| <= NameSize && PhoneInRange(c.phone)
    ensures |ContactToString(c, PrintLong)| + 1 <= NameSize * 2 + 25
  {
  }

  /** `contactTableHeader`: the column titles of a table. */
  function TableHeader(): (s: string)
    ensures |s| == 42 && s[30..] == "Phone Number"
  {
    Cell("Last Name", NameColumns) + Gap + Cell("First Name", NameColumns) + Gap + "Phone Number"
  }

  /** The header's columns line up with every table row's: gaps at 10 and 25, the number at 30. */
  lemma HeaderAlignsWithRows(c: Contact)
    ensures var h, s := TableHeader(), ContactToString(c, PrintShort);
            && |h| >= 30 && |s| >= 30
            && h[10..15] == s[10..15] == Gap
            && h[25..30] == s[25..30] == Gap
            && s[30..] == PhoneString(c.phone)
  {
    var h := TableHeader();
    assert h == Cell("Last Name", NameColumns) + Gap + Cell("First Name", NameColumns) + Gap + "Phone Number";
    assert h[10..15] == Gap;
    assert h[25..30] == Gap;
  }
}
