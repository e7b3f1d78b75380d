/**
 * The record-management core of the contact book: a persisted, ordered list
 * of contacts that the user adds to, deletes from by name, edits by name and
 * searches by a case-insensitive part of the name. The list box shows one
 * row per contact, "name - phone", and deleting or editing recovers the name
 * from the selected row's text.
 *
 * The persisted file is the `contacts` field of `ContactStore`; the text
 * typed into the four entry fields, the selected row and the answers of the
 * dialogs are method parameters, and the message boxes are `Notice` values.
 */
module ContactBook {
  import opened Wrappers
  import opened Text
  import opened Sequences

  /**
   * One stored record. Name and phone are always text; email and address are
   * `None` when an edit dialog for them was cancelled, since edit stores the
   * dialog's answer as it is.
   */
  datatype Contact = Contact(name: string, phone: string, email: Option<string>, address: Option<string>)

  /** What the user is told after an operation (a message box, or nothing). */
  datatype Notice =
    | MissingInfo            // add: name or phone missing
    | Added(name: string)    // add: success
    | NoSelection            // delete or edit without a selected row
    | Deleted(name: string)  // delete: reported whether or not a record matched
    | Updated(name: string)  // edit: success
    | EmptyField             // edit: new name or new phone empty or cancelled
    | NoMatch(keyword: string)
    | Silent                 // no message box at all

  /** The text between name and phone in a list row, and the separator `split` looks for. */
  const Separator: string := " - "

  /** Every record has a non-empty name and phone: what add and edit demand of what they store. */
  predicate Complete(cs: seq<Contact>) {
    forall i :: 0 <= i < |cs| ==> cs[i].name != [] && cs[i].phone != []
  }

  // ---------------------------------------------------------------------
  // List rows and the name recovered from a row

  /** The list box row of a contact. */
  function Label(c: Contact): (row: string)
    ensures |row| == |c.name| + |Separator| + |c.phone|
    ensures row[..|c.name|] == c.name && OccursAt(row, Separator, |c.name|)
    ensures row[|c.name| + |Separator|..] == c.phone
  {
    c.name + Separator + c.phone
  }

  /** The rows of a list of contacts, one per contact, in order. */
  function Labels(cs: seq<Contact>): (rows: seq<string>)
    ensures |rows| == |cs|
    ensures forall i :: 0 <= i < |cs| ==> rows[i] == Label(cs[i])
  {
    seq(|cs|, i requires 0 <= i < |cs| => Label(cs[i]))
  }

  /** The name that delete and edit take from a selected row: the part before the first " - ". */
  function KeyOfLabel(row: string): (key: string)
    ensures |key| <= |row| && key == row[..|key|]
    ensures forall j :: 0 <= j < |key| ==> !OccursAt(row, Separator, j)
    ensures Contains(row, Separator) ==> OccursAt(row, Separator, |key|)
    ensures key == row <==> !Contains(row, Separator)
  {
    SplitFirst(row, Separator)
  }

  /**
   * The name comes back from its row exactly when " - " does not occur in the
   * name followed by " -": a name that contains " - " or ends in " -" is cut
   * short at the first " - " of the row.
   */
  lemma {:induction false} LabelRoundTrip(c: Contact)
    ensures KeyOfLabel(Label(c)) == c.name <==> !Contains(c.name + " -", Separator)
  {
    var row, n := Label(c), |c.name|;
    var head := c.name + " -";
    assert row[..n + 2] == head;
    assert OccursAt(row, Separator, n);
    var key := KeyOfLabel(row);
    assert |key| <= n;
    if Contains(head, Separator) {
      var j :| 0 <= j <= |head| - |Separator| && OccursAt(head, Separator, j);
      assert row[j..j + 3] == head[j..j + 3];
      assert OccursAt(row, Separator, j);
      assert |key| <= j < n;
    } else {
      if |key| < n {
        assert row[|key|..|key| + 3] == head[|key|..|key| + 3];
        assert OccursAt(head, Separator, |key|);
        assert false;
      }
      assert key == row[..n] == c.name;
    }
  }

  /** A name with no " - " inside it and no " -" at its end is recovered from its row. */
  lemma LabelRoundTripPlainName(c: Contact)
    requires !Contains(c.name, Separator)
    requires !(|c.name| >= 2 && c.name[|c.name| - 2..] == " -")
    ensures KeyOfLabel(Label(c)) == c.name
  {
    PlainNameHead(c.name);
    LabelRoundTrip(c);
  }

  /** Appending " -" to such a name creates no " - ". */
  lemma PlainNameHead(name: string)
    requires !Contains(name, Separator)
    requires !(|name| >= 2 && name[|name| - 2..] == " -")
    ensures !Contains(name + " -", Separator)
  {
    var n, head := |name|, name + " -";
    forall j | 0 <= j <= |head| - |Separator| ensures !OccursAt(head, Separator, j) {
      if j + 3 <= n {
        assert head[j..j + 3] == name[j..j + 3];
        assert !OccursAt(name, Separator, j);
      } else if j == n - 2 {
        HeadAtLastTwo(name);
      } else {
        assert head[j..j + 3][1] == ' ';
      }
    }
  }

  /** The three characters of `name + " -"` from the name's last two on are those two and a space. */
  lemma HeadAtLastTwo(name: string)
    requires |name| >= 2 && name[|name| - 2..] != " -"
    ensures !OccursAt(name + " -", Separator, |name| - 2)
  {
    var n := |name|;
    assert (name + " -")[n - 2..n + 1] == [name[n - 2], name[n - 1], ' '];
    assert name[n - 2..] == [name[n - 2], name[n - 1]];
  }

  /** Two names the row text does not give back: one containing " - ", one ending in " -". */
  lemma LabelRoundTripCounterexamples()
    ensures KeyOfLabel(Label(Contact("A - B", "1", None, None))) == "A"
    ensures KeyOfLabel(Label(Contact("A -", "1", None, None))) == "A"
  {
    var inside, trailing := "A - B - 1", "A - - 1";
    assert Label(Contact("A - B", "1", None, None)) == inside;
    assert Label(Contact("A -", "1", None, None)) == trailing;
    assert inside[0] != ' ' && trailing[0] != ' ';
    assert inside[1..4] == Separator && trailing[1..4] == Separator;
    KeyOfLabelCutsAt(inside, 1);
    KeyOfLabelCutsAt(trailing, 1);
  }

  /** The key of a row whose first " - " is at index `k` is the text before `k`. */
  lemma KeyOfLabelCutsAt(row: string, k: nat)
    requires OccursAt(row, Separator, k)
    requires forall j :: 0 <= j < k ==> !OccursAt(row, Separator, j)
    ensures KeyOfLabel(row) == row[..k]
  {
  }

  // ---------------------------------------------------------------------
  // Add

  /**
   * The list after adding the four typed values: all four are stripped; if
   * the stripped name or phone is empty nothing changes, otherwise one record
   * holding the stripped values goes at the end.
   */
  function Inserted(cs: seq<Contact>, name: string, phone: string, email: string, address: string): (r: seq<Contact>)
    ensures Blank(name) || Blank(phone) ==> r == cs
    ensures !Blank(name) && !Blank(phone) ==>
      |r| == |cs| + 1 && r[..|cs|] == cs &&
      r[|cs|] == Contact(Strip(name), Strip(phone), Some(Strip(email)), Some(Strip(address)))
    ensures Complete(cs) ==> Complete(r)
  {
    if Blank(name) || Blank(phone) then cs
    else
      var person := Contact(Strip(name), Strip(phone), Some(Strip(email)), Some(Strip(address)));
      var r := cs + [person];
      assert r[..|cs|] == cs;
      r
  }

  // ---------------------------------------------------------------------
  // Delete

  function Named(key: string): Contact -> bool {
    (c: Contact) => c.name == key
  }

  function NotNamed(key: string): Contact -> bool {
    (c: Contact) => c.name != key
  }

  /** The number of records whose name is exactly `key`. */
  function CountNamed(cs: seq<Contact>, key: string): nat {
    Count(cs, Named(key))
  }

  /**
   * Delete by name: every record whose name equals `key` goes, the others stay
   * in their order, and the length drops by the number of matches.
   */
  function RemoveByName(cs: seq<Contact>, key: string): (r: seq<Contact>)
    ensures IsSubsequence(r, cs)
    ensures forall i :: 0 <= i < |r| ==> r[i].name != key && r[i] in cs
    ensures forall i :: 0 <= i < |cs| && cs[i].name != key ==> cs[i] in r
    ensures |r| == |cs| - CountNamed(cs, key)
    ensures Complete(cs) ==> Complete(r)
  {
    CountComplement(cs, Named(key), NotNamed(key));
    Filter(cs, NotNamed(key))
  }

  /** Those properties pin the result down: no other list has them. */
  lemma RemoveByNameUnique(cs: seq<Contact>, key: string, t: seq<Contact>)
    requires IsSubsequence(t, cs)
    requires forall i :: 0 <= i < |t| ==> t[i].name != key
    requires |t| == |cs| - CountNamed(cs, key)
    ensures t == RemoveByName(cs, key)
  {
    CountComplement(cs, Named(key), NotNamed(key));
    FilterUnique(t, cs, NotNamed(key));
  }

  /**
   * Selecting the row of a stored contact and deleting it removes that contact
   * exactly when its name survives the round trip through the row text; a
   * contact named "Bob -" survives its own deletion (and takes every "Bob" with
   * it instead).
   */
  lemma DeleteOwnRow(cs: seq<Contact>, c: Contact)
    requires c in cs
    ensures c in RemoveByName(cs, KeyOfLabel(Label(c))) <==> Contains(c.name + " -", Separator)
  {
    LabelRoundTrip(c);
    var i :| 0 <= i < |cs| && cs[i] == c;
    var r := RemoveByName(cs, KeyOfLabel(Label(c)));
    if c in r {
      var j :| 0 <= j < |r| && r[j] == c;
    }
  }

  // ---------------------------------------------------------------------
  // Edit

  /** `i` is the index of the first record named `key`. */
  predicate IsFirstNamed(cs: seq<Contact>, key: string, i: int) {
    0 <= i < |cs| && cs[i].name == key && forall j :: 0 <= j < i ==> cs[j].name != key
  }

  /** The index of the first record whose name equals `key`, if any. */
  function FirstNamed(cs: seq<Contact>, key: string): (r: Option<nat>)
    ensures r.None? <==> forall j :: 0 <= j < |cs| ==> cs[j].name != key
    ensures r.Some? ==> IsFirstNamed(cs, key, r.value)
  {
    if cs == [] then None
    else if cs[0].name == key then Some(0)
    else
      match FirstNamed(cs[1..], key)
      case None => None
      case Some(i) =>
        assert forall j :: 1 <= j <= i ==> cs[j] == cs[1..][j - 1];
        Some(i + 1)
  }

  /** A dialog answer that Python treats as true: not cancelled and not empty. */
  predicate Filled(answer: Option<string>) {
    answer.Some? && answer.value != []
  }

  /**
   * Edit by name: the first record named `key`, and only it, is replaced as a
   * whole by the four answers as given (not stripped, nothing kept from the
   * old record), provided the new name and phone are filled in; otherwise, and
   * when no record is named `key`, the list stays as it is.
   */
  function EditFirst(cs: seq<Contact>, key: string, name: Option<string>, phone: Option<string>,
                     email: Option<string>, address: Option<string>): (r: seq<Contact>)
    ensures |r| == |cs|
    ensures forall j :: 0 <= j < |cs| && r[j] != cs[j] ==> IsFirstNamed(cs, key, j)
    ensures forall j :: IsFirstNamed(cs, key, j) && Filled(name) && Filled(phone) ==>
      r[j] == Contact(name.value, phone.value, email, address)
    ensures (forall j :: 0 <= j < |cs| ==> cs[j].name != key) ==> r == cs
    ensures !(Filled(name) && Filled(phone)) ==> r == cs
    ensures Complete(cs) ==> Complete(r)
  {
    match FirstNamed(cs, key)
    case None => cs
    case Some(i) =>
      if Filled(name) && Filled(phone) then cs[i := Contact(name.value, phone.value, email, address)] else cs
  }

  // ---------------------------------------------------------------------
  // Search

  function Matches(keyword: string): Contact -> bool {
    (c: Contact) => Contains(Lower(c.name), Lower(keyword))
  }

  /**
   * The records whose lower-cased name contains the lower-cased keyword, in
   * stored order.
   */
  function Matching(cs: seq<Contact>, keyword: string): (r: seq<Contact>)
    ensures IsSubsequence(r, cs)
    ensures forall i :: 0 <= i < |r| ==> r[i] in cs && Contains(Lower(r[i].name), Lower(keyword))
    ensures forall i :: 0 <= i < |cs| && Contains(Lower(cs[i].name), Lower(keyword)) ==> cs[i] in r
    ensures |r| == Count(cs, Matches(keyword))
  {
    Filter(cs, Matches(keyword))
  }

  /** Those properties pin the search result down: no other list has them. */
  lemma MatchingUnique(cs: seq<Contact>, keyword: string, t: seq<Contact>)
    requires IsSubsequence(t, cs)
    requires forall i :: 0 <= i < |t| ==> Contains(Lower(t[i].name), Lower(keyword))
    requires |t| == Count(cs, Matches(keyword))
    ensures t == Matching(cs, keyword)
  {
    FilterUnique(t, cs, Matches(keyword));
  }

  // ---------------------------------------------------------------------
  // The store: the persisted list and the operations behind the buttons

  class ContactStore {
    /** The records in the data file, in stored order. */
    var contacts: seq<Contact>

    /** Opens the data file; a missing file (`None`) is an empty list. */
    constructor (saved: Option<seq<Contact>>)
      ensures saved.None? ==> contacts == []
      ensures saved.Some? ==> contacts == saved.value
    {
      contacts := if saved.Some? then saved.value else [];
    }

    /** "Add": the four entry fields as typed. */
    method Add(name: string, phone: string, email: string, address: string) returns (notice: Notice)
      modifies this
      ensures contacts == Inserted(old(contacts), name, phone, email, address)
      ensures notice == if Blank(name) || Blank(phone) then MissingInfo else Added(Strip(name))
    {
      var person := Contact(Strip(name), Strip(phone), Some(Strip(email)), Some(Strip(address)));
      if person.name == [] || person.phone == [] {
        return MissingInfo;
      }
      contacts := contacts + [person];
      notice := Added(person.name);
    }

    /** "Show All": one row per stored record, in stored order. */
    method ShowAll() returns (rows: seq<string>)
      ensures rows == Labels(contacts)
    {
      rows := [];
      for i := 0 to |contacts|
        invariant |rows| == i
        invariant forall j :: 0 <= j < i ==> rows[j] == Label(contacts[j])
      {
        rows := rows + [Label(contacts[i])];
      }
      assert |rows| == |Labels(contacts)|;
    }

    /** "Delete": the selected row, if any. */
    method Delete(selected: Option<string>) returns (notice: Notice)
      modifies this
      ensures selected.None? ==> contacts == old(contacts) && notice == NoSelection
      ensures selected.Some? ==>
        var key := KeyOfLabel(selected.value);
        contacts == RemoveByName(old(contacts), key) && notice == Deleted(key)
    {
      if selected.None? {
        return NoSelection;
      }
      var key := KeyOfLabel(selected.value);
      contacts := RemoveByName(contacts, key);
      notice := Deleted(key);
    }

    /**
     * "Update": the selected row, if any, and the answers of the four edit
     * dialogs (`None` for a cancelled dialog). The dialogs are only shown once
     * a record named like the row is found, so without one the answers are
     * not used.
     */
    method Edit(selected: Option<string>, name: Option<string>, phone: Option<string>,
                email: Option<string>, address: Option<string>) returns (notice: Notice)
      modifies this
      ensures selected.None? ==> contacts == old(contacts) && notice == NoSelection
      ensures selected.Some? ==>
        var key := KeyOfLabel(selected.value);
        && contacts == EditFirst(old(contacts), key, name, phone, email, address)
        && notice == if FirstNamed(old(contacts), key).None? then Silent
                     else if Filled(name) && Filled(phone) then Updated(name.value)
                     else EmptyField
    {
      if selected.None? {
        return NoSelection;
      }
      var key := KeyOfLabel(selected.value);
      var i := 0;
      while i < |contacts|
        invariant 0 <= i <= |contacts|
        invariant forall j :: 0 <= j < i ==> contacts[j].name != key
      {
        if contacts[i].name == key {
          assert IsFirstNamed(contacts, key, i);
          if Filled(name) && Filled(phone) {
            contacts := contacts[i := Contact(name.value, phone.value, email, address)];
            return Updated(name.value);
          } else {
            return EmptyField;
          }
        }
        i := i + 1;
      }
      notice := Silent;
    }

    /**
     * "Search": the keyword dialog's answer. An empty or cancelled keyword
     * leaves the list box alone (`shown` is `None`); otherwise the list box
     * shows the rows of the matching records, and an empty result is reported.
     */
    method Search(keyword: Option<string>) returns (shown: Option<seq<string>>, notice: Notice)
      ensures !Filled(keyword) ==> shown == None && notice == Silent
      ensures Filled(keyword) ==>
        var found := Matching(contacts, keyword.value);
        && shown == Some(Labels(found))
        && notice == if found == [] then NoMatch(keyword.value) else Silent
    {
      if !Filled(keyword) {
        return None, Silent;
      }
      var key := keyword.value;
      var filtered := [];
      for i := 0 to |contacts|
        invariant filtered == Labels(Matching(contacts[..i], key))
      {
        var entry := contacts[i];
        ghost var before := Matching(contacts[..i], key);
        assert contacts[..i + 1][..i] == contacts[..i];
        if Contains(Lower(entry.name), Lower(key)) {
          assert Labels(before + [entry]) == Labels(before) + [Label(entry)];
          filtered := filtered + [Label(entry)];
        }
      }
      assert contacts[..|contacts|] == contacts;
      shown := Some(filtered);
      notice := if filtered == [] then NoMatch(key) else Silent;
    }
  }
}
