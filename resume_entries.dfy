/**
 * The entry model of the resume variant (`js/resume.js`).
 *
 * An `Entry` has `title`, `description`, `done` and `order` attributes. Its
 * `validate` rejects an empty title first and an empty description second,
 * each with a fixed message. The `EntryList` collection keeps its entries
 * sorted by `order` and hands out the next order number. The create button
 * asks the collection to create an entry from the two input fields; an entry
 * that fails validation is not added. Nothing in this variant changes an
 * entry after it is made, so entries are values here.
 */
module ResumeEntries {
  import Ordering

  /** The message `validate` gives for an empty title. */
  const TitleRequired := "Please provide a title"

  /** The message `validate` gives for a non-empty title with an empty description. */
  const DescriptionRequired := "Please provide a description"

  /** The attributes of one entry. */
  datatype Entry = Entry(title: string, description: string, done: bool, order: int)

  /** A value that may be absent: `validate` returns nothing when the attributes are acceptable. */
  datatype Option<T> = None | Some(value: T)

  /** What the collection's create gives back: the new entry, or the validation message. */
  datatype CreateOutcome = Created(entry: Entry) | Invalid(message: string)

  /** `defaults`: empty title and description, not done, and the collection's next order number. */
  function Defaults(order: int): Entry {
    Entry("", "", false, order)
  }

  /** `new Entry({title: title, description: description})`: the two fields over the defaults. */
  function Build(title: string, description: string, order: int): (e: Entry)
    ensures e.title == title && e.description == description
    ensures e.(title := "", description := "") == Defaults(order)
  {
    Defaults(order).(title := title, description := description)
  }

  /**
   * `validate`: an empty title is reported first, whatever the description;
   * then an empty description; otherwise nothing. Only the empty string is
   * rejected, so a title or description of blanks passes.
   */
  function Validate(attribs: Entry): (error: Option<string>)
    ensures error == Some(TitleRequired) <==> attribs.title == ""
    ensures error == Some(DescriptionRequired) <==> attribs.title != "" && attribs.description == ""
    ensures error == None <==> attribs.title != "" && attribs.description != ""
  {
    if attribs.title == "" then Some(TitleRequired)
    else if attribs.description == "" then Some(DescriptionRequired)
    else None
  }

  /** An entry's sort key: the comparator returns its `order`. */
  function OrderOf(e: Entry): int {
    e.order
  }

  /** The order numbers of `xs`, front to back. */
  function Orders(xs: seq<Entry>): seq<int> {
    Ordering.Keys(xs, OrderOf)
  }

  /** `xs` with every occurrence of `e` taken out, the others kept in order. */
  function Remove(xs: seq<Entry>, e: Entry): (r: seq<Entry>)
    ensures forall x :: x in r <==> x in xs && x != e
    ensures |r| <= |xs|
  {
    if xs == [] then [] else (if xs[0] == e then [] else [xs[0]]) + Remove(xs[1..], e)
  }

  /** The collection of all entries, sorted by `order`. */
  class EntryList {
    var entries: seq<Entry>

    /** Sorted by the comparator, with no two entries sharing an order number. */
    ghost predicate Valid()
      reads this
    {
      Ordering.Ascending(Orders(entries))
    }

    /** A new, empty collection. */
    constructor ()
      ensures Valid() && entries == []
    {
      entries := [];
    }

    /** `nextOrder`: 1 when empty, otherwise one more than the last entry's order, and so above every order present. */
    function NextOrder(): (r: int)
      reads this
      ensures entries == [] ==> r == 1
      ensures entries != [] ==> r == entries[|entries| - 1].order + 1
      ensures Valid() ==> forall e :: e in entries ==> e.order < r
    {
      var keys := Orders(entries);
      assert Valid() ==> forall e :: e in entries ==> e.order in keys by {
        forall e | e in entries ensures e.order in keys {
          var j :| 0 <= j < |entries| && entries[j] == e;
          assert keys[j] == e.order;
        }
      }
      Ordering.NextOrder(keys)
    }

    /**
     * `create({title: title, description: description})` as the create
     * button calls it: the entry is built over the defaults and validated.
     * If validation fails, the collection is unchanged and the message is
     * returned; otherwise the entry goes to its sorted place, which is the
     * end, since its order number is above all others.
     */
    method Create(title: string, description: string) returns (outcome: CreateOutcome)
      requires Valid()
      modifies this
      ensures Valid()
      ensures var e := Build(title, description, old(NextOrder()));
        match Validate(e)
        case Some(message) => outcome == Invalid(message) && entries == old(entries)
        case None => outcome == Created(e) && entries == old(entries) + [e]
    {
      var e := Build(title, description, NextOrder());
      ghost var keys := Orders(entries);
      assert e.order == Ordering.NextOrder(keys);
      var error := Validate(e);
      if error.Some? {
        return Invalid(error.value);
      }
      assert Validate(e) == None;
      // The comparator's sorted insert splices the entry in at its insertion index; since
      // the new order is above every other, that index is the end and the splice is an append.
      var i := Ordering.InsertionIndex(Orders(entries), e.order);
      ghost var grown := entries + [e];
      Ordering.InsertFreshAppends(keys, e.order);
      Ordering.AppendNextKeepsAscending(entries, e, OrderOf);
      entries := entries[..i] + [e] + entries[i..];
      assert entries == grown;
      outcome := Created(e);
    }

    /** `destroy` of one entry: it leaves the collection; destroying an entry not in it changes nothing. */
    method Destroy(e: Entry)
      requires Valid()
      modifies this
      ensures Valid()
      ensures entries == Remove(old(entries), e)
      ensures e !in entries
      ensures e in old(entries) ==> |entries| == |old(entries)| - 1
      ensures e !in old(entries) ==> entries == old(entries)
    {
      RemoveKeepsAscending(entries, e);
      if e in entries {
        RemoveOneShrinks(entries, e);
      } else {
        RemoveAbsentIsSame(entries, e);
      }
      entries := Remove(entries, e);
    }
  }

  // ---------------------------------------------------------------------------
  // Lemmas

  /** An entry built from the defaults alone has an empty title, so it fails with the title message. */
  lemma DefaultsFailValidation(order: int)
    ensures Validate(Defaults(order)) == Some(TitleRequired)
    ensures !Defaults(order).done && Defaults(order).order == order
  {
  }

  /** A non-empty string made only of blanks, tabs and line breaks. */
  predicate IsBlank(s: string) {
    s != [] && forall i :: 0 <= i < |s| ==> s[i] in {' ', '\t', '\n', '\r'}
  }

  /** A title and a description of blanks are accepted: only the empty string is rejected, nothing is trimmed. */
  lemma BlanksPassValidation(title: string, description: string, order: int)
    requires IsBlank(title) && IsBlank(description)
    ensures Validate(Build(title, description, order)) == None
  {
  }

  /** When `e` is not in `xs`, taking it out changes nothing. */
  lemma {:induction false} RemoveAbsentIsSame(xs: seq<Entry>, e: Entry)
    requires e !in xs
    ensures Remove(xs, e) == xs
  {
    if xs != [] {
      assert xs[0] in xs;
      RemoveAbsentIsSame(xs[1..], e);
      assert xs == [xs[0]] + xs[1..];
    }
  }

  /** In a valid collection every entry occurs once, so taking one out that is present shrinks it by exactly one. */
  lemma {:induction false} RemoveOneShrinks(xs: seq<Entry>, e: Entry)
    requires Ordering.Ascending(Orders(xs)) && e in xs
    ensures |Remove(xs, e)| == |xs| - 1
  {
    Ordering.TailAbove(xs, OrderOf);
    if xs[0] == e {
      assert e !in xs[1..];
      RemoveAbsentIsSame(xs[1..], e);
    } else {
      assert e in xs[1..];
      RemoveOneShrinks(xs[1..], e);
    }
  }

  /** Taking an entry out keeps the rest in their sorted order. */
  lemma {:induction false} RemoveKeepsAscending(xs: seq<Entry>, e: Entry)
    ensures Ordering.Ascending(Orders(xs)) ==> Ordering.Ascending(Orders(Remove(xs, e)))
  {
    if xs != [] && Ordering.Ascending(Orders(xs)) {
      Ordering.TailAbove(xs, OrderOf);
      RemoveKeepsAscending(xs[1..], e);
      var rest := Remove(xs[1..], e);
      if xs[0] != e {
        Ordering.ConsKeepsAscending(xs[0], rest, OrderOf);
        assert Remove(xs, e) == [xs[0]] + rest;
      } else {
        assert Remove(xs, e) == rest;
      }
    }
  }

  /**
   * Creating three entries with titles and descriptions in a new collection
   * numbers them 1, 2 and 3, in creation order; a create with an empty title
   * in between adds nothing.
   */
  method CreateInOrder() returns (orders: seq<int>)
    ensures orders == [1, 2, 3]
  {
    var list := new EntryList();
    assert Validate(Build("A", "first", 1)) == None;
    var a := list.Create("A", "first");
    assert list.entries == [Build("A", "first", 1)];
    assert Validate(Build("", "no title", 2)) == Some(TitleRequired);
    var rejected := list.Create("", "no title");
    assert Validate(Build("B", "second", 2)) == None;
    var b := list.Create("B", "second");
    assert Validate(Build("C", "third", 3)) == None;
    var c := list.Create("C", "third");
    orders := Orders(list.entries);
    assert orders[0] == 1 && orders[1] == 2 && orders[2] == 3;
  }
}
