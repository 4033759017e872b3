/**
 * The entry model of the todo-style variant (`resume.js`).
 *
 * An `Entry` has `text`, `description`, `order` and `done` attributes and is
 * updated in place (`toggle` flips `done`). The `EntryList` collection keeps
 * its entries sorted by `order`, hands out the next order number, and splits
 * itself into the `done` entries and the `remaining` ones. The application
 * view adds an entry when Enter is pressed on a non-empty input and clears the
 * completed entries on request; only the effect of those two handlers on the
 * collection is modelled here. The collection is passed explicitly where the
 * source reaches for its global `Entries`.
 */
module TodoEntries {
  import Ordering

  /** The key code of the Enter key, on which the input field creates an entry. */
  const EnterKey := 13

  /** One todo entry; the view toggles and edits it in place. */
  class Entry {
    var text: string
    var description: string
    const order: int
    var done: bool

    /**
     * `new Entry({text: text})` as the collection's create builds it: the
     * given text over the defaults, which are an empty description, not done,
     * and the collection's next order number.
     */
    constructor (text: string, list: EntryList)
      ensures this.text == text && description == "" && !done
      ensures order == list.NextOrder()
    {
      this.text := text;
      description := "";
      done := false;
      order := list.NextOrder();
    }

    /** Flips `done` and leaves every other attribute as it was. */
    method Toggle()
      modifies this
      ensures done == !old(done)
      ensures text == old(text) && description == old(description)
    {
      done := !done;
    }
  }

  /** An entry's sort key: the comparator returns its `order`. */
  function OrderOf(e: Entry): int {
    e.order
  }

  /** The order numbers of `xs`, front to back. */
  function Orders(xs: seq<Entry>): seq<int> {
    Ordering.Keys(xs, OrderOf)
  }

  /** The `filter` behind `done()`: the finished entries of `xs`, in order. */
  function DoneOf(xs: seq<Entry>): (r: seq<Entry>)
    reads xs
    ensures forall e {:trigger e in r} :: e in r ==> e in xs && e.done
    ensures forall e {:trigger e in r} :: e in xs && e.done ==> e in r
    ensures |r| <= |xs|
  {
    if xs == [] then [] else (if xs[0].done then [xs[0]] else []) + DoneOf(xs[1..])
  }

  /** The unfinished entries of `xs`, in order: the partition's other half, stated by the predicate directly. */
  function NotDoneOf(xs: seq<Entry>): (r: seq<Entry>)
    reads xs
    ensures forall e {:trigger e in r} :: e in r ==> e in xs && !e.done
    ensures forall e {:trigger e in r} :: e in xs && !e.done ==> e in r
    ensures |r| <= |xs|
  {
    if xs == [] then [] else (if xs[0].done then [] else [xs[0]]) + NotDoneOf(xs[1..])
  }

  /** The collection's `without`: the entries of `xs` that are not among `ys`, compared by identity, in order. */
  function Without(xs: seq<Entry>, ys: seq<Entry>): (r: seq<Entry>)
    ensures forall e {:trigger e in r} :: e in r ==> e in xs && e !in ys
    ensures forall e {:trigger e in r} :: e in xs && e !in ys ==> e in r
    ensures |r| <= |xs|
  {
    if xs == [] then [] else (if xs[0] in ys then [] else [xs[0]]) + Without(xs[1..], ys)
  }

  /** The collection of all entries, sorted by `order`. */
  class EntryList {
    var models: seq<Entry>

    /** Sorted by the comparator, with no two entries sharing an order number. */
    ghost predicate Valid()
      reads this
    {
      Ordering.Ascending(Orders(models))
    }

    /** A new, empty collection. */
    constructor ()
      ensures Valid() && models == []
    {
      models := [];
    }

    /** `nextOrder`: 1 when empty, otherwise one more than the last entry's order, and so above every order present. */
    function NextOrder(): (r: int)
      reads this, models
      ensures models == [] ==> r == 1
      ensures models != [] ==> r == models[|models| - 1].order + 1
      ensures Valid() ==> forall e :: e in models ==> e.order < r
    {
      var keys := Orders(models);
      assert Valid() ==> forall e :: e in models ==> e.order in keys by {
        forall e | e in models ensures e.order in keys {
          var j :| 0 <= j < |models| && models[j] == e;
          assert keys[j] == e.order;
        }
      }
      Ordering.NextOrder(keys)
    }

    /** `done()`: exactly the finished entries, in collection order. */
    function Done(): (r: seq<Entry>)
      reads this, models
      ensures forall e {:trigger e in r} :: e in r ==> e in models && e.done
      ensures forall e {:trigger e in r} :: e in models && e.done ==> e in r
      ensures Valid() ==> Ordering.Ascending(Orders(r))
    {
      DoneKeepsAscending(models);
      DoneOf(models)
    }

    /** `remaining()`, computed as the source does, as the collection `without` its `done()` entries. */
    function Remaining(): (r: seq<Entry>)
      reads this, models
      ensures r == NotDoneOf(models)
      ensures Valid() ==> Ordering.Ascending(Orders(r))
    {
      WithoutDoneIsNotDone(models, DoneOf(models));
      WithoutKeepsAscending(models, DoneOf(models));
      Without(models, DoneOf(models))
    }

    /**
     * `create({text: text})`: builds the entry from the defaults, adds it at
     * its sorted place, which is the end, since its order number is above all
     * others.
     */
    method Create(text: string) returns (e: Entry)
      requires Valid()
      modifies this
      ensures Valid() && fresh(e)
      ensures models == old(models) + [e]
      ensures e.text == text && e.description == "" && !e.done
      ensures e.order == old(NextOrder())
      ensures forall x :: x in old(models) ==> x.order < e.order
    {
      e := new Entry(text, this);
      // The comparator's sorted insert splices the entry in at its insertion index; since
      // the new order is above every other, that index is the end and the splice is an append.
      var i := Ordering.InsertionIndex(Orders(models), e.order);
      ghost var grown := models + [e];
      Ordering.InsertFreshAppends(Orders(models), e.order);
      Ordering.AppendNextKeepsAscending(models, e, OrderOf);
      models := models[..i] + [e] + models[i..];
      assert models == grown;
    }

    /** `destroy` of one entry: it leaves the collection; destroying an entry not in it changes nothing. */
    method Destroy(e: Entry)
      requires Valid()
      modifies this
      ensures Valid()
      ensures models == Without(old(models), [e])
      ensures e !in models
      ensures e in old(models) ==> |models| == |old(models)| - 1
      ensures e !in old(models) ==> models == old(models)
    {
      WithoutKeepsAscending(models, [e]);
      if e in models {
        WithoutOneShrinks(models, e);
      } else {
        WithoutNoneIsSame(models, [e]);
      }
      models := Without(models, [e]);
    }
  }

  /**
   * The Enter handler of the input field: creates an entry from the text when
   * the key is Enter and the text is not empty, and does nothing otherwise.
   */
  method CreateOnEnter(list: EntryList, text: string, keyCode: int) returns (e: Entry?)
    requires list.Valid()
    modifies list
    ensures list.Valid()
    ensures e == null <==> text == "" || keyCode != EnterKey
    ensures e == null ==> list.models == old(list.models)
    ensures e != null ==> fresh(e) && list.models == old(list.models) + [e]
    ensures e != null ==> e.text == text && e.description == "" && !e.done
    ensures e != null ==> e.order == old(list.NextOrder())
  {
    if text == "" || keyCode != EnterKey {
      return null;
    }
    e := list.Create(text);
  }

  /** The check-box handler: toggles an entry of the collection, which moves it between `done()` and `remaining()`. */
  method ToggleDone(list: EntryList, e: Entry)
    requires list.Valid() && e in list.models
    modifies e
    ensures list.Valid() && list.models == old(list.models)
    ensures e.done == !old(e.done) && e.text == old(e.text) && e.description == old(e.description)
    ensures e in list.Done() <==> !old(e.done)
    ensures e in list.Remaining() <==> old(e.done)
  {
    e.Toggle();
  }

  /**
   * Creates `n` entries one after another, each through the collection's
   * `create`, in a new collection: they keep the creation order and are
   * numbered 1, 2, 3, ..., exactly as `Ordering.Created` counts.
   */
  method CreateMany(text: string, n: nat) returns (list: EntryList)
    ensures list.Valid() && |list.models| == n
    ensures Orders(list.models) == Ordering.Created(n)
    ensures forall j :: 0 <= j < n ==> list.models[j].order == j + 1
  {
    list := new EntryList();
    var i := 0;
    while i < n
      invariant 0 <= i <= n
      invariant list.Valid() && |list.models| == i
      invariant Orders(list.models) == Ordering.Created(i)
    {
      ghost var prev := list.models;
      var e := list.Create(text);
      Ordering.KeysAppend(prev, e, OrderOf);
      assert Orders(list.models) == Orders(prev) + [Ordering.NextOrder(Orders(prev))];
      i := i + 1;
    }
    Ordering.CreatedCountsFromOne(n);
    forall j | 0 <= j < n ensures list.models[j].order == j + 1 {
      assert Orders(list.models)[j] == Ordering.Created(n)[j];
    }
  }

  /** The loop of `clearCompleted`: destroys the given entries one at a time, in order. */
  method DestroyAll(list: EntryList, victims: seq<Entry>)
    requires list.Valid()
    modifies list
    ensures list.Valid()
    ensures list.models == Without(old(list.models), victims)
  {
    ghost var before := list.models;
    ghost var destroyed: seq<Entry> := [];
    WithoutNoneIsSame(before, []);
    var i := 0;
    while i < |victims|
      invariant 0 <= i <= |victims|
      invariant destroyed == victims[..i]
      invariant list.Valid()
      invariant list.models == Without(before, destroyed)
    {
      list.Destroy(victims[i]);
      WithoutStep(before, destroyed, victims[i]);
      destroyed := destroyed + [victims[i]];
      i := i + 1;
    }
    assert destroyed == victims;
  }

  /**
   * `clearCompleted`: destroys every entry of `done()`, one at a time.
   * Afterwards nothing is done, and the unfinished entries are exactly the
   * ones that were there, in the same relative order.
   */
  method ClearCompleted(list: EntryList)
    requires list.Valid()
    modifies list
    ensures list.Valid()
    ensures list.models == old(list.Remaining())
    ensures list.Done() == []
  {
    var completed := list.Done();
    ghost var before := list.models;
    ghost var rem := list.Remaining();
    assert completed == DoneOf(before);
    DestroyAll(list, completed);
    WithoutDoneIsNotDone(before, completed);
    assert list.models == rem;
    ClearedLeavesNothingDone(before);
    assert DoneOf(list.models) == [];
  }

  // ---------------------------------------------------------------------------
  // Lemmas about the filters

  /** `done()` and the unfinished entries split the collection: together they hold every entry exactly once. */
  lemma {:induction false} Partition(xs: seq<Entry>)
    ensures multiset(DoneOf(xs)) + multiset(NotDoneOf(xs)) == multiset(xs)
    ensures |DoneOf(xs)| + |NotDoneOf(xs)| == |xs|
  {
    if xs != [] {
      Partition(xs[1..]);
      assert xs == [xs[0]] + xs[1..];
    }
  }

  /** The statistics line: `done().length + remaining().length` is the collection's `length`. */
  lemma StatsAddUp(list: EntryList)
    ensures |list.Done()| + |list.Remaining()| == |list.models|
  {
    Partition(list.models);
  }

  /**
   * Subtracting the entries that satisfy `done` is the same as keeping the
   * ones that do not: whenever `ys` holds exactly the finished entries of
   * `xs`, `xs` without `ys` is the unfinished part of `xs`.
   */
  lemma {:induction false} WithoutDoneIsNotDone(xs: seq<Entry>, ys: seq<Entry>)
    requires forall e :: e in xs ==> (e in ys <==> e.done)
    ensures Without(xs, ys) == NotDoneOf(xs)
  {
    if xs != [] {
      assert xs[0] in xs;
      forall e | e in xs[1..] ensures e in ys <==> e.done {
        assert e in xs;
      }
      WithoutDoneIsNotDone(xs[1..], ys);
    }
  }

  /** Removing `ys` and then `y` is removing `ys + [y]`. */
  lemma {:induction false} WithoutStep(xs: seq<Entry>, ys: seq<Entry>, y: Entry)
    ensures Without(Without(xs, ys), [y]) == Without(xs, ys + [y])
  {
    if xs != [] {
      var x, tail := xs[0], xs[1..];
      WithoutStep(tail, ys, y);
      var rest := Without(tail, ys);
      if x in ys {
        assert Without(xs, ys) == rest;
        assert Without(xs, ys + [y]) == Without(tail, ys + [y]);
      } else {
        assert Without(xs, ys) == [x] + rest;
        assert ([x] + rest)[1..] == rest;
        assert Without([x] + rest, [y]) == (if x == y then [] else [x]) + Without(rest, [y]);
        assert Without(xs, ys + [y]) == (if x == y then [] else [x]) + Without(tail, ys + [y]);
      }
    }
  }

  /** When no entry of `xs` is among `ys`, `xs` without `ys` is `xs` itself. */
  lemma {:induction false} WithoutNoneIsSame(xs: seq<Entry>, ys: seq<Entry>)
    requires forall e :: e in xs ==> e !in ys
    ensures Without(xs, ys) == xs
  {
    if xs != [] {
      assert xs[0] in xs;
      forall e | e in xs[1..] ensures e !in ys {
        assert e in xs;
      }
      WithoutNoneIsSame(xs[1..], ys);
      assert xs == [xs[0]] + xs[1..];
    }
  }

  /** In a valid collection every entry occurs once, so destroying one that is present shrinks it by exactly one. */
  lemma {:induction false} WithoutOneShrinks(xs: seq<Entry>, e: Entry)
    requires Ordering.Ascending(Orders(xs)) && e in xs
    ensures |Without(xs, [e])| == |xs| - 1
  {
    Ordering.TailAbove(xs, OrderOf);
    if xs[0] == e {
      WithoutNoneIsSame(xs[1..], [e]);
    } else {
      assert e in xs[1..];
      WithoutOneShrinks(xs[1..], e);
    }
  }

  /** Removing entries keeps the rest in their sorted order. */
  lemma {:induction false} WithoutKeepsAscending(xs: seq<Entry>, ys: seq<Entry>)
    ensures Ordering.Ascending(Orders(xs)) ==> Ordering.Ascending(Orders(Without(xs, ys)))
  {
    if xs != [] && Ordering.Ascending(Orders(xs)) {
      Ordering.TailAbove(xs, OrderOf);
      WithoutKeepsAscending(xs[1..], ys);
      var rest := Without(xs[1..], ys);
      if xs[0] !in ys {
        Ordering.ConsKeepsAscending(xs[0], rest, OrderOf);
        assert Without(xs, ys) == [xs[0]] + rest;
      } else {
        assert Without(xs, ys) == rest;
      }
    }
  }

  /** `done()` keeps the finished entries in their sorted order. */
  lemma {:induction false} DoneKeepsAscending(xs: seq<Entry>)
    ensures Ordering.Ascending(Orders(xs)) ==> Ordering.Ascending(Orders(DoneOf(xs)))
  {
    if xs != [] && Ordering.Ascending(Orders(xs)) {
      Ordering.TailAbove(xs, OrderOf);
      DoneKeepsAscending(xs[1..]);
      var rest := DoneOf(xs[1..]);
      if xs[0].done {
        Ordering.ConsKeepsAscending(xs[0], rest, OrderOf);
        assert DoneOf(xs) == [xs[0]] + rest;
      } else {
        assert DoneOf(xs) == rest;
      }
    }
  }

  /** Once the finished entries are taken out, none is left. */
  lemma ClearedLeavesNothingDone(xs: seq<Entry>)
    ensures DoneOf(Without(xs, DoneOf(xs))) == []
  {
    WithoutDoneIsNotDone(xs, DoneOf(xs));
    NothingDoneRemains(NotDoneOf(xs));
  }

  /** A collection with no finished entries has an empty `done()`. */
  lemma NothingDoneRemains(xs: seq<Entry>)
    requires forall e :: e in xs ==> !e.done
    ensures DoneOf(xs) == []
  {
  }
}
