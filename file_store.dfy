/** A store that keeps a list of identified items in memory and mirrors
    the whole list to one file on every change. Items are generic; what
    makes them "listable" is the identity projection `idOf`, whose results
    are compared with `==`. */
module FileStore {
  import opened Loadable

  // ---------------------------------------------------------------------
  // The list computations of update and delete
  // ---------------------------------------------------------------------

  /** `xs.map { $0.id == item.id ? item : $0 }`: every element with the
      identity of `item` becomes `item`; every other element stays. */
  function ReplacedById<T, Id(==)>(xs: seq<T>, item: T, idOf: T -> Id): (r: seq<T>)
    ensures |r| == |xs|
    ensures forall i :: 0 <= i < |xs| ==> r[i] == (if idOf(xs[i]) == idOf(item) then item else xs[i])
  {
    if xs == [] then []
    else [if idOf(xs[0]) == idOf(item) then item else xs[0]] + ReplacedById(xs[1..], item, idOf)
  }

  /** `xs.filter { $0.id != id }`: the elements whose identity is not `id`,
      in their original order. */
  function RemovedById<T(!new), Id(==)>(xs: seq<T>, id: Id, idOf: T -> Id): (r: seq<T>)
    ensures |r| <= |xs|
    ensures forall x :: x in r <==> x in xs && idOf(x) != id
    ensures forall x :: multiset(r)[x] == if idOf(x) == id then 0 else multiset(xs)[x]
  {
    if xs == [] then []
    else
      assert xs == [xs[0]] + xs[1..];
      if idOf(xs[0]) == id then RemovedById(xs[1..], id, idOf)
      else [xs[0]] + RemovedById(xs[1..], id, idOf)
  }

  /** Replacing by identity keeps the sequence of identities. */
  lemma ReplacedKeepsIds<T, Id>(xs: seq<T>, item: T, idOf: T -> Id)
    ensures var r := ReplacedById(xs, item, idOf);
            forall i :: 0 <= i < |xs| ==> idOf(r[i]) == idOf(xs[i])
  {
  }

  /** Updating an item whose identity is absent changes nothing. */
  lemma ReplacedAbsentIsIdentity<T, Id>(xs: seq<T>, item: T, idOf: T -> Id)
    requires forall i :: 0 <= i < |xs| ==> idOf(xs[i]) != idOf(item)
    ensures ReplacedById(xs, item, idOf) == xs
  {
  }

  /** Updating twice with the same item is updating once. */
  lemma ReplacedIdempotent<T, Id>(xs: seq<T>, item: T, idOf: T -> Id)
    ensures ReplacedById(ReplacedById(xs, item, idOf), item, idOf) == ReplacedById(xs, item, idOf)
  {
  }

  /** Deletion works element by element: deleting from a concatenation
      concatenates the deletions, so the survivors keep their order. */
  lemma {:induction false} RemovedDistributes<T(!new), Id>(xs: seq<T>, ys: seq<T>, id: Id, idOf: T -> Id)
    ensures RemovedById(xs + ys, id, idOf) == RemovedById(xs, id, idOf) + RemovedById(ys, id, idOf)
  {
    if xs == [] {
      assert xs + ys == ys;
    } else {
      var zs := xs + ys;
      assert zs[0] == xs[0] && zs[1..] == xs[1..] + ys;
      if idOf(xs[0]) == id {
        calc {
          RemovedById(zs, id, idOf);
          RemovedById(xs[1..] + ys, id, idOf);
          { RemovedDistributes(xs[1..], ys, id, idOf); }
          RemovedById(xs[1..], id, idOf) + RemovedById(ys, id, idOf);
          RemovedById(xs, id, idOf) + RemovedById(ys, id, idOf);
        }
      } else {
        calc {
          RemovedById(zs, id, idOf);
          [xs[0]] + RemovedById(xs[1..] + ys, id, idOf);
          { RemovedDistributes(xs[1..], ys, id, idOf); }
          [xs[0]] + (RemovedById(xs[1..], id, idOf) + RemovedById(ys, id, idOf));
          ([xs[0]] + RemovedById(xs[1..], id, idOf)) + RemovedById(ys, id, idOf);
          RemovedById(xs, id, idOf) + RemovedById(ys, id, idOf);
        }
      }
    }
  }

  /** Deleting an identity that no element has changes nothing. */
  lemma {:induction false} RemovedAbsentIsIdentity<T(!new), Id>(xs: seq<T>, id: Id, idOf: T -> Id)
    requires forall i :: 0 <= i < |xs| ==> idOf(xs[i]) != id
    ensures RemovedById(xs, id, idOf) == xs
  {
    if xs != [] {
      RemovedAbsentIsIdentity(xs[1..], id, idOf);
    }
  }

  /** Deleting twice is deleting once. */
  lemma RemovedIdempotent<T(!new), Id>(xs: seq<T>, id: Id, idOf: T -> Id)
    ensures RemovedById(RemovedById(xs, id, idOf), id, idOf) == RemovedById(xs, id, idOf)
  {
    var r := RemovedById(xs, id, idOf);
    assert forall i :: 0 <= i < |r| ==> r[i] in r;
    RemovedAbsentIsIdentity(r, id, idOf);
  }

  // ---------------------------------------------------------------------
  // The store
  // ---------------------------------------------------------------------

  /** What the store's backing file holds: no file yet, the encoding of a
      list (encoding is modelled as the identity), or bytes that do not
      decode as a list. */
  datatype File<T> = Missing | Written(items: seq<T>) | Undecodable

  class ListableFileStore<T(!new), Id(==)> {
    /** The published state, `@Published var list`. */
    var list: Loadable<seq<T>>
    /** The backing file, replaced as a whole by every successful save. */
    var disk: File<T>
    const filename: string
    /** The identity of an item, `item.id`. */
    const idOf: T -> Id

    /** Whenever a list is published as loaded, the file holds exactly
        that list (a missing file counts as the empty list). */
    ghost predicate Valid()
      reads this
    {
      list.Loaded? ==> (disk == Written(list.value) || (disk.Missing? && list.value == []))
    }

    /** `init(filename:)`. The initialiser schedules `load()` as a task
        that has not run when `init` returns: the caller runs `Load` as the
        next step. `disk` is whatever file already exists. */
    constructor (filename: string, idOf: T -> Id, disk: File<T>)
      ensures Valid()
      ensures this.filename == filename && this.idOf == idOf && this.disk == disk
      ensures list == None
    {
      this.filename := filename;
      this.idOf := idOf;
      this.disk := disk;
      list := None;
    }

    /** `load()`: publish `loading`, then `loaded([])` for a missing file,
        the decoded list for a readable one, and `error` when reading or
        decoding throws. `readSucceeds` is the outcome of reading the
        file's bytes. The file is not touched. */
    method Load(readSucceeds: bool)
      modifies this
      ensures Valid()
      ensures disk == old(disk)
      ensures old(disk).Missing? ==> list == Loaded([])
      ensures !old(disk).Missing? && !readSucceeds ==> list == Error(ReadFailure)
      ensures old(disk).Undecodable? && readSucceeds ==> list == Error(DecodeFailure)
      ensures old(disk).Written? && readSucceeds ==> list == Loaded(old(disk).items)
    {
      list := Loading;
      match disk
      case Missing =>
        list := Loaded([]);
      case Written(items) =>
        if readSucceeds { list := Loaded(items); } else { list := Error(ReadFailure); }
      case Undecodable =>
        if readSucceeds { list := Error(DecodeFailure); } else { list := Error(ReadFailure); }
    }

    /** `replaceWithList`: save `items` by atomic whole-file replacement,
        then publish them; when the save throws, publish `error` and leave
        the file as it was. */
    method ReplaceWithList(items: seq<T>, writeSucceeds: bool)
      modifies this
      ensures Valid()
      ensures writeSucceeds ==> list == Loaded(items) && disk == Written(items)
      ensures !writeSucceeds ==> list == Error(WriteFailure) && disk == old(disk)
    {
      SaveToDisk(items, writeSucceeds);
      if writeSucceeds {
        list := Loaded(items);
      } else {
        list := Error(WriteFailure);
      }
    }

    /** `saveToDisk`: with `.atomic`, the file is either wholly replaced
        or left untouched. */
    method SaveToDisk(items: seq<T>, writeSucceeds: bool)
      modifies this`disk
      ensures disk == if writeSucceeds then Written(items) else old(disk)
    {
      if writeSucceeds {
        disk := Written(items);
      }
    }

    /** `insert(item)`: the new item goes in front of the loaded list; in
        any other state the candidate list is `[item]` alone. */
    method Insert(item: T, writeSucceeds: bool)
      modifies this
      ensures Valid()
      ensures var candidate := if old(list).Loaded? then [item] + old(list).value else [item];
              if writeSucceeds then list == Loaded(candidate) && disk == Written(candidate)
              else list == Error(WriteFailure) && disk == old(disk)
    {
      match list
      case Loaded(currentItems) =>
        ReplaceWithList([item] + currentItems, writeSucceeds);
      case _ =>
        ReplaceWithList([item], writeSucceeds);
    }

    /** `update(item)`: only in the loaded state, replace by identity and
        save; otherwise nothing happens. */
    method Update(item: T, writeSucceeds: bool)
      modifies this
      ensures Valid()
      ensures !old(list).Loaded? ==> list == old(list) && disk == old(disk)
      ensures old(list).Loaded? ==>
                var candidate := ReplacedById(old(list).value, item, idOf);
                if writeSucceeds then list == Loaded(candidate) && disk == Written(candidate)
                else list == Error(WriteFailure) && disk == old(disk)
    {
      if !list.Loaded? { return; }
      var updated := ReplacedById(list.value, item, idOf);
      ReplaceWithList(updated, writeSucceeds);
    }

    /** `delete(item)`: only in the loaded state, drop every element with
        the identity of `item` and save; otherwise nothing happens. */
    method Delete(item: T, writeSucceeds: bool)
      modifies this
      ensures Valid()
      ensures !old(list).Loaded? ==> list == old(list) && disk == old(disk)
      ensures old(list).Loaded? ==>
                var candidate := RemovedById(old(list).value, idOf(item), idOf);
                if writeSucceeds then list == Loaded(candidate) && disk == Written(candidate)
                else list == Error(WriteFailure) && disk == old(disk)
    {
      if !list.Loaded? { return; }
      var updated := RemovedById(list.value, idOf(item), idOf);
      ReplaceWithList(updated, writeSucceeds);
    }

    /** `deleteAll()`: save and publish the empty list, from any state. */
    method DeleteAll(writeSucceeds: bool)
      modifies this
      ensures Valid()
      ensures writeSucceeds ==> list == Loaded([]) && disk == Written([])
      ensures !writeSucceeds ==> list == Error(WriteFailure) && disk == old(disk)
    {
      ReplaceWithList([], writeSucceeds);
    }
  }
}
