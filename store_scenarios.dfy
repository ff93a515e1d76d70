/** Sequences of store operations and what they are proved to leave
    behind: the durability round trip, the loss of earlier items when an
    insert follows a failed save, and a walk through every operation on
    the sample item type. */
module StoreScenarios {
  import opened Loadable
  import opened FileStore
  import opened TemplateStructs

  /** A restart: a new store over the same file, loaded with a read that
      succeeds, publishes exactly the list the old store had published as
      loaded. This is what the store invariant `Valid()` buys. */
  method Reload<T(!new), Id(==)>(store: ListableFileStore<T, Id>)
    returns (reloaded: ListableFileStore<T, Id>)
    requires store.Valid() && store.list.Loaded?
    ensures fresh(reloaded)
    ensures reloaded.list == store.list && reloaded.disk == store.disk
  {
    reloaded := new ListableFileStore(store.filename, store.idOf, store.disk);
    reloaded.Load(true);
  }

  /** A successful insert survives a restart, from every state of the
      store: a new store over the same file loads exactly the published
      list, which is `[item]` in front of the loaded list, or `[item]`
      alone from `none`, `loading` or `error`. */
  method ReloadAfterInsert<T(!new), Id(==)>(store: ListableFileStore<T, Id>, item: T)
    returns (reloaded: ListableFileStore<T, Id>)
    modifies store
    ensures fresh(reloaded)
    ensures store.list == Loaded(if old(store.list).Loaded? then [item] + old(store.list).value else [item])
    ensures reloaded.list == store.list && reloaded.disk == store.disk
  {
    store.Insert(item, true);
    reloaded := Reload(store);
  }

  /** A failed save publishes `error`, so the next insert starts from the
      empty list and its save replaces the file's earlier items. */
  method InsertAfterFailedSave<T(!new), Id(==)>(store: ListableFileStore<T, Id>, first: T, second: T)
    requires store.list.Loaded? && store.disk == Written(store.list.value)
    modifies store
    ensures store.list == Loaded([second]) && store.disk == Written([second])
  {
    store.Insert(first, false);
    assert store.list == Error(WriteFailure);
    store.Insert(second, true);
  }

  /** Load with no file, insert A then B, update A, delete B, delete all;
      every save succeeds. */
  method SampleLifecycle() returns (store: ListableFileStore<TemplateStruct, nat>)
    ensures store.list == Loaded([]) && store.disk == Written([])
  {
    store := new ListableFileStore("TemplateStruct.json", IdOf, Missing);
    store.Load(true);
    assert store.list == Loaded([]);
    var a := TemplateStruct(1, "", "Blue", "Daisy");
    var b := TemplateStruct(2, "hint", "Green", "Rex");
    store.Insert(a, true);
    assert [a] + [] == [a];
    assert store.list == Loaded([a]);
    store.Insert(b, true);
    assert [b] + [a] == [b, a];
    assert store.list == Loaded([b, a]);
    var a' := a.(dogName := "Max");
    store.Update(a', true);
    var updated := ReplacedById([b, a], a', IdOf);
    assert updated[0] == b && updated[1] == a';
    assert updated == [b, a'];
    assert store.list == Loaded([b, a']);
    store.Delete(b, true);
    assert store.list == Loaded([a']) && store.disk == Written([a']);
    store.DeleteAll(true);
  }
}
