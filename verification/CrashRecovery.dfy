/** Crashes of the process that uses a file-backed queue: at whatever point an operation is cut
    off, a store that is started on the same directory has the queue from before or after it. */
module CrashRecovery {
  import opened Wrappers
  import opened QueueSpec
  import opened FileStore

  /** The points at which an operation may be cut off: before it, when it holds the semaphore, when
      it changed the file, or when it is done. */
  datatype Point = Before | Acquired | FileDone | Done

  /** A push or pop on the store that gets as far as `point`; what is left on disk. */
  method CutOff<T(==)>(store: FileStore<T>, op: Op<T>, point: Point)
    requires store.Valid() && store.writers == 0 && store.readers == 0
    modifies store, store.dir, store.availableSlots, store.availableItems
    ensures var q := old(store.View()).mem;
            Stored(store.dir.files) == if point.FileDone? || point.Done? then Effect(q, old(store.capacity), op) else q
  {
    if point.Before? {
      return;
    }
    match op
    case Push(x) => CutPush(store, x, point);
    case Pop => CutPop(store, point);
  }

  method CutPush<T(==)>(store: FileStore<T>, x: T, point: Point)
    requires store.Valid() && store.writers == 0 && store.readers == 0 && !point.Before?
    modifies store, store.dir, store.availableSlots, store.availableItems
    ensures var q := old(store.View()).mem;
            Stored(store.dir.files) == if point.Acquired? then q else Effect(q, old(store.capacity), Push(x))
  {
    var ok := store.availableSlots.TryAcquire();
    if !ok {
      return;
    }
    store.writers := store.writers + 1;
    if point.Acquired? {
      return;
    }
    store.WriteFile(x);
    if point.FileDone? {
      return;
    }
    store.KeepItem(x);
  }

  method CutPop<T(==)>(store: FileStore<T>, point: Point)
    requires store.Valid() && store.writers == 0 && store.readers == 0 && !point.Before?
    modifies store, store.dir, store.availableSlots, store.availableItems
    ensures var q := old(store.View()).mem;
            Stored(store.dir.files) == if point.Acquired? then q else Effect(q, old(store.capacity), Pop)
  {
    var ok := store.availableItems.TryAcquire();
    if !ok {
      return;
    }
    store.readers := store.readers + 1;
    if point.Acquired? {
      return;
    }
    store.ViewAgrees();
    var front := store.GetFrontItemIndex();
    store.RemoveFile(front.value);
    if point.FileDone? {
      return;
    }
    store.DropItem(front.value);
  }

  /** Any operations, the last one of them cut off anywhere, and then a restart: the new store
      holds exactly what the operations before the last one leave, or what all of them do, and its
      counters agree with it. */
  method Life<T(==)>(store: FileStore<T>, ops: seq<Op<T>>, last: Op<T>, point: Point, capacity: nat) returns (next: FileStore<T>)
    requires store.Valid() && store.writers == 0 && store.readers == 0
    modifies store, store.dir, store.availableSlots, store.availableItems
    ensures fresh(next) && next.dir == store.dir && next.Valid() && next.writers == 0 && next.readers == 0
    ensures var n := |next.View().mem|;
            && next.capacity == (if n <= capacity then capacity else n)
            && next.View().disk == next.View().mem && next.View().items == n && next.View().slots == next.capacity - n
    ensures var before := After(old(store.View()).mem, old(store.capacity), ops);
            next.View() == Started(if point.FileDone? || point.Done? then Effect(before, old(store.capacity), last) else before, capacity)
  {
    Operate(store, ops);
    CutOff(store, last, point);
    next := new FileStore(store.dir, capacity);
  }

  /** A restart keeps the configured capacity, unless there are more files than that; so a store
      with fewer files than its capacity takes another item, and it is the last one. */
  method RestartThenPush<T(==)>(dir: ItemDir<T>, x: T, capacity: nat) returns (store: FileStore<T>, err: Option<StoreError>)
    modifies dir
    ensures fresh(store) && store.Valid() && store.dir == dir
    ensures |old(dir.files)| < capacity ==> err.None? && store.capacity == capacity
    ensures |old(dir.files)| >= capacity ==> err == Some(StoreFull) && store.capacity == |old(dir.files)|
    ensures store.View().mem == Stored(old(dir.files)) + if err.None? then [x] else []
  {
    store := new FileStore(dir, capacity);
    err := store.TryEnqueue(Some(x));
  }

  /** The operations, one after the other. */
  method Operate<T(==)>(store: FileStore<T>, ops: seq<Op<T>>)
    requires store.Valid() && store.writers == 0 && store.readers == 0
    modifies store, store.dir, store.availableSlots, store.availableItems
    ensures store.Valid() && store.Kept() && store.writers == 0 && store.readers == 0
    ensures store.View().mem == After(old(store.View()).mem, store.capacity, ops)
    decreases |ops|
  {
    if ops == [] {
      return;
    }
    match ops[0] {
      case Push(x) => var err := store.TryEnqueue(Some(x));
      case Pop => var item, err := store.TryDequeue();
    }
    assert store.View().mem == Effect(old(store.View()).mem, store.capacity, ops[0]);
    Operate(store, ops[1..]);
  }
}
